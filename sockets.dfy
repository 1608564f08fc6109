/** What the socket calls answer, as the model receives them from its environment. */
module Sockets {

  /** socket() and accept() return -1 on failure; a stored -1 marks "not connected". */
  const INVALID_SOCKET: int := -1

  /**
   * One recv() into a zeroed buffer: -1 with errno (EAGAIN or not), or the bytes received,
   * possibly none (the peer hung up) and possibly holding NUL characters.
   */
  datatype Receive =
    | ReceiveError(wouldBlock: bool)
    | Received(data: string)

  /** One send(): -1, or the number of bytes the kernel took. */
  datatype SendResult =
    | SendError
    | Sent(count: nat)

  /** send() never reports more bytes than it was offered. */
  predicate SendWithin(r: SendResult, offered: nat)
  {
    r.Sent? ==> r.count <= offered
  }
}
