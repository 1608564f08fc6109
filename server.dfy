/**
 * The echo server of CppTcpServer.cpp: the per-connection handler that answers every message
 * with `Message received: "<message>"` and a line ending, the registry of running handlers,
 * the port check and the choice of a default host name.
 */
module Server {
  import opened Results
  import opened StringUtil
  import opened Sockets
  import opened TimeVal

  /** Receive timeout set on every accepted socket, in milliseconds. */
  const RECEIVE_TIMEOUT: nat := 1500

  /** The timeval handleConnection passes to setsockopt: one and a half seconds. */
  lemma {:induction false} ReceiveTimeoutValue()
    ensures ToTimeVal(RECEIVE_TIMEOUT) == TimeVal(1, 500000)
    ensures Milliseconds(ToTimeVal(RECEIVE_TIMEOUT)) == RECEIVE_TIMEOUT
  {
  }
  const MINIMUM_PORT_NUMBER: int := 1024
  const LINE_ENDING: char := '\n'
  /** The receive buffer; recv() is offered one byte less, so the buffer stays NUL-terminated. */
  const BUFFER_MAX: nat := 1024

  /** Host name used when no address of this machine starts with "192". */
  const LOOPBACK_HOST: string := "127.0.0.1"

  // ---------------------------------------------------------------- command line checks

  datatype ServerError = PortBelowMinimum

  /** A port number is refused when it was given (it is not -1) and lies below 1024. */
  function CheckPort(portNumber: int): (r: Outcome<ServerError>)
    ensures r == Pass <==> portNumber == -1 || portNumber >= MINIMUM_PORT_NUMBER
  {
    if portNumber != -1 && portNumber < MINIMUM_PORT_NUMBER then Fail(PortBelowMinimum) else Pass
  }

  /**
   * getDefaultHostName over the (interface, address) pairs getLocalIP() lists: the first
   * address starting with "192", else the loopback address.
   */
  function DefaultHostName(addresses: seq<(string, string)>): (r: string)
    ensures r == LOOPBACK_HOST <==> forall i :: 0 <= i < |addresses| ==> !StartsWith(addresses[i].1, "192")
  {
    if addresses == [] then LOOPBACK_HOST
    else if StartsWith(addresses[0].1, "192") then
      assert !StartsWith(LOOPBACK_HOST, "192") by { assert LOOPBACK_HOST[1] != "192"[1]; }
      addresses[0].1
    else
      var r := DefaultHostName(addresses[1..]);
      assert forall i :: 1 <= i < |addresses| ==> addresses[i] == addresses[1..][i - 1];
      r
  }

  /** The chosen address is the first one starting with "192", when there is one. */
  lemma {:induction false} DefaultHostNameIsFirstMatch(addresses: seq<(string, string)>, i: nat)
    requires i < |addresses| && StartsWith(addresses[i].1, "192")
    requires forall j :: 0 <= j < i ==> !StartsWith(addresses[j].1, "192")
    ensures DefaultHostName(addresses) == addresses[i].1
  {
    if i > 0 {
      assert !StartsWith(addresses[0].1, "192");
      assert addresses[1..][i - 1] == addresses[i];
      DefaultHostNameIsFirstMatch(addresses[1..], i - 1);
    }
  }

  // ---------------------------------------------------------------- the reply

  /** stripLineEnding: drops one trailing '\n', if there is one. */
  function StripLineEnding(str: string): (r: string)
    ensures r <= str
    ensures EndsWithChar(str, LINE_ENDING) ==> r + [LINE_ENDING] == str
    ensures !EndsWithChar(str, LINE_ENDING) ==> r == str
  {
    if |str| > 0 && str[|str| - 1] == LINE_ENDING then str[..|str| - 1] else str
  }

  const REPLY_PREFIX: string := "Message received: \""

  /** The answer to a received message: the message without its line ending, quoted, then a line ending. */
  function Reply(message: string): (r: string)
    ensures EndsWithChar(r, LINE_ENDING)
    ensures StartsWith(r, REPLY_PREFIX)
  {
    REPLY_PREFIX + StripLineEnding(message) + "\"" + [LINE_ENDING]
  }

  /** Reads back the quoted message of a reply. */
  function ParseReply(reply: string): Option<string>
  {
    if |reply| >= |REPLY_PREFIX| + 2 && reply[..|REPLY_PREFIX|] == REPLY_PREFIX
       && reply[|reply| - 2..] == "\"" + [LINE_ENDING]
    then Some(reply[|REPLY_PREFIX|..|reply| - 2])
    else None
  }

  /** A reply carries exactly the message it answers, less its line ending. */
  lemma {:induction false} ReplyRoundTrip(message: string)
    ensures ParseReply(Reply(message)) == Some(StripLineEnding(message))
  {
    var m := StripLineEnding(message);
    var r := Reply(message);
    assert r == REPLY_PREFIX + (m + ("\"" + [LINE_ENDING]));
    assert r[..|REPLY_PREFIX|] == REPLY_PREFIX;
    assert r[|REPLY_PREFIX|..] == m + ("\"" + [LINE_ENDING]);
    assert r[|r| - 2..] == "\"" + [LINE_ENDING];
    assert r[|REPLY_PREFIX|..|r| - 2] == m;
  }

  /** A message without a line ending is answered with that message itself, so replies never lose text. */
  lemma {:induction false} ReplyKeepsUnterminatedMessage(message: string)
    requires !EndsWithChar(message, LINE_ENDING)
    ensures ParseReply(Reply(message)) == Some(message)
  {
    ReplyRoundTrip(message);
  }

  // ---------------------------------------------------------------- one recv()

  /** What the handler does with the outcome of one recv(). */
  datatype Action =
    | Retry                  // EAGAIN (the receive timeout passed) or an empty C string: receive again
    | Respond(reply: string) // a message arrived: send the reply
    | Hangup                 // the peer closed the connection
    | Exit                   // any other recv() error: the process exits

  /**
   * The handler reads the buffer as a C string: a message is everything up to the first NUL,
   * and only a zero-byte receive counts as a hang-up.
   */
  function Classify(receive: Receive): Action
  {
    match receive
    case ReceiveError(wouldBlock) => if wouldBlock then Retry else Exit
    case Received(data) =>
      var message := CString(data);
      if message != [] then Respond(Reply(message))
      else if data == [] then Hangup
      else Retry
  }

  /** Which recv() outcomes lead to which action, in both directions. */
  lemma {:induction false} ClassifyMeaning(receive: Receive)
    ensures Classify(receive) == Exit <==> receive == ReceiveError(false)
    ensures Classify(receive) == Hangup <==> receive == Received([])
    ensures Classify(receive).Respond? <==> receive.Received? && CString(receive.data) != []
    ensures Classify(receive).Respond? ==> Classify(receive).reply == Reply(CString(receive.data))
    ensures Classify(receive) == Retry <==> (receive == ReceiveError(true)
                                         || (receive.Received? && receive.data != [] && receive.data[0] == '\0'))
  {
  }

  // ---------------------------------------------------------------- sending one reply

  /** Bytes a send() took; a failed send() adds nothing. */
  function Count(r: SendResult): nat
  {
    if r.Sent? then r.count else 0
  }

  /** The bytes a run of send() results took altogether. */
  function Total(results: seq<SendResult>): nat
  {
    if results == [] then 0 else Total(results[..|results| - 1]) + Count(results[|results| - 1])
  }

  /** How sending one reply ends: all bytes gone, send() failed (the process exits), or the results ran out. */
  datatype SendEnd =
    | Delivered(used: nat)
    | SendFailed(used: nat)
    | Stalled

  /**
   * The loop "while sentBytes < length: send the rest", where the results of the successive
   * send() calls are `sends[used..]` and `sent` bytes are already gone. `used` in the result is
   * where the next reply's sends begin.
   */
  function SendAllFrom(reply: string, sends: seq<SendResult>, sent: nat, used: nat): (r: SendEnd)
    requires used <= |sends|
    ensures r.Delivered? ==> used <= r.used <= |sends|
    decreases |sends| - used
  {
    if sent >= |reply| then Delivered(used)
    else if used == |sends| then Stalled
    else match sends[used]
      case SendError => SendFailed(used + 1)
      case Sent(count) => SendAllFrom(reply, sends, sent + count, used + 1)
  }

  lemma {:induction false} TotalSnoc(results: seq<SendResult>, from: nat, to: nat)
    requires from <= to < |results|
    ensures Total(results[from..to + 1]) == Total(results[from..to]) + Count(results[to])
  {
    assert results[from..to + 1][..to - from] == results[from..to];
  }

  /**
   * A delivered reply took every byte: the sends it used took at least the rest of the reply,
   * none of them failed, and the loop stopped at the first send that completed the reply.
   */
  lemma {:induction false} SendAllDelivers(reply: string, sends: seq<SendResult>, sent: nat, used: nat)
    requires used <= |sends|
    requires SendAllFrom(reply, sends, sent, used).Delivered?
    ensures var u := SendAllFrom(reply, sends, sent, used).used;
      && sent + Total(sends[used..u]) >= |reply|
      && (forall k :: used <= k < u ==> sends[k].Sent?)
      && (u > used ==> sent + Total(sends[used..u - 1]) < |reply|)
    decreases |sends| - used
  {
    if sent < |reply| {
      assert sends[used].Sent?;
      var next := sent + sends[used].count;
      assert SendAllFrom(reply, sends, next, used + 1) == SendAllFrom(reply, sends, sent, used);
      SendAllDelivers(reply, sends, next, used + 1);
      var u := SendAllFrom(reply, sends, sent, used).used;
      TotalShift(sends, used, u);
      if u - 1 > used {
        TotalShift(sends, used, u - 1);
      } else {
        assert sends[used..u - 1] == [];
      }
    }
  }

  /** Splitting off the first result of a run. */
  lemma {:induction false} TotalShift(results: seq<SendResult>, lo: nat, hi: nat)
    requires lo < hi <= |results|
    ensures Total(results[lo..hi]) == Count(results[lo]) + Total(results[lo + 1..hi])
    decreases hi - lo
  {
    if hi == lo + 1 {
      TotalSnoc(results, lo, lo);
      assert results[lo..lo] == [] && results[lo + 1..hi] == [];
    } else {
      TotalShift(results, lo, hi - 1);
      TotalSnoc(results, lo, hi - 1);
      TotalSnoc(results, lo + 1, hi - 1);
    }
  }

  /** A failed reply ends at a failed send(). */
  lemma {:induction false} SendAllFailsOnError(reply: string, sends: seq<SendResult>, sent: nat, used: nat)
    requires used <= |sends|
    requires SendAllFrom(reply, sends, sent, used).SendFailed?
    ensures var u := SendAllFrom(reply, sends, sent, used).used;
      used < u <= |sends| && sends[u - 1] == SendError
    decreases |sends| - used
  {
    if sends[used].Sent? {
      SendAllFailsOnError(reply, sends, sent + sends[used].count, used + 1);
    }
  }

  /**
   * The k-th chunk offered to send() is the reply from the byte the first k sends took it to,
   * and that byte was still inside the reply.
   */
  predicate ChunksOffered(reply: string, sends: seq<SendResult>, start: nat, offered: seq<string>)
  {
    && start + |offered| <= |sends|
    && forall k :: 0 <= k < |offered| ==>
      Total(sends[start..start + k]) < |reply| && offered[k] == reply[Total(sends[start..start + k])..]
  }

  lemma {:induction false} ChunksOfferedExtend(reply: string, sends: seq<SendResult>, start: nat, offered: seq<string>, chunk: string)
    requires ChunksOffered(reply, sends, start, offered)
    requires start + |offered| < |sends|
    requires Total(sends[start..start + |offered|]) < |reply|
    requires chunk == reply[Total(sends[start..start + |offered|])..]
    ensures ChunksOffered(reply, sends, start, offered + [chunk])
  {
    var next := offered + [chunk];
    forall k | 0 <= k < |next|
      ensures Total(sends[start..start + k]) < |reply| && next[k] == reply[Total(sends[start..start + k])..]
    {
      if k < |offered| {
        assert next[k] == offered[k];
      }
    }
  }

  /**
   * The send loop of handleConnection for one reply. Each pass offers the part of the reply
   * not yet sent (`substr(sentBytes)`), and the results of the successive send() calls are
   * `sends[start..]`. `offered` lists the chunks in order.
   */
  method SendAll(reply: string, sends: seq<SendResult>, start: nat) returns (end: SendEnd, offered: seq<string>)
    requires start <= |sends|
    ensures end == SendAllFrom(reply, sends, 0, start)
    ensures end.Delivered? ==> |offered| == end.used - start
    ensures ChunksOffered(reply, sends, start, offered)
  {
    var sentBytes: nat := 0;
    var used := start;
    offered := [];
    while sentBytes < |reply|
      invariant start <= used <= |sends|
      invariant SendAllFrom(reply, sends, sentBytes, used) == SendAllFrom(reply, sends, 0, start)
      invariant sentBytes == Total(sends[start..used])
      invariant |offered| == used - start
      invariant ChunksOffered(reply, sends, start, offered)
      decreases |sends| - used
    {
      if used == |sends| {
        return Stalled, offered;
      }
      var toSend := reply[sentBytes..];
      assert sends[start..start + |offered|] == sends[start..used];
      ghost var before := offered;
      offered := offered + [toSend];
      ChunksOfferedExtend(reply, sends, start, before, toSend);
      TotalSnoc(sends, start, used);
      match sends[used]
      case SendError =>
        return SendFailed(used + 1), offered;
      case Sent(count) =>
        sentBytes := sentBytes + count;
        used := used + 1;
    }
    end := Delivered(used);
  }

  // ---------------------------------------------------------------- the running handlers

  /** The std::future of one handler thread, standing for the thread itself. */
  datatype Task = Task(id: nat)

  /** connections.erase(descriptor), when the descriptor is a key. */
  function Erased(connections: map<int, Task>, descriptor: int): (r: map<int, Task>)
    ensures descriptor !in r
    ensures forall k :: k in r <==> k in connections && k != descriptor
    ensures forall k :: k in r ==> r[k] == connections[k]
  {
    connections - {descriptor}
  }

  /** connections.emplace(key, task): inserts only when the key is new. */
  function Emplaced(connections: map<int, Task>, key: int, task: Task): (r: map<int, Task>)
    ensures key in r
    ensures key in connections ==> r == connections
    ensures key !in connections ==> r[key] == task
    ensures forall k :: k in r <==> k in connections || k == key
    ensures forall k :: k in connections ==> r[k] == connections[k]
  {
    if key in connections then connections else connections[key := task]
  }

  /** The global map from socket descriptor to the handler serving it. */
  class ConnectionRegistry {
    var connections: map<int, Task>

    constructor ()
      ensures connections == map[]
    {
      connections := map[];
    }

    /** closeConnection: closes and forgets the descriptor only if it is registered. */
    method CloseConnection(descriptor: int) returns (closed: bool)
      modifies this
      ensures closed == (descriptor in old(connections))
      ensures connections == Erased(old(connections), descriptor)
    {
      closed := descriptor in connections;
      if closed {
        connections := connections - {descriptor};
      }
    }

    /** std::map::emplace: `inserted` is false, and nothing changes, when the key is taken. */
    method Emplace(key: int, task: Task) returns (inserted: bool)
      modifies this
      ensures inserted == (key !in old(connections))
      ensures connections == Emplaced(old(connections), key, task)
    {
      inserted := key !in connections;
      if inserted {
        connections := connections[key := task];
      }
    }

    /**
     * The accept loop as written: the handler of `accepted` is registered under the listening
     * socket. `accepted` is unused; it is kept so that the signature matches Accept.
     */
    method AcceptAsWritten(listening: int, accepted: int, task: Task) returns (inserted: bool)
      modifies this
      ensures inserted == (listening !in old(connections))
      ensures connections == Emplaced(old(connections), listening, task)
    {
      inserted := Emplace(listening, task);
    }

    /**
     * The accept loop as intended: the handler is registered under the socket it serves.
     * `listening` is unused; it is kept so that the signature matches AcceptAsWritten.
     */
    method Accept(listening: int, accepted: int, task: Task) returns (inserted: bool)
      modifies this
      ensures inserted == (accepted !in old(connections))
      ensures connections == Emplaced(old(connections), accepted, task)
    {
      inserted := Emplace(accepted, task);
    }
  }

  /**
   * As written, the handler's closeConnection(accepted) never finds its socket: the entry
   * made at accept time stays behind, the socket is never closed, and every later connection's
   * emplace finds the key taken.
   */
  lemma {:induction false} AcceptAsWrittenLeaks(connections: map<int, Task>, listening: int, accepted: int, first: Task, second: Task)
    requires accepted != listening && accepted !in connections && listening !in connections
    ensures accepted !in Emplaced(connections, listening, first)
    ensures Erased(Emplaced(connections, listening, first), accepted) != connections
    ensures Emplaced(Emplaced(connections, listening, first), listening, second)[listening] == first
  {
    assert listening in Erased(Emplaced(connections, listening, first), accepted);
  }

  /** The same on the empty registry, listening on descriptor 3 and accepting descriptor 4. */
  lemma {:induction false} AcceptAsWrittenExample()
    ensures Erased(Emplaced(map[], 3, Task(0)), 4) == map[3 := Task(0)]
  {
    assert Emplaced(map[], 3, Task(0)) == map[3 := Task(0)];
  }

  /** As intended, registering a connection and closing it when the peer hangs up restores the registry. */
  lemma {:induction false} AcceptThenCloseRestores(connections: map<int, Task>, accepted: int, task: Task)
    requires accepted !in connections
    ensures accepted in Emplaced(connections, accepted, task)
    ensures Erased(Emplaced(connections, accepted, task), accepted) == connections
  {
    var after := Erased(Emplaced(connections, accepted, task), accepted);
    assert forall k :: k in after <==> k in connections;
  }

  // ---------------------------------------------------------------- one connection

  /** How a handler ends: the peer hung up, the process exits on an error, or the recv() results ran out. */
  datatype HandlerEnd =
    | ConnectionClosed
    | ProcessExit
    | OutOfInput

  /**
   * The handler loop from the `i`-th recv() result on, with the send() results consumed from
   * `used` on: how it ends and the replies it delivered completely, in order.
   */
  function HandleFrom(receives: seq<Receive>, sends: seq<SendResult>, i: nat, used: nat): (r: (HandlerEnd, seq<string>))
    requires i <= |receives| && used <= |sends|
    ensures |r.1| <= |receives| - i
    decreases |receives| - i
  {
    if i == |receives| then (OutOfInput, [])
    else match Classify(receives[i])
      case Retry => HandleFrom(receives, sends, i + 1, used)
      case Exit => (ProcessExit, [])
      case Hangup => (ConnectionClosed, [])
      case Respond(reply) =>
        match SendAllFrom(reply, sends, 0, used)
        case Delivered(u) =>
          var rest := HandleFrom(receives, sends, i + 1, u);
          (rest.0, [reply] + rest.1)
        case SendFailed(_) => (ProcessExit, [])
        case Stalled => (OutOfInput, [])
  }

  /** handleConnection: the receive timeout must be set first; failing that, the process exits. */
  function Handle(timeoutSet: bool, receives: seq<Receive>, sends: seq<SendResult>): (r: (HandlerEnd, seq<string>))
    ensures !timeoutSet ==> r.0 == ProcessExit && r.1 == []
    ensures |r.1| <= |receives|
  {
    if timeoutSet then HandleFrom(receives, sends, 0, 0) else (ProcessExit, [])
  }

  /** The replies owed to the messages among receives `i` to `j - 1`, in the order they arrived. */
  function RepliesBetween(receives: seq<Receive>, i: nat, j: nat): seq<string>
    requires i <= j <= |receives|
    decreases j - i
  {
    if i == j then []
    else
      var rest := RepliesBetween(receives, i + 1, j);
      if receives[i].Received? && CString(receives[i].data) != [] then [Reply(CString(receives[i].data))] + rest
      else rest
  }

  /**
   * Where the send() results stand after the handler went through receives `i` to `j - 1`
   * with every one retried or answered in full; None when one of them ended the handler.
   */
  function DeliveredUpTo(receives: seq<Receive>, sends: seq<SendResult>, i: nat, used: nat, j: nat): (r: Option<nat>)
    requires i <= j <= |receives| && used <= |sends|
    ensures r.Some? ==> r.value <= |sends|
    decreases j - i
  {
    if i == j then Some(used)
    else match Classify(receives[i])
      case Retry => DeliveredUpTo(receives, sends, i + 1, used, j)
      case Respond(reply) =>
        (match SendAllFrom(reply, sends, 0, used)
         case Delivered(u) => DeliveredUpTo(receives, sends, i + 1, u, j)
         case SendFailed(_) => None
         case Stalled => None)
      case Hangup => None
      case Exit => None
  }

  /**
   * The handler answers the messages it receives, each once and in the order they arrived.
   * `j` is the receive at which the loop stopped: every receive before it was retried or
   * answered in full, the delivered replies are exactly the replies to the messages before it,
   * none before it was a hang-up, and the connection closed exactly when receive `j` is one.
   */
  lemma {:induction false} HandleFromAnswersInOrder(receives: seq<Receive>, sends: seq<SendResult>, i: nat, used: nat)
    returns (j: nat)
    requires i <= |receives| && used <= |sends|
    ensures i <= j <= |receives| && DeliveredUpTo(receives, sends, i, used, j).Some?
    ensures HandleFrom(receives, sends, i, used).1 == RepliesBetween(receives, i, j)
    ensures forall k :: i <= k < j ==> receives[k] != Received([])
    ensures HandleFrom(receives, sends, i, used).0 == ConnectionClosed <==> j < |receives| && receives[j] == Received([])
    decreases |receives| - i
  {
    if i == |receives| {
      j := i;
    } else {
      var a := Classify(receives[i]);
      ClassifyMeaning(receives[i]);
      if a == Retry || (a.Respond? && SendAllFrom(a.reply, sends, 0, used).Delivered?) {
        var next := if a == Retry then used else SendAllFrom(a.reply, sends, 0, used).used;
        j := HandleFromAnswersInOrder(receives, sends, i + 1, next);
        assert receives[i] != Received([]);
        assert forall k :: i + 1 <= k < j ==> receives[k] != Received([]);
      } else {
        j := i;
      }
    }
  }

  /**
   * Conversely, once every receive before `j` was retried or answered in full, an empty receive
   * at `j` closes the connection, after the replies to the messages before it.
   */
  lemma {:induction false} ClosesAtHangup(receives: seq<Receive>, sends: seq<SendResult>, i: nat, used: nat, j: nat)
    requires i <= j < |receives| && used <= |sends|
    requires DeliveredUpTo(receives, sends, i, used, j).Some?
    requires receives[j] == Received([])
    ensures HandleFrom(receives, sends, i, used).0 == ConnectionClosed
    ensures HandleFrom(receives, sends, i, used).1 == RepliesBetween(receives, i, j)
    decreases j - i
  {
    if i < j {
      var a := Classify(receives[i]);
      var u := if a == Retry then used else SendAllFrom(a.reply, sends, 0, used).used;
      ClosesAtHangup(receives, sends, i + 1, u, j);
    }
  }

  /** The peer hanging up is the only way a connection closes. */
  lemma {:induction false} ClosedOnlyOnHangup(receives: seq<Receive>, sends: seq<SendResult>, i: nat, used: nat)
    requires i <= |receives| && used <= |sends|
    requires HandleFrom(receives, sends, i, used).0 == ConnectionClosed
    ensures exists j :: i <= j < |receives| && receives[j] == Received([])
    decreases |receives| - i
  {
    match Classify(receives[i])
    case Retry => ClosedOnlyOnHangup(receives, sends, i + 1, used);
    case Exit =>
    case Hangup =>
    case Respond(reply) =>
      match SendAllFrom(reply, sends, 0, used)
      case Delivered(u) => ClosedOnlyOnHangup(receives, sends, i + 1, u);
      case SendFailed(_) =>
      case Stalled =>
  }

  /**
   * The handler thread for the connection on `descriptor`. The outcomes of its socket calls are
   * inputs: `timeoutSet` says whether setsockopt(SO_RCVTIMEO) accepted ToTimeVal(RECEIVE_TIMEOUT),
   * and `receives` and `sends` are the successive recv() and send() results.
   */
  method HandleConnection(registry: ConnectionRegistry, descriptor: int, timeoutSet: bool,
                          receives: seq<Receive>, sends: seq<SendResult>)
    returns (end: HandlerEnd, replies: seq<string>)
    modifies registry
    ensures (end, replies) == Handle(timeoutSet, receives, sends)
    ensures end == ConnectionClosed ==> registry.connections == Erased(old(registry.connections), descriptor)
    ensures end != ConnectionClosed ==> registry.connections == old(registry.connections)
  {
    if !timeoutSet {
      return ProcessExit, [];
    }
    var i := 0;
    var used := 0;
    replies := [];
    assert replies + HandleFrom(receives, sends, 0, 0).1 == HandleFrom(receives, sends, 0, 0).1;
    while i < |receives|
      invariant i <= |receives| && used <= |sends|
      invariant registry.connections == old(registry.connections)
      invariant HandleFrom(receives, sends, 0, 0)
        == (HandleFrom(receives, sends, i, used).0, replies + HandleFrom(receives, sends, i, used).1)
      decreases |receives| - i
    {
      ghost var here := HandleFrom(receives, sends, i, used);
      match Classify(receives[i])
      case Retry =>
        assert HandleFrom(receives, sends, 0, 0)
            == (HandleFrom(receives, sends, i + 1, used).0, replies + HandleFrom(receives, sends, i + 1, used).1) by {
          assert here == HandleFrom(receives, sends, i + 1, used);
        }
        i := i + 1;
      case Exit =>
        assert HandleFrom(receives, sends, 0, 0) == (ProcessExit, replies) by {
          assert here == (ProcessExit, []);
          assert replies + [] == replies;
        }
        return ProcessExit, replies;
      case Hangup =>
        assert HandleFrom(receives, sends, 0, 0) == (ConnectionClosed, replies) by {
          assert here == (ConnectionClosed, []);
          assert replies + [] == replies;
        }
        var _ := registry.CloseConnection(descriptor);
        return ConnectionClosed, replies;
      case Respond(reply) =>
        var sendEnd, _ := SendAll(reply, sends, used);
        match sendEnd
        case Delivered(u) =>
          ghost var rest := HandleFrom(receives, sends, i + 1, u);
          assert HandleFrom(receives, sends, 0, 0) == (rest.0, (replies + [reply]) + rest.1) by {
            assert here == (rest.0, [reply] + rest.1);
            assert replies + ([reply] + rest.1) == (replies + [reply]) + rest.1;
          }
          replies := replies + [reply];
          i := i + 1;
          used := u;
        case SendFailed(_) =>
          assert HandleFrom(receives, sends, 0, 0) == (ProcessExit, replies) by {
            assert here == (ProcessExit, []);
            assert replies + [] == replies;
          }
          return ProcessExit, replies;
        case Stalled =>
          assert HandleFrom(receives, sends, 0, 0) == (OutOfInput, replies) by {
            assert here == (OutOfInput, []);
            assert replies + [] == replies;
          }
          return OutOfInput, replies;
    }
    assert replies + [] == replies;
    end := OutOfInput;
  }
}
