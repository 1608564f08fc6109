/**
 * The TcpClient class of TcpClient.cpp: a socket descriptor with INVALID_SOCKET for "not
 * connected", the host and port to connect to, and a buffer of received characters not yet
 * read. Every socket call is an input: what connect()'s calls answer, what select() and recv()
 * report to read(), and what send() and the clock report to write().
 */
module Client {
  import opened Results
  import opened StringUtil
  import opened Sockets

  const MINIMUM_PORT_NUMBER: nat := 1024

  /** The size of the static receive buffer; recv() is asked for one byte less, so a NUL ends it. */
  const TCP_CLIENT_BUFFER_MAX: nat := 8192

  /** A uint16_t port number. */
  type Port = p: nat | p < 0x1_0000

  /** What the client's members throw (std::runtime_error with these messages). */
  datatype ClientError =
    | PortBelowMinimum   // constructor: portNumber cannot be less than minimum value
    | AlreadyConnected   // connect and the setters while connected
    | AddressLookup      // getaddrinfo failed
    | SocketCreation     // socket() returned INVALID_SOCKET
    | ReuseAddress       // setsockopt(SO_REUSEADDR) failed
    | ConnectCall        // ::connect failed
    | ReadTimeoutOption  // setsockopt(SO_RCVTIMEO) failed
    | WriteTimeoutOption // setsockopt(SO_SNDTIMEO) failed
    | ReceiveCall        // recv() failed with an errno other than EAGAIN
    | HungUp             // recv() returned 0
    | NotConnected       // write on a closed socket
    | SendCall           // send() failed

  /** What the operating system answers to the calls connect() makes, in their order. */
  datatype ConnectEnv = ConnectEnv(
    addressFound: bool,     // getaddrinfo returned 0
    descriptor: int,        // what socket() returned
    reuseAddressSet: bool,  // setsockopt(SO_REUSEADDR) did not return -1
    connected: bool,        // ::connect did not return -1
    readTimeoutSet: bool,   // setsockopt(SO_RCVTIMEO) did not return -1
    writeTimeoutSet: bool)  // setsockopt(SO_SNDTIMEO) did not return -1

  /** connect() gets as far as storing the descriptor socket() returned. */
  predicate StoresDescriptor(env: ConnectEnv)
  {
    env.addressFound && env.descriptor != INVALID_SOCKET
  }

  /** connect() gets as far as clearing the read buffer, after ::connect succeeded. */
  predicate ClearsBuffer(env: ConnectEnv)
  {
    StoresDescriptor(env) && env.reuseAddressSet && env.connected
  }

  /** The first call of connect() that fails, or None when all succeed. */
  function ConnectFailure(env: ConnectEnv): (r: Option<ClientError>)
    ensures r == None <==> ClearsBuffer(env) && env.readTimeoutSet && env.writeTimeoutSet
  {
    if !env.addressFound then Some(AddressLookup)
    else if env.descriptor == INVALID_SOCKET then Some(SocketCreation)
    else if !env.reuseAddressSet then Some(ReuseAddress)
    else if !env.connected then Some(ConnectCall)
    else if !env.readTimeoutSet then Some(ReadTimeoutOption)
    else if !env.writeTimeoutSet then Some(WriteTimeoutOption)
    else None
  }

  /**
   * The calls after socket() throw with the descriptor already stored, so those failures leave
   * the client connected (and a later connect() refuses to run); the first two leave it as it was.
   */
  lemma {:induction false} FailureAfterSocketStaysConnected(env: ConnectEnv)
    ensures ConnectFailure(env).Some? && StoresDescriptor(env) <==>
      ConnectFailure(env) in {Some(ReuseAddress), Some(ConnectCall), Some(ReadTimeoutOption), Some(WriteTimeoutOption)}
  {
  }

  /** What select() and recv() report to a read() that finds the buffer empty. */
  datatype Readiness =
    | NotReady                 // select() did not return 1 (timeout or error)
    | Ready(receive: Receive)  // select() returned 1 and recv() gave this

  /** No readiness, or a receive whose first byte is NUL: read() has nothing to return. */
  predicate YieldsNothing(env: Readiness)
  {
    env.NotReady? || (env.receive.Received? && env.receive.data != [] && env.receive.data[0] == '\0')
  }

  /** portName(): "[host:port]", the port in decimal. */
  function PortName(hostName: string, portNumber: Port): (r: string)
  {
    "[" + hostName + ":" + DecimalString(portNumber) + "]"
  }

  /** Reads a port name back into its host and port: the port follows the last ':'. */
  function ParsePortName(name: string): Option<(string, nat)>
  {
    if |name| < 2 || name[0] != '[' || name[|name| - 1] != ']' then None
    else
      var inner := name[1..|name| - 1];
      match LastIndexOf(inner, ':')
      case None => None
      case Some(i) =>
        var digits := inner[i + 1..];
        if digits != [] && AllDigits(digits) then Some((inner[..i], DecimalValue(digits))) else None
  }

  /** The port name gives back the host (even one holding ':') and the port. */
  lemma {:induction false} PortNameRoundTrip(hostName: string, portNumber: Port)
    ensures ParsePortName(PortName(hostName, portNumber)) == Some((hostName, portNumber as nat))
  {
    var digits := DecimalString(portNumber);
    var name := PortName(hostName, portNumber);
    var inner := hostName + ":" + digits;
    assert name[1..|name| - 1] == inner;
    assert inner[|hostName|] == ':';
    forall k | |hostName| < k < |inner| ensures inner[k] != ':' {
      assert inner[k] == digits[k - |hostName| - 1];
    }
    assert LastIndexOf(inner, ':') == Some(|hostName|) by {
      LastIndexOfFinds(inner, ':', |hostName|);
    }
    assert inner[|hostName| + 1..] == digits && inner[..|hostName|] == hostName;
    DecimalRoundTrip(portNumber);
  }

  // ---------------------------------------------------------------- the read buffer

  /** putBack of each character of `cs` in turn. */
  function PutBackAll(buffer: string, cs: string): string
    decreases |cs|
  {
    if cs == [] then buffer else PutBackAll([cs[0]] + buffer, cs[1..])
  }

  /** `n` reads served from the buffer: the characters returned and the buffer left. */
  function ReadFromBuffer(buffer: string, n: nat): (string, string)
    requires n <= |buffer|
    decreases n
  {
    if n == 0 then ([], buffer)
    else
      var rest := ReadFromBuffer(buffer[1..], n - 1);
      ([buffer[0]] + rest.0, rest.1)
  }

  function Reversed(s: string): (r: string)
    ensures |r| == |s|
    decreases |s|
  {
    if s == [] then [] else Reversed(s[1..]) + [s[0]]
  }

  /** Put-backs pile up in front of the buffer, the last one first. */
  lemma {:induction false} PutBackAllPrepends(buffer: string, cs: string)
    ensures PutBackAll(buffer, cs) == Reversed(cs) + buffer
    decreases |cs|
  {
    if cs != [] {
      PutBackAllPrepends([cs[0]] + buffer, cs[1..]);
      assert Reversed(cs[1..]) + ([cs[0]] + buffer) == (Reversed(cs[1..]) + [cs[0]]) + buffer;
    }
  }

  /** Reads take the buffer from its front, in order. */
  lemma {:induction false} ReadFromBufferTakesPrefix(buffer: string, n: nat)
    requires n <= |buffer|
    ensures ReadFromBuffer(buffer, n) == (buffer[..n], buffer[n..])
    decreases n
  {
    if n > 0 {
      ReadFromBufferTakesPrefix(buffer[1..], n - 1);
      assert [buffer[0]] + buffer[1..][..n - 1] == buffer[..n];
      assert buffer[1..][n - 1..] == buffer[n..];
    }
  }

  /**
   * After k put-backs the next k reads return the put-back characters in reverse order, and the
   * buffer is then what it was before.
   */
  lemma {:induction false} PutBacksReadInReverse(buffer: string, cs: string)
    ensures |cs| <= |PutBackAll(buffer, cs)|
    ensures ReadFromBuffer(PutBackAll(buffer, cs), |cs|) == (Reversed(cs), buffer)
  {
    PutBackAllPrepends(buffer, cs);
    var all := Reversed(cs) + buffer;
    ReadFromBufferTakesPrefix(all, |cs|);
    assert all[..|cs|] == Reversed(cs) && all[|cs|..] == buffer;
  }

  // ---------------------------------------------------------------- the send loop of write()

  /** How write() ends: the count it returns and the number of send() calls it made. */
  datatype WriteEnd = WriteEnd(sentBytes: nat, passes: nat)

  /**
   * The while loop of write(bytes, numberOfBytes) from pass `pass`, with `sent` bytes gone: each
   * pass offers the bytes from `sent` on; a send error throws; the loop stops once all bytes
   * are gone or once the time since the start, `elapsed(pass)` after that pass, reaches the
   * write timeout. `deadline` is a pass at which the timeout has surely elapsed.
   */
  function SendLoop(bytes: string, sent: nat, pass: nat, send: (nat, string) -> SendResult,
                    elapsed: nat -> nat, writeTimeout: nat, deadline: nat): Result<WriteEnd, ClientError>
    requires pass <= deadline && elapsed(deadline) >= writeTimeout
    decreases deadline - pass
  {
    if sent >= |bytes| then Success(WriteEnd(sent, pass))
    else
      match send(pass, bytes[sent..])
      case SendError => Failure(SendCall)
      case Sent(count) =>
        if elapsed(pass) >= writeTimeout then Success(WriteEnd(sent + count, pass + 1))
        else SendLoop(bytes, sent + count, pass + 1, send, elapsed, writeTimeout, deadline)
  }

  /** Given a send() that keeps its contract, write() never reports more bytes than it was given. */
  lemma {:induction false} SendLoopBound(bytes: string, sent: nat, pass: nat, send: (nat, string) -> SendResult,
                                         elapsed: nat -> nat, writeTimeout: nat, deadline: nat)
    requires pass <= deadline && elapsed(deadline) >= writeTimeout
    requires sent <= |bytes|
    requires forall k: nat, chunk: string :: SendWithin(send(k, chunk), |chunk|)
    ensures SendLoop(bytes, sent, pass, send, elapsed, writeTimeout, deadline).Success? ==>
      sent <= SendLoop(bytes, sent, pass, send, elapsed, writeTimeout, deadline).value.sentBytes <= |bytes|
    decreases deadline - pass
  {
    if sent < |bytes| {
      assert SendWithin(send(pass, bytes[sent..]), |bytes[sent..]|);
      if send(pass, bytes[sent..]).Sent? && elapsed(pass) < writeTimeout {
        SendLoopBound(bytes, sent + send(pass, bytes[sent..]).count, pass + 1, send, elapsed, writeTimeout, deadline);
      }
    }
  }

  /** write() returns fewer bytes than it was given only when its last pass saw the timeout elapse. */
  lemma {:induction false} SendLoopShortOnlyOnTimeout(bytes: string, sent: nat, pass: nat, send: (nat, string) -> SendResult,
                                                      elapsed: nat -> nat, writeTimeout: nat, deadline: nat)
    requires pass <= deadline && elapsed(deadline) >= writeTimeout
    ensures var r := SendLoop(bytes, sent, pass, send, elapsed, writeTimeout, deadline);
      r.Success? && r.value.sentBytes < |bytes| ==> pass < r.value.passes && elapsed(r.value.passes - 1) >= writeTimeout
    decreases deadline - pass
  {
    if sent < |bytes| && send(pass, bytes[sent..]).Sent? && elapsed(pass) < writeTimeout {
      SendLoopShortOnlyOnTimeout(bytes, sent + send(pass, bytes[sent..]).count, pass + 1, send, elapsed, writeTimeout, deadline);
    }
  }

  /** The count write() returns, or what it throws. */
  function WriteResult(r: Result<WriteEnd, ClientError>): Result<nat, ClientError>
  {
    match r
    case Success(end) => Success(end.sentBytes)
    case Failure(e) => Failure(e)
  }

  // ---------------------------------------------------------------- the class

  class TcpClient {
    var socketDescriptor: int
    var hostName: string
    var portNumber: Port
    var readBuffer: string

    /** isConnected(): the descriptor is not INVALID_SOCKET. */
    predicate IsConnected()
      reads this
    {
      socketDescriptor != INVALID_SOCKET
    }

    /** The member initialisers: unconnected, with an empty read buffer. */
    constructor Init(hostName: string, portNumber: Port)
      ensures socketDescriptor == INVALID_SOCKET && !IsConnected()
      ensures this.hostName == hostName && this.portNumber == portNumber && readBuffer == []
    {
      socketDescriptor := INVALID_SOCKET;
      this.hostName := hostName;
      this.portNumber := portNumber;
      readBuffer := [];
    }

    /** TcpClient(hostName, portNumber): throws for a port below 1024. */
    static method Create(hostName: string, portNumber: Port) returns (r: Result<TcpClient, ClientError>)
      ensures r.Failure? <==> portNumber < MINIMUM_PORT_NUMBER
      ensures r.Failure? ==> r.error == PortBelowMinimum
      ensures r.Success? ==> fresh(r.value) && !r.value.IsConnected()
      ensures r.Success? ==> r.value.hostName == hostName && r.value.portNumber == portNumber && r.value.readBuffer == []
    {
      var client := new TcpClient.Init(hostName, portNumber);
      if portNumber < MINIMUM_PORT_NUMBER {
        client.portNumber := 0;
        return Failure(PortBelowMinimum);
      }
      return Success(client);
    }

    /**
     * connect(): refuses while connected; otherwise runs the calls in order, stores the
     * descriptor as soon as socket() returns one, and clears the read buffer once ::connect
     * succeeds. A failure throws and leaves whatever was done so far.
     */
    method Connect(env: ConnectEnv) returns (r: Outcome<ClientError>)
      modifies this
      ensures old(IsConnected()) ==> r == Fail(AlreadyConnected) && unchanged(this)
      ensures !old(IsConnected()) ==> r == (if ConnectFailure(env).None? then Pass else Fail(ConnectFailure(env).value))
      ensures !old(IsConnected()) ==>
        socketDescriptor == (if StoresDescriptor(env) then env.descriptor else old(socketDescriptor))
      ensures !old(IsConnected()) ==> readBuffer == (if ClearsBuffer(env) then [] else old(readBuffer))
      ensures hostName == old(hostName) && portNumber == old(portNumber)
      ensures r == Pass ==> IsConnected() && readBuffer == []
    {
      if IsConnected() {
        return Fail(AlreadyConnected);
      }
      if !env.addressFound {
        return Fail(AddressLookup);
      }
      if env.descriptor == INVALID_SOCKET {
        return Fail(SocketCreation);
      }
      socketDescriptor := env.descriptor;
      if !env.reuseAddressSet {
        return Fail(ReuseAddress);
      }
      if !env.connected {
        return Fail(ConnectCall);
      }
      readBuffer := [];
      if !env.readTimeoutSet {
        return Fail(ReadTimeoutOption);
      }
      if !env.writeTimeoutSet {
        return Fail(WriteTimeoutOption);
      }
      return Pass;
    }

    /** connect(hostName, portNumber): refuses while connected; otherwise sets both, then connect(). */
    method ConnectTo(hostName: string, portNumber: Port, env: ConnectEnv) returns (r: Outcome<ClientError>)
      modifies this
      ensures old(IsConnected()) ==> r == Fail(AlreadyConnected) && unchanged(this)
      ensures !old(IsConnected()) ==> this.hostName == hostName && this.portNumber == portNumber
      ensures !old(IsConnected()) ==> r == (if ConnectFailure(env).None? then Pass else Fail(ConnectFailure(env).value))
      ensures !old(IsConnected()) ==>
        socketDescriptor == (if StoresDescriptor(env) then env.descriptor else old(socketDescriptor))
      ensures !old(IsConnected()) ==> readBuffer == (if ClearsBuffer(env) then [] else old(readBuffer))
    {
      if IsConnected() {
        return Fail(AlreadyConnected);
      }
      this.hostName := hostName;
      this.portNumber := portNumber;
      r := Connect(env);
    }

    /** disconnect(): closes the descriptor, marks the client unconnected, keeps the read buffer. */
    method Disconnect() returns (r: bool)
      modifies this
      ensures r && socketDescriptor == INVALID_SOCKET && !IsConnected()
      ensures hostName == old(hostName) && portNumber == old(portNumber) && readBuffer == old(readBuffer)
    {
      socketDescriptor := INVALID_SOCKET;
      return true;
    }

    /** openPort(): connect() unless already connected. */
    method OpenPort(env: ConnectEnv) returns (r: Outcome<ClientError>)
      modifies this
      ensures old(IsConnected()) ==> r == Pass && unchanged(this)
      ensures !old(IsConnected()) ==> r == (if ConnectFailure(env).None? then Pass else Fail(ConnectFailure(env).value))
      ensures !old(IsConnected()) ==>
        socketDescriptor == (if StoresDescriptor(env) then env.descriptor else old(socketDescriptor))
      ensures !old(IsConnected()) ==> readBuffer == (if ClearsBuffer(env) then [] else old(readBuffer))
      ensures hostName == old(hostName) && portNumber == old(portNumber)
    {
      r := Pass;
      if !IsConnected() {
        r := Connect(env);
      }
    }

    /** closePort(): disconnect() when connected; afterwards the client is unconnected. */
    method ClosePort()
      modifies this
      ensures !IsConnected()
      ensures old(IsConnected()) ==> socketDescriptor == INVALID_SOCKET
      ensures !old(IsConnected()) ==> unchanged(this)
      ensures hostName == old(hostName) && portNumber == old(portNumber) && readBuffer == old(readBuffer)
    {
      if IsConnected() {
        var _ := Disconnect();
      }
    }

    /**
     * read(): the front of the buffer when there is one, with no socket call. Otherwise a recv()
     * once select() reports data: the received text up to its first NUL refills the buffer and
     * its first character is returned; a would-block error, no readiness or a NUL first byte
     * give '\0'; a zero-length receive closes the port and throws; another error throws.
     */
    method Read(env: Readiness) returns (r: Result<char, ClientError>)
      modifies this
      ensures hostName == old(hostName) && portNumber == old(portNumber)
      ensures old(readBuffer) != [] ==>
        r == Success(old(readBuffer)[0]) && readBuffer == old(readBuffer)[1..] &&
        socketDescriptor == old(socketDescriptor)
      ensures old(readBuffer) == [] && env.Ready? && env.receive.Received? && CString(env.receive.data) != [] ==>
        var text := CString(env.receive.data);
        r == Success(text[0]) && readBuffer == text[1..] && socketDescriptor == old(socketDescriptor)
      ensures old(readBuffer) == [] && env == Ready(Received([])) ==>
        r == Failure(HungUp) && !IsConnected() && readBuffer == []
      ensures old(readBuffer) == [] && env.Ready? && env.receive.ReceiveError? ==>
        r == (if env.receive.wouldBlock then Success('\0') else Failure(ReceiveCall)) && unchanged(this)
      ensures old(readBuffer) == [] && YieldsNothing(env) ==> r == Success('\0') && unchanged(this)
    {
      if readBuffer != [] {
        var returnValue := readBuffer[0];
        readBuffer := readBuffer[1..];
        return Success(returnValue);
      }
      if env.Ready? {
        match env.receive
        case ReceiveError(wouldBlock) =>
          if !wouldBlock {
            return Failure(ReceiveCall);
          }
          return Success('\0');
        case Received(data) =>
          var text := CString(data);
          if text != [] {
            readBuffer := readBuffer + text;
            var returnValue := readBuffer[0];
            readBuffer := readBuffer[1..];
            return Success(returnValue);
          } else if data == [] {
            ClosePort();
            return Failure(HungUp);
          }
      }
      return Success('\0');
    }

    /** putBack(c): `c` goes in front of the buffer, so the next read() returns it. */
    method PutBack(c: char)
      modifies this
      ensures readBuffer == [c] + old(readBuffer)
      ensures socketDescriptor == old(socketDescriptor) && hostName == old(hostName) && portNumber == old(portNumber)
    {
      readBuffer := [c] + readBuffer;
    }

    /**
     * write(bytes, numberOfBytes): throws when not connected; otherwise the send loop, whose
     * passes are numbered from 0. `send(k, chunk)` is what send() answers on pass k when offered
     * `chunk`; `elapsed(k)` is the time since the start after pass k; `deadline` is a pass by
     * which the write timeout has elapsed.
     */
    method Write(bytes: string, send: (nat, string) -> SendResult, elapsed: nat -> nat, writeTimeout: nat,
                 ghost deadline: nat) returns (r: Result<nat, ClientError>)
      requires elapsed(deadline) >= writeTimeout
      ensures !IsConnected() ==> r == Failure(NotConnected)
      ensures IsConnected() ==> r == WriteResult(SendLoop(bytes, 0, 0, send, elapsed, writeTimeout, deadline))
    {
      if !IsConnected() {
        return Failure(NotConnected);
      }
      var sentBytes: nat := 0;
      var pass: nat := 0;
      while sentBytes < |bytes|
        invariant pass <= deadline
        invariant SendLoop(bytes, sentBytes, pass, send, elapsed, writeTimeout, deadline) ==
          SendLoop(bytes, 0, 0, send, elapsed, writeTimeout, deadline)
        decreases deadline - pass
      {
        var sendResult := send(pass, bytes[sentBytes..]);
        if sendResult.SendError? {
          return Failure(SendCall);
        }
        sentBytes := sentBytes + sendResult.count;
        if elapsed(pass) >= writeTimeout {
          return Success(sentBytes);
        }
        pass := pass + 1;
      }
      return Success(sentBytes);
    }

    /** write(char): the same connection check, then write of the one character. */
    method WriteChar(c: char, send: (nat, string) -> SendResult, elapsed: nat -> nat, writeTimeout: nat,
                     ghost deadline: nat) returns (r: Result<nat, ClientError>)
      requires elapsed(deadline) >= writeTimeout
      ensures !IsConnected() ==> r == Failure(NotConnected)
      ensures IsConnected() ==> r == WriteResult(SendLoop([c], 0, 0, send, elapsed, writeTimeout, deadline))
    {
      if !IsConnected() {
        return Failure(NotConnected);
      }
      r := Write([c], send, elapsed, writeTimeout, deadline);
    }

    /** setPortNumber: refuses while connected; otherwise changes the port and nothing else. */
    method SetPortNumber(portNumber: Port) returns (r: Outcome<ClientError>)
      modifies this
      ensures old(IsConnected()) ==> r == Fail(AlreadyConnected) && unchanged(this)
      ensures !old(IsConnected()) ==> r == Pass && this.portNumber == portNumber
      ensures !old(IsConnected()) ==>
        socketDescriptor == old(socketDescriptor) && hostName == old(hostName) && readBuffer == old(readBuffer)
    {
      if IsConnected() {
        return Fail(AlreadyConnected);
      }
      this.portNumber := portNumber;
      return Pass;
    }

    /** setHostName: refuses while connected; otherwise changes the host and nothing else. */
    method SetHostName(hostName: string) returns (r: Outcome<ClientError>)
      modifies this
      ensures old(IsConnected()) ==> r == Fail(AlreadyConnected) && unchanged(this)
      ensures !old(IsConnected()) ==> r == Pass && this.hostName == hostName
      ensures !old(IsConnected()) ==>
        socketDescriptor == old(socketDescriptor) && portNumber == old(portNumber) && readBuffer == old(readBuffer)
    {
      if IsConnected() {
        return Fail(AlreadyConnected);
      }
      this.hostName := hostName;
      return Pass;
    }

    /** portName() of this client. */
    function Name(): (r: string)
      reads this
      ensures ParsePortName(r) == Some((hostName, portNumber as nat))
    {
      PortNameRoundTrip(hostName, portNumber);
      PortName(hostName, portNumber)
    }
  }
}
