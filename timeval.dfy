/**
 * toTimeVal(totalTimeout), defined alike in TcpClient.cpp and CppTcpServer.cpp: a timeout in
 * milliseconds as the `struct timeval` that setsockopt(SO_RCVTIMEO / SO_SNDTIMEO) takes.
 */
module TimeVal {

  /** The timeout arrives as a uint32_t. */
  const UINT32_MODULUS: nat := 0x1_0000_0000

  const MICROSECONDS_PER_SECOND: nat := 1_000_000

  datatype TimeVal = TimeVal(sec: nat, usec: nat)

  /** A timeval that spells a whole number of milliseconds, with the microseconds below a second. */
  predicate WholeMilliseconds(tv: TimeVal)
  {
    tv.usec < MICROSECONDS_PER_SECOND && tv.usec % 1000 == 0
  }

  /** The milliseconds a timeval stands for. */
  function Milliseconds(tv: TimeVal): nat
  {
    tv.sec * 1000 + tv.usec / 1000
  }

  /** Whole seconds, and the remaining milliseconds as microseconds. */
  function ToTimeVal(totalTimeout: nat): (tv: TimeVal)
    requires totalTimeout < UINT32_MODULUS
    ensures WholeMilliseconds(tv)
    ensures Milliseconds(tv) == totalTimeout
  {
    TimeVal(totalTimeout / 1000, (totalTimeout % 1000) * 1000)
  }

  /** It is the only timeval of that kind for the timeout: the conversion loses nothing. */
  lemma {:induction false} ToTimeValUnique(totalTimeout: nat, tv: TimeVal)
    requires totalTimeout < UINT32_MODULUS
    requires WholeMilliseconds(tv) && Milliseconds(tv) == totalTimeout
    ensures ToTimeVal(totalTimeout) == tv
  {
    var ms := tv.usec / 1000;
    assert tv.usec == ms * 1000;
    assert ms < 1000;
    assert totalTimeout == tv.sec * 1000 + ms;
    assert totalTimeout / 1000 == tv.sec && totalTimeout % 1000 == ms by {
      DivModUnique(totalTimeout, tv.sec, ms);
    }
  }

  lemma {:induction false} DivModUnique(n: nat, q: nat, r: nat)
    requires r < 1000 && n == q * 1000 + r
    ensures n / 1000 == q && n % 1000 == r
  {
  }
}
