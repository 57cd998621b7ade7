/**
 The small request handlers of handlers.rs: `sleep`, `ip` and `counter`.
 */
module Endpoints {
  import opened Http
  import Headers

  const U64Modulus: int := 0x1_0000_0000_0000_0000

  newtype u64 = x: int | 0 <= x < U64Modulus

  datatype StatusCode = OK | BadRequest {
    function Code(): int {
      match this
      case OK => 200
      case BadRequest => 400
    }
  }

  /** The longest sleep a request may ask for, in milliseconds. */
  const MaxSleepMillis: u64 := 30_000

  /** The status `sleep` answers with, and how long it asked to sleep
      first. */
  datatype SleepReply = SleepReply(status: StatusCode, askedMillis: nat)

  /** `sleep` (handlers.rs:72-78): a duration above the bound is refused at
      once; for any other the handler asks to sleep that long and then
      answers with 200. */
  function Sleep(duration: u64): (r: SleepReply)
    ensures r.status == BadRequest <==> duration > MaxSleepMillis
    ensures r.status.Code() == 200 <==> duration <= MaxSleepMillis
    ensures r.status == OK ==> r.askedMillis == duration as nat
    ensures r.status == BadRequest ==> r.askedMillis == 0
    ensures r.askedMillis <= MaxSleepMillis as nat
  {
    if duration > MaxSleepMillis then SleepReply(BadRequest, 0)
    else SleepReply(OK, duration as nat)
  }

  const RealIp: string := "x-real-ip"

  /** `ip` (handlers.rs:80-91): the text of the first `x-real-ip` value, or
      the empty string when there is none or it is not valid text. */
  function Ip(h: HeaderMap): (ip: string)
    ensures !Names(h, RealIp) ==> ip == ""
    ensures forall i :: FirstAt(h, i, RealIp) && IsText(h[i].value) ==> ToStr(h[i].value) == Some(ip)
    ensures forall i :: FirstAt(h, i, RealIp) && !IsText(h[i].value) ==> ip == ""
  {
    var ip := match Get(h, RealIp)
      case None => ""
      case Some(v) => (match ToStr(v) case Some(s) => s case None => "");
    FirstIsUnique(h, RealIp);
    ip
  }

  lemma FirstIsUnique(h: HeaderMap, name: string)
    ensures forall i, j :: FirstAt(h, i, name) && FirstAt(h, j, name) ==> i == j
  {
    forall i, j | FirstAt(h, i, name) && FirstAt(h, j, name) ensures i == j {
      assert !(i < j) && !(j < i);
    }
  }

  /** The client address `ip` reports is one of the proxy headers the
      `headers` handler never shows. */
  lemma IpHiddenFromHeaders(h: HeaderMap)
    ensures Headers.Lookup(Headers.Reflect(h), RealIp) == None
    ensures Names(h, RealIp) && IsText(Get(h, RealIp).value) ==> ToStr(Get(h, RealIp).value) == Some(Ip(h))
  {
    assert RealIp in Headers.ProxyHeaders;
    if Names(h, RealIp) {
      assert Get(h, RealIp).Some?;
      var i :| FirstAt(h, i, RealIp) && h[i].value == Get(h, RealIp).value;
    }
  }

  /** `AtomicU64::fetch_add(1)` on a counter holding `c`: it answers `c` and
      leaves `c + 1`, wrapping around at 2^64. */
  function FetchAdd(c: u64): (r: (u64, u64))
    ensures r.0 == c
    ensures r.1 as int == (c as int + 1) % U64Modulus
  {
    (c, if c as int == U64Modulus - 1 then 0 else c + 1)
  }

  /** The counter's value when the process starts (handlers.rs:41). */
  const CounterStart: u64 := 1

  /** The values `counter` answers `n` requests served one after the other,
      starting from a counter holding `c`. */
  function Responses(c: u64, n: nat): (rs: seq<u64>)
    ensures |rs| == n
    ensures forall i :: 0 <= i < n ==> rs[i] as int == (c as int + i) % U64Modulus
    decreases n
  {
    if n == 0 then []
    else
      var (answer, next) := FetchAdd(c);
      var rs := [answer] + Responses(next, n - 1);
      ResponsesStep(c, n, rs);
      rs
  }

  lemma ResponsesStep(c: u64, n: nat, rs: seq<u64>)
    requires n > 0 && |rs| == n && rs[0] == c
    requires forall i :: 0 <= i < n - 1 ==> rs[1..][i] as int == (FetchAdd(c).1 as int + i) % U64Modulus
    ensures forall i :: 0 <= i < n ==> rs[i] as int == (c as int + i) % U64Modulus
  {
    forall i | 1 <= i < n ensures rs[i] as int == (c as int + i) % U64Modulus {
      assert rs[i] == rs[1..][i - 1];
    }
  }

  /** Requests served in sequence read 1, 2, 3, ...: no value is handed out
      twice until the counter wraps around. */
  lemma CounterNumbersRequests(n: nat)
    requires n <= U64Modulus
    ensures forall i :: 0 <= i < n ==> Responses(CounterStart, n)[i] as int == (i + 1) % U64Modulus
    ensures forall i, j :: 0 <= i < j < n ==> Responses(CounterStart, n)[i] != Responses(CounterStart, n)[j]
  {
  }
}
