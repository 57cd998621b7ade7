/**
 What an echo session promises, stated without reference to the loop:
 which inbound messages the loop handles, which frames it echoes, and the
 exact transcript of every session. Each property is proved of
 `Session.EchoLoop` and `Session.HandleSocket`.
 */
module SessionSpec {
  import opened Session

  /** The messages that pass the loop's guards when no echo fails: those of
      the longest prefix of the trace whose events arrive before the
      deadline and do not end the loop. A failed echo cuts the loop short
      (see `EchoLoopSpec`). */
  function Admitted(trace: seq<Arrival>, deadline: nat): (ms: seq<Message>)
    ensures |ms| <= |trace|
    ensures forall i :: 0 <= i < |ms| ==> !Stops(trace[i], deadline) && trace[i].event == Msg(ms[i])
    ensures |ms| < |trace| ==> Stops(trace[|ms|], deadline)
    decreases |trace|
  {
    if |trace| == 0 || Stops(trace[0], deadline) then []
    else
      var rest := Admitted(trace[1..], deadline);
      assert forall i :: 1 <= i < 1 + |rest| ==> trace[i] == trace[1..][i - 1];
      [trace[0].event.msg] + rest
  }

  /** The frames that echo `ms`: its data messages, verbatim and in order. */
  function Echoes(ms: seq<Message>): (es: seq<Message>)
    decreases |ms|
  {
    if |ms| == 0 then []
    else (if IsData(ms[0]) then [ms[0]] else []) + Echoes(ms[1..])
  }

  /** Every send attempt numbered `from` .. `from + count - 1` succeeds. */
  predicate AllSucceed(ok: SendOracle, from: nat, count: nat) {
    forall i :: from <= i < from + count ==> ok(i)
  }

  /** The loop ran out of messages to handle because the next event did not
      arrive before the deadline (or no event ever arrives). */
  predicate DeadlineFirst(trace: seq<Arrival>, deadline: nat) {
    var k := |Admitted(trace, deadline)|;
    k == |trace| || trace[k].at >= deadline
  }

  /** Echoing keeps arrival order across stretches of traffic. This is a
      sanity property of `Echoes`; the loop proofs unfold `Echoes` one
      message at a time instead. */
  lemma {:induction false} EchoesAppend(a: seq<Message>, b: seq<Message>)
    ensures Echoes(a + b) == Echoes(a) + Echoes(b)
    decreases |a|
  {
    if |a| == 0 {
      assert a + b == b;
    } else {
      assert (a + b)[1..] == a[1..] + b;
      EchoesAppend(a[1..], b);
    }
  }

  /** A stream of data messages is echoed as it is. */
  lemma {:induction false} EchoesOfData(ms: seq<Message>)
    requires forall i :: 0 <= i < |ms| ==> IsData(ms[i])
    ensures Echoes(ms) == ms
    decreases |ms|
  {
    if |ms| > 0 {
      EchoesOfData(ms[1..]);
    }
  }

  /** Every data message is echoed exactly as often as it was received, and
      nothing else is echoed. */
  lemma {:induction false} EchoesExactlyOnce(ms: seq<Message>)
    ensures forall m :: IsData(m) ==> multiset(Echoes(ms))[m] == multiset(ms)[m]
    ensures forall m :: !IsData(m) ==> multiset(Echoes(ms))[m] == 0
    decreases |ms|
  {
    if |ms| > 0 {
      EchoesExactlyOnce(ms[1..]);
      assert ms == [ms[0]] + ms[1..];
      assert multiset(ms) == multiset([ms[0]]) + multiset(ms[1..]);
    }
  }

  /** The exact behaviour `r` of the echo loop, in terms of the admitted
      messages and their echoes `es`:
      - it stops on an echo failure exactly when one of the sends of `es`
        fails, and then it has attempted `es` up to and including the first
        failing one;
      - otherwise every frame of `es` was attempted, followed by the timeout
        notice exactly when the deadline came first, and by nothing when a
        terminal event came first, which also names the exit. */
  predicate LoopBehaviour(trace: seq<Arrival>, deadline: nat, ok: SendOracle, n: nat, r: LoopRun) {
    var ms := Admitted(trace, deadline);
    var es := Echoes(ms);
    && (r.exit == EchoFailed <==> !AllSucceed(ok, n, |es|))
    && (r.exit == EchoFailed ==>
          1 <= |r.sent| <= |es| && r.sent == es[..|r.sent|]
          && AllSucceed(ok, n, |r.sent| - 1) && !ok(n + |r.sent| - 1))
    && (r.exit == TimedOut ==> DeadlineFirst(trace, deadline) && r.sent == es + [Text(TimeoutNotice)])
    && (r.exit != EchoFailed && r.exit != TimedOut ==>
          |ms| < |trace| && trace[|ms|].at < deadline && Terminal(trace[|ms|].event)
          && r.exit == StopReason(trace[|ms|].event) && r.sent == es)
  }

  lemma {:induction false} EchoLoopSpec(trace: seq<Arrival>, deadline: nat, ok: SendOracle, n: nat)
    ensures LoopBehaviour(trace, deadline, ok, n, EchoLoop(trace, deadline, ok, n))
    decreases |trace|
  {
    if |trace| == 0 || trace[0].at >= deadline {
    } else if Terminal(trace[0].event) {
    } else if IsData(trace[0].event.msg) {
      EchoLoopSpec(trace[1..], deadline, ok, n + 1);
      if ok(n) {
        EchoStep(trace, deadline, ok, n, EchoLoop(trace[1..], deadline, ok, n + 1));
      } else {
        AdmittedStep(trace, deadline);
      }
    } else {
      EchoLoopSpec(trace[1..], deadline, ok, n);
      SkipStep(trace, deadline, ok, n, EchoLoop(trace[1..], deadline, ok, n));
    }
  }

  lemma AdmittedStep(trace: seq<Arrival>, deadline: nat)
    requires |trace| > 0 && !Stops(trace[0], deadline)
    ensures Admitted(trace, deadline) == [trace[0].event.msg] + Admitted(trace[1..], deadline)
    ensures Echoes(Admitted(trace, deadline))
            == (if IsData(trace[0].event.msg) then [trace[0].event.msg] else []) + Echoes(Admitted(trace[1..], deadline))
    ensures DeadlineFirst(trace, deadline) == DeadlineFirst(trace[1..], deadline)
    ensures var k := |Admitted(trace[1..], deadline)|; k < |trace| - 1 ==> trace[1 + k] == trace[1..][k]
  {
    var m := trace[0].event.msg;
    var ms' := Admitted(trace[1..], deadline);
    assert ([m] + ms')[1..] == ms';
  }

  /** An admitted data message whose echo is sent is followed by the rest. */
  lemma EchoStep(trace: seq<Arrival>, deadline: nat, ok: SendOracle, n: nat, r': LoopRun)
    requires |trace| > 0 && !Stops(trace[0], deadline) && IsData(trace[0].event.msg) && ok(n)
    requires LoopBehaviour(trace[1..], deadline, ok, n + 1, r')
    ensures LoopBehaviour(trace, deadline, ok, n, Prepend(trace[0].event.msg, r'))
  {
    AdmittedStep(trace, deadline);
    var m := trace[0].event.msg;
    var es' := Echoes(Admitted(trace[1..], deadline));
    var es := [m] + es';
    assert AllSucceed(ok, n, |es|) <==> AllSucceed(ok, n + 1, |es'|);
    if r'.exit == EchoFailed {
      assert [m] + es'[..|r'.sent|] == es[..|r'.sent| + 1];
      assert AllSucceed(ok, n, |r'.sent|);
    }
  }

  /** An admitted Ping or Pong is skipped. */
  lemma SkipStep(trace: seq<Arrival>, deadline: nat, ok: SendOracle, n: nat, r': LoopRun)
    requires |trace| > 0 && !Stops(trace[0], deadline) && !IsData(trace[0].event.msg)
    requires LoopBehaviour(trace[1..], deadline, ok, n, r')
    ensures LoopBehaviour(trace, deadline, ok, n, r')
  {
    AdmittedStep(trace, deadline);
  }

  /** The complete transcript of a session whose greeting was sent:
      greeting, the echoes of the admitted messages up to the first failing
      send, the timeout notice when the deadline came first and every echo
      was sent, then the farewell; `close()` follows exactly when the
      farewell was sent. */
  lemma Transcript(start: nat, trace: seq<Arrival>, ok: SendOracle)
    requires ok(0)
    ensures var o := HandleSocket(start, trace, ok);
            var es := Echoes(Admitted(trace, start + WindowMillis));
            AllSucceed(ok, 1, |es|) && DeadlineFirst(trace, start + WindowMillis) ==>
              o.attempted == [Text(Greeting)] + es + [Text(TimeoutNotice), Text(Farewell)]
              && o.exit == Ended(TimedOut)
    ensures var o := HandleSocket(start, trace, ok);
            var es := Echoes(Admitted(trace, start + WindowMillis));
            AllSucceed(ok, 1, |es|) && !DeadlineFirst(trace, start + WindowMillis) ==>
              o.attempted == [Text(Greeting)] + es + [Text(Farewell)]
              && o.exit.loopExit in {PeerClosed, StreamEnded, ReceiveFailed}
    ensures var o := HandleSocket(start, trace, ok);
            var es := Echoes(Admitted(trace, start + WindowMillis));
            !AllSucceed(ok, 1, |es|) ==>
              exists k :: 0 <= k < |es| && AllSucceed(ok, 1, k) && !ok(1 + k)
                && o.attempted == [Text(Greeting)] + es[..k + 1] + [Text(Farewell)]
                && o.exit == Ended(EchoFailed)
    ensures var o := HandleSocket(start, trace, ok);
            o.closed <==> ok(|o.attempted| - 1)
  {
    var deadline := start + WindowMillis;
    EchoLoopSpec(trace, deadline, ok, 1);
    var r := EchoLoop(trace, deadline, ok, 1);
    var es := Echoes(Admitted(trace, deadline));
    if r.exit == EchoFailed {
      var k := |r.sent| - 1;
      assert AllSucceed(ok, 1, k) && !ok(1 + k);
      assert r.sent == es[..k + 1];
    } else if r.exit == TimedOut {
      assert [Text(Greeting)] + r.sent + [Text(Farewell)]
          == [Text(Greeting)] + es + [Text(TimeoutNotice), Text(Farewell)];
    }
  }

  /** The deadline is fixed when the session starts: an event that arrives
      at or after `start + 10 s` has no effect, and neither has anything
      after it, however busy the trace was before it. */
  lemma LateEventsIgnored(start: nat, trace: seq<Arrival>, ok: SendOracle, i: nat)
    requires i < |trace| && trace[i].at >= start + WindowMillis
    ensures HandleSocket(start, trace, ok) == HandleSocket(start, trace[..i], ok)
  {
    EchoLoopTruncate(trace, start + WindowMillis, ok, 1, i);
  }

  lemma {:induction false} EchoLoopTruncate(trace: seq<Arrival>, deadline: nat, ok: SendOracle, n: nat, i: nat)
    requires i < |trace| && trace[i].at >= deadline
    ensures EchoLoop(trace, deadline, ok, n) == EchoLoop(trace[..i], deadline, ok, n)
    decreases i
  {
    if i > 0 && trace[0].at < deadline && !Terminal(trace[0].event) {
      assert trace[..i][1..] == trace[1..][..i - 1];
      var n' := if IsData(trace[0].event.msg) then n + 1 else n;
      EchoLoopTruncate(trace[1..], deadline, ok, n', i - 1);
    }
  }

  /** Ping and Pong frames that arrive before the deadline are invisible:
      inserting one anywhere in a trace changes nothing. */
  lemma KeepaliveIgnored(start: nat, trace: seq<Arrival>, ok: SendOracle, i: nat, keepalive: Arrival)
    requires i <= |trace|
    requires keepalive.event.Msg? && (keepalive.event.msg.Ping? || keepalive.event.msg.Pong?)
    requires keepalive.at < start + WindowMillis
    ensures HandleSocket(start, trace[..i] + [keepalive] + trace[i..], ok) == HandleSocket(start, trace, ok)
  {
    EchoLoopKeepalive(trace, start + WindowMillis, ok, 1, i, keepalive);
  }

  lemma {:induction false} EchoLoopKeepalive(trace: seq<Arrival>, deadline: nat, ok: SendOracle, n: nat,
                                             i: nat, keepalive: Arrival)
    requires i <= |trace|
    requires keepalive.event.Msg? && (keepalive.event.msg.Ping? || keepalive.event.msg.Pong?)
    requires keepalive.at < deadline
    ensures EchoLoop(trace[..i] + [keepalive] + trace[i..], deadline, ok, n) == EchoLoop(trace, deadline, ok, n)
    decreases i
  {
    var t := trace[..i] + [keepalive] + trace[i..];
    if i == 0 {
      assert t == [keepalive] + trace;
      assert t[1..] == trace;
    } else {
      assert t[0] == trace[0];
      if trace[0].at < deadline && !Terminal(trace[0].event) {
        assert t[1..] == trace[1..][..i - 1] + [keepalive] + trace[1..][i - 1..];
        var n' := if IsData(trace[0].event.msg) then n + 1 else n;
        EchoLoopKeepalive(trace[1..], deadline, ok, n', i - 1, keepalive);
      }
    }
  }
}
