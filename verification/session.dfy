/**
 The echo session `handle_socket` runs on one upgraded WebSocket.

 Time and I/O are abstracted. The session's inputs are its start time, the
 trace of inbound events, each stamped with the time it became available
 to the receiver, and an oracle `ok` that says whether the n-th send
 attempt of the session succeeds (the greeting is attempt 0). The
 observable result is the list of frames the session attempted to send and
 whether it called `close()`.
 */
module Session {
  import opened Http

  datatype Message =
    | Text(text: string)
    | Binary(data: seq<byte>)
    | Ping(data: seq<byte>)
    | Pong(data: seq<byte>)
    | Close

  /** What one `socket.next()` yields: a message, the end of the stream
      (`None`) or a receive error (`Some(Err(_))`). */
  datatype Received = Msg(msg: Message) | EndOfStream | RecvError

  /** An inbound event and the time, in milliseconds, at which it arrives. */
  datatype Arrival = Arrival(at: nat, event: Received)

  /** Send outcomes, indexed by attempt number within the session. */
  type SendOracle = nat -> bool

  /** The session's fixed lifetime, 10 seconds. */
  const WindowMillis: nat := 10_000
  const Greeting: string := "Hello from Rust!"
  const TimeoutNotice: string := "Timeout expired"
  const Farewell: string := "Bye Bye"

  /** Why the echo loop ended. */
  datatype LoopExit = TimedOut | PeerClosed | StreamEnded | ReceiveFailed | EchoFailed

  /** The frames the echo loop attempted to send, and why it ended. */
  datatype LoopRun = LoopRun(sent: seq<Message>, exit: LoopExit)

  datatype SessionExit = GreetingFailed | Ended(loopExit: LoopExit)

  datatype Outcome = Outcome(attempted: seq<Message>, closed: bool, exit: SessionExit)

  /** Messages that are echoed back verbatim. */
  predicate IsData(m: Message) {
    m.Text? || m.Binary?
  }

  /** Events that end the loop when they are received. */
  predicate Terminal(e: Received) {
    !e.Msg? || e.msg.Close?
  }

  /** The loop exit a terminal event causes. */
  function StopReason(e: Received): (x: LoopExit)
    requires Terminal(e)
    ensures x in {PeerClosed, StreamEnded, ReceiveFailed}
  {
    match e
    case EndOfStream => StreamEnded
    case RecvError => ReceiveFailed
    case Msg(_) => PeerClosed
  }

  /** The event does not reach the loop body as a message to handle: it
      arrives too late, or it ends the loop. */
  predicate Stops(a: Arrival, deadline: nat) {
    a.at >= deadline || Terminal(a.event)
  }

  function Prepend(m: Message, r: LoopRun): LoopRun {
    LoopRun([m] + r.sent, r.exit)
  }

  /** The echo loop (handlers.rs:109-136) on the remaining trace, when the
      next send is attempt `n`. The head of the trace wins the race against
      the timer exactly when it arrives before `deadline`; an exhausted
      trace means nothing more ever arrives. */
  function EchoLoop(trace: seq<Arrival>, deadline: nat, ok: SendOracle, n: nat): (r: LoopRun)
    ensures forall i :: 0 <= i < |r.sent| ==>
              IsData(r.sent[i]) || (i == |r.sent| - 1 && r.exit == TimedOut && r.sent[i] == Text(TimeoutNotice))
    ensures r.exit == TimedOut ==> |r.sent| > 0 && r.sent[|r.sent| - 1] == Text(TimeoutNotice)
    ensures r.exit == EchoFailed ==> |r.sent| > 0 && !ok(n + |r.sent| - 1)
    ensures forall i :: n <= i < n + |r.sent| - 1 ==> ok(i)
    decreases |trace|
  {
    if |trace| == 0 || trace[0].at >= deadline then
      // the notice is attempted and its outcome discarded
      LoopRun([Text(TimeoutNotice)], TimedOut)
    else if Terminal(trace[0].event) then
      LoopRun([], StopReason(trace[0].event))
    else
      var m := trace[0].event.msg;
      if IsData(m) then
        if ok(n) then Prepend(m, EchoLoop(trace[1..], deadline, ok, n + 1))
        else LoopRun([m], EchoFailed)
      else
        EchoLoop(trace[1..], deadline, ok, n)
  }

  /** `handle_socket` (handlers.rs:97-140), started at time `start`. */
  function HandleSocket(start: nat, trace: seq<Arrival>, ok: SendOracle): (o: Outcome)
    ensures |o.attempted| >= 1 && o.attempted[0] == Text(Greeting)
    ensures o.exit == GreetingFailed <==> !ok(0)
    ensures !ok(0) ==> o.attempted == [Text(Greeting)] && !o.closed
    ensures ok(0) ==> o.attempted[|o.attempted| - 1] == Text(Farewell)
    ensures ok(0) ==> (o.closed <==> ok(|o.attempted| - 1))
  {
    var deadline := start + WindowMillis;
    if !ok(0) then
      Outcome([Text(Greeting)], false, GreetingFailed)
    else
      var run := EchoLoop(trace, deadline, ok, 1);
      var attempted := [Text(Greeting)] + run.sent + [Text(Farewell)];
      Outcome(attempted, ok(|attempted| - 1), Ended(run.exit))
  }

  function Joined(sent: seq<Message>, r: LoopRun): LoopRun {
    LoopRun(sent + r.sent, r.exit)
  }

  /** The loop reaching the timer after attempting `frames`. */
  lemma TimerStep(trace: seq<Arrival>, i: nat, deadline: nat, ok: SendOracle, frames: seq<Message>)
    requires i <= |trace| && (i == |trace| || trace[i].at >= deadline)
    ensures Joined(frames, EchoLoop(trace[i..], deadline, ok, 1 + |frames|))
            == LoopRun(frames + [Text(TimeoutNotice)], TimedOut)
  {
  }

  /** One iteration of the echo loop that receives `trace[i]` after
      attempting `frames`. */
  lemma ReceiveStep(trace: seq<Arrival>, i: nat, deadline: nat, ok: SendOracle, frames: seq<Message>)
    requires i < |trace| && trace[i].at < deadline
    ensures var e := trace[i].event;
            var here := Joined(frames, EchoLoop(trace[i..], deadline, ok, 1 + |frames|));
            && (Terminal(e) ==> here == LoopRun(frames, StopReason(e)))
            && (!Terminal(e) && !IsData(e.msg) ==>
                  here == Joined(frames, EchoLoop(trace[i + 1..], deadline, ok, 1 + |frames|)))
            && (!Terminal(e) && IsData(e.msg) && ok(1 + |frames|) ==>
                  here == Joined(frames + [e.msg], EchoLoop(trace[i + 1..], deadline, ok, 1 + |frames + [e.msg]|)))
            && (!Terminal(e) && IsData(e.msg) && !ok(1 + |frames|) ==>
                  here == LoopRun(frames + [e.msg], EchoFailed))
  {
    assert trace[i..][1..] == trace[i + 1..];
    var e := trace[i].event;
    if !Terminal(e) && IsData(e.msg) && ok(1 + |frames|) {
      var rest := EchoLoop(trace[i + 1..], deadline, ok, 2 + |frames|);
      assert frames + ([e.msg] + rest.sent) == (frames + [e.msg]) + rest.sent;
    }
  }

  /** `handle_socket` as the same `loop` (handlers.rs:97-140), with every
      break path: the timer, a terminal event (Close, end of stream and a
      receive error share one branch) and a failed echo (Text and Binary
      share one branch), followed by the shared closing step. Each send consumes the next
      answer of the oracle. It computes exactly the outcome `HandleSocket`
      defines. */
  method RunSession(start: nat, trace: seq<Arrival>, ok: SendOracle) returns (o: Outcome)
    ensures o == HandleSocket(start, trace, ok)
  {
    var deadline := start + WindowMillis;
    if !ok(0) {
      return Outcome([Text(Greeting)], false, GreetingFailed);
    }
    ghost var run := EchoLoop(trace, deadline, ok, 1);
    // the frames the loop attempted; the next send is attempt 1 + |frames|
    var frames: seq<Message> := [];
    var i := 0;
    var exit := TimedOut;
    assert trace[0..] == trace;
    while true
      invariant 0 <= i <= |trace|
      invariant Joined(frames, EchoLoop(trace[i..], deadline, ok, 1 + |frames|)) == run
      decreases |trace| - i
    {
      if i == |trace| || trace[i].at >= deadline {
        TimerStep(trace, i, deadline, ok, frames);
        // the outcome of the notice is discarded
        frames := frames + [Text(TimeoutNotice)];
        exit := TimedOut;
        assert run == LoopRun(frames, exit);
        break;
      }
      ReceiveStep(trace, i, deadline, ok, frames);
      var event := trace[i].event;
      i := i + 1;
      if Terminal(event) {
        exit := StopReason(event);
        assert run == LoopRun(frames, exit);
        break;
      }
      if IsData(event.msg) {
        var sent := ok(1 + |frames|);
        frames := frames + [event.msg];
        if !sent {
          exit := EchoFailed;
          assert run == LoopRun(frames, exit);
          break;
        }
      }
    }
    assert run == LoopRun(frames, exit);
    var attempted := [Text(Greeting)] + frames + [Text(Farewell)];
    return Outcome(attempted, ok(|attempted| - 1), Ended(exit));
  }
}
