/**
 Two concrete sessions, derived from the general properties.
 */
module SessionScenarios {
  import opened Session
  import opened SessionSpec

  function AllSent(): SendOracle {
    _ => true
  }

  /** A client that connects, sends "ping" after 0.1 s and then stays silent:
      it receives the greeting, its echo, the timeout notice and the
      farewell, and the socket is closed. */
  lemma PingThenSilence(start: nat)
    ensures var o := HandleSocket(start, [Arrival(start + 100, Msg(Text("ping")))], AllSent());
            o.attempted == [Text(Greeting), Text("ping"), Text(TimeoutNotice), Text(Farewell)]
            && o.closed && o.exit == Ended(TimedOut)
  {
    var trace := [Arrival(start + 100, Msg(Text("ping")))];
    assert Stops(trace[0], start + WindowMillis) == false;
    assert Admitted(trace, start + WindowMillis) == [Text("ping")];
    EchoesOfData([Text("ping")]);
    Transcript(start, trace, AllSent());
  }

  /** A client that sends "tick" every second for 15 seconds: the ticks at
      1 s .. 9 s are echoed, the one at 10 s already meets the timer, so the
      session ends at the 10-second mark although traffic never paused. */
  lemma BusyClientStillTimesOut()
    ensures var trace := seq(15, i requires 0 <= i < 15 => Arrival((i + 1) * 1000, Msg(Text("tick"))));
            var o := HandleSocket(0, trace, AllSent());
            o.attempted == [Text(Greeting)] + seq(9, _ => Text("tick")) + [Text(TimeoutNotice), Text(Farewell)]
            && o.closed && o.exit == Ended(TimedOut)
  {
    var trace := seq(15, i requires 0 <= i < 15 => Arrival((i + 1) * 1000, Msg(Text("tick"))));
    LateEventsIgnored(0, trace, AllSent(), 9);
    var early := trace[..9];
    var ticks := seq(9, _ => Text("tick"));
    assert forall i :: 0 <= i < 9 ==> early[i].at < WindowMillis && early[i].event == Msg(Text("tick"));
    assert Admitted(early, WindowMillis) == ticks;
    EchoesOfData(ticks);
    Transcript(0, early, AllSent());
  }
}
