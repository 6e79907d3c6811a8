/**
 When the firmware-update master gives up waiting: a poll repeats the outstanding message, or drops nodes, exactly
 when long enough a time has passed since a message was last put on the bus.
 */
module BootTiming {
  import opened Bits
  import opened TransferSteps
  import opened UpdateNodes
  import opened BootProtocol
  import opened BootProgress

  /** The messages put on the bus, repetitions included. */
  function OnBus(log: seq<Entry>): nat {
    if log == [] then 0
    else
      var e := log[|log| - 1];
      OnBus(log[..|log| - 1]) + if e.Sent? || e.Resent? then 1 else 0
  }

  /** The repetitions since a message was last sent for the first time. */
  function Repeats(log: seq<Entry>): nat {
    if log == [] then 0
    else
      var e := log[|log| - 1];
      if e.Sent? then 0 else Repeats(log[..|log| - 1]) + if e.Resent? then 1 else 0
  }

  lemma BusGrows(log: seq<Entry>, e: Entry)
    ensures OnBus(log + [e]) == OnBus(log) + if e.Sent? || e.Resent? then 1 else 0
    ensures Repeats(log + [e]) == if e.Sent? then 0 else Repeats(log) + if e.Resent? then 1 else 0
  {
    assert (log + [e])[..|log|] == log;
  }

  /** When a message was last put on the bus in a session that began at `begun`. */
  function LastSending(s: State, begun: nat, events: seq<Event>): nat
    requires Shape(s)
  {
    if events == [] then begun
    else
      var n := |events| - 1;
      if OnBus(Run(s, events).log) > OnBus(Run(s, events[..n]).log) then events[n].now
      else LastSending(s, begun, events[..n])
  }

  // ----- one poll -----

  /** On a clock of 64 bits, a poll of a waiting step does nothing before 30 ms have passed for the command, 3 s for
      the file information and 1 s for a chunk and the CRC check, and something from then on. A reading from before
      the step's clock was set counts as one from the end of the 64-bit range. */
  lemma PollsOnTime(s: State, checked: nat, now: nat)
    requires Shape(s) && s.cur != IDLE && s.recs[s.cur].overTick < 0x1_0000_0000_0000_0000
    requires checked < 0x1_0000_0000_0000_0000
    ensures var since := checked - s.recs[s.cur].overTick;
            var passed := if since < 0 then since + 0x1_0000_0000_0000_0000 else since;
            Poll(s, checked, now) == s
            <==> passed < if s.cur == CMD then 30 else if s.cur == INFO then 3000 else 1000
  {
    hide ReadChunk, KeepAt;
    var since := checked - s.recs[s.cur].overTick;
    ClockWraps(since);
  }

  lemma ClockWraps(since: int)
    requires -0x1_0000_0000_0000_0000 < since < 0x1_0000_0000_0000_0000
    ensures since % 0x1_0000_0000_0000_0000 == if since < 0 then since + 0x1_0000_0000_0000_0000 else since
  {
  }

  // ----- clock and count of the current step -----

  /** The step's clock was set when a message was last sent, and its count is that of the repetitions since. */
  ghost predicate Clocked(s: State, sent: nat) {
    && Shape(s)
    && (s.cur != IDLE ==> s.recs[s.cur].overTick == sent && s.recs[s.cur].resendCnt == Repeats(s.log))
  }

  lemma FinishRestarts(s: State, now: nat)
    requires Shape(s) && s.cur != IDLE
    ensures var t := Finish(s, now);
            && Shape(t) && t.nodes == s.nodes && t.log == s.log + [Sent(t.last)]
            && (t.cur != IDLE ==> t.recs[t.cur].overTick == now && t.recs[t.cur].resendCnt == 0)
  {
    hide ReadChunk;
  }

  /** Everything one event can do to the clock. */
  lemma EventClocked(s: State, sent: nat, e: Event)
    requires Clocked(s, sent)
    ensures var t := Apply(s, e); Clocked(t, if OnBus(t.log) > OnBus(s.log) then e.now else sent)
  {
    hide Finish, SetProcess, KeepAt, Listed, AllAt, Elapsed, OnBus, Repeats;
    ApplyShape(s, e);
    if s.cur != IDLE {
      if e.Tick? {
        TickClocked(s, sent, e);
      } else {
        var offset := if s.cur == DATA then s.chunk.offset else 0;
        var m := Mark(s, e.src, s.cur, offset);
        BusGrows(s.log, Acked(e.src, s.cur, offset));
        FinishRestarts(s, e.now);
        FinishRestarts(m, e.now);
        BusGrows(s.log, Sent(Finish(s, e.now).last));
        BusGrows(m.log, Sent(Finish(m, e.now).last));
      }
    }
  }

  lemma TickClocked(s: State, sent: nat, e: Event)
    requires Clocked(s, sent) && e.Tick? && s.cur != IDLE
    ensures var t := Apply(s, e); Clocked(t, if OnBus(t.log) > OnBus(s.log) then e.now else sent)
  {
    hide Finish, KeepAt, Elapsed, OnBus, Repeats;
    ApplyShape(s, e);
    var rec := s.recs[s.cur].(overTick := e.now, resendCnt := s.recs[s.cur].resendCnt + 1);
    var m := s.(recs := s.recs[s.cur := rec], nodes := KeepAt(s.nodes, s.cur, rec.offset));
    FinishRestarts(m, e.now);
    BusGrows(s.log, Sent(Finish(m, e.now).last));
    BusGrows(s.log, Resent(s.last));
    BusGrows(s.log, Failed);
  }

  lemma {:induction false} RunClocked(s: State, begun: nat, events: seq<Event>)
    requires Clocked(s, begun)
    ensures Clocked(Run(s, events), LastSending(s, begun, events))
  {
    hide Apply, OnBus, Clocked;
    assert Shape(s) by { ClockedShape(s, begun); }
    if events != [] {
      var n := |events| - 1;
      assert events == events[..n] + [events[n]];
      RunClocked(s, begun, events[..n]);
      RunAppend(s, events[..n], events[n]);
      EventClocked(Run(s, events[..n]), LastSending(s, begun, events[..n]), events[n]);
    }
  }

  lemma ClockedShape(s: State, sent: nat)
    requires Clocked(s, sent)
    ensures Shape(s)
  {
  }

  // ----- what a poll does, in every run -----

  /** In every run: a poll does nothing until 30 ms, 3 s or 1 s after a message was last put on the bus. From then on
      it repeats the outstanding message, up to 100 times for the command and three times for any other; after that it
      drops exactly the nodes not recorded with the step, and sends the next message or reports the failure. */
  lemma PollsInRun(s: State, addrs: seq<nat>, info: seq<byte>, file: seq<byte>, begun: nat, events: seq<Event>,
                   checked: nat, now: nat)
    requires Shape(s) && |file| < 0x1_0000_0000
    requires Run(Start(s, addrs, info, file, begun), events).cur != IDLE
    requires LastSending(Start(s, addrs, info, file, begun), begun, events) < 0x1_0000_0000_0000_0000
    requires checked < 0x1_0000_0000_0000_0000
    ensures var s0 := Start(s, addrs, info, file, begun);
            var t := Run(s0, events);
            var u := Apply(t, Tick(checked, now));
            var since := checked - LastSending(s0, begun, events);
            var passed := if since < 0 then since + 0x1_0000_0000_0000_0000 else since;
            if passed < if t.cur == CMD then 30 else if t.cur == INFO then 3000 else 1000 then u == t
            else if Repeats(t.log) < if t.cur == CMD then 100 else 3 then
              u == t.(recs := u.recs, log := t.log + [Resent(t.last)])
            else
              && (forall n :: n in u.nodes <==> n in t.nodes && n.At(t.cur, t.recs[t.cur].offset))
              && if u.nodes == [] then u.cur == IDLE && u.log == t.log + [Failed] else u.log == t.log + [Sent(u.last)]
  {
    hide Run, Start, LastSending, Clocked, OnBus, Repeats, Poll;
    var s0 := Start(s, addrs, info, file, begun);
    StartClocked(s, addrs, info, file, begun);
    RunClocked(s0, begun, events);
    var t := Run(s0, events);
    ClockIs(t, LastSending(s0, begun, events));
    PollsOnTime(t, checked, now);
    if Poll(t, checked, now) != t { PollActs(t, checked, now); }
  }

  lemma StartClocked(s: State, addrs: seq<nat>, info: seq<byte>, file: seq<byte>, begun: nat)
    requires Shape(s) && |file| < 0x1_0000_0000
    ensures Clocked(Start(s, addrs, info, file, begun), begun)
  {
    BusGrows([], Sent(UpdateCmd(UPDATE_CMD, addrs)));
    assert [] + [Sent(UpdateCmd(UPDATE_CMD, addrs))] == [Sent(UpdateCmd(UPDATE_CMD, addrs))];
  }

  lemma ClockIs(s: State, sent: nat)
    requires Clocked(s, sent) && s.cur != IDLE
    ensures Shape(s) && s.recs[s.cur].overTick == sent && s.recs[s.cur].resendCnt == Repeats(s.log)
  {
  }

  lemma PollActs(s: State, checked: nat, now: nat)
    requires Shape(s) && s.cur != IDLE && Poll(s, checked, now) != s
    ensures var u := Poll(s, checked, now);
            if s.recs[s.cur].resendCnt < if s.cur == CMD then 100 else 3 then
              u == s.(recs := u.recs, log := s.log + [Resent(s.last)])
            else
              && (forall n :: n in u.nodes <==> n in s.nodes && n.At(s.cur, s.recs[s.cur].offset))
              && if u.nodes == [] then u.cur == IDLE && u.log == s.log + [Failed] else u.log == s.log + [Sent(u.last)]
  {
    hide Finish, KeepAt, Elapsed;
    var rec := s.recs[s.cur].(overTick := now, resendCnt := s.recs[s.cur].resendCnt + 1);
    var m := s.(recs := s.recs[s.cur := rec], nodes := KeepAt(s.nodes, s.cur, rec.offset));
    FinishRestarts(m, now);
    forall n ensures n in m.nodes <==> n in s.nodes && n.At(s.cur, rec.offset) {
      KeepAtIsFilter(s.nodes, s.cur, rec.offset, n);
    }
  }
}
