/**
 When the second group master gives up waiting: a poll repeats the outstanding message, or drops nodes, exactly
 when long enough a time has passed since a message was last put on the bus.
 */
module FileTransferTiming {
  import opened Bits
  import opened TransferSteps
  import opened UpdateNodes
  import opened FileTransferProtocol
  import Reports = FileTransferReports

  /** The messages put on the bus, repetitions included. */
  function OnBus(log: seq<Entry>): nat {
    if log == [] then 0
    else
      var e := log[|log| - 1];
      OnBus(log[..|log| - 1]) + if e.Sent? || e.Resent? then 1 else 0
  }

  /** The repetitions since a message was last sent for the first time. */
  function Repeats(log: seq<Entry>): nat {
    if log == [] then 0
    else
      var e := log[|log| - 1];
      if e.Sent? then 0 else Repeats(log[..|log| - 1]) + if e.Resent? then 1 else 0
  }

  lemma BusGrows(log: seq<Entry>, e: Entry)
    ensures OnBus(log + [e]) == OnBus(log) + if e.Sent? || e.Resent? then 1 else 0
    ensures Repeats(log + [e]) == if e.Sent? then 0 else Repeats(log) + if e.Resent? then 1 else 0
  {
    assert (log + [e])[..|log|] == log;
  }

  /** When a message was last put on the bus in a session that began at `begun`. */
  function LastSending(s: State, begun: nat, events: seq<Event>): nat
    requires Shape(s)
  {
    if events == [] then begun
    else
      var n := |events| - 1;
      if OnBus(Run(s, events).log) > OnBus(Run(s, events[..n]).log) then events[n].now
      else LastSending(s, begun, events[..n])
  }

  // ----- one poll -----

  /** On a clock of 64 bits, a poll of a waiting step does nothing before 30 ms have passed for the command, 3 s for
      the file information and 1 s for a chunk and the CRC check, and something from then on. A reading from before
      the step's clock was set counts as one from the end of the 64-bit range. */
  lemma PollsOnTime(s: State, checked: nat, now: nat)
    requires Shape(s) && s.cur != IDLE && s.recs[s.cur].overTick < 0x1_0000_0000_0000_0000
    requires checked < 0x1_0000_0000_0000_0000
    ensures var since := checked - s.recs[s.cur].overTick;
            var passed := if since < 0 then since + 0x1_0000_0000_0000_0000 else since;
            Poll(s, checked, now) == s
            <==> passed < if s.cur == CMD then 30 else if s.cur == INFO then 3000 else 1000
  {
    hide Poll, Finish, KeepAt, FileTransferProtocol.Reports;
    var since := checked - s.recs[s.cur].overTick;
    ClockWraps(since);
    if Expired(s, checked) {
      var d := PollParts(s, checked, now);
      FinishRestarts(d, now);
    } else {
      Unexpired(s, checked, now);
    }
  }

  lemma ClockWraps(since: int)
    requires -0x1_0000_0000_0000_0000 < since < 0x1_0000_0000_0000_0000
    ensures since % 0x1_0000_0000_0000_0000 == if since < 0 then since + 0x1_0000_0000_0000_0000 else since
  {
  }

  // ----- clock and count of the current step -----

  /** The step's clock was set when a message was last sent, and its count is that of the repetitions since. */
  ghost predicate Clocked(s: State, sent: nat) {
    && Shape(s)
    && (s.cur != IDLE ==> s.recs[s.cur].overTick == sent && s.recs[s.cur].resendCnt == Repeats(s.log))
  }

  lemma FinishRestarts(s: State, now: nat)
    requires Shape(s) && s.cur != IDLE
    ensures var t := Finish(s, now);
            && Shape(t) && t.nodes == s.nodes
            && t.log == (if s.cur == CRC then s.log else s.log + [Sent(t.last)])
            && (t.cur != IDLE ==> s.cur != CRC && t.recs[t.cur].overTick == now && t.recs[t.cur].resendCnt == 0)
            && (s.cur == CRC ==> t.cur == IDLE)
  {
    hide ReadChunk;
  }

  lemma FinishClocked(s: State, sent: nat, now: nat)
    requires Clocked(s, sent) && s.cur != IDLE
    ensures var t := Finish(s, now); Clocked(t, if OnBus(t.log) > OnBus(s.log) then now else sent)
    ensures OnBus(Finish(s, now).log) >= OnBus(s.log)
  {
    hide Finish, OnBus, Repeats;
    FinishRestarts(s, now);
    BusGrows(s.log, Sent(Finish(s, now).last));
  }

  /** Everything one event can do to the clock. */
  lemma EventClocked(s: State, sent: nat, e: Event)
    requires Clocked(s, sent)
    ensures var t := Apply(s, e); Clocked(t, if OnBus(t.log) > OnBus(s.log) then e.now else sent)
  {
    hide Apply, Finish, AllAt, OnBus, Repeats, Reports.Handled;
    ApplyShape(s, e);
    if e.Tick? {
      TickClocked(s, sent, e);
    } else {
      var m := Reports.Handled(s, e);
      HandledQuiet(s, e);
      var f, n := Reports.ResponseParts(s, e);
      if f != m { FinishClocked(m, sent, e.now); }
      BusGrows(f.log, n);
    }
  }

  lemma HandledQuiet(s: State, e: Event)
    requires Shape(s) && !e.Tick?
    ensures var m := Reports.Handled(s, e); OnBus(m.log) == OnBus(s.log) && Repeats(m.log) == Repeats(s.log)
  {
    hide SetProcess, RemoveFirst, Listed, OnBus, Repeats;
    BusGrows(s.log, Acked(e.src, s.cur, if s.cur == DATA then s.chunk.offset else 0));
    BusGrows(s.log, Removed(e.src));
  }

  lemma {:induction false} ReportsQuiet(log: seq<Entry>, objAddr: seq<nat>, nodes: seq<NodeVal>)
    ensures var all := log + FileTransferProtocol.Reports(objAddr, nodes);
            OnBus(all) == OnBus(log) && Repeats(all) == Repeats(log)
  {
    hide Listed, OnBus, Repeats;
    if objAddr == [] {
      assert log + [] == log;
    } else {
      var n := |objAddr| - 1;
      var front := FileTransferProtocol.Reports(objAddr[..n], nodes);
      ReportsQuiet(log, objAddr[..n], nodes);
      BusGrows(log + front, Reported(objAddr[n]));
      assert log + (front + [Reported(objAddr[n])]) == (log + front) + [Reported(objAddr[n])];
      assert log + (front + []) == log + front;
    }
  }

  /** A poll that acts: a repetition, or what is left after the silent nodes are dropped and reported. */
  lemma PollParts(s: State, checked: nat, now: nat) returns (d: State)
    requires Shape(s) && Expired(s, checked)
    ensures var u, cnt := Poll(s, checked, now), s.recs[s.cur].resendCnt;
            && |u.recs| == 5 && Shape(d) && d.cur == s.cur
            && d.log == s.log + FileTransferProtocol.Reports(s.objAddr, d.nodes)
            && d.nodes == KeepAt(s.nodes, s.cur, s.recs[s.cur].offset)
            && d.recs == s.recs[s.cur := s.recs[s.cur].(overTick := now, resendCnt := cnt + 1)]
            && if cnt < ResendMax(s.cur) then u == s.(recs := d.recs, log := s.log + [Resent(s.last)])
               else if d.nodes == [] then u == d.(cur := IDLE, recs := u.recs, log := d.log + [Aborted])
               else u == Finish(d, now)
  {
    hide KeepAt, Elapsed, FileTransferProtocol.Reports, StruckOut, Finish;
    var rec := s.recs[s.cur].(overTick := now, resendCnt := s.recs[s.cur].resendCnt + 1);
    ApplyShape(s, Tick(checked, now));
    d := UpdateCheck(s.(recs := s.recs[s.cur := rec], nodes := KeepAt(s.nodes, s.cur, rec.offset)));
  }

  lemma TickClocked(s: State, sent: nat, e: Event)
    requires Clocked(s, sent) && e.Tick?
    ensures var t := Apply(s, e); Clocked(t, if OnBus(t.log) > OnBus(s.log) then e.now else sent)
  {
    hide Finish, KeepAt, Elapsed, OnBus, Repeats, Poll;
    ApplyShape(s, e);
    if s.cur != IDLE && Expired(s, e.checked) {
      var d := PollParts(s, e.checked, e.now);
      ReportsQuiet(s.log, s.objAddr, d.nodes);
      BusGrows(s.log, Resent(s.last));
      BusGrows(d.log, Aborted);
      FinishRestarts(d, e.now);
      BusGrows(d.log, Sent(Finish(d, e.now).last));
    } else {
      Unexpired(s, e.checked, e.now);
    }
  }

  lemma Unexpired(s: State, checked: nat, now: nat)
    requires Shape(s) && (s.cur == IDLE || !Expired(s, checked))
    ensures Poll(s, checked, now) == s
  {
  }

  lemma {:induction false} RunClocked(s: State, begun: nat, events: seq<Event>)
    requires Clocked(s, begun)
    ensures Clocked(Run(s, events), LastSending(s, begun, events))
  {
    hide Apply, OnBus, Clocked;
    assert Shape(s) by { ClockedShape(s, begun); }
    if events != [] {
      var n := |events| - 1;
      assert events == events[..n] + [events[n]];
      RunClocked(s, begun, events[..n]);
      RunJoin(s, events[..n], [events[n]]);
      RunOne(Run(s, events[..n]), events[n]);
      EventClocked(Run(s, events[..n]), LastSending(s, begun, events[..n]), events[n]);
    }
  }

  lemma ClockedShape(s: State, sent: nat)
    requires Clocked(s, sent)
    ensures Shape(s)
  {
  }

  // ----- what a poll does, in every run -----

  /** In every run: a poll does nothing until 30 ms, 3 s or 1 s after a message was last put on the bus. From then on
      it repeats the outstanding message, up to 100 times for the command and three times for any other; after that it
      drops exactly the nodes not recorded with the step, reports them, and sends the next message or ends the
      transfer. */
  lemma PollsInRun(s: State, addrs: seq<nat>, len: nat, file: seq<byte>, begun: nat, events: seq<Event>,
                   checked: nat, now: nat)
    requires Shape(s) && |file| < 0x1_0000_0000
    requires Run(Start(s, addrs, len, file, begun), events).cur != IDLE
    requires LastSending(Start(s, addrs, len, file, begun), begun, events) < 0x1_0000_0000_0000_0000
    requires checked < 0x1_0000_0000_0000_0000
    ensures var s0 := Start(s, addrs, len, file, begun);
            var t := Run(s0, events);
            var u := Apply(t, Tick(checked, now));
            var since := checked - LastSending(s0, begun, events);
            var passed := if since < 0 then since + 0x1_0000_0000_0000_0000 else since;
            if passed < if t.cur == CMD then 30 else if t.cur == INFO then 3000 else 1000 then u == t
            else if Repeats(t.log) < if t.cur == CMD then 100 else 3 then
              u == t.(recs := u.recs, log := t.log + [Resent(t.last)])
            else
              && (forall n :: n in u.nodes <==> n in t.nodes && n.At(t.cur, t.recs[t.cur].offset))
              && u.log == t.log + FileTransferProtocol.Reports(t.objAddr, u.nodes)
                          + (if u.nodes == [] then [Aborted] else if t.cur == CRC then [] else [Sent(u.last)])
              && (u.nodes == [] || t.cur == CRC ==> u.cur == IDLE)
  {
    hide Run, Start, LastSending, Clocked, OnBus, Repeats, Poll;
    var s0 := Start(s, addrs, len, file, begun);
    StartClocked(s, addrs, len, file, begun);
    RunClocked(s0, begun, events);
    var t := Run(s0, events);
    ClockIs(t, LastSending(s0, begun, events));
    PollsOnTime(t, checked, now);
    if Poll(t, checked, now) != t { PollActs(t, checked, now); }
  }

  lemma StartClocked(s: State, addrs: seq<nat>, len: nat, file: seq<byte>, begun: nat)
    requires Shape(s) && |file| < 0x1_0000_0000
    ensures Clocked(Start(s, addrs, len, file, begun), begun)
  {
    BusGrows([], Sent(StartCmd(UPDATE_CMD, addrs)));
    assert [] + [Sent(StartCmd(UPDATE_CMD, addrs))] == [Sent(StartCmd(UPDATE_CMD, addrs))];
  }

  lemma ClockIs(s: State, sent: nat)
    requires Clocked(s, sent) && s.cur != IDLE
    ensures Shape(s) && s.recs[s.cur].overTick == sent && s.recs[s.cur].resendCnt == Repeats(s.log)
  {
  }

  lemma PollActs(s: State, checked: nat, now: nat)
    requires Shape(s) && s.cur != IDLE && Poll(s, checked, now) != s
    ensures var u := Poll(s, checked, now);
            if s.recs[s.cur].resendCnt < if s.cur == CMD then 100 else 3 then
              u == s.(recs := u.recs, log := s.log + [Resent(s.last)])
            else
              && (forall n :: n in u.nodes <==> n in s.nodes && n.At(s.cur, s.recs[s.cur].offset))
              && u.log == s.log + FileTransferProtocol.Reports(s.objAddr, u.nodes)
                          + (if u.nodes == [] then [Aborted] else if s.cur == CRC then [] else [Sent(u.last)])
              && (u.nodes == [] || s.cur == CRC ==> u.cur == IDLE)
  {
    hide Finish, KeepAt, Elapsed, Poll, FileTransferProtocol.Reports;
    if !Expired(s, checked) { Unexpired(s, checked, now); }
    var d := PollParts(s, checked, now);
    FinishRestarts(d, now);
    forall n ensures n in d.nodes <==> n in s.nodes && n.At(s.cur, s.recs[s.cur].offset) {
      KeepAtIsFilter(s.nodes, s.cur, s.recs[s.cur].offset, n);
    }
  }
}
