/**
 Which requested addresses of the second group master are never reported: those taken off the list for a bad CRC
 reply, unless a timeout that ends the step comes after it.
 */
module FileTransferReports {
  import opened Bits
  import opened TransferSteps
  import opened UpdateNodes
  import opened FileTransferProtocol
  import opened FileTransferRuns

  /** A listed node reports a bad CRC. */
  predicate BadReply(s: State, e: Event) {
    e.CrcResponse? && s.cur == CRC && e.ret != 1 && Listed(s.nodes, e.src)
  }

  /** The poll that ends a step: it finds the time elapsed and the resends used up. */
  predicate StepTimeout(s: State, e: Event)
    requires Shape(s)
  {
    e.Tick? && Expired(s, e.checked) && s.recs[s.cur].resendCnt >= ResendMax(s.cur)
  }

  // ----- one event -----

  /** The state after the mark or removal a response causes, before the step is finished. */
  function Handled(s: State, e: Event): (t: State)
    requires Shape(s) && !e.Tick?
    ensures Shape(t) && t == s.(nodes := t.nodes, log := t.log)
  {
    match e
    case CmdResponse(src, ret, _) => if s.cur == CMD && ret == RESPONSE_OK then Mark(s, src, CMD, 0) else s
    case InfoResponse(src, ret, _) => if s.cur == INFO && ret == RESPONSE_OK then Mark(s, src, INFO, 0) else s
    case DataResponse(src, offset, _) =>
      if s.cur == DATA && offset == s.chunk.offset then Mark(s, src, DATA, offset) else s
    case CrcResponse(src, ret, _) =>
      if s.cur != CRC then s else if ret == RESPONSE_OK then Mark(s, src, CRC, 0) else Remove(s, src)
  }

  lemma HandledLog(s: State, e: Event) returns (extra: seq<Entry>)
    requires Shape(s) && !e.Tick?
    ensures Handled(s, e).log == s.log + extra
    ensures forall x | x in extra :: !x.Reported? && (x.Removed? ==> BadReply(s, e) && x == Removed(e.src))
    ensures BadReply(s, e) ==> Removed(e.src) in extra
  {
    hide Listed, SetProcess, RemoveFirst;
    extra := Handled(s, e).log[|s.log|..];
  }

  /** What the upper layer is told of a response: its sender, the phase it belongs to, and the offset of a chunk. Only
      a CRC response that does not say 1 counts as a failure, of phase 3. */
  function NoticeOf(e: Event): Entry
    requires !e.Tick?
  {
    match e
    case CmdResponse(src, _, _) => Notified(src, 0, 0)
    case InfoResponse(src, _, _) => Notified(src, 1, 0)
    case DataResponse(src, offset, _) => Notified(src, 2, offset)
    case CrcResponse(src, ret, _) => if ret == 1 then Notified(src, 3, 0) else Notified(src, -3, 0)
  }

  /** A response is handled, the step finished if everybody is done with it, and the upper layer told. */
  lemma ResponseParts(s: State, e: Event) returns (f: State, n: Entry)
    requires Shape(s) && !e.Tick?
    ensures n == NoticeOf(e) && n.Notified? && Apply(s, e) == f.(log := f.log + [n])
    ensures (f == Handled(s, e)
               && (f == s || !AllAt(f.nodes, s.cur, if s.cur == DATA then s.chunk.offset else 0)))
            || (s.cur != IDLE && AllAt(Handled(s, e).nodes, s.cur, if s.cur == DATA then s.chunk.offset else 0)
                && f == Finish(Handled(s, e), e.now))
    ensures f.log == Handled(s, e).log || f.log == Handled(s, e).log + [Sent(f.last)]
  {
    hide Finish, AllAt, Mark, Remove;
    var m := Handled(s, e);
    var offset := if s.cur == DATA then s.chunk.offset else 0;
    if s.cur != IDLE { FinishLog(m, offset, e.now); }
    match e
    case CmdResponse(src, ret, now) =>
      f, n := HandleCmd(s, src, ret, now), Notified(src, 0, 0);
    case InfoResponse(src, ret, now) =>
      f, n := HandleInfo(s, src, ret, now), Notified(src, 1, 0);
    case DataResponse(src, off, now) =>
      f, n := HandleData(s, src, off, now), Notified(src, 2, off);
    case CrcResponse(src, ret, now) =>
      f, n := HandleCrc(s, src, ret, now), Notified(src, if ret == RESPONSE_OK then 3 else -3, 0);
  }

  lemma FinishLog(s: State, offset: nat, now: nat)
    requires Shape(s) && s.cur != IDLE
    ensures var t := FinishIfSame(s, offset, now); t.log == s.log || t.log == s.log + [Sent(t.last)]
  {
    hide Finish, AllAt;
    FinishFrame(s, now);
  }

  /** What a response adds to the log: no report, and a removal exactly when it is a bad reply of a listed node. */
  lemma ResponseLog(s: State, e: Event) returns (extra: seq<Entry>)
    requires Shape(s) && !e.Tick?
    ensures Apply(s, e).log == s.log + extra
    ensures forall x | x in extra :: !x.Reported? && (x.Removed? ==> BadReply(s, e) && x == Removed(e.src))
    ensures BadReply(s, e) ==> Removed(e.src) in extra
  {
    hide Apply, Handled, BadReply;
    extra := HandledLog(s, e);
    var f, n := ResponseParts(s, e);
    var sent := if f.log == s.log + extra then [] else [Sent(f.last)];
    extra := extra + sent + [n];
  }

  /** How one event changes whether somebody is removed and unreported. */
  lemma PendingStep(s: State, addrs: seq<nat>, e: Event)
    requires Conserved(s, addrs)
    ensures Shape(s) && Conserved(Apply(s, e), addrs)
    ensures PendingSet(Apply(s, e), addrs) != {}
            <==> BadReply(s, e) || (PendingSet(s, addrs) != {} && !StepTimeout(s, e))
  {
    hide Conserved, Apply, PendingSet, Listed, Expired;
    ConservedShape(s, addrs);
    ApplyConserves(s, addrs, e);
    if e.Tick? {
      PendingTick(s, addrs, e);
    } else {
      PendingResponse(s, addrs, e);
    }
  }

  lemma PendingTick(s: State, addrs: seq<nat>, e: Event)
    requires Conserved(s, addrs) && e.Tick?
    ensures Shape(s) && (PendingSet(Apply(s, e), addrs) != {} <==> PendingSet(s, addrs) != {} && !StepTimeout(s, e))
  {
    hide Conserved, ReportCount, Elapsed, Finish, UpdateCheck, KeepAt;
    ConservedShape(s, addrs);
    ApplyConserves(s, addrs, e);
    var t := Apply(s, e);
    if StepTimeout(s, e) {
      TimeoutSettles(s, addrs, e.checked, e.now);
      AccountsPartition(t, addrs);
      ListedIsSet(t);
      assert forall a | a in addrs :: Listed(t.nodes, a) || ReportCount(t.log, a) == 1;
      assert forall a | a in PendingSet(t, addrs) :: a in ListedSet(t);
      assert PendingSet(t, addrs) == {};
    } else if t.log != s.log {
      SamePending(s, t, addrs, Resent(s.last));
    }
  }

  lemma ListedIsSet(s: State)
    ensures forall a :: Listed(s.nodes, a) <==> a in ListedSet(s)
  {
  }

  /** An entry that is neither a report nor a removal changes nothing here. */
  lemma SamePending(s: State, t: State, addrs: seq<nat>, e: Entry)
    requires t.log == s.log + [e] && !e.Reported? && !e.Removed?
    ensures PendingSet(t, addrs) == PendingSet(s, addrs)
  {
  }

  lemma PendingResponse(s: State, addrs: seq<nat>, e: Event)
    requires Conserved(s, addrs) && !e.Tick?
    ensures Shape(s) && (PendingSet(Apply(s, e), addrs) != {} <==> BadReply(s, e) || PendingSet(s, addrs) != {})
  {
    hide Apply, Conserved, ReportCount, BadReply;
    ConservedShape(s, addrs);
    var t := Apply(s, e);
    var extra := ResponseLog(s, e);
    forall a ensures ReportCount(t.log, a) == ReportCount(s.log, a) {
      CountJoin(s.log, extra, a);
    }
    if BadReply(s, e) {
      BadReplyPending(s, addrs, e);
      assert Removed(e.src) in t.log && e.src in PendingSet(t, addrs);
    } else {
      assert PendingSet(t, addrs) == PendingSet(s, addrs);
    }
  }

  lemma CountJoin(log: seq<Entry>, extra: seq<Entry>, a: nat)
    requires forall x | x in extra :: !x.Reported?
    ensures ReportCount(log + extra, a) == ReportCount(log, a)
  {
    assert Reported(a) !in extra;
  }

  lemma BadReplyPending(s: State, addrs: seq<nat>, e: Event)
    requires Conserved(s, addrs) && BadReply(s, e)
    ensures e.src in addrs && ReportCount(s.log, e.src) == 0
  {
    hide ReportCount, Listed;
    ListedWitness(s.nodes, e.src);
    var i :| 0 <= i < |addrs| && addrs[i] == e.src;
    assert Accounted(s.log, s.nodes, s.objAddr[i], addrs[i]);
  }

  // ----- whole runs -----

  /** The state before event `i`. */
  function At(s: State, events: seq<Event>, i: nat): (t: State)
    requires Shape(s) && i <= |events|
    ensures Shape(t)
  {
    Run(s, events[..i])
  }

  /** Some bad reply of a listed node is not followed by a timeout that ends a step. */
  predicate BadReplyLast(s: State, events: seq<Event>)
    requires Shape(s)
  {
    var n := |events|;
    LastUncleared(seq(n, i requires 0 <= i < n => BadReply(At(s, events, i), events[i])),
                  seq(n, i requires 0 <= i < n => StepTimeout(At(s, events, i), events[i])))
  }

  lemma BadReplyLastStep(s: State, front: seq<Event>, e: Event)
    requires Shape(s)
    ensures var m := Run(s, front);
            BadReplyLast(s, front + [e]) <==> BadReply(m, e) || (BadReplyLast(s, front) && !StepTimeout(m, e))
  {
    hide BadReply, StepTimeout, Run, At, LastUncleared;
    var n, events := |front|, front + [e];
    PrefixStates(s, front, e);
    var marks := seq(n, i requires 0 <= i < n => BadReply(At(s, front, i), front[i]));
    var clears := seq(n, i requires 0 <= i < n => StepTimeout(At(s, front, i), front[i]));
    UnclearedStep(marks, clears, BadReply(Run(s, front), e), StepTimeout(Run(s, front), e));
    assert seq(n + 1, i requires 0 <= i < n + 1 => BadReply(At(s, events, i), events[i]))
           == marks + [BadReply(Run(s, front), e)];
    assert seq(n + 1, i requires 0 <= i < n + 1 => StepTimeout(At(s, events, i), events[i]))
           == clears + [StepTimeout(Run(s, front), e)];
  }

  lemma PrefixStates(s: State, front: seq<Event>, e: Event)
    requires Shape(s)
    ensures At(s, front + [e], |front|) == Run(s, front)
    ensures forall i | 0 <= i < |front| :: At(s, front + [e], i) == At(s, front, i)
  {
    hide Run;
    var events := front + [e];
    assert events[..|front|] == front;
    forall i | 0 <= i < |front| ensures At(s, events, i) == At(s, front, i) {
      assert events[..i] == front[..i];
    }
  }

  lemma {:induction false} PendingRun(s: State, addrs: seq<nat>, events: seq<Event>)
    requires Conserved(s, addrs) && PendingSet(s, addrs) == {}
    ensures Shape(s) && Conserved(Run(s, events), addrs)
    ensures PendingSet(Run(s, events), addrs) != {} <==> BadReplyLast(s, events)
  {
    hide Conserved, Apply, PendingSet, BadReplyLast, BadReply, StepTimeout;
    ConservedShape(s, addrs);
    RunConserves(s, addrs, events);
    if events == [] {
      NoBadReply(s);
    } else {
      var n := |events| - 1;
      var front, e := events[..n], events[n];
      assert events == front + [e];
      PendingRun(s, addrs, front);
      RunJoin(s, front, [e]);
      RunOne(Run(s, front), e);
      PendingStep(Run(s, front), addrs, e);
      BadReplyLastStep(s, front, e);
    }
  }

  lemma NoBadReply(s: State)
    requires Shape(s)
    ensures !BadReplyLast(s, []) && Run(s, []) == s
  {
  }

  /** In every run every requested address is still listed or has been reported, except exactly when some bad reply
      of a listed node is not followed by a timeout that ends a step. */
  lemma EveryoneReportedIff(s: State, addrs: seq<nat>, len: nat, file: seq<byte>, now: nat, events: seq<Event>)
    requires Shape(s) && |file| < 0x1_0000_0000 && Requestable(addrs)
    ensures var s0 := Start(s, addrs, len, file, now);
            var t := Run(s0, events);
            (forall a | a in addrs :: Listed(t.nodes, a) || ReportCount(t.log, a) == 1) <==> !BadReplyLast(s0, events)
  {
    hide Run, Start, Conserved, BadReplyLast, ReportCount, Listed;
    var s0 := Start(s, addrs, len, file, now);
    StartConserves(s, addrs, len, file, now);
    StartPendsNobody(s, addrs, len, file, now);
    PendingRun(s0, addrs, events);
    var t := Run(s0, events);
    AccountsPartition(t, addrs);
    ListedIsSet(t);
    if PendingSet(t, addrs) != {} {
      var a :| a in PendingSet(t, addrs);
      assert a in addrs && a !in ListedSet(t) && ReportCount(t.log, a) == 0;
    } else {
      forall a | a in addrs ensures Listed(t.nodes, a) || ReportCount(t.log, a) == 1 {
        assert a in ListedSet(t) + ReportedSet(t, addrs) + PendingSet(t, addrs);
      }
    }
  }

  lemma StartPendsNobody(s: State, addrs: seq<nat>, len: nat, file: seq<byte>, now: nat)
    requires Shape(s) && |file| < 0x1_0000_0000
    ensures PendingSet(Start(s, addrs, len, file, now), addrs) == {}
  {
    var t := Start(s, addrs, len, file, now);
    assert t.log == [Sent(StartCmd(UPDATE_CMD, addrs))];
  }

  // ----- after the end -----

  /** A response that ends the CRC step leaves nobody unreported exactly when nobody was and it is not a bad reply. */
  lemma EndSettlesIff(s: State, addrs: seq<nat>, e: Event)
    requires Conserved(s, addrs) && s.cur == CRC && !e.Tick?
    ensures Shape(s)
    ensures PendingSet(Apply(s, e), addrs) == {} <==> PendingSet(s, addrs) == {} && !BadReply(s, e)
  {
    hide Conserved, Apply, PendingSet, BadReply;
    PendingStep(s, addrs, e);
  }

  lemma IdleOnlyNotifies(s: State, e: Event)
    requires Shape(s) && s.cur == IDLE
    ensures Apply(s, e) == s.(log := Apply(s, e).log)
    ensures Apply(s, e).log == s.log || exists n: Entry :: n.Notified? && Apply(s, e).log == s.log + [n]
  {
    match e
    case Tick(checked, now) =>
    case CmdResponse(src, ret, now) => assert Notified(src, 0, 0).Notified?;
    case InfoResponse(src, ret, now) => assert Notified(src, 1, 0).Notified?;
    case DataResponse(src, offset, now) => assert Notified(src, 2, offset).Notified?;
    case CrcResponse(src, ret, now) => assert Notified(src, if ret == RESPONSE_OK then 3 else -3, 0).Notified?;
  }

  /** An idle master reports nobody any more, whatever happens on the bus. */
  lemma {:induction false} IdleReportsNobody(s: State, events: seq<Event>)
    requires Shape(s) && s.cur == IDLE
    ensures var t := Run(s, events);
            t.cur == IDLE && t.nodes == s.nodes && forall a :: ReportCount(t.log, a) == ReportCount(s.log, a)
    decreases |events|
  {
    hide Apply;
    if events != [] {
      ApplyShape(s, events[0]);
      IdleOnlyNotifies(s, events[0]);
      IdleReportsNobody(Apply(s, events[0]), events[1..]);
    }
  }

  /** The input that shows it: the last node's bad reply ends the transfer like a success, and no later event
      reports the node. */
  lemma BadReplyUnreported(s: State, addrs: seq<nat>, src: nat, ret: nat, now: nat, later: seq<Event>)
    requires Conserved(s, addrs) && s.cur == CRC && |s.nodes| == 1 && s.nodes[0].addr == src && ret != RESPONSE_OK
    ensures Shape(s) && Shape(Apply(s, CrcResponse(src, ret, now)))
    ensures Apply(s, CrcResponse(src, ret, now)).log == s.log + [Removed(src), Notified(src, -3, 0)]
    ensures var t := Run(Apply(s, CrcResponse(src, ret, now)), later);
            t.cur == IDLE && t.nodes == [] && src in addrs && ReportCount(t.log, src) == 0
  {
    hide Conserved, ReportCount, Run;
    ConservedShape(s, addrs);
    var e := CrcResponse(src, ret, now);
    ApplyShape(s, e);
    assert s.nodes[0] in s.nodes && Listed(s.nodes, src);
    assert s.nodes[1..] == [];
    assert Remove(s, src).nodes == [];
    BadReplyPending(s, addrs, e);
    var t := Apply(s, e);
    CountJoin(s.log, [Removed(src), Notified(src, -3, 0)], src);
    IdleReportsNobody(t, later);
  }
}
