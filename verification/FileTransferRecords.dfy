/**
 What the second group master's node records mean: a listed node is recorded with the outstanding message exactly
 when a response of it to that message was accepted since the message was sent. So the timeout that ends a step
 drops exactly the silent nodes, as long as the transfer began with the DATA record at 0.
 */
module FileTransferRecords {
  import opened Bits
  import opened TransferSteps
  import opened UpdateNodes
  import opened FileTransferProtocol
  import opened FileTransferRuns
  import opened FileTransferOffsets

  /** The offset a response has to match, and a node is recorded with. */
  function Target(s: State): nat {
    if s.cur == DATA then s.chunk.offset else 0
  }

  /** A response of `addr` with this step and offset was accepted since the last new message was sent. */
  predicate AckedSince(log: seq<Entry>, addr: nat, step: nat, offset: nat) {
    log != [] &&
    var e := log[|log| - 1];
    !e.Sent? && (e == Acked(addr, step, offset) || AckedSince(log[..|log| - 1], addr, step, offset))
  }

  ghost predicate Recorded(s: State) {
    s.cur != IDLE ==>
      forall n | n in s.nodes :: n.At(s.cur, Target(s)) <==> AckedSince(s.log, n.addr, s.cur, Target(s))
  }

  /** Some listed node has not answered the outstanding message. */
  ghost predicate Owes(s: State) {
    s.cur != IDLE && s.nodes != [] ==> !AllAt(s.nodes, s.cur, Target(s))
  }

  lemma SinceGrows(log: seq<Entry>, e: Entry, addr: nat, step: nat, offset: nat)
    ensures AckedSince(log + [e], addr, step, offset)
            <==> !e.Sent? && (e == Acked(addr, step, offset) || AckedSince(log, addr, step, offset))
  {
    assert (log + [e])[..|log|] == log;
  }

  // ----- the parts of the handlers -----

  lemma QuietRecorded(s: State, t: State, e: Entry)
    requires Recorded(s) && t.cur == s.cur && t.chunk == s.chunk && (forall n | n in t.nodes :: n in s.nodes)
    requires t.log == s.log || t.log == s.log + [e]
    requires !e.Sent? && !e.Acked?
    ensures Recorded(t)
  {
    hide AckedSince;
    forall n | n in t.nodes
      ensures AckedSince(t.log, n.addr, s.cur, Target(s)) == AckedSince(s.log, n.addr, s.cur, Target(s))
    {
      SinceGrows(s.log, e, n.addr, s.cur, Target(s));
    }
  }

  lemma MarkRecorded(s: State, src: nat)
    requires Recorded(s) && DistinctAddrs(s.nodes) && s.cur != IDLE
    ensures Recorded(Mark(s, src, s.cur, Target(s)))
  {
    hide AckedSince, SetProcess;
    var k := Target(s);
    var t := Mark(s, src, s.cur, k);
    forall n | n in t.nodes ensures n.At(s.cur, k) <==> AckedSince(t.log, n.addr, s.cur, k) {
      var i :| 0 <= i < |t.nodes| && t.nodes[i] == n;
      SetProcessAt(s.nodes, src, s.cur, k, i);
      assert s.nodes[i] in s.nodes;
      SinceGrows(s.log, Acked(src, s.cur, k), n.addr, s.cur, k);
      if s.nodes[i].addr == src { ListedIs(s.nodes, s.nodes[i]); }
    }
  }

  /** Everybody is done: the next message has a new target, which nobody has answered. */
  lemma FinishRecorded(s: State, now: nat)
    requires Tables(s) && s.cur != IDLE && AllAt(s.nodes, s.cur, Target(s))
    ensures Recorded(Finish(s, now)) && Owes(Finish(s, now))
  {
    hide AckedSince, ReadChunk;
    FinishFrame(s, now);
    FinishMoves(s, now);
    FinishOffsets(s, now);
    var t := Finish(s, now);
    if t.cur != IDLE {
      forall n | n in t.nodes ensures !n.At(t.cur, Target(t)) && !AckedSince(t.log, n.addr, t.cur, Target(t)) {
        SinceGrows(s.log, Sent(t.last), n.addr, t.cur, Target(t));
      }
      if t.nodes != [] { assert t.nodes[0] in t.nodes; }
    }
  }

  lemma FinishIfSameRecorded(s: State, now: nat)
    requires Tables(s) && s.cur != IDLE && Recorded(s)
    ensures Recorded(FinishIfSame(s, Target(s), now)) && Owes(FinishIfSame(s, Target(s), now))
  {
    hide Finish, AllAt, Recorded;
    if AllAt(s.nodes, s.cur, Target(s)) { FinishRecorded(s, now); }
  }

  // ----- every event -----

  /** A timeout that ends a step leaves nodes that answered it; with a stale record at the first chunk, nobody. */
  lemma PollRecorded(s: State, k: nat, checked: nat, now: nat)
    requires StaleBy(s, k) && OffsetsZero(s) && Recorded(s) && Owes(s)
    ensures Recorded(Poll(s, checked, now)) && Owes(Poll(s, checked, now))
  {
    hide Finish, KeepAt, Elapsed, UpdateCheck, AllAt;
    if Expired(s, checked) {
      var rec := s.recs[s.cur].(overTick := now, resendCnt := s.recs[s.cur].resendCnt + 1);
      if rec.resendCnt <= ResendMax(s.cur) {
        QuietRecorded(s, Poll(s, checked, now), Resent(s.last));
      } else {
        var m := s.(recs := s.recs[s.cur := rec], nodes := KeepAt(s.nodes, s.cur, rec.offset));
        CheckOffsets(m);
        var s2 := UpdateCheck(m);
        forall n | n in s2.nodes ensures n in s.nodes && n.At(s.cur, rec.offset) {
          KeepAtIsFilter(s.nodes, s.cur, rec.offset, n);
        }
        if s2.nodes != [] {
          assert s2.nodes[0] in s2.nodes;
          assert rec.offset == Target(s2);
          EveryoneAt(s2);
          FinishRecorded(s2, now);
        }
      }
    }
  }

  lemma EveryoneAt(s: State)
    requires forall n | n in s.nodes :: n.At(s.cur, Target(s))
    ensures AllAt(s.nodes, s.cur, Target(s))
  {
  }

  lemma NotifyRecorded(s: State, src: nat, result: int, offset: nat)
    requires Recorded(s) && Owes(s)
    ensures Recorded(Notify(s, src, result, offset)) && Owes(Notify(s, src, result, offset))
  {
    hide AllAt;
    QuietRecorded(s, Notify(s, src, result, offset), Notified(src, result, offset));
  }

  /** A response that is accepted marks its sender. */
  lemma AcceptRecorded(s: State, src: nat, accepted: bool, now: nat)
    requires Tables(s) && Recorded(s) && DistinctAddrs(s.nodes) && s.cur != IDLE
    ensures var m := if accepted then Mark(s, src, s.cur, Target(s)) else s;
            Tables(m) && Recorded(FinishIfSame(m, Target(s), now)) && Owes(FinishIfSame(m, Target(s), now))
  {
    hide FinishIfSame, SetProcess, Recorded, Listed, Owes;
    MarkRecorded(s, src);
    var m := if accepted then Mark(s, src, s.cur, Target(s)) else s;
    FinishIfSameRecorded(m, now);
  }

  lemma RemoveRecorded(s: State, src: nat, now: nat)
    requires Tables(s) && Recorded(s) && DistinctAddrs(s.nodes) && s.cur == CRC
    ensures Tables(Remove(s, src))
    ensures Recorded(FinishIfSame(Remove(s, src), 0, now)) && Owes(FinishIfSame(Remove(s, src), 0, now))
  {
    hide FinishIfSame, RemoveFirst, Listed, Owes;
    RemoveAddrs(s.nodes, src);
    QuietRecorded(s, Remove(s, src), Removed(src));
    FinishIfSameRecorded(Remove(s, src), now);
  }

  lemma ApplyRecorded(s: State, k: nat, e: Event)
    requires StaleBy(s, k) && OffsetsZero(s) && Recorded(s) && Owes(s) && DistinctAddrs(s.nodes)
    ensures Recorded(Apply(s, e)) && Owes(Apply(s, e))
  {
    hide Poll, FinishIfSame, Mark, Remove, Recorded, Notify, Owes, OffsetsZero;
    match e
    case Tick(checked, now) =>
      PollRecorded(s, k, checked, now);
    case CmdResponse(src, ret, now) =>
      if s.cur == CMD { AcceptRecorded(s, src, ret == RESPONSE_OK, now); }
      NotifyRecorded(HandleCmd(s, src, ret, now), src, 0, 0);
    case InfoResponse(src, ret, now) =>
      if s.cur == INFO { AcceptRecorded(s, src, ret == RESPONSE_OK, now); }
      NotifyRecorded(HandleInfo(s, src, ret, now), src, 1, 0);
    case DataResponse(src, offset, now) =>
      if s.cur == DATA { AcceptRecorded(s, src, offset == s.chunk.offset, now); }
      NotifyRecorded(HandleData(s, src, offset, now), src, 2, offset);
    case CrcResponse(src, ret, now) =>
      if s.cur == CRC {
        AcceptRecorded(s, src, true, now);
        RemoveRecorded(s, src, now);
      }
      NotifyRecorded(HandleCrc(s, src, ret, now), src, if ret == RESPONSE_OK then 3 else -3, 0);
  }

  /** What a start from any tables establishes and every event keeps. */
  ghost predicate InOrder(s: State, k: nat, addrs: seq<nat>) {
    StaleBy(s, k) && OffsetsZero(s) && Recorded(s) && Owes(s) && Conserved(s, addrs)
  }

  lemma {:induction false} RunRecorded(s: State, k: nat, addrs: seq<nat>, events: seq<Event>)
    requires InOrder(s, k, addrs)
    ensures Shape(s) && InOrder(Run(s, events), k, addrs)
    decreases |events|
  {
    hide Apply, Conserved, Recorded, Owes, OffsetsZero, StaleBy;
    ConservedShape(s, addrs);
    if events != [] {
      var e := events[0];
      ApplyRecorded(s, k, e);
      ApplyConserves(s, addrs, e);
      ApplyStale(s, k, e);
      StaleTables(s, k);
      ApplyZero(s, e);
      RunRecorded(Apply(s, e), k, addrs, events[1..]);
    }
  }

  lemma StaleTables(s: State, k: nat)
    requires StaleBy(s, k)
    ensures Tables(s)
  {
  }

  lemma StartRecorded(s: State, addrs: seq<nat>, len: nat, file: seq<byte>, now: nat)
    requires Tables(s) && |file| < 0x1_0000_0000 && Requestable(addrs)
    ensures InOrder(Start(s, addrs, len, file, now), s.recs[DATA].offset, addrs)
  {
    hide Conserved;
    var t := Start(s, addrs, len, file, now);
    StartConserves(s, addrs, len, file, now);
    StartMirrorsIff(s, addrs, len, file, now);
    assert t.log == [] + [Sent(StartCmd(UPDATE_CMD, addrs))];
    forall n | n in t.nodes ensures !n.At(CMD, 0) && !AckedSince(t.log, n.addr, CMD, 0) {
      SinceGrows([], Sent(StartCmd(UPDATE_CMD, addrs)), n.addr, CMD, 0);
    }
    if t.nodes != [] { assert t.nodes[0] in t.nodes; }
  }

  // ----- the timeout that ends a step -----

  /** In a transfer that begins with the DATA record at 0, the timeout that ends a step keeps exactly the listed
      addresses whose response to the outstanding message has been accepted since it was sent. */
  lemma TimeoutKeepsAnswered(s: State, addrs: seq<nat>, len: nat, file: seq<byte>, now: nat, events: seq<Event>,
                             checked: nat, later: nat, a: nat)
    requires Tables(s) && s.recs[DATA].offset == 0 && |file| < 0x1_0000_0000 && Requestable(addrs)
    requires var t := Run(Start(s, addrs, len, file, now), events);
             Expired(t, checked) && t.recs[t.cur].resendCnt >= ResendMax(t.cur)
    ensures var t := Run(Start(s, addrs, len, file, now), events);
            Listed(Poll(t, checked, later).nodes, a)
            <==> Listed(t.nodes, a) && AckedSince(t.log, a, t.cur, Target(t))
  {
    hide Run, Start, Poll, Conserved, AckedSince, KeepAt, Elapsed;
    var s0 := Start(s, addrs, len, file, now);
    StartRecorded(s, addrs, len, file, now);
    RunRecorded(s0, 0, addrs, events);
    var t := Run(s0, events);
    TimeoutNodes(t, checked, later);
    KeptAnswered(t, a);
  }

  lemma KeptAnswered(t: State, a: nat)
    requires Tables(t) && t.recs[t.cur].offset == Target(t) && Recorded(t) && t.cur != IDLE
    ensures Listed(KeepAt(t.nodes, t.cur, t.recs[t.cur].offset), a)
            <==> Listed(t.nodes, a) && AckedSince(t.log, a, t.cur, Target(t))
  {
    hide AckedSince, KeepAt;
    var k := Target(t);
    forall n ensures n in KeepAt(t.nodes, t.cur, k) <==> n in t.nodes && n.At(t.cur, k) {
      KeepAtIsFilter(t.nodes, t.cur, k, n);
    }
  }

  /** Whatever the record held: with at most one address, nobody who answered is dropped, since that answer ends the
      step at once; and without a file there is no data phase. */
  lemma FewKeepAnswered(s: State, addrs: seq<nat>, len: nat, file: seq<byte>, now: nat, events: seq<Event>,
                        checked: nat, later: nat, a: nat)
    requires Tables(s) && |file| < 0x1_0000_0000 && Requestable(addrs) && (|addrs| <= 1 || file == [])
    requires var t := Run(Start(s, addrs, len, file, now), events);
             Expired(t, checked) && t.recs[t.cur].resendCnt >= ResendMax(t.cur)
    ensures var t := Run(Start(s, addrs, len, file, now), events);
            Listed(Poll(t, checked, later).nodes, a)
            <==> Listed(t.nodes, a) && AckedSince(t.log, a, t.cur, Target(t))
  {
    hide Run, Start, Poll, Conserved, AckedSince, KeepAt, Elapsed, AllAt;
    var s0, k := Start(s, addrs, len, file, now), s.recs[DATA].offset;
    StartRecorded(s, addrs, len, file, now);
    RunRecorded(s0, k, addrs, events);
    StartFile(s, addrs, len, file, now);
    RunFile(s0, events);
    var t := Run(s0, events);
    TimeoutNodes(t, checked, later);
    if t.recs[t.cur].offset == Target(t) {
      KeptAnswered(t, a);
    } else {
      NodesWithin(t, addrs);
      LoneNodeOwes(t);
      forall n | n in t.nodes ensures n.offset == 0 && !AckedSince(t.log, n.addr, DATA, 0) {}
      NoneAt(t.nodes, t.recs[DATA].offset);
    }
  }

  lemma StartFile(s: State, addrs: seq<nat>, len: nat, file: seq<byte>, now: nat)
    requires Shape(s) && |file| < 0x1_0000_0000
    ensures Start(s, addrs, len, file, now).file == file
  {
  }

  lemma LoneNodeOwes(t: State)
    requires Owes(t) && t.cur != IDLE && |t.nodes| <= 1
    ensures forall n | n in t.nodes :: !n.At(t.cur, Target(t))
  {
  }

  lemma NodesWithin(t: State, addrs: seq<nat>)
    requires Conserved(t, addrs) && |addrs| <= 1
    ensures |t.nodes| <= 1
  {
    if |t.nodes| >= 2 {
      TwoNodesTwoAddrs(t.nodes, addrs);
    }
  }

  lemma TwoNodesTwoAddrs(nodes: seq<NodeVal>, addrs: seq<nat>)
    requires DistinctAddrs(nodes) && |nodes| >= 2 && forall n | n in nodes :: n.addr in addrs
    ensures |addrs| >= 2
  {
    assert nodes[0] in nodes && nodes[1] in nodes;
  }

  lemma {:induction false} RunFile(s: State, events: seq<Event>)
    requires Shape(s)
    ensures Run(s, events).file == s.file && Run(s, events).infoLen == s.infoLen
    decreases |events|
  {
    hide Apply;
    if events != [] {
      ApplyShape(s, events[0]);
      ApplyFile(s, events[0]);
      RunFile(Apply(s, events[0]), events[1..]);
    }
  }

  lemma ApplyFile(s: State, e: Event)
    requires Shape(s)
    ensures Apply(s, e).file == s.file && Apply(s, e).infoLen == s.infoLen
  {
    hide KeepAt, SetProcess, RemoveFirst, AllAt, Elapsed, Reports, ReadChunk, StruckOut;
  }

  lemma NoneAt(nodes: seq<NodeVal>, offset: nat)
    requires forall n | n in nodes :: n.offset != offset
    ensures KeepAt(nodes, DATA, offset) == []
  {
    var kept := KeepAt(nodes, DATA, offset);
    if kept != [] {
      KeepAtIsFilter(nodes, DATA, offset, kept[0]);
    }
  }
}
