/**
 The offset in the DATA step record of the second group master. The switch function writes the offset into
 the record of the step being left; the record mirrors the chunk being sent in every transfer that finds it at 0.
 A data phase that is cut off past its first chunk leaves it at another value.
 */
module FileTransferOffsets {
  import opened Bits
  import opened TransferSteps
  import opened UpdateNodes
  import opened FileTransferProtocol
  import opened FileTransferRuns
  import FileImage

  /** The DATA record holds the offset of the outstanding chunk, every other record holds 0. */
  predicate Mirror(s: State) {
    && Tables(s)
    && s.recs[DATA].offset == if s.cur == DATA then s.chunk.offset else 0
  }

  predicate Tables(s: State) {
    && Shape(s)
    && s.recs[IDLE].offset == 0 && s.recs[CMD].offset == 0 && s.recs[INFO].offset == 0 && s.recs[CRC].offset == 0
    && (s.cur == DATA ==>
          && s.chunk.offset < |s.file|
          && s.chunk.dataLen == FileImage.ChunkLen(|s.file|, s.chunk.offset, FileImage.CHUNK_MAX))
  }

  /** Leaving any step, by whatever `finish_handle`, sets the DATA record to what the new state needs, unless the
      step left is not DATA and the record was stale already. */
  lemma FinishOffsets(s: State, now: nat)
    requires Tables(s) && s.cur != IDLE
    ensures var t := Finish(s, now);
            && Tables(t)
            && (t.cur == DATA ==> t.chunk.offset == if s.cur == DATA then s.chunk.offset + s.chunk.dataLen else 0)
            && t.recs[DATA].offset ==
                 if s.cur != DATA then s.recs[DATA].offset else if t.cur == DATA then t.chunk.offset else 0
  {
  }

  lemma CheckOffsets(s: State)
    requires Tables(s)
    ensures var t := UpdateCheck(s);
            && Tables(t) && t.cur == s.cur && t.recs == s.recs && t.chunk == s.chunk && t.file == s.file
            && t.nodes == s.nodes
  {
  }

  /** The records of a session whose DATA record held `k` when it was started: the old value stays until the
      second chunk, the CRC check or the end of a data phase overwrites it. */
  predicate StaleBy(s: State, k: nat) {
    && Tables(s)
    && if s.cur == CMD || s.cur == INFO then s.recs[DATA].offset == k
       else if s.cur == DATA then s.recs[DATA].offset == if s.chunk.offset == 0 then k else s.chunk.offset
       else if s.cur == CRC then s.recs[DATA].offset == 0
       else s.recs[DATA].offset == 0 || s.recs[DATA].offset == k
  }

  lemma MirrorIsNotStale(s: State)
    ensures Mirror(s) <==> StaleBy(s, 0)
  {
  }

  lemma FinishStale(s: State, k: nat, offset: nat, now: nat)
    requires StaleBy(s, k) && s.cur != IDLE
    ensures StaleBy(Finish(s, now), k) && StaleBy(FinishIfSame(s, offset, now), k)
  {
    hide Finish, AllAt;
    FinishOffsets(s, now);
    FinishMoves(s, now);
  }

  lemma FinishMoves(s: State, now: nat)
    requires Tables(s) && s.cur != IDLE
    ensures var c := Finish(s, now).cur;
            if s.cur == CMD then c == INFO
            else if s.cur == INFO then c == if |s.file| > 0 then DATA else IDLE
            else if s.cur == DATA then c == (if s.chunk.offset + s.chunk.dataLen < |s.file| then DATA else CRC)
            else c == IDLE
    ensures s.cur == DATA ==> s.chunk.dataLen > 0
  {
  }

  lemma PollStale(s: State, k: nat, checked: nat, now: nat)
    requires StaleBy(s, k)
    ensures StaleBy(Poll(s, checked, now), k)
  {
    hide Finish, KeepAt, Elapsed, UpdateCheck;
    if Expired(s, checked) && s.recs[s.cur].resendCnt >= ResendMax(s.cur) {
      var rec := s.recs[s.cur].(overTick := now, resendCnt := s.recs[s.cur].resendCnt + 1);
      var m := s.(recs := s.recs[s.cur := rec], nodes := KeepAt(s.nodes, s.cur, rec.offset));
      CheckOffsets(m);
      if m.nodes != [] { FinishStale(UpdateCheck(m), k, 0, now); }
    }
  }

  lemma ApplyStale(s: State, k: nat, e: Event)
    requires StaleBy(s, k)
    ensures StaleBy(Apply(s, e), k)
  {
    hide Poll, FinishIfSame, SetProcess, RemoveFirst, Listed, Finish;
    match e
    case Tick(checked, now) =>
      PollStale(s, k, checked, now);
    case CmdResponse(src, ret, now) =>
      if s.cur == CMD { FinishStale(if ret == RESPONSE_OK then Mark(s, src, CMD, 0) else s, k, 0, now); }
    case InfoResponse(src, ret, now) =>
      if s.cur == INFO { FinishStale(if ret == RESPONSE_OK then Mark(s, src, INFO, 0) else s, k, 0, now); }
    case DataResponse(src, offset, now) =>
      if s.cur == DATA {
        FinishStale(if offset == s.chunk.offset then Mark(s, src, DATA, offset) else s, k, s.chunk.offset, now);
      }
    case CrcResponse(src, ret, now) =>
      if s.cur == CRC { FinishStale(if ret == RESPONSE_OK then Mark(s, src, CRC, 0) else Remove(s, src), k, 0, now); }
  }

  // ----- whole histories -----

  datatype Action =
    | Begin(addrs: seq<nat>, len: nat, file: seq<byte>, now: nat)
    | Bus(e: Event)

  predicate Admissible(a: Action) {
    a.Begin? ==> |a.file| < 0x1_0000_0000
  }

  function Act(s: State, a: Action): (t: State)
    requires Shape(s) && Admissible(a)
    ensures Shape(t)
  {
    match a
    case Begin(addrs, len, file, now) => Start(s, addrs, len, file, now)
    case Bus(e) => ApplyShape(s, e); Apply(s, e)
  }

  function History(s: State, actions: seq<Action>): (t: State)
    requires Shape(s) && forall a | a in actions :: Admissible(a)
    ensures Shape(t)
    decreases |actions|
  {
    if actions == [] then s
    else
      assert Admissible(actions[0]) by { assert actions[0] in actions; }
      History(Act(s, actions[0]), actions[1..])
  }

  /** No transfer is started while another one is running. */
  predicate StartsFromIdle(s: State, actions: seq<Action>)
    requires Shape(s) && forall a | a in actions :: Admissible(a)
    decreases |actions|
  {
    actions == [] ||
    (assert Admissible(actions[0]) by { assert actions[0] in actions; }
     (actions[0].Begin? ==> s.cur == IDLE) && StartsFromIdle(Act(s, actions[0]), actions[1..]))
  }

  /** A start leaves the DATA record alone, so the mirror holds after it exactly when the record was 0. */
  lemma StartMirrorsIff(s: State, addrs: seq<nat>, len: nat, file: seq<byte>, now: nat)
    requires Tables(s) && |file| < 0x1_0000_0000
    ensures Mirror(Start(s, addrs, len, file, now)) <==> s.recs[DATA].offset == 0
    ensures StaleBy(Start(s, addrs, len, file, now), s.recs[DATA].offset)
  {
  }

  /** The start interrupts a data phase past its first chunk. */
  predicate Interrupts(s: State, a: Action) {
    a.Begin? && s.cur == DATA && s.chunk.offset > 0
  }

  lemma ActMirrorsIff(s: State, a: Action)
    requires Mirror(s) && Admissible(a)
    ensures Mirror(Act(s, a)) <==> !Interrupts(s, a)
  {
    hide Start, Apply;
    match a
    case Begin(addrs, len, file, now) =>
      StartMirrorsIff(s, addrs, len, file, now);
    case Bus(e) =>
      MirrorIsNotStale(s);
      ApplyShape(s, e);
      ApplyStale(s, 0, e);
      MirrorIsNotStale(Apply(s, e));
  }

  lemma {:induction false} HistoryStep(s: State, actions: seq<Action>, a: Action)
    requires Shape(s) && (forall b | b in actions :: Admissible(b)) && Admissible(a)
    ensures History(s, actions + [a]) == Act(History(s, actions), a)
    decreases |actions|
  {
    hide Act;
    if actions == [] {
      assert [] + [a] == [a] && [a][1..] == [];
    } else {
      assert Admissible(actions[0]) by { assert actions[0] in actions; }
      assert (actions + [a])[1..] == actions[1..] + [a];
      HistoryStep(Act(s, actions[0]), actions[1..], a);
    }
  }

  /** The state before action `i`. */
  function Before(s: State, actions: seq<Action>, i: nat): State
    requires Shape(s) && (forall a | a in actions :: Admissible(a)) && i <= |actions|
  {
    History(s, actions[..i])
  }

  lemma BeforeNext(s: State, actions: seq<Action>, i: nat)
    requires Shape(s) && (forall a | a in actions :: Admissible(a)) && i < |actions|
    ensures Admissible(actions[i]) && Shape(Before(s, actions, i))
    ensures Before(s, actions, i + 1) == Act(Before(s, actions, i), actions[i])
  {
    hide Act, History;
    assert actions[i] in actions;
    assert actions[..i + 1] == actions[..i] + [actions[i]];
    HistoryStep(s, actions[..i], actions[i]);
  }

  /** The DATA record mirrors the chunk throughout a history exactly when no start in it interrupts a data phase past
      its first chunk. */
  lemma MirroredThroughoutIff(s: State, actions: seq<Action>)
    requires Mirror(s) && forall a | a in actions :: Admissible(a)
    ensures (forall i | 0 <= i <= |actions| :: Mirror(Before(s, actions, i)))
            <==> (forall i | 0 <= i < |actions| :: !Interrupts(Before(s, actions, i), actions[i]))
  {
    hide Mirror, Act, History, Interrupts, Before;
    assert Shape(s) by { MirrorShape(s); }
    if forall i | 0 <= i <= |actions| :: Mirror(Before(s, actions, i)) {
      forall i | 0 <= i < |actions| ensures !Interrupts(Before(s, actions, i), actions[i]) {
        BeforeNext(s, actions, i);
        assert Mirror(Before(s, actions, i)) && Mirror(Before(s, actions, i + 1));
        ActMirrorsIff(Before(s, actions, i), actions[i]);
      }
    }
    if forall i | 0 <= i < |actions| :: !Interrupts(Before(s, actions, i), actions[i]) {
      forall i | 0 <= i <= |actions| ensures Mirror(Before(s, actions, i)) {
        UninterruptedMirrors(s, actions, i);
      }
    }
  }

  lemma MirrorShape(s: State)
    requires Mirror(s)
    ensures Shape(s)
  {
  }

  lemma {:induction false} UninterruptedMirrors(s: State, actions: seq<Action>, i: nat)
    requires Mirror(s) && (forall a | a in actions :: Admissible(a)) && i <= |actions|
    requires forall j | 0 <= j < |actions| :: !Interrupts(Before(s, actions, j), actions[j])
    ensures Mirror(Before(s, actions, i))
  {
    hide Mirror, Act, Interrupts;
    MirrorShape(s);
    if i > 0 {
      hide Before;
      UninterruptedMirrors(s, actions, i - 1);
      BeforeNext(s, actions, i - 1);
      ActMirrorsIff(Before(s, actions, i - 1), actions[i - 1]);
    } else {
      assert actions[..0] == [];
    }
  }

  /** In every history in which transfers are started only from idle, the DATA record mirrors the chunk. */
  lemma {:induction false} OffsetMirrored(s: State, actions: seq<Action>)
    requires Mirror(s) && (forall a | a in actions :: Admissible(a)) && StartsFromIdle(s, actions)
    ensures Mirror(History(s, actions))
    decreases |actions|
  {
    hide Mirror, Start, Apply;
    MirrorShape(s);
    if actions != [] {
      assert actions[0] in actions;
      ActMirrorsIff(s, actions[0]);
      OffsetMirrored(Act(s, actions[0]), actions[1..]);
    }
  }

  // ----- what the record decides -----

  /** When the resends of a chunk are used up, exactly the nodes recorded with the outstanding chunk stay, provided
      the record mirrors it. */
  lemma DataTimeoutKeepsAcked(s: State, checked: nat, now: nat, v: NodeVal)
    requires Mirror(s) && s.cur == DATA && Expired(s, checked) && s.recs[DATA].resendCnt >= ResendMax(DATA)
    ensures v in Poll(s, checked, now).nodes <==> v in s.nodes && v.At(DATA, s.chunk.offset)
  {
    hide Finish, KeepAt, Elapsed, UpdateCheck;
    TimeoutNodes(s, checked, now);
    KeepAtIsFilter(s.nodes, DATA, s.chunk.offset, v);
  }

  lemma TimeoutNodes(s: State, checked: nat, now: nat)
    requires Tables(s) && s.cur != IDLE && Expired(s, checked) && s.recs[s.cur].resendCnt >= ResendMax(s.cur)
    ensures Poll(s, checked, now).nodes == KeepAt(s.nodes, s.cur, s.recs[s.cur].offset)
  {
    hide Finish, KeepAt, Elapsed, UpdateCheck;
    var rec := s.recs[s.cur].(overTick := now, resendCnt := s.recs[s.cur].resendCnt + 1);
    var m := s.(recs := s.recs[s.cur := rec], nodes := KeepAt(s.nodes, s.cur, rec.offset));
    CheckOffsets(m);
    if m.nodes != [] { FinishFrame(UpdateCheck(m), now); }
  }

  /** With a stale record the same timeout drops everybody, whoever has acknowledged the chunk, and aborts. */
  lemma StaleTimeoutDropsAll(s: State, k: nat, checked: nat, now: nat)
    requires StaleBy(s, k) && k > 0 && s.cur == DATA && s.chunk.offset == 0
    requires forall n | n in s.nodes :: n.offset == 0
    requires Expired(s, checked) && s.recs[DATA].resendCnt >= ResendMax(DATA)
    ensures Poll(s, checked, now).nodes == [] && Aborted in Poll(s, checked, now).log
  {
    hide Finish, KeepAt, Elapsed, UpdateCheck;
    TimeoutNodes(s, checked, now);
    var kept := KeepAt(s.nodes, DATA, k);
    if kept != [] {
      KeepAtIsFilter(s.nodes, DATA, k, kept[0]);
    }
    var rec := s.recs[DATA].(overTick := now, resendCnt := s.recs[DATA].resendCnt + 1);
    CheckOffsets(s.(recs := s.recs[DATA := rec], nodes := kept));
  }

  /** Until the second chunk no node has a recorded offset other than 0. */
  ghost predicate OffsetsZero(s: State) {
    s.cur == CMD || s.cur == INFO || (s.cur == DATA && s.chunk.offset == 0) ==> forall n | n in s.nodes :: n.offset == 0
  }

  lemma FinishZero(s: State, offset: nat, now: nat)
    requires Tables(s) && s.cur != IDLE && OffsetsZero(s)
    ensures OffsetsZero(Finish(s, now)) && OffsetsZero(FinishIfSame(s, offset, now))
  {
    hide Finish, AllAt;
    FinishFrame(s, now);
    FinishOffsets(s, now);
    FinishMoves(s, now);
  }

  lemma MarkZero(s: State, src: nat, step: nat, offset: nat)
    requires OffsetsZero(s) && (s.cur == CMD || s.cur == INFO || (s.cur == DATA && s.chunk.offset == 0) ==> offset == 0)
    ensures OffsetsZero(Mark(s, src, step, offset))
  {
    hide SetProcess, Listed;
    var t := SetProcess(s.nodes, src, step, offset);
    if s.cur == CMD || s.cur == INFO || (s.cur == DATA && s.chunk.offset == 0) {
      forall n | n in t ensures n.offset == 0 {
        var i :| 0 <= i < |t| && t[i] == n;
        SetProcessAt(s.nodes, src, step, offset, i);
        assert s.nodes[i] in s.nodes;
      }
    }
  }

  lemma PollZero(s: State, checked: nat, now: nat)
    requires Tables(s) && OffsetsZero(s)
    ensures OffsetsZero(Poll(s, checked, now))
  {
    hide Finish, KeepAt, Elapsed, UpdateCheck;
    if Expired(s, checked) && s.recs[s.cur].resendCnt >= ResendMax(s.cur) {
      var rec := s.recs[s.cur].(overTick := now, resendCnt := s.recs[s.cur].resendCnt + 1);
      var m := s.(recs := s.recs[s.cur := rec], nodes := KeepAt(s.nodes, s.cur, rec.offset));
      forall n | n in m.nodes ensures n in s.nodes { KeepAtIsFilter(s.nodes, s.cur, rec.offset, n); }
      CheckOffsets(m);
      if m.nodes != [] { FinishZero(UpdateCheck(m), 0, now); }
    }
  }

  lemma ApplyZero(s: State, e: Event)
    requires Tables(s) && OffsetsZero(s)
    ensures OffsetsZero(Apply(s, e))
  {
    hide Poll, FinishIfSame, SetProcess, RemoveFirst, Listed, Finish;
    match e
    case Tick(checked, now) =>
      PollZero(s, checked, now);
    case CmdResponse(src, ret, now) =>
      if s.cur == CMD {
        MarkZero(s, src, CMD, 0);
        FinishZero(if ret == RESPONSE_OK then Mark(s, src, CMD, 0) else s, 0, now);
      }
    case InfoResponse(src, ret, now) =>
      if s.cur == INFO {
        MarkZero(s, src, INFO, 0);
        FinishZero(if ret == RESPONSE_OK then Mark(s, src, INFO, 0) else s, 0, now);
      }
    case DataResponse(src, offset, now) =>
      if s.cur == DATA {
        if offset == s.chunk.offset { MarkZero(s, src, DATA, offset); }
        FinishZero(if offset == s.chunk.offset then Mark(s, src, DATA, offset) else s, s.chunk.offset, now);
      }
    case CrcResponse(src, ret, now) =>
      if s.cur == CRC { FinishZero(if ret == RESPONSE_OK then Mark(s, src, CRC, 0) else Remove(s, src), 0, now); }
  }

  lemma {:induction false} RunStale(s: State, k: nat, events: seq<Event>)
    requires StaleBy(s, k) && OffsetsZero(s)
    ensures StaleBy(Run(s, events), k) && OffsetsZero(Run(s, events))
    decreases |events|
  {
    hide Apply, OffsetsZero;
    if events != [] {
      ApplyShape(s, events[0]);
      ApplyStale(s, k, events[0]);
      ApplyZero(s, events[0]);
      RunStale(Apply(s, events[0]), k, events[1..]);
    }
  }

  /** What a record that is not 0 does to the next transfer: a timeout of the first chunk drops every node, also those
      that acknowledged it, and aborts the transfer. */
  lemma StaleStartAborts(s: State, addrs: seq<nat>, len: nat, file: seq<byte>, now: nat, events: seq<Event>,
                         checked: nat, later: nat)
    requires Tables(s) && s.recs[DATA].offset > 0 && |file| < 0x1_0000_0000
    requires var t := Run(Start(s, addrs, len, file, now), events);
             t.cur == DATA && t.chunk.offset == 0 && Expired(t, checked) && t.recs[DATA].resendCnt >= ResendMax(DATA)
    ensures var t := Run(Start(s, addrs, len, file, now), events);
            Poll(t, checked, later).nodes == [] && Aborted in Poll(t, checked, later).log
  {
    hide Run, Poll, Expired;
    var s0 := Start(s, addrs, len, file, now);
    StartMirrorsIff(s, addrs, len, file, now);
    RunStale(s0, s.recs[DATA].offset, events);
    StaleTimeoutDropsAll(Run(s0, events), s.recs[DATA].offset, checked, later);
  }

  // ----- when a start finds a record that is not 0 -----

  /** An event on the bus moves the data phase on to a later chunk. */
  predicate NextChunk(s: State, a: Action)
    requires Shape(s) && Admissible(a)
  {
    var t := Act(s, a);
    a.Bus? && s.cur == DATA && t.cur == DATA && t.chunk.offset != s.chunk.offset
  }

  /** An event on the bus ends the data phase, by the last chunk or by giving up. */
  predicate DataEnds(s: State, a: Action)
    requires Shape(s) && Admissible(a)
  {
    a.Bus? && s.cur == DATA && Act(s, a).cur != DATA
  }

  /** The DATA record is written by exactly these events, and by no start. */
  lemma RecordStep(s: State, a: Action)
    requires Tables(s) && Admissible(a)
    ensures var t := Act(s, a);
            && Tables(t)
            && (t.recs[DATA].offset ==
                  if NextChunk(s, a) then t.chunk.offset else if DataEnds(s, a) then 0 else s.recs[DATA].offset)
            && (NextChunk(s, a) ==> t.chunk.offset > 0)
  {
    hide Start, Apply;
    match a
    case Begin(addrs, len, file, now) =>
      StartMirrorsIff(s, addrs, len, file, now);
      StartKeepsRecord(s, addrs, len, file, now);
    case Bus(e) =>
      RecordOnBus(s, e);
  }

  lemma StartKeepsRecord(s: State, addrs: seq<nat>, len: nat, file: seq<byte>, now: nat)
    requires Shape(s) && |file| < 0x1_0000_0000
    ensures Start(s, addrs, len, file, now).recs[DATA].offset == s.recs[DATA].offset
  {
  }

  /** The record follows the data phase: it changes only when the phase moves to a later chunk or ends. */
  ghost predicate RecordKept(s: State, t: State) {
    && Tables(s) && Tables(t)
    && (t.recs[DATA].offset ==
          if s.cur != DATA || (t.cur == DATA && t.chunk.offset == s.chunk.offset) then s.recs[DATA].offset
          else if t.cur == DATA then t.chunk.offset else 0)
    && (s.cur == DATA && t.cur == DATA && t.chunk.offset != s.chunk.offset ==> t.chunk.offset > 0)
  }

  lemma FinishRecord(s: State, offset: nat, now: nat)
    requires Tables(s) && s.cur != IDLE
    ensures var t := FinishIfSame(s, offset, now);
            RecordKept(s, t)
  {
    hide Finish, AllAt;
    FinishOffsets(s, now);
    FinishMoves(s, now);
  }

  lemma RecordOnPoll(s: State, checked: nat, now: nat)
    requires Tables(s)
    ensures var t := Poll(s, checked, now);
            RecordKept(s, t)
  {
    hide Finish, KeepAt, Elapsed, UpdateCheck;
    if Expired(s, checked) && s.recs[s.cur].resendCnt >= ResendMax(s.cur) {
      var rec := s.recs[s.cur].(overTick := now, resendCnt := s.recs[s.cur].resendCnt + 1);
      var m := s.(recs := s.recs[s.cur := rec], nodes := KeepAt(s.nodes, s.cur, rec.offset));
      CheckOffsets(m);
      if m.nodes != [] {
        FinishOffsets(UpdateCheck(m), now);
        FinishMoves(UpdateCheck(m), now);
      }
    }
  }

  lemma RecordOnBus(s: State, e: Event)
    requires Tables(s)
    ensures var t := Apply(s, e);
            RecordKept(s, t)
  {
    hide Poll, FinishIfSame, SetProcess, RemoveFirst, Listed;
    match e
    case Tick(checked, now) =>
      RecordOnPoll(s, checked, now);
    case CmdResponse(src, ret, now) =>
      if s.cur == CMD { FinishRecord(if ret == RESPONSE_OK then Mark(s, src, CMD, 0) else s, 0, now); }
    case InfoResponse(src, ret, now) =>
      if s.cur == INFO { FinishRecord(if ret == RESPONSE_OK then Mark(s, src, INFO, 0) else s, 0, now); }
    case DataResponse(src, offset, now) =>
      if s.cur == DATA {
        FinishRecord(if offset == s.chunk.offset then Mark(s, src, DATA, offset) else s, s.chunk.offset, now);
      }
    case CrcResponse(src, ret, now) =>
      if s.cur == CRC { FinishRecord(if ret == RESPONSE_OK then Mark(s, src, CRC, 0) else Remove(s, src), 0, now); }
  }

  /** Some data phase got past a chunk, and no event has ended a data phase since: it is still going on, or a start
      cut it off. */
  predicate DataPhaseOpen(s: State, actions: seq<Action>)
    requires Shape(s) && forall a | a in actions :: Admissible(a)
  {
    var n := |actions|;
    LastUncleared(seq(n, i requires 0 <= i < n => Step(s, actions, i, true)),
                  seq(n, i requires 0 <= i < n => Step(s, actions, i, false)))
  }

  /** Does action `i` move on to a later chunk, or else end the data phase? */
  predicate Step(s: State, actions: seq<Action>, i: nat, next: bool)
    requires Shape(s) && (forall a | a in actions :: Admissible(a)) && i < |actions|
  {
    assert actions[i] in actions;
    if next then NextChunk(Before(s, actions, i), actions[i]) else DataEnds(Before(s, actions, i), actions[i])
  }

  lemma StepInPrefix(s: State, actions: seq<Action>, a: Action)
    requires Shape(s) && forall b | b in actions + [a] :: Admissible(b)
    ensures (forall b | b in actions :: Admissible(b)) && Admissible(a)
    ensures forall i, next | 0 <= i < |actions| :: Step(s, actions + [a], i, next) == Step(s, actions, i, next)
    ensures var m := History(s, actions);
            && Step(s, actions + [a], |actions|, true) == NextChunk(m, a)
            && Step(s, actions + [a], |actions|, false) == DataEnds(m, a)
  {
    hide History, NextChunk, DataEnds;
    var all := actions + [a];
    assert all[|actions|] in all && forall b | b in actions :: b in all;
    assert all[..|actions|] == actions;
    forall i, next | 0 <= i < |actions| ensures Step(s, all, i, next) == Step(s, actions, i, next) {
      assert all[..i] == actions[..i];
    }
  }

  lemma OpenStep(s: State, actions: seq<Action>, a: Action)
    requires Shape(s) && forall b | b in actions + [a] :: Admissible(b)
    ensures (forall b | b in actions :: Admissible(b)) && Admissible(a)
    ensures var m := History(s, actions);
            DataPhaseOpen(s, actions + [a]) <==> NextChunk(m, a) || (DataPhaseOpen(s, actions) && !DataEnds(m, a))
  {
    hide History, NextChunk, DataEnds, Step, LastUncleared;
    StepInPrefix(s, actions, a);
    var n, m, all := |actions|, History(s, actions), actions + [a];
    var marks := seq(n, i requires 0 <= i < n => Step(s, actions, i, true));
    var clears := seq(n, i requires 0 <= i < n => Step(s, actions, i, false));
    UnclearedStep(marks, clears, NextChunk(m, a), DataEnds(m, a));
    assert seq(n + 1, i requires 0 <= i < n + 1 => Step(s, all, i, true)) == marks + [NextChunk(m, a)];
    assert seq(n + 1, i requires 0 <= i < n + 1 => Step(s, all, i, false)) == clears + [DataEnds(m, a)];
  }

  /** After any history from a record of 0, the record is not 0 exactly when a data phase is open in this sense. */
  lemma {:induction false} RecordOpenIff(s: State, actions: seq<Action>)
    requires Tables(s) && s.recs[DATA].offset == 0 && forall a | a in actions :: Admissible(a)
    ensures Tables(History(s, actions))
    ensures History(s, actions).recs[DATA].offset != 0 <==> DataPhaseOpen(s, actions)
  {
    hide Act, NextChunk, DataEnds, DataPhaseOpen;
    if actions == [] {
      NothingOpen(s);
    } else {
      var n := |actions| - 1;
      var front, a := actions[..n], actions[n];
      assert actions == front + [a];
      OpenStep(s, front, a);
      RecordOpenIff(s, front);
      HistoryStep(s, front, a);
      RecordStep(History(s, front), a);
    }
  }

  lemma NothingOpen(s: State)
    requires Shape(s)
    ensures History(s, []) == s && !DataPhaseOpen(s, [])
  {
  }
}
