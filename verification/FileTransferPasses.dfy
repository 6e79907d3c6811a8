/**
 Runs of the second group master, built event by event: all nodes answer up to a given step, or one of them does and
 the others stay silent. They show that the conditions proved for its broken promises are exact.
 */
module FileTransferPasses {
  import opened Bits
  import opened TransferSteps
  import opened UpdateNodes
  import opened FileTransferProtocol
  import opened FileTransferRuns
  import opened FileTransferOffsets
  import opened FileTransferRecords
  import Reports = FileTransferReports

  // ----- all nodes answer -----

  /** The outstanding message has been answered by the first `i` of the nodes, which have the given addresses. */
  ghost predicate Asked(s: State, addrs: seq<nat>, i: nat) {
    && Tables(s) && s.cur != IDLE && OffsetsZero(s) && s.recs[s.cur].resendCnt == 0
    && |s.nodes| == |addrs| && i < |addrs|
    && (forall j, l | 0 <= j < l < |addrs| :: addrs[j] != addrs[l])
    && (forall j | 0 <= j < |addrs| :: s.nodes[j].addr == addrs[j])
    && (forall j | 0 <= j < |addrs| :: s.nodes[j].At(s.cur, Target(s)) <==> j < i)
    && (i > 0 ==> AckedSince(s.log, addrs[0], s.cur, Target(s)))
  }

  /** An accepting response of `src` to the outstanding message. */
  function Answer(s: State, src: nat): Event {
    if s.cur == CMD then CmdResponse(src, RESPONSE_OK, 0) else if s.cur == INFO then InfoResponse(src, RESPONSE_OK, 0)
    else if s.cur == DATA then DataResponse(src, s.chunk.offset, 0) else CrcResponse(src, RESPONSE_OK, 0)
  }

  lemma AskedShape(s: State, addrs: seq<nat>, i: nat)
    requires Asked(s, addrs, i)
    ensures Tables(s) && s.cur != IDLE
  {
  }

  lemma MarkOne(nodes: seq<NodeVal>, addrs: seq<nat>, i: nat, step: nat, offset: nat)
    requires |nodes| == |addrs| && i < |addrs| && forall j | 0 <= j < |addrs| :: nodes[j].addr == addrs[j]
    requires forall j, l | 0 <= j < l < |addrs| :: addrs[j] != addrs[l]
    ensures SetProcess(nodes, addrs[i], step, offset) == nodes[i := NodeVal(addrs[i], step, offset)]
    ensures Listed(nodes, addrs[i])
  {
    hide SetProcess;
    forall j | 0 <= j < |nodes|
      ensures SetProcess(nodes, addrs[i], step, offset)[j] == nodes[i := NodeVal(addrs[i], step, offset)][j]
    {
      SetProcessAt(nodes, addrs[i], step, offset, j);
    }
    assert nodes[i] in nodes;
  }

  /** The mark of the next answer, before it is seen whether everybody has answered. */
  lemma AnswerMarks(s: State, addrs: seq<nat>, i: nat)
    requires Asked(s, addrs, i)
    ensures var k := Target(s);
            var m := Mark(s, addrs[i], s.cur, k);
            && m == s.(nodes := s.nodes[i := NodeVal(addrs[i], s.cur, k)], log := s.log + [Acked(addrs[i], s.cur, k)])
            && (forall j | 0 <= j < |addrs| :: m.nodes[j].addr == addrs[j])
            && (forall j | 0 <= j < |addrs| :: m.nodes[j].At(s.cur, k) <==> j < i + 1)
            && AckedSince(m.log, addrs[0], s.cur, k)
            && (AllAt(m.nodes, s.cur, k) <==> i + 1 == |addrs|)
    ensures var m := Mark(s, addrs[i], s.cur, Target(s));
            exists n: Entry | n.Notified? ::
              Apply(s, Answer(s, addrs[i])) == var f := FinishIfSame(m, Target(s), 0); f.(log := f.log + [n])
  {
    hide FinishIfSame, SetProcess, AckedSince, Listed, OffsetsZero;
    var k := Target(s);
    MarkOne(s.nodes, addrs, i, s.cur, k);
    SinceGrows(s.log, Acked(addrs[i], s.cur, k), addrs[0], s.cur, k);
    var m := Mark(s, addrs[i], s.cur, k);
    if i + 1 < |addrs| { assert m.nodes[i + 1] in m.nodes; }
    var result := if s.cur == CMD then 0 else if s.cur == INFO then 1 else if s.cur == DATA then 2 else 3;
    var n := Notified(addrs[i], result, k);
    var f := FinishIfSame(m, k, 0);
    assert Apply(s, Answer(s, addrs[i])) == f.(log := f.log + [n]);
  }

  lemma AnswerNext(s: State, addrs: seq<nat>, i: nat)
    requires Asked(s, addrs, i) && i + 1 < |addrs|
    ensures var t := Apply(s, Answer(s, addrs[i]));
            Asked(t, addrs, i + 1) && t == s.(nodes := t.nodes, log := t.log)
  {
    hide AckedSince, AllAt, Mark, Apply;
    AnswerMarks(s, addrs, i);
    var k := Target(s);
    var m := Mark(s, addrs[i], s.cur, k);
    var t := Apply(s, Answer(s, addrs[i]));
    SinceGrows(m.log, t.log[|m.log|], addrs[0], s.cur, k);
    forall n | n in t.nodes && (s.cur == CMD || s.cur == INFO || (s.cur == DATA && s.chunk.offset == 0))
      ensures n.offset == 0
    {
      var j :| 0 <= j < |t.nodes| && t.nodes[j] == n;
      if j != i { assert s.nodes[j] in s.nodes; }
    }
  }

  /** When the last one answers, the next step begins with nobody having answered it. */
  lemma AnswerLast(s: State, addrs: seq<nat>)
    requires |addrs| > 0 && Asked(s, addrs, |addrs| - 1) && (s.cur == INFO ==> s.file != []) && s.cur != CRC
    ensures var t := Apply(s, Answer(s, addrs[|addrs| - 1]));
            Asked(t, addrs, 0) && t.file == s.file && Advanced(s, t)
  {
    hide AckedSince, AllAt, Mark, Apply, Finish, SetProcess;
    var i, k := |addrs| - 1, Target(s);
    AnswerMarks(s, addrs, i);
    var m := Mark(s, addrs[i], s.cur, k);
    FinishMoves(m, 0);
    FinishOffsets(m, 0);
    FinishFrame(m, 0);
    FinishRestarts(m);
    forall n | n in m.nodes ensures n.At(s.cur, k) {
      var j :| 0 <= j < |m.nodes| && m.nodes[j] == n;
    }
  }

  /** From the step of `s` to the next one, the DATA record following the data phase. */
  ghost predicate Advanced(s: State, t: State)
    requires Tables(s) && Tables(t)
  {
    && t.cur == (if s.cur == CMD then INFO else if s.cur == INFO then DATA
                 else if s.chunk.offset + s.chunk.dataLen < |s.file| then DATA else CRC)
    && (t.cur == DATA ==> t.chunk.offset == if s.cur == DATA then s.chunk.offset + s.chunk.dataLen else 0)
    && t.recs[DATA].offset ==
         (if s.cur != DATA then s.recs[DATA].offset else if t.cur == DATA then t.chunk.offset else 0)
  }

  lemma FinishRestarts(s: State)
    requires Shape(s) && s.cur != IDLE
    ensures var t := Finish(s, 0); t.cur != IDLE ==> t.recs[t.cur].resendCnt == 0
  {
    hide ReadChunk;
  }

  lemma {:induction false} AllAnswer(s: State, addrs: seq<nat>, i: nat) returns (events: seq<Event>)
    requires Asked(s, addrs, i) && (s.cur == INFO ==> s.file != []) && s.cur != CRC
    ensures var t := Run(s, events); Asked(t, addrs, 0) && t.file == s.file && Advanced(s, t)
    decreases |addrs| - i
  {
    hide Asked, Apply, Advanced, Run;
    AskedShape(s, addrs, i);
    AskedIndex(s, addrs, i);
    var e := Answer(s, addrs[i]);
    RunOne(s, e);
    if i + 1 == |addrs| {
      AnswerLast(s, addrs);
      events := [e];
    } else {
      AnswerNext(s, addrs, i);
      var t := Apply(s, e);
      AskedShape(t, addrs, i + 1);
      var rest := AllAnswer(t, addrs, i + 1);
      RunJoin(s, [e], rest);
      events := [e] + rest;
      AskedShape(Run(s, events), addrs, 0);
      SameAdvanced(s, t, Run(s, events));
    }
  }

  lemma AskedIndex(s: State, addrs: seq<nat>, i: nat)
    requires Asked(s, addrs, i)
    ensures i < |addrs|
  {
  }

  lemma SameAdvanced(s: State, m: State, t: State)
    requires Tables(s) && Tables(m) && Tables(t) && Advanced(m, t) && m == s.(nodes := m.nodes, log := m.log)
    ensures Advanced(s, t)
  {
  }

  // ----- from a start to a given step -----

  lemma StartAsks(s: State, addrs: seq<nat>, len: nat, file: seq<byte>, now: nat)
    requires Tables(s) && |file| < 0x1_0000_0000 && Requestable(addrs) && addrs != []
    ensures var t := Start(s, addrs, len, file, now);
            Asked(t, addrs, 0) && t.cur == CMD && t.file == file && t.recs[DATA].offset == s.recs[DATA].offset
  {
  }

  lemma ToFirstChunk(s: State, addrs: seq<nat>, len: nat, file: seq<byte>, now: nat) returns (events: seq<Event>)
    requires Tables(s) && 0 < |file| < 0x1_0000_0000 && Requestable(addrs) && addrs != []
    ensures var t := Run(Start(s, addrs, len, file, now), events);
            && Asked(t, addrs, 0) && t.file == file && t.cur == DATA && t.chunk.offset == 0
            && Tables(t) && t.recs[DATA].offset == s.recs[DATA].offset
  {
    hide Run, Start, Asked;
    var s0 := Start(s, addrs, len, file, now);
    StartAsks(s, addrs, len, file, now);
    AskedShape(s0, addrs, 0);
    var x := AllAnswer(s0, addrs, 0);
    AskedShape(Run(s0, x), addrs, 0);
    var y := AllAnswer(Run(s0, x), addrs, 0);
    RunJoin(s0, x, y);
    events := x + y;
    AskedShape(Run(s0, events), addrs, 0);
  }

  /** To the second chunk of a file that has one. */
  lemma ToSecondChunk(s: State, addrs: seq<nat>, len: nat, file: seq<byte>, now: nat) returns (events: seq<Event>)
    requires Tables(s) && 256 < |file| < 0x1_0000_0000 && Requestable(addrs) && addrs != []
    ensures var t := Run(Start(s, addrs, len, file, now), events);
            Tables(t) && t.cur == DATA && t.chunk.offset == 256 && t.recs[DATA].offset == 256
  {
    hide Run, Start, Asked;
    var s0 := Start(s, addrs, len, file, now);
    var x := ToFirstChunk(s, addrs, len, file, now);
    var y := AllAnswer(Run(s0, x), addrs, 0);
    RunJoin(s0, x, y);
    events := x + y;
    AskedShape(Run(s0, events), addrs, 0);
  }

  lemma {:induction false} ThroughChunks(s: State, addrs: seq<nat>) returns (events: seq<Event>)
    requires Asked(s, addrs, 0) && s.cur == DATA
    ensures var t := Run(s, events); Asked(t, addrs, 0) && t.cur == CRC
    decreases |s.file| - s.chunk.offset
  {
    hide Run, Asked;
    AskedShape(s, addrs, 0);
    FinishMoves(s, 0);
    events := AllAnswer(s, addrs, 0);
    var t := Run(s, events);
    AskedShape(t, addrs, 0);
    if t.cur == DATA {
      var rest := ThroughChunks(t, addrs);
      RunJoin(s, events, rest);
      events := events + rest;
    }
  }

  /** To the CRC step, for any file that is not empty. */
  lemma ToCrc(s: State, addrs: seq<nat>, len: nat, file: seq<byte>, now: nat) returns (events: seq<Event>)
    requires Tables(s) && 0 < |file| < 0x1_0000_0000 && Requestable(addrs) && addrs != []
    ensures var t := Run(Start(s, addrs, len, file, now), events); Asked(t, addrs, 0) && t.cur == CRC
  {
    hide Run, Start, Asked;
    var s0 := Start(s, addrs, len, file, now);
    var x := ToFirstChunk(s, addrs, len, file, now);
    var y := ThroughChunks(Run(s0, x), addrs);
    RunJoin(s0, x, y);
    events := x + y;
  }

  // ----- a timeout that drops a node that has answered -----

  /** A poll late enough for the current step. */
  function Late(s: State): Event
    requires Shape(s)
  {
    Tick(s.recs[s.cur].overTick + OverTime(s.cur), 0)
  }

  lemma LateExpires(s: State)
    requires Shape(s) && s.cur != IDLE
    ensures Expired(s, Late(s).checked)
  {
  }

  lemma LateResends(s: State, a: nat, k: nat)
    requires Tables(s) && s.cur != IDLE && s.recs[s.cur].resendCnt < ResendMax(s.cur)
    ensures var t := Apply(s, Late(s));
            && t == s.(recs := t.recs, log := t.log) && Tables(t) && t.recs[DATA].offset == s.recs[DATA].offset
            && t.recs[s.cur].resendCnt == s.recs[s.cur].resendCnt + 1
            && AckedSince(t.log, a, s.cur, k) == AckedSince(s.log, a, s.cur, k)
  {
    hide AckedSince, Elapsed;
    LateExpires(s);
    SinceGrows(s.log, Resent(s.last), a, s.cur, k);
  }

  /** All the resends of a step. */
  lemma {:induction false} AllResends(s: State, a: nat, k: nat) returns (events: seq<Event>)
    requires Tables(s) && s.cur != IDLE && s.recs[s.cur].resendCnt <= ResendMax(s.cur)
    ensures var t := Run(s, events);
            && t == s.(recs := t.recs, log := t.log) && Tables(t) && t.recs[DATA].offset == s.recs[DATA].offset
            && t.recs[s.cur].resendCnt == ResendMax(s.cur)
            && AckedSince(t.log, a, s.cur, k) == AckedSince(s.log, a, s.cur, k)
    decreases ResendMax(s.cur) - s.recs[s.cur].resendCnt
  {
    hide AckedSince, Apply, Run, Tables;
    TablesShape(s);
    if s.recs[s.cur].resendCnt == ResendMax(s.cur) {
      events := [];
      RunNothing(s);
    } else {
      LateResends(s, a, k);
      var e := Late(s);
      RunOne(s, e);
      TablesShape(Apply(s, e));
      var rest := AllResends(Apply(s, e), a, k);
      RunJoin(s, [e], rest);
      events := [e] + rest;
    }
  }

  lemma TablesShape(s: State)
    requires Tables(s)
    ensures Shape(s)
  {
  }

  lemma RunNothing(s: State)
    requires Shape(s)
    ensures Run(s, []) == s
  {
  }

  /** The timeout at `checked` drops the listed address although it has answered the outstanding message. */
  ghost predicate DropsAnswered(t: State, checked: nat, a: nat) {
    && Shape(t) && Expired(t, checked) && t.recs[t.cur].resendCnt >= ResendMax(t.cur)
    && Listed(t.nodes, a) && AckedSince(t.log, a, t.cur, Target(t)) && Poll(t, checked, 0).nodes == []
  }

  /** A transfer that begins with another record, to two nodes or more: the first one acknowledges the first chunk,
      the others stay silent, and the timeout drops them all. */
  lemma StaleStartDrops(s: State, addrs: seq<nat>, len: nat, file: seq<byte>, now: nat)
    returns (events: seq<Event>, checked: nat)
    requires Tables(s) && s.recs[DATA].offset > 0
    requires 0 < |file| < 0x1_0000_0000 && Requestable(addrs) && |addrs| >= 2
    ensures DropsAnswered(Run(Start(s, addrs, len, file, now), events), checked, addrs[0])
  {
    hide Run, Start, Asked, DropsAnswered;
    var s0 := Start(s, addrs, len, file, now);
    var x := ToFirstChunk(s, addrs, len, file, now);
    var rest;
    rest, checked := SilenceDrops(Run(s0, x), addrs);
    RunJoin(s0, x, rest);
    events := x + rest;
  }

  lemma SilenceDrops(s: State, addrs: seq<nat>) returns (events: seq<Event>, checked: nat)
    requires Asked(s, addrs, 0) && |addrs| >= 2 && s.cur == DATA && s.chunk.offset == 0 && s.recs[DATA].offset > 0
    ensures DropsAnswered(Run(s, events), checked, addrs[0])
  {
    hide Run, AckedSince, Apply, Poll, Expired;
    var e := Answer(s, addrs[0]);
    AnswerNext(s, addrs, 0);
    RunOne(s, e);
    var m := Apply(s, e);
    var rest := AllResends(m, addrs[0], 0);
    RunJoin(s, [e], rest);
    events := [e] + rest;
    var t := Run(s, events);
    checked := Late(t).checked;
    LateExpires(t);
    assert t.nodes[0] in t.nodes;
    TimeoutNodes(t, checked, 0);
    NoneAt(t.nodes, t.recs[DATA].offset);
  }

  // ----- exactly when a timeout keeps those who answered -----

  ghost predicate AnsweredKept(t: State, checked: nat, later: nat, a: nat)
    requires Shape(t)
  {
    Expired(t, checked) && t.recs[t.cur].resendCnt >= ResendMax(t.cur) ==>
      (Listed(Poll(t, checked, later).nodes, a) <==> Listed(t.nodes, a) && AckedSince(t.log, a, t.cur, Target(t)))
  }

  /** In every run from `s0` the timeout that ends a step keeps exactly the listed addresses that have answered. */
  ghost predicate KeepsAnswered(s0: State)
    requires Shape(s0)
  {
    forall events, checked, later, a :: AnsweredKept(Run(s0, events), checked, later, a)
  }

  /** That holds of a transfer exactly when the DATA record was 0 at its start, or it has at most one address or no
      file. */
  lemma KeepsAnsweredIff(s: State, addrs: seq<nat>, len: nat, file: seq<byte>, now: nat)
    requires Tables(s) && |file| < 0x1_0000_0000 && Requestable(addrs)
    ensures KeepsAnswered(Start(s, addrs, len, file, now)) <==> s.recs[DATA].offset == 0 || |addrs| <= 1 || file == []
  {
    hide Run, Start, Poll, AckedSince, Listed, Expired;
    var s0 := Start(s, addrs, len, file, now);
    if s.recs[DATA].offset == 0 || |addrs| <= 1 || file == [] {
      forall events, checked, later, a ensures AnsweredKept(Run(s0, events), checked, later, a) {
        var t := Run(s0, events);
        if Expired(t, checked) && t.recs[t.cur].resendCnt >= ResendMax(t.cur) {
          if s.recs[DATA].offset == 0 {
            TimeoutKeepsAnswered(s, addrs, len, file, now, events, checked, later, a);
          } else {
            FewKeepAnswered(s, addrs, len, file, now, events, checked, later, a);
          }
        }
      }
    } else {
      var events, checked := StaleStartDrops(s, addrs, len, file, now);
      NobodyListed(addrs[0]);
      assert !AnsweredKept(Run(s0, events), checked, 0, addrs[0]);
    }
  }

  lemma NobodyListed(a: nat)
    ensures !Listed([], a)
  {
  }

  /** Over histories from a record of 0: a transfer is hit exactly when it has two addresses or more and a file, and a
      data phase that got past its first chunk has been cut off with none ended by an event since. */
  lemma HistoryKeepsAnsweredIff(s: State, actions: seq<Action>, addrs: seq<nat>, len: nat, file: seq<byte>, now: nat)
    requires Tables(s) && s.recs[DATA].offset == 0 && forall a | a in actions :: Admissible(a)
    requires |file| < 0x1_0000_0000 && Requestable(addrs)
    ensures KeepsAnswered(Start(History(s, actions), addrs, len, file, now))
            <==> !DataPhaseOpen(s, actions) || |addrs| <= 1 || file == []
  {
    hide History, Start, KeepsAnswered, DataPhaseOpen;
    RecordOpenIff(s, actions);
    KeepsAnsweredIff(History(s, actions), addrs, len, file, now);
  }

  // ----- inputs -----

  /** A transfer reaches its second chunk and is interrupted: the new transfer drops a node that has answered. */
  lemma InterruptionDropsAnswered(s: State, addrs: seq<nat>, file: seq<byte>)
    returns (first: seq<Event>, second: seq<Event>, checked: nat)
    requires Tables(s) && 256 < |file| < 0x1_0000_0000 && Requestable(addrs) && |addrs| >= 2
    ensures var u := Run(Start(s, addrs, 0, file, 0), first);
            && u.cur == DATA && u.chunk.offset == 256
            && DropsAnswered(Run(Start(u, addrs, 0, file, 0), second), checked, addrs[0])
  {
    hide Run, Start, DropsAnswered;
    first := ToSecondChunk(s, addrs, 0, file, 0);
    second, checked := StaleStartDrops(Run(Start(s, addrs, 0, file, 0), first), addrs, 0, file, 0);
  }

  /** The interrupting transfer is itself replaced while it waits for its command: the third one, which interrupts no
      data phase, is hit all the same. */
  lemma SecondInterruptionDropsAnswered(s: State, addrs: seq<nat>, file: seq<byte>)
    returns (first: seq<Event>, third: seq<Event>, checked: nat)
    requires Tables(s) && 256 < |file| < 0x1_0000_0000 && Requestable(addrs) && |addrs| >= 2
    ensures var u := Run(Start(s, addrs, 0, file, 0), first);
            var v := Start(u, addrs, 0, file, 0);
            && u.cur == DATA && u.chunk.offset == 256 && v.cur == CMD
            && DropsAnswered(Run(Start(v, addrs, 0, file, 0), third), checked, addrs[0])
  {
    hide Run, Start, DropsAnswered, Asked;
    first := ToSecondChunk(s, addrs, 0, file, 0);
    var u := Run(Start(s, addrs, 0, file, 0), first);
    var v := Start(u, addrs, 0, file, 0);
    StartAsks(u, addrs, 0, file, 0);
    AskedShape(v, addrs, 0);
    third, checked := StaleStartDrops(v, addrs, 0, file, 0);
  }

  /** The interrupting transfer gives up at its command, since nobody answers it. */
  lemma CommandGivesUp(s: State, addrs: seq<nat>) returns (events: seq<Event>)
    requires Asked(s, addrs, 0) && s.cur == CMD
    ensures var t := Run(s, events);
            Tables(t) && t.cur == IDLE && t.nodes == [] && t.recs[DATA].offset == s.recs[DATA].offset
  {
    hide Run, AckedSince, Apply, Poll, Expired, KeepAt;
    var x := AllResends(s, 0, 0);
    var m := Run(s, x);
    var e := Late(m);
    LateExpires(m);
    RunOne(m, e);
    RunJoin(s, x, [e]);
    events := x + [e];
    TimeoutNodes(m, e.checked, 0);
    forall n | n in m.nodes ensures !n.At(CMD, 0) {
      var j :| 0 <= j < |m.nodes| && m.nodes[j] == n;
    }
    NoneMatch(m.nodes, CMD, 0);
    TickIs(m, e);
    GivesUp(m, e.checked, 0);
  }

  lemma TickIs(s: State, e: Event)
    requires Shape(s) && e.Tick?
    ensures Apply(s, e) == Poll(s, e.checked, e.now)
  {
  }

  lemma NoneMatch(nodes: seq<NodeVal>, step: nat, offset: nat)
    requires forall n | n in nodes :: !n.At(step, offset)
    ensures KeepAt(nodes, step, offset) == []
  {
    var kept := KeepAt(nodes, step, offset);
    if kept != [] {
      KeepAtIsFilter(nodes, step, offset, kept[0]);
    }
  }

  lemma GivesUp(s: State, checked: nat, now: nat)
    requires Tables(s) && s.cur == CMD && Expired(s, checked) && s.recs[CMD].resendCnt >= ResendMax(CMD)
    requires KeepAt(s.nodes, CMD, 0) == []
    ensures var t := Poll(s, checked, now);
            Tables(t) && t.cur == IDLE && t.nodes == [] && t.recs[DATA].offset == s.recs[DATA].offset
  {
    hide KeepAt, Elapsed, Finish, UpdateCheck;
    var rec := s.recs[CMD].(overTick := now, resendCnt := s.recs[CMD].resendCnt + 1);
    CheckOffsets(s.(recs := s.recs[CMD := rec], nodes := []));
  }

  /** That leaves the stale record behind: a transfer started from the idle machine is hit. */
  lemma IdleStartDropsAnswered(s: State, addrs: seq<nat>, file: seq<byte>)
    returns (first: seq<Event>, dead: seq<Event>, third: seq<Event>, checked: nat)
    requires Tables(s) && 256 < |file| < 0x1_0000_0000 && Requestable(addrs) && |addrs| >= 2
    ensures var u := Run(Start(s, addrs, 0, file, 0), first);
            var v := Run(Start(u, addrs, 0, file, 0), dead);
            && u.cur == DATA && u.chunk.offset == 256 && v.cur == IDLE
            && DropsAnswered(Run(Start(v, addrs, 0, file, 0), third), checked, addrs[0])
  {
    hide Run, Start, DropsAnswered, Asked;
    first := ToSecondChunk(s, addrs, 0, file, 0);
    var u := Run(Start(s, addrs, 0, file, 0), first);
    StartAsks(u, addrs, 0, file, 0);
    AskedShape(Start(u, addrs, 0, file, 0), addrs, 0);
    dead := CommandGivesUp(Start(u, addrs, 0, file, 0), addrs);
    third, checked := StaleStartDrops(Run(Start(u, addrs, 0, file, 0), dead), addrs, 0, file, 0);
  }

  // ----- exactly when everybody is accounted for in public -----

  ghost predicate EveryoneKnown(t: State, addrs: seq<nat>) {
    forall a | a in addrs :: Listed(t.nodes, a) || ReportCount(t.log, a) == 1
  }

  /** In every run of a transfer every requested address stays listed or is reported once, exactly when there is no
      address or no file: otherwise a node can be removed for a bad CRC reply and never be reported. */
  lemma EveryoneKnownIff(s: State, addrs: seq<nat>, len: nat, file: seq<byte>, now: nat)
    requires Tables(s) && |file| < 0x1_0000_0000 && Requestable(addrs)
    ensures (forall events :: EveryoneKnown(Run(Start(s, addrs, len, file, now), events), addrs))
            <==> addrs == [] || file == []
  {
    hide Run, Start, Listed, ReportCount;
    var s0 := Start(s, addrs, len, file, now);
    if addrs != [] && file != [] {
      var events := BadReplyReached(s, addrs, len, file, now);
      Reports.EveryoneReportedIff(s, addrs, len, file, now, events);
      assert !EveryoneKnown(Run(s0, events), addrs);
    } else {
      forall events ensures EveryoneKnown(Run(s0, events), addrs) {
        if addrs != [] {
          Reports.EveryoneReportedIff(s, addrs, len, file, now, events);
          EmptyFileNoCrc(s, addrs, len, now, events);
        }
      }
    }
  }

  lemma BadReplyReached(s: State, addrs: seq<nat>, len: nat, file: seq<byte>, now: nat) returns (events: seq<Event>)
    requires Tables(s) && 0 < |file| < 0x1_0000_0000 && Requestable(addrs) && addrs != []
    ensures Reports.BadReplyLast(Start(s, addrs, len, file, now), events)
  {
    hide Run, Start, Reports.BadReplyLast;
    var s0 := Start(s, addrs, len, file, now);
    var x := ToCrc(s, addrs, len, file, now);
    var t := Run(s0, x);
    var e := CrcResponse(addrs[0], 0, 0);
    assert t.nodes[0] in t.nodes && Reports.BadReply(t, e);
    Reports.BadReplyLastStep(s0, x, e);
    events := x + [e];
  }

  ghost predicate BeforeData(s: State) {
    s.file == [] && s.cur != DATA && s.cur != CRC
  }

  lemma {:induction false} BeforeDataStays(s: State, events: seq<Event>)
    requires Tables(s) && BeforeData(s)
    ensures Tables(Run(s, events)) && BeforeData(Run(s, events))
    decreases |events|
  {
    hide Apply, Tables, BeforeData;
    TablesShape(s);
    if events != [] {
      ApplyShape(s, events[0]);
      BeforeDataStep(s, events[0]);
      BeforeDataStays(Apply(s, events[0]), events[1..]);
    }
  }

  lemma BeforeDataStep(s: State, e: Event)
    requires Tables(s) && BeforeData(s)
    ensures Tables(Apply(s, e)) && BeforeData(Apply(s, e))
  {
    hide KeepAt, Finish, UpdateCheck, SetProcess, RemoveFirst, AllAt, Elapsed, Listed;
    ApplyFile(s, e);
    RecordOnBus(s, e);
    if s.cur != IDLE {
      if e.Tick? {
        var rec := s.recs[s.cur].(overTick := e.now, resendCnt := s.recs[s.cur].resendCnt + 1);
        var m := s.(recs := s.recs[s.cur := rec], nodes := KeepAt(s.nodes, s.cur, rec.offset));
        CheckOffsets(m);
        FinishMoves(UpdateCheck(m), e.now);
      } else {
        FinishMoves(s, e.now);
        FinishMoves(Mark(s, e.src, s.cur, 0), e.now);
      }
    }
  }

  lemma EmptyFileNoCrc(s: State, addrs: seq<nat>, len: nat, now: nat, events: seq<Event>)
    requires Tables(s)
    ensures !Reports.BadReplyLast(Start(s, addrs, len, [], now), events)
  {
    hide Run, Reports.StepTimeout;
    var s0 := Start(s, addrs, len, [], now);
    forall i | 0 <= i < |events| ensures !Reports.BadReply(Reports.At(s0, events, i), events[i]) {
      BeforeDataStays(s0, events[..i]);
    }
  }
}
