/**
 What holds in every run of the firmware-update master from a start with at least one node: lockstep,
 what is on the bus, who has answered what, and the two ways a run can end.
 */
module BootRuns {
  import opened Bits
  import opened SessionPlan
  import opened TransferSteps
  import opened UpdateNodes
  import opened BootProtocol
  import FileImage

  // ----- the plan of a session -----

  /** The message being waited on. */
  function Pos(s: State): nat {
    if s.cur == CMD then 0 else if s.cur == INFO then 1
    else if s.cur == DATA then 2 + s.chunk.offset / 256 else CrcIndex(|s.file|)
  }

  /** Message `k` of the session. */
  ghost predicate Planned(s: State, k: nat, m: Msg) {
    var fileLen := |s.file|;
    if k == 0 then m == s.cmd
    else if k == 1 then m == FileInfo(s.info)
    else if k < CrcIndex(fileLen) then
      var offset := 256 * (k - 2);
      && m.FileChunk? && m.chunk.offset == offset && offset < fileLen
      && m.chunk.dataLen == FileImage.ChunkLen(fileLen, offset, FileImage.CHUNK_MAX)
      && |m.chunk.data| == FileImage.CHUNK_MAX
      && m.chunk.data[..m.chunk.dataLen] == s.file[offset..offset + m.chunk.dataLen]
    else if k == CrcIndex(fileLen) then m == CheckCrc(0x1234_5678)
    else k == CrcIndex(fileLen) + 1 && m == JumpApp(0x1234_5678)
  }

  // ----- reading the log -----

  /** The messages that were sent for the first time, in order. */
  function Firsts(log: seq<Entry>): seq<Msg> {
    if log == [] then []
    else
      var e := log[|log| - 1];
      Firsts(log[..|log| - 1]) + if e.Sent? then [e.msg] else []
  }

  /** Every repetition repeats the message sent for the first time most recently before it. */
  predicate ResendsFaithful(log: seq<Entry>) {
    log == [] ||
    var front, e := log[..|log| - 1], log[|log| - 1];
    && ResendsFaithful(front)
    && (e.Resent? ==> Firsts(front) != [] && e.msg == Firsts(front)[|Firsts(front)| - 1])
  }

  /** A response of `addr` to message `k` was accepted after that message was first sent and before the next one was. */
  predicate AckedIn(fileLen: nat, log: seq<Entry>, k: nat, addr: nat) {
    log != [] &&
    var front, e := log[..|log| - 1], log[|log| - 1];
    AckedIn(fileLen, front, k, addr) || (Acks(fileLen, e, k, addr) && |Firsts(front)| == k + 1)
  }

  /** The entry is an accepted response of `addr` with the step and offset of message `k`. */
  predicate Acks(fileLen: nat, e: Entry, k: nat, addr: nat) {
    e == Acked(addr, StepOf(fileLen, k), OffsetOf(fileLen, k))
  }

  function Failures(log: seq<Entry>): nat {
    if log == [] then 0 else Failures(log[..|log| - 1]) + if log[|log| - 1].Failed? then 1 else 0
  }

  lemma LogGrows(log: seq<Entry>, e: Entry)
    ensures Firsts(log + [e]) == Firsts(log) + if e.Sent? then [e.msg] else []
    ensures Failures(log + [e]) == Failures(log) + if e.Failed? then 1 else 0
    ensures ResendsFaithful(log + [e]) <==>
            ResendsFaithful(log) && (e.Resent? ==> Firsts(log) != [] && e.msg == Firsts(log)[|Firsts(log)| - 1])
  {
    assert (log + [e])[..|log|] == log;
  }

  lemma AcksGrow(fileLen: nat, log: seq<Entry>, e: Entry, k: nat, addr: nat)
    ensures AckedIn(fileLen, log + [e], k, addr)
            <==> AckedIn(fileLen, log, k, addr) || (Acks(fileLen, e, k, addr) && |Firsts(log)| == k + 1)
  {
    assert (log + [e])[..|log|] == log;
  }

  // ----- the invariant -----

  /** The machine waits on message `Pos(s)` and its bookkeeping agrees. */
  ghost predicate Tracking(s: State) {
    && Shape(s) && CMD <= s.cur <= CRC
    && s.cur == StepOf(|s.file|, Pos(s)) && s.recs[s.cur].offset == OffsetOf(|s.file|, Pos(s))
    && Pos(s) <= CrcIndex(|s.file|)
    && (s.cur == DATA ==>
          && s.chunk.offset == OffsetOf(|s.file|, Pos(s)) && s.chunk.offset < |s.file|
          && s.chunk.dataLen == FileImage.ChunkLen(|s.file|, s.chunk.offset, FileImage.CHUNK_MAX))
  }

  /** Nobody is more than one message behind, and nobody is ahead. */
  ghost predicate InStep(s: State) {
    s.nodes != [] && forall n | n in s.nodes :: AtIndex(|s.file|, n, Pos(s)) || AtIndex(|s.file|, n, Pos(s) - 1)
  }

  ghost predicate OnPlan(s: State, msgs: seq<Msg>) {
    forall i | 0 <= i < |msgs| :: Planned(s, i, msgs[i])
  }

  ghost predicate Logged(s: State, sent: nat) {
    && |Firsts(s.log)| == sent && OnPlan(s, Firsts(s.log)) && ResendsFaithful(s.log)
    && sent > 0 && s.last == Firsts(s.log)[sent - 1]
  }

  /** The listed nodes have answered messages 0 to `k - 1`, each while it was outstanding. */
  ghost predicate Answered(fileLen: nat, log: seq<Entry>, nodes: seq<NodeVal>, k: nat) {
    forall n, i | n in nodes && 0 <= i < k :: AckedIn(fileLen, log, i, n.addr)
  }

  /** A node recorded as done with the current message has answered it. */
  ghost predicate Current(s: State) {
    forall n | n in s.nodes && AtIndex(|s.file|, n, Pos(s)) :: AckedIn(|s.file|, s.log, Pos(s), n.addr)
  }

  ghost predicate Core(s: State) {
    && Tracking(s) && InStep(s) && Logged(s, Pos(s) + 1) && Failures(s.log) == 0
    && Answered(|s.file|, s.log, s.nodes, Pos(s)) && Current(s)
  }

  /** Some listed node still owes its answer. */
  ghost predicate Waiting(s: State) {
    && Core(s) && !AllAt(s.nodes, s.cur, s.recs[s.cur].offset)
    && s.recs[s.cur].resendCnt <= ResendMax(s.cur)
  }

  ghost predicate Succeeded(s: State) {
    && Shape(s) && s.cur == IDLE && s.nodes != []
    && Logged(s, CrcIndex(|s.file|) + 2) && Failures(s.log) == 0
    && Answered(|s.file|, s.log, s.nodes, CrcIndex(|s.file|) + 1)
  }

  ghost predicate GaveUp(s: State) {
    && Shape(s) && s.cur == IDLE && s.nodes == []
    && (exists sent | 1 <= sent <= CrcIndex(|s.file|) + 1 :: Logged(s, sent)) && Failures(s.log) == 1
  }

  // ----- how the parts of the handlers keep it -----

  function Addrs(nodes: seq<NodeVal>): (addrs: seq<nat>)
    ensures |addrs| == |nodes|
    ensures forall i | 0 <= i < |nodes| :: addrs[i] == nodes[i].addr
  {
    seq(|nodes|, i requires 0 <= i < |nodes| => nodes[i].addr)
  }

  lemma SetProcessMembers(nodes: seq<NodeVal>, addr: nat, step: nat, offset: nat)
    ensures Addrs(SetProcess(nodes, addr, step, offset)) == Addrs(nodes)
    ensures forall n | n in SetProcess(nodes, addr, step, offset) ::
              n in nodes || (n == NodeVal(addr, step, offset) && Listed(nodes, addr))
  {
    hide SetProcess;
    var t := SetProcess(nodes, addr, step, offset);
    forall i | 0 <= i < |nodes|
      ensures t[i] == nodes[i] || (t[i] == NodeVal(addr, step, offset) && nodes[i].addr == addr)
    {
      SetProcessAt(nodes, addr, step, offset, i);
    }
    forall n | n in t ensures n in nodes || (n == NodeVal(addr, step, offset) && Listed(nodes, addr)) {
      var i :| 0 <= i < |t| && t[i] == n;
      assert nodes[i] in nodes;
    }
  }

  /** The answers recorded in a log stay recorded, and are the answers of whoever has the address. */
  lemma AnsweredGrows(fileLen: nat, log: seq<Entry>, e: Entry, nodes: seq<NodeVal>, later: seq<NodeVal>, k: nat)
    requires Answered(fileLen, log, nodes, k) && forall n | n in later :: Listed(nodes, n.addr)
    ensures Answered(fileLen, log + [e], later, k) && Answered(fileLen, log, later, k)
  {
    hide AckedIn;
    forall n, i | n in later && 0 <= i < k
      ensures AckedIn(fileLen, log + [e], i, n.addr) && AckedIn(fileLen, log, i, n.addr)
    {
      var m :| m in nodes && m.addr == n.addr;
      assert AckedIn(fileLen, log, i, m.addr);
      AcksGrow(fileLen, log, e, i, n.addr);
    }
  }

  lemma MarkKeeps(s: State, src: nat)
    requires Core(s)
    ensures var t := Mark(s, src, s.cur, s.recs[s.cur].offset);
            Core(t) && Pos(t) == Pos(s) && Addrs(t.nodes) == Addrs(s.nodes)
  {
    hide SetProcess, Listed, AckedIn, Firsts, ResendsFaithful, Failures, OnPlan, Addrs, AllAt, Acks, Answered, AtIndex;
    var step, offset, k := s.cur, s.recs[s.cur].offset, Pos(s);
    var t := Mark(s, src, step, offset);
    var e := Acked(src, step, offset);
    SetProcessMembers(s.nodes, src, step, offset);
    LogGrows(s.log, e);
    MarkInStep(s, t, src);
    AnsweredGrows(|s.file|, s.log, e, s.nodes, t.nodes, k);
    assert Firsts(t.log) == Firsts(s.log);
    PlanKept(s, t, Firsts(s.log));
    assert |t.nodes| == |s.nodes|;
  }

  lemma MarkInStep(s: State, t: State, src: nat)
    requires Core(s) && t == Mark(s, src, s.cur, s.recs[s.cur].offset)
    ensures forall n | n in t.nodes :: Listed(s.nodes, n.addr)
    ensures forall n | n in t.nodes :: AtIndex(|s.file|, n, Pos(s)) || AtIndex(|s.file|, n, Pos(s) - 1)
    ensures forall n | n in t.nodes && AtIndex(|s.file|, n, Pos(s)) :: AckedIn(|s.file|, t.log, Pos(s), n.addr)
  {
    hide SetProcess, AckedIn, Firsts, ResendsFaithful, Failures, OnPlan, Addrs, AllAt, Answered;
    var step, offset, k := s.cur, s.recs[s.cur].offset, Pos(s);
    var e := Acked(src, step, offset);
    SetProcessMembers(s.nodes, src, step, offset);
    forall n | n in t.nodes && AtIndex(|s.file|, n, k) ensures AckedIn(|s.file|, t.log, k, n.addr) {
      AcksGrow(|s.file|, s.log, e, k, n.addr);
    }
  }

  lemma PlanKept(s: State, t: State, msgs: seq<Msg>)
    requires s.cmd == t.cmd && s.info == t.info && s.file == t.file
    ensures OnPlan(s, msgs) == OnPlan(t, msgs)
  {
  }

  /** One new message, next in the plan. */
  lemma SendKeeps(s: State, m: Msg, k: nat)
    requires Logged(s, k + 1) && Planned(s, k + 1, m)
    ensures Logged(Send(s, m), k + 2) && Failures(Send(s, m).log) == Failures(s.log)
  {
    hide Planned;
    LogGrows(s.log, Sent(m));
    var t := Send(s, m);
    forall i | 0 <= i < k + 2 ensures Planned(t, i, Firsts(t.log)[i]) {
      if i <= k { assert Planned(s, i, Firsts(s.log)[i]); }
      SamePlan(s, t, i, Firsts(t.log)[i]);
    }
  }

  lemma SamePlan(s: State, t: State, i: nat, m: Msg)
    requires s.cmd == t.cmd && s.info == t.info && s.file == t.file
    ensures Planned(s, i, m) == Planned(t, i, m)
  {
  }

  /** Everybody is done with message `k`: the next one goes out, with everybody exactly one behind. */
  lemma NextKeeps(s: State, t: State, m: Msg, k: nat)
    requires Core(s) && AllAt(s.nodes, s.cur, s.recs[s.cur].offset) && k == Pos(s)
    requires t.log == s.log + [Sent(m)] && t.nodes == s.nodes
    ensures Answered(|s.file|, t.log, t.nodes, k + 1) && forall n | n in t.nodes :: AtIndex(|s.file|, n, k)
  {
    hide AckedIn, Firsts, Planned;
    forall n, i | n in t.nodes && 0 <= i < k + 1 ensures AckedIn(|s.file|, t.log, i, n.addr) {
      AcksGrow(|s.file|, s.log, Sent(m), i, n.addr);
      assert i < k ==> AckedIn(|s.file|, s.log, i, n.addr);
      assert AtIndex(|s.file|, n, k);
    }
  }

  /** The state in which message `k + 1` is outstanding and everybody is one behind is a waiting state. */
  lemma FreshStepWaits(s: State, t: State, m: Msg)
    requires Core(s) && AllAt(s.nodes, s.cur, s.recs[s.cur].offset)
    requires t.log == s.log + [Sent(m)] && t.last == m && t.nodes == s.nodes
    requires t.cmd == s.cmd && t.info == s.info && t.file == s.file
    requires Tracking(t) && Pos(t) == Pos(s) + 1 && Planned(s, Pos(s) + 1, m) && t.recs[t.cur].resendCnt == 0
    ensures Waiting(t)
  {
    hide AckedIn, Firsts, ResendsFaithful, Failures, Planned;
    var k := Pos(s);
    NextKeeps(s, t, m, k);
    SendKeeps(s, m, k);
    PlanKept(Send(s, m), t, Firsts(t.log));
    assert t.nodes[0] in t.nodes;
    IndicesDiffer(|t.file|, k);
  }

  lemma IndicesDiffer(fileLen: nat, k: nat)
    requires k + 1 <= CrcIndex(fileLen)
    ensures forall n: NodeVal :: !(AtIndex(fileLen, n, k) && AtIndex(fileLen, n, k + 1))
  {
  }

  /** `finish_handle` when everybody has answered: on to the next message, or to the jump. */
  lemma FinishKeeps(s: State, now: nat)
    requires Core(s) && AllAt(s.nodes, s.cur, s.recs[s.cur].offset)
    ensures var t := Finish(s, now);
            && t.nodes == s.nodes && t.cmd == s.cmd && t.info == s.info && t.file == s.file
            && if Pos(s) < CrcIndex(|s.file|) then Waiting(t) && Pos(t) == Pos(s) + 1 && t.recs[t.cur].resendCnt == 0
               else Succeeded(t)
  {
    hide AckedIn, Firsts, ResendsFaithful, Failures, AllAt, Answered;
    var t := Finish(s, now);
    if s.cur == CRC {
      JumpKeeps(s, now);
    } else {
      var m := t.last;
      assert t.log == s.log + [Sent(m)];
      if s.cur == CMD {
      } else if s.cur == INFO {
        FinishChunk(s, 0, now);
      } else {
        ChunkIndex(|s.file|, s.chunk.offset);
        FinishChunk(s, s.chunk.offset + s.chunk.dataLen, now);
      }
      FreshStepWaits(s, t, m);
    }
  }

  lemma ChunkRead(s: State, offset: nat)
    requires Shape(s)
    ensures var c, n := ReadChunk(s, offset), FileImage.ChunkLen(|s.file|, offset, FileImage.CHUNK_MAX);
            && c.offset == offset && c.dataLen == n && |c.data| == FileImage.CHUNK_MAX
            && (offset < |s.file| ==> c.data[..n] == s.file[offset..offset + n])
  {
  }

  /** Sending what was read at `offset` is message `k`: the chunk that starts there, or the CRC check when the file
      is through. */
  lemma SentIsPlanned(s: State, s1: State, offset: nat, k: nat, now: nat)
    requires Shape(s1) && s1.file == s.file && 2 <= k <= CrcIndex(|s.file|)
    requires offset < |s.file| ==> offset == 256 * (k - 2) && k < CrcIndex(|s.file|)
    requires offset >= |s.file| ==> k == CrcIndex(|s.file|)
    ensures var t := SendChunk(s1.(chunk := ReadChunk(s1, offset)), offset, now);
            && Tracking(t) && Pos(t) == k && Planned(s, k, t.last) && t.recs[t.cur].resendCnt == 0
  {
    hide ReadChunk;
    ChunkRead(s1, offset);
    if offset < |s.file| {
      ChunkIndex(|s.file|, offset);
    }
  }

  /** Reading at the next offset gives the planned chunk, or the CRC check when the file is through. */
  lemma FinishChunk(s: State, offset: nat, now: nat)
    requires Tracking(s) && s.cur in {INFO, DATA}
    requires offset == if s.cur == INFO then 0 else s.chunk.offset + s.chunk.dataLen
    ensures var t := Finish(s, now);
            && Tracking(t) && Pos(t) == Pos(s) + 1 && Planned(s, Pos(s) + 1, t.last) && t.recs[t.cur].resendCnt == 0
  {
    hide ReadChunk, SendChunk, Planned;
    if s.cur == DATA {
      ChunkIndex(|s.file|, s.chunk.offset);
      SentIsPlanned(s, s, offset, Pos(s) + 1, now);
    } else {
      SentIsPlanned(s, Enter(s, DATA, 0, now), 0, 2, now);
    }
  }

  lemma JumpKeeps(s: State, now: nat)
    requires Core(s) && AllAt(s.nodes, s.cur, s.recs[s.cur].offset) && s.cur == CRC
    ensures Succeeded(Finish(s, now))
  {
    hide AckedIn, Firsts, ResendsFaithful, Failures;
    var t := Finish(s, now);
    SendKeeps(s, JumpApp(MAGIC), Pos(s));
    PlanKept(Send(s, JumpApp(MAGIC)), t, Firsts(t.log));
    NextKeeps(s, t, JumpApp(MAGIC), Pos(s));
  }

  lemma RespondKeeps(s: State, src: nat, accepted: bool, offset: nat, now: nat)
    requires Waiting(s) && offset == s.recs[s.cur].offset
    ensures var t := Respond(s, src, accepted, offset, now);
            && (Waiting(t) || Succeeded(t)) && Addrs(t.nodes) == Addrs(s.nodes)
            && t.cmd == s.cmd && t.info == s.info && t.file == s.file
            && ((Waiting(t) && Pos(t) == Pos(s) && t.recs == s.recs)
                || (Waiting(t) && Pos(t) == Pos(s) + 1 && t.recs[t.cur].resendCnt == 0)
                || (Succeeded(t) && Pos(s) == CrcIndex(|s.file|)))
  {
    hide Core, AllAt, Finish, Succeeded, Addrs;
    var s1 := if accepted then Mark(s, src, s.cur, offset) else s;
    if accepted { MarkKeeps(s, src); }
    CoreTracks(s1);
    if AllAt(s1.nodes, s.cur, offset) { FinishKeeps(s1, now); }
  }

  lemma CoreTracks(s: State)
    requires Core(s)
    ensures Tracking(s) && s.nodes != []
  {
  }

  /** Dropping the silent nodes leaves nodes that have all answered. */
  lemma DropKeeps(s: State, t: State)
    requires Core(s)
    requires t == s.(recs := t.recs, nodes := KeepAt(s.nodes, s.cur, s.recs[s.cur].offset)) && t.nodes != []
    requires |t.recs| == 6 && t.recs[s.cur].offset == s.recs[s.cur].offset
    ensures Core(t) && AllAt(t.nodes, s.cur, s.recs[s.cur].offset)
  {
    hide AckedIn, Firsts, ResendsFaithful, Failures, KeepAt;
    var offset := s.recs[s.cur].offset;
    forall n | n in t.nodes ensures n in s.nodes && n.At(s.cur, offset) {
      KeepAtIsFilter(s.nodes, s.cur, offset, n);
    }
    PlanKept(s, t, Firsts(s.log));
  }

  lemma ResendKeeps(s: State, t: State)
    requires Core(s)
    requires t == s.(recs := t.recs, log := s.log + [Resent(s.last)])
    requires |t.recs| == 6 && t.recs[s.cur].offset == s.recs[s.cur].offset
    ensures Core(t) && Pos(t) == Pos(s)
  {
    hide AckedIn, Firsts, ResendsFaithful, Failures;
    LogGrows(s.log, Resent(s.last));
    PlanKept(s, t, Firsts(s.log));
    assert forall n | n in s.nodes :: Listed(s.nodes, n.addr);
    AnsweredGrows(|s.file|, s.log, Resent(s.last), s.nodes, s.nodes, Pos(s));
    forall n | n in t.nodes && AtIndex(|t.file|, n, Pos(t)) ensures AckedIn(|s.file|, t.log, Pos(t), n.addr) {
      AcksGrow(|s.file|, s.log, Resent(s.last), Pos(s), n.addr);
    }
  }

  lemma FailKeeps(s: State, now: nat)
    requires Core(s)
    ensures var s1 := Enter(s.(nodes := []), IDLE, 0, now); GaveUp(s1.(log := s.log + [Failed]))
  {
    hide Firsts, ResendsFaithful, Failures;
    LogGrows(s.log, Failed);
    var s1 := Enter(s.(nodes := []), IDLE, 0, now);
    var t := s1.(log := s.log + [Failed]);
    PlanKept(s, t, Firsts(s.log));
    assert Logged(t, Pos(s) + 1);
  }

  /** How a poll of a waiting master can end. */
  ghost predicate PollOutcome(s: State, checked: nat, t: State)
    requires Waiting(s)
  {
    var cnt := s.recs[s.cur].resendCnt;
    if !Expired(s, checked) then t == s
    else if cnt < ResendMax(s.cur) then
      && Waiting(t) && Pos(t) == Pos(s) && t.nodes == s.nodes && t.recs[t.cur].resendCnt == cnt + 1
      && t.log == s.log + [Resent(s.last)]
    else
      var kept := KeepAt(s.nodes, s.cur, s.recs[s.cur].offset);
      && t.nodes == kept && |kept| < |s.nodes|
      && if kept == [] then GaveUp(t)
         else if Pos(s) < CrcIndex(|s.file|) then Waiting(t) && Pos(t) == Pos(s) + 1 && t.recs[t.cur].resendCnt == 0
         else Succeeded(t)
  }

  lemma PollKeeps(s: State, checked: nat, now: nat)
    requires Waiting(s)
    ensures var t := Poll(s, checked, now);
            PollOutcome(s, checked, t) && t.cmd == s.cmd && t.info == s.info && t.file == s.file
  {
    hide Core, Finish, Succeeded, GaveUp, KeepAt, AllAt, Elapsed;
    CoreTracks(s);
    if Expired(s, checked) {
      var rec := s.recs[s.cur].(overTick := now, resendCnt := s.recs[s.cur].resendCnt + 1);
      var s1 := s.(recs := s.recs[s.cur := rec]);
      if rec.resendCnt <= ResendMax(s.cur) {
        ResendKeeps(s, Poll(s, checked, now));
      } else {
        var kept := KeepAt(s.nodes, s.cur, rec.offset);
        KeepAtAll(s.nodes, s.cur, rec.offset);
        var s2 := s1.(nodes := kept);
        if kept == [] {
          RecsFree(s, s1);
          FailKeeps(s1, now);
        } else {
          DropKeeps(s, s2);
          CoreTracks(s2);
          FinishKeeps(s2, now);
        }
      }
    }
  }

  /** The resend bookkeeping is not part of `Core`. */
  lemma RecsFree(s: State, t: State)
    requires Core(s) && t == s.(recs := t.recs) && |t.recs| == 6 && t.recs[s.cur].offset == s.recs[s.cur].offset
    ensures Core(t)
  {
    hide Firsts, AckedIn, ResendsFaithful, Failures;
    PlanKept(s, t, Firsts(s.log));
  }

  // ----- every event, every run -----

  /** A session started with at least one address waits on the command, with everybody one behind. */
  lemma StartWaits(s: State, addrs: seq<nat>, info: seq<byte>, file: seq<byte>, now: nat)
    requires Shape(s) && |file| < 0x1_0000_0000 && addrs != []
    ensures var t := Start(s, addrs, info, file, now);
            Waiting(t) && Pos(t) == 0 && Addrs(t.nodes) == addrs && t.recs[t.cur].resendCnt == 0
  {
    var t := Start(s, addrs, info, file, now);
    LogGrows([], Sent(t.cmd));
    assert [] + [Sent(t.cmd)] == t.log;
    assert t.nodes[0] in t.nodes;
    forall n | n in t.nodes ensures AtIndex(|t.file|, n, -1) && !AtIndex(|t.file|, n, 0) {
    }
  }

  ghost predicate InSession(s: State) {
    Waiting(s) || Succeeded(s) || GaveUp(s)
  }

  /** The current target as the response handlers see it: which answers count for it. */
  predicate Accepts(s: State, e: Event) {
    match e
    case Tick(_, _) => false
    case CmdResponse(_, ret, _) => s.cur == CMD && ret == 1
    case InfoResponse(_, ret, _) => s.cur == INFO && ret == 1
    case DataResponse(_, offset, _) => s.cur == DATA && offset == s.chunk.offset
    case CrcResponse(_, _, _) => s.cur == CRC
  }

  /** Is the event a response the current step looks at, accepted or not? */
  predicate Heard(s: State, e: Event) {
    match e
    case Tick(_, _) => false
    case CmdResponse(_, _, _) => s.cur == CMD
    case InfoResponse(_, _, _) => s.cur == INFO
    case DataResponse(_, _, _) => s.cur == DATA
    case CrcResponse(_, _, _) => s.cur == CRC
  }

  lemma ApplyResponse(s: State, e: Event)
    requires Waiting(s) && !e.Tick?
    ensures Apply(s, e) == if Heard(s, e) then Respond(s, e.src, Accepts(s, e), s.recs[s.cur].offset, e.now) else s
  {
    hide Respond, Firsts, AckedIn, ResendsFaithful, Failures, AllAt;
  }

  lemma ApplyKeeps(s: State, e: Event)
    requires InSession(s)
    ensures var t := Apply(s, e);
            InSession(t) && t.cmd == s.cmd && t.info == s.info && t.file == s.file && (s.cur == IDLE ==> t == s)
  {
    hide Core, Respond, Poll, Succeeded, GaveUp, AllAt, KeepAt;
    if Waiting(s) {
      CoreTracks(s);
      if e.Tick? {
        PollKeeps(s, e.checked, e.now);
      } else {
        ApplyResponse(s, e);
        if Heard(s, e) { RespondKeeps(s, e.src, Accepts(s, e), s.recs[s.cur].offset, e.now); }
      }
    } else {
      IdleStays(s, e);
    }
  }

  lemma IdleStays(s: State, e: Event)
    requires Succeeded(s) || GaveUp(s)
    ensures s.cur == IDLE && Shape(s) && Apply(s, e) == s
  {
  }

  lemma {:induction false} RunKeeps(s: State, events: seq<Event>)
    requires InSession(s)
    ensures Shape(s)
    ensures var t := Run(s, events); InSession(t) && t.cmd == s.cmd && t.info == s.info && t.file == s.file
    decreases |events|
  {
    hide Apply, Waiting, Succeeded, GaveUp;
    SessionShape(s);
    if events != [] {
      ApplyKeeps(s, events[0]);
      RunKeeps(Apply(s, events[0]), events[1..]);
    }
  }

  lemma SessionShape(s: State)
    requires InSession(s)
    ensures Shape(s)
  {
  }
}
