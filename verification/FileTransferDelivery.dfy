/**
 Whole runs of the second group master: the file arrives complete, the nodes stay in lockstep, and a run contains a
 bounded number of timeouts. All of it holds of every start, whatever the step records held before.
 */
module FileTransferDelivery {
  import opened Bits
  import opened SessionPlan
  import opened TransferSteps
  import opened UpdateNodes
  import opened FileTransferProtocol
  import opened FileTransferRuns
  import opened FileTransferOffsets
  import opened FileTransferRecords
  import Reports = FileTransferReports
  import FileImage

  // ----- the plan -----

  /** The message being waited on. */
  function Pos(s: State): nat {
    if s.cur == CMD then 0 else if s.cur == INFO then 1
    else if s.cur == DATA then 2 + s.chunk.offset / 256 else CrcIndex(|s.file|)
  }

  /** Message `k` of a transfer; the first chunk is sent with the whole buffer behind it. */
  ghost predicate Planned(addrs: seq<nat>, infoLen: nat, file: seq<byte>, k: nat, m: Msg) {
    if k == 0 then m == StartCmd(0x56, addrs)
    else if k == 1 then m == FileInfo(infoLen)
    else if k < CrcIndex(|file|) then
      var offset := 256 * (k - 2);
      && m.FileChunk? && m.offset == offset < |file|
      && m.dataLen == FileImage.ChunkLen(|file|, offset, FileImage.CHUNK_MAX)
      && |m.data| == (if k == 2 then FileImage.CHUNK_MAX else m.dataLen)
      && m.dataLen <= |m.data| && m.data[..m.dataLen] == file[offset..offset + m.dataLen]
    else k == CrcIndex(|file|) && m == CheckCrc(0x1234_5678)
  }

  ghost predicate OnPlan(addrs: seq<nat>, infoLen: nat, file: seq<byte>, msgs: seq<Msg>) {
    forall i | 0 <= i < |msgs| :: Planned(addrs, infoLen, file, i, msgs[i])
  }

  /** The messages that were sent for the first time, in order. */
  function Firsts(log: seq<Entry>): seq<Msg> {
    if log == [] then []
    else
      var e := log[|log| - 1];
      Firsts(log[..|log| - 1]) + if e.Sent? then [e.msg] else []
  }

  /** Every repetition repeats the message sent for the first time most recently before it. */
  predicate ResendsFaithful(log: seq<Entry>) {
    log == [] ||
    var front, e := log[..|log| - 1], log[|log| - 1];
    && ResendsFaithful(front)
    && (e.Resent? ==> Firsts(front) != [] && e.msg == Firsts(front)[|Firsts(front)| - 1])
  }

  lemma LogGrows(log: seq<Entry>, e: Entry)
    ensures Firsts(log + [e]) == Firsts(log) + if e.Sent? then [e.msg] else []
    ensures ResendsFaithful(log + [e]) <==>
            ResendsFaithful(log) && (e.Resent? ==> Firsts(log) != [] && e.msg == Firsts(log)[|Firsts(log)| - 1])
  {
    assert (log + [e])[..|log|] == log;
  }

  /** Entries that are no messages change neither. */
  lemma {:induction false} QuietLog(log: seq<Entry>, extra: seq<Entry>)
    requires forall x | x in extra :: !x.Sent? && !x.Resent?
    ensures Firsts(log + extra) == Firsts(log) && (ResendsFaithful(log + extra) <==> ResendsFaithful(log))
  {
    if extra == [] {
      assert log + extra == log;
    } else {
      var n := |extra| - 1;
      assert log + extra == (log + extra[..n]) + [extra[n]];
      QuietLog(log, extra[..n]);
      LogGrows(log + extra[..n], extra[n]);
    }
  }

  // ----- the invariant -----

  ghost predicate Logged(s: State, addrs: seq<nat>) {
    var msgs := Firsts(s.log);
    && OnPlan(addrs, s.infoLen, s.file, msgs) && ResendsFaithful(s.log)
    && msgs != [] && s.last == msgs[|msgs| - 1]
  }

  /** Nobody is more than one message behind, and nobody is ahead. */
  ghost predicate InStep(s: State) {
    forall n | n in s.nodes :: AtIndex(|s.file|, n, Pos(s)) || AtIndex(|s.file|, n, Pos(s) - 1)
  }

  ghost predicate Delivering(s: State, k: nat, addrs: seq<nat>) {
    && StaleBy(s, k) && (s.cur == DATA ==> s.chunk.offset % 256 == 0)
    && Logged(s, addrs)
    && (s.cur != IDLE ==> |Firsts(s.log)| == Pos(s) + 1 && InStep(s))
  }

  /** A master that waits does so for somebody, and within its resends. */
  ghost predicate Pending(s: State, addrs: seq<nat>)
    requires Shape(s)
  {
    s.cur != IDLE ==>
      && (addrs != [] ==> s.nodes != []) && Owes(s)
      && s.recs[s.cur].resendCnt <= ResendMax(s.cur)
  }

  lemma DeliveringTables(s: State, k: nat, addrs: seq<nat>)
    requires Delivering(s, k, addrs)
    ensures Tables(s) && StaleBy(s, k)
  {
  }

  lemma TargetIndex(s: State, n: NodeVal)
    requires Tables(s) && s.cur != IDLE && (s.cur == DATA ==> s.chunk.offset % 256 == 0)
    ensures n.At(s.cur, Target(s)) <==> AtIndex(|s.file|, n, Pos(s))
    ensures Pos(s) <= CrcIndex(|s.file|)
  {
    if s.cur == DATA { ChunkIndex(|s.file|, s.chunk.offset); }
  }

  // ----- the parts of the handlers -----

  /** Other entries in the log, other nodes as far as they are in step. */
  lemma QuietDelivers(s: State, t: State, k: nat, addrs: seq<nat>, extra: seq<Entry>)
    requires Delivering(s, k, addrs) && t == s.(nodes := t.nodes, objAddr := t.objAddr, log := s.log + extra)
    requires forall x | x in extra :: !x.Sent? && !x.Resent?
    requires s.cur != IDLE ==> InStep(t)
    ensures Delivering(t, k, addrs)
  {
    hide Firsts, ResendsFaithful, InStep;
    QuietLog(s.log, extra);
  }

  /** What is sent next is next in the plan. */
  lemma FinishPlanned(s: State, addrs: seq<nat>, now: nat)
    requires Tables(s) && s.cur != IDLE && s.cur != CRC && (s.cur == DATA ==> s.chunk.offset % 256 == 0)
    ensures var t := Finish(s, now);
            && t.log == s.log + [Sent(t.last)] && t.infoLen == s.infoLen && t.file == s.file && t.nodes == s.nodes
            && Planned(addrs, s.infoLen, s.file, Pos(s) + 1, t.last)
            && (t.cur == DATA ==> t.chunk.offset % 256 == 0)
            && (t.cur != IDLE ==> Pos(t) == Pos(s) + 1 && t.recs[t.cur].resendCnt == 0)
  {
    FinishMoves(s, now);
    if s.cur == DATA {
      ChunkIndex(|s.file|, s.chunk.offset);
      DataPlanned(s, addrs, now);
    } else if s.cur == INFO {
      InfoPlanned(s, addrs, now);
    }
  }

  lemma InfoPlanned(s: State, addrs: seq<nat>, now: nat)
    requires Tables(s) && s.cur == INFO
    ensures var t := InfoFinish(s, now);
            && t.log == s.log + [Sent(t.last)] && t.infoLen == s.infoLen && t.file == s.file && t.nodes == s.nodes
            && Planned(addrs, s.infoLen, s.file, 2, t.last)
            && (t.cur == DATA ==> t.chunk.offset == 0)
            && (t.cur != IDLE ==> t.cur == DATA && t.recs[DATA].resendCnt == 0)
  {
  }

  lemma DataPlanned(s: State, addrs: seq<nat>, now: nat)
    requires Tables(s) && s.cur == DATA && s.chunk.offset % 256 == 0
    ensures var t := DataFinish(s, now);
            && t.log == s.log + [Sent(t.last)] && t.infoLen == s.infoLen && t.file == s.file && t.nodes == s.nodes
            && Planned(addrs, s.infoLen, s.file, Pos(s) + 1, t.last)
            && (t.cur == DATA ==> t.chunk.offset == s.chunk.offset + s.chunk.dataLen)
            && t.cur != IDLE && t.recs[t.cur].resendCnt == 0
  {
    ChunkIndex(|s.file|, s.chunk.offset);
    var next := s.chunk.offset + s.chunk.dataLen;
    if next < |s.file| { ChunkIndex(|s.file|, next); }
  }

  /** From `s` to the next message, or to rest. */
  ghost predicate Forward(s: State, t: State) {
    && |t.recs| == 5 && t.file == s.file
    && (t.cur == IDLE || (CMD < t.cur <= CRC && Pos(t) == Pos(s) + 1 && t.recs[t.cur].resendCnt == 0))
  }

  lemma FinishDelivers(s: State, k: nat, addrs: seq<nat>, now: nat)
    requires Delivering(s, k, addrs) && s.cur != IDLE && (addrs != [] && s.cur != CRC ==> s.nodes != [])
    requires forall n | n in s.nodes :: AtIndex(|s.file|, n, Pos(s))
    ensures var t := Finish(s, now);
            Delivering(t, k, addrs) && Pending(t, addrs) && Forward(s, t) && t.nodes == s.nodes
  {
    hide Finish, Firsts, ResendsFaithful, Planned, StaleBy;
    DeliveringTables(s, k, addrs);
    FinishStale(s, k, 0, now);
    FinishMoves(s, now);
    var t := Finish(s, now);
    StaleTables(t, k);
    if s.cur == CRC {
      CrcIsLast(s, now);
    } else {
      FinishPlanned(s, addrs, now);
      LogGrows(s.log, Sent(t.last));
      if t.cur != IDLE { NobodyDone(s, t); }
    }
  }

  lemma NobodyDone(s: State, t: State)
    requires Tables(t) && t.cur != IDLE && (t.cur == DATA ==> t.chunk.offset % 256 == 0)
    requires Pos(t) == Pos(s) + 1 && t.nodes == s.nodes && t.file == s.file
    requires forall n | n in s.nodes :: AtIndex(|s.file|, n, Pos(s))
    ensures Owes(t)
  {
    if t.nodes != [] {
      assert t.nodes[0] in s.nodes;
      TargetIndex(t, t.nodes[0]);
    }
  }

  lemma CrcIsLast(s: State, now: nat)
    requires Shape(s) && s.cur == CRC
    ensures var t := Finish(s, now); t.cur == IDLE && t == s.(cur := IDLE, recs := t.recs)
  {
  }

  lemma {:induction false} RemoveMembers(nodes: seq<NodeVal>, addr: nat)
    ensures forall n | n in RemoveFirst(nodes, addr) :: n in nodes
    ensures |RemoveFirst(nodes, addr)| <= |nodes|
  {
    if nodes != [] { RemoveMembers(nodes[1..], addr); }
  }

  lemma MarkMembers(nodes: seq<NodeVal>, addr: nat, step: nat, offset: nat)
    ensures forall n | n in SetProcess(nodes, addr, step, offset) :: n in nodes || n.At(step, offset)
  {
    hide SetProcess;
    var t := SetProcess(nodes, addr, step, offset);
    forall n | n in t ensures n in nodes || n.At(step, offset) {
      var i :| 0 <= i < |t| && t[i] == n;
      SetProcessAt(nodes, addr, step, offset, i);
    }
  }

  /** The mark or removal a response causes. */
  lemma HandledDelivers(s: State, k: nat, addrs: seq<nat>, e: Event)
    requires Delivering(s, k, addrs) && !e.Tick?
    ensures var m := Reports.Handled(s, e);
            Delivering(m, k, addrs) && |m.nodes| <= |s.nodes| && (s.cur != CRC ==> |m.nodes| == |s.nodes|)
  {
    hide SetProcess, RemoveFirst, Listed, Delivering, AtIndex, StaleBy;
    DeliveringTables(s, k, addrs);
    var m := Reports.Handled(s, e);
    var extra := m.log[|s.log|..];
    MarkMembers(s.nodes, e.src, s.cur, Target(s));
    RemoveMembers(s.nodes, e.src);
    if s.cur != IDLE {
      DeliveringInStep(s, k, addrs);
      forall n | n in m.nodes ensures AtIndex(|s.file|, n, Pos(s)) || AtIndex(|s.file|, n, Pos(s) - 1) {
        TargetIndex(s, n);
      }
    }
    QuietDelivers(s, m, k, addrs, extra);
  }

  lemma DeliveringInStep(s: State, k: nat, addrs: seq<nat>)
    requires Delivering(s, k, addrs) && s.cur != IDLE
    ensures InStep(s) && (s.cur == DATA ==> s.chunk.offset % 256 == 0)
  {
  }

  lemma ResponseDelivers(s: State, k: nat, addrs: seq<nat>, e: Event)
    requires Delivering(s, k, addrs) && Shape(s) && Pending(s, addrs) && !e.Tick?
    ensures Shape(Apply(s, e))
    ensures var t := Apply(s, e);
            && Delivering(t, k, addrs) && Pending(t, addrs) && |t.nodes| <= |s.nodes|
            && ((s.cur != IDLE && Forward(s, t))
                || (t.cur == s.cur && t.chunk == s.chunk && t.file == s.file && t.recs == s.recs))
  {
    hide Apply, Finish, Delivering, AllAt, AtIndex, Reports.Handled;
    DeliveringTables(s, k, addrs);
    ApplyShape(s, e);
    HandledDelivers(s, k, addrs, e);
    var m := Reports.Handled(s, e);
    DeliveringTables(m, k, addrs);
    var f, n := Reports.ResponseParts(s, e);
    if f != m || (f != s && AllAt(m.nodes, s.cur, Target(s))) {
      DeliveringInStep(m, k, addrs);
      EveryoneIndexed(m);
      FinishDelivers(m, k, addrs, e.now);
    }
    SomebodyOwes(m.nodes, s.cur, Target(s));
    if f.cur != IDLE { DeliveringInStep(f, k, addrs); }
    QuietDelivers(f, Apply(s, e), k, addrs, [n]);
  }

  lemma SomebodyOwes(nodes: seq<NodeVal>, step: nat, offset: nat)
    ensures !AllAt(nodes, step, offset) ==> nodes != []
  {
  }

  lemma EveryoneIndexed(s: State)
    requires Tables(s) && s.cur != IDLE && (s.cur == DATA ==> s.chunk.offset % 256 == 0)
    requires AllAt(s.nodes, s.cur, Target(s))
    ensures forall n | n in s.nodes :: AtIndex(|s.file|, n, Pos(s))
  {
    hide AtIndex;
    forall n | n in s.nodes ensures AtIndex(|s.file|, n, Pos(s)) {
      TargetIndex(s, n);
    }
  }

  lemma ResendDelivers(s: State, t: State, k: nat, addrs: seq<nat>)
    requires Delivering(s, k, addrs) && s.cur != IDLE && t == s.(recs := t.recs, log := s.log + [Resent(s.last)])
    requires |t.recs| == 5 && t.recs == s.recs[s.cur := t.recs[s.cur]]
    requires t.recs[s.cur].offset == s.recs[s.cur].offset
    ensures Delivering(t, k, addrs)
  {
    hide Firsts, ResendsFaithful, AtIndex;
    LogGrows(s.log, Resent(s.last));
  }

  /** Whoever is kept at the end of a step has answered it; with a stale record at the first chunk that is nobody. */
  lemma KeptIndexed(s: State, k: nat, addrs: seq<nat>, n: NodeVal)
    requires Delivering(s, k, addrs) && s.cur != IDLE && n in KeepAt(s.nodes, s.cur, s.recs[s.cur].offset)
    ensures n in s.nodes && AtIndex(|s.file|, n, Pos(s))
  {
    hide KeepAt, Logged;
    KeepAtIsFilter(s.nodes, s.cur, s.recs[s.cur].offset, n);
    TargetIndex(s, n);
  }

  lemma {:induction false} ReportsQuiet(objAddr: seq<nat>, nodes: seq<NodeVal>)
    ensures forall x | x in FileTransferProtocol.Reports(objAddr, nodes) :: x.Reported?
  {
    if objAddr != [] { ReportsQuiet(objAddr[..|objAddr| - 1], nodes); }
  }

  /** The state after the silent nodes are dropped and reported. */
  function Dropped(s: State, now: nat): (t: State)
    requires Shape(s) && s.cur != IDLE
  {
    var rec := s.recs[s.cur].(overTick := now, resendCnt := s.recs[s.cur].resendCnt + 1);
    UpdateCheck(s.(recs := s.recs[s.cur := rec], nodes := KeepAt(s.nodes, s.cur, rec.offset)))
  }

  lemma DroppedDelivers(s: State, k: nat, addrs: seq<nat>, now: nat)
    requires Delivering(s, k, addrs) && s.cur != IDLE
    ensures var t := Dropped(s, now);
            && Delivering(t, k, addrs) && t.cur == s.cur && t.file == s.file && Pos(t) == Pos(s)
            && t.nodes == KeepAt(s.nodes, s.cur, s.recs[s.cur].offset)
            && forall n | n in t.nodes :: n in s.nodes && AtIndex(|s.file|, n, Pos(s))
  {
    hide KeepAt, FileTransferProtocol.Reports, StruckOut, AtIndex, Firsts, ResendsFaithful;
    forall n | n in KeepAt(s.nodes, s.cur, s.recs[s.cur].offset) ensures n in s.nodes && AtIndex(|s.file|, n, Pos(s)) {
      KeptIndexed(s, k, addrs, n);
    }
    var rec := s.recs[s.cur].(overTick := now, resendCnt := s.recs[s.cur].resendCnt + 1);
    var m := s.(recs := s.recs[s.cur := rec]);
    assert Delivering(m, k, addrs);
    var t := Dropped(s, now);
    ReportsQuiet(s.objAddr, t.nodes);
    QuietDelivers(m, t, k, addrs, FileTransferProtocol.Reports(s.objAddr, t.nodes));
  }

  lemma PollParts(s: State, checked: nat, now: nat)
    requires Shape(s) && Expired(s, checked) && s.recs[s.cur].resendCnt >= ResendMax(s.cur)
    ensures var d, t := Dropped(s, now), Poll(s, checked, now);
            && Shape(d) && d.cur == s.cur
            && if d.nodes != [] then t == Finish(d, now)
               else t == d.(cur := IDLE, recs := t.recs, log := d.log + [Aborted]) && |t.recs| == 5
                    && t.recs == d.recs[s.cur := d.recs[s.cur].(offset := 0)]
  {
    hide KeepAt, Elapsed, FileTransferProtocol.Reports, StruckOut, ReadChunk;
  }

  lemma PollDelivers(s: State, k: nat, addrs: seq<nat>, checked: nat, now: nat)
    requires Delivering(s, k, addrs) && Shape(s) && Pending(s, addrs) && Expired(s, checked)
    ensures var t, cnt := Poll(s, checked, now), s.recs[s.cur].resendCnt;
            && Delivering(t, k, addrs) && Shape(t) && Pending(t, addrs)
            && if cnt < ResendMax(s.cur) then
                 t.cur == s.cur && t.chunk == s.chunk && t.file == s.file && t.nodes == s.nodes
                 && t.recs[t.cur].resendCnt == cnt + 1
               else Forward(s, t) && (t.cur == IDLE || 0 < |t.nodes| < |s.nodes|)
  {
    hide Poll, Finish, Delivering, AllAt, AtIndex, Elapsed, Dropped;
    KeepAtAll(s.nodes, s.cur, s.recs[s.cur].offset);
    DeliveringTables(s, k, addrs);
    if s.recs[s.cur].resendCnt < ResendMax(s.cur) {
      PollResends(s, checked, now);
      ResendDelivers(s, Poll(s, checked, now), k, addrs);
    } else {
      var d := Dropped(s, now);
      PollParts(s, checked, now);
      DroppedDelivers(s, k, addrs, now);
      DeliveringTables(d, k, addrs);
      if s.nodes != [] { FewerKept(s, k, addrs); }
      if d.nodes == [] {
        AbortDelivers(d, Poll(s, checked, now), k, addrs);
      } else {
        FinishDelivers(d, k, addrs, now);
      }
      DeliveringTables(Poll(s, checked, now), k, addrs);
    }
  }

  lemma PollResends(s: State, checked: nat, now: nat)
    requires Shape(s) && Expired(s, checked) && s.recs[s.cur].resendCnt < ResendMax(s.cur)
    ensures var t := Poll(s, checked, now);
            && t == s.(recs := t.recs, log := s.log + [Resent(s.last)])
            && |t.recs| == 5 && t.recs == s.recs[s.cur := t.recs[s.cur]]
            && t.recs[s.cur].offset == s.recs[s.cur].offset
            && t.recs[s.cur].resendCnt == s.recs[s.cur].resendCnt + 1
  {
    hide Elapsed;
  }

  /** Somebody owed an answer, so somebody is dropped. */
  lemma FewerKept(s: State, k: nat, addrs: seq<nat>)
    requires Delivering(s, k, addrs) && Owes(s) && s.cur != IDLE && s.nodes != []
    ensures |KeepAt(s.nodes, s.cur, s.recs[s.cur].offset)| < |s.nodes|
  {
    hide KeepAt, AtIndex, StaleBy;
    DeliveringTables(s, k, addrs);
    var offset := s.recs[s.cur].offset;
    KeepAtAll(s.nodes, s.cur, offset);
    if AllAt(s.nodes, s.cur, offset) {
      forall n | n in s.nodes ensures n.At(s.cur, Target(s)) {
        KeptIndexed(s, k, addrs, n);
        TargetIndex(s, n);
      }
    }
  }

  lemma AbortDelivers(d: State, t: State, k: nat, addrs: seq<nat>)
    requires Delivering(d, k, addrs) && Shape(d) && d.cur != IDLE
    requires t == d.(cur := IDLE, recs := t.recs, log := d.log + [Aborted])
    requires |t.recs| == 5 && t.recs == d.recs[d.cur := d.recs[d.cur].(offset := 0)]
    ensures Delivering(t, k, addrs) && Shape(t)
  {
    hide Firsts, ResendsFaithful;
    QuietLog(d.log, [Aborted]);
  }

  // ----- every event, every run -----

  ghost predicate InTransfer(s: State, k: nat, addrs: seq<nat>) {
    Delivering(s, k, addrs) && Shape(s) && Pending(s, addrs)
  }

  /** The event is a poll that finds the current step's time elapsed. */
  predicate Expires(s: State, e: Event)
    requires Shape(s)
  {
    e.Tick? && Expired(s, e.checked)
  }

  function ExpiredPolls(s: State, events: seq<Event>): nat
    requires Shape(s)
    decreases |events|
  {
    if events == [] then 0
    else
      ApplyShape(s, events[0]);
      (if Expires(s, events[0]) then 1 else 0) + ExpiredPolls(Apply(s, events[0]), events[1..])
  }

  /** Timeouts the run can still contain when every step uses up its resends and is ended by dropping nodes. */
  function PollsLeft(s: State): int
    requires Shape(s)
  {
    if s.cur == IDLE then 0
    else ResendMax(s.cur) + 1 - s.recs[s.cur].resendCnt + 4 * (CrcIndex(|s.file|) - Pos(s))
  }

  /** The same, when each step that is ended by a timeout also costs a node, or the transfer. */
  function BudgetLeft(s: State): int
    requires Shape(s)
  {
    if s.cur == IDLE then 0
    else ResendMax(s.cur) - s.recs[s.cur].resendCnt + 3 * (CrcIndex(|s.file|) - Pos(s))
         + if s.nodes == [] then 1 else |s.nodes|
  }

  ghost predicate Paid(s: State, t: State, cost: nat)
    requires Shape(s) && Shape(t)
  {
    PollsLeft(t) + cost <= PollsLeft(s) && BudgetLeft(t) + cost <= BudgetLeft(s)
  }

  lemma PosBound(s: State, k: nat, addrs: seq<nat>)
    requires Delivering(s, k, addrs) && s.cur != IDLE
    ensures Pos(s) <= CrcIndex(|s.file|)
  {
    DeliveringTables(s, k, addrs);
    TargetIndex(s, NodeVal(0, 0, 0));
  }

  /** The next step has at most three resends, and one message less is to come. */
  lemma ForwardPaid(s: State, t: State, k: nat, addrs: seq<nat>, cost: nat)
    requires InTransfer(s, k, addrs) && InTransfer(t, k, addrs) && s.cur != IDLE && Forward(s, t)
    requires cost <= 1 && (t.cur == IDLE || cost <= |t.nodes| <= |s.nodes| - cost)
    ensures Paid(s, t, cost)
  {
    hide Delivering, Owes, CrcIndex, Pos;
    PosBound(s, k, addrs);
    if t.cur != IDLE { PosBound(t, k, addrs); }
  }

  /** An event keeps the invariant, and a timeout is paid from both measures. */
  lemma EventDelivers(s: State, k: nat, addrs: seq<nat>, e: Event)
    requires InTransfer(s, k, addrs)
    ensures InTransfer(Apply(s, e), k, addrs)
    ensures Paid(s, Apply(s, e), if Expires(s, e) then 1 else 0)
  {
    hide Delivering, Poll, Apply, Owes, Elapsed, Forward, CrcIndex;
    var t := Apply(s, e);
    if e.Tick? {
      TickPolls(s, e);
      if Expired(s, e.checked) {
        PollDelivers(s, k, addrs, e.checked, e.now);
        if s.recs[s.cur].resendCnt >= ResendMax(s.cur) { ForwardPaid(s, t, k, addrs, 1); }
      }
    } else {
      ResponseDelivers(s, k, addrs, e);
      if s.cur != IDLE && Forward(s, t) { ForwardPaid(s, t, k, addrs, 0); }
    }
  }

  lemma TickPolls(s: State, e: Event)
    requires Shape(s) && e.Tick?
    ensures Apply(s, e) == Poll(s, e.checked, e.now) && (!Expires(s, e) ==> Apply(s, e) == s)
  {
    hide Finish, KeepAt, Elapsed, UpdateCheck;
  }

  lemma {:induction false} RunDelivers(s: State, k: nat, addrs: seq<nat>, events: seq<Event>)
    requires InTransfer(s, k, addrs)
    ensures Shape(s) && InTransfer(Run(s, events), k, addrs)
    ensures Paid(s, Run(s, events), ExpiredPolls(s, events))
    decreases |events|
  {
    hide Apply, Delivering, Pending, PollsLeft, BudgetLeft, Expires;
    if events != [] {
      EventDelivers(s, k, addrs, events[0]);
      RunDelivers(Apply(s, events[0]), k, addrs, events[1..]);
    }
  }

  /** A start, from whatever step records, in the middle of another transfer or not. */
  lemma StartDelivers(s: State, addrs: seq<nat>, len: nat, file: seq<byte>, now: nat)
    requires Tables(s) && |file| < 0x1_0000_0000
    ensures var t := Start(s, addrs, len, file, now);
            && InTransfer(t, s.recs[DATA].offset, addrs) && t.file == file && t.infoLen == len
            && PollsLeft(t) == 109 + 4 * NumChunks(|file|)
            && BudgetLeft(t) == 106 + 3 * NumChunks(|file|) + if addrs == [] then 1 else |addrs|
  {
    var t := Start(s, addrs, len, file, now);
    StartMirrorsIff(s, addrs, len, file, now);
    LogGrows([], Sent(t.last));
    assert [] + [Sent(t.last)] == t.log;
    if t.nodes != [] { assert t.nodes[0] in t.nodes; }
  }

  // ----- the theorems -----

  /** The file bytes carried by a sequence of messages. */
  function Payload(msgs: seq<Msg>): seq<byte> {
    if msgs == [] then []
    else
      var m := msgs[|msgs| - 1];
      Payload(msgs[..|msgs| - 1]) + if m.FileChunk? && m.dataLen <= |m.data| then m.data[..m.dataLen] else []
  }

  /** After `i` planned messages the chunks carry the file up to where the next one would start. */
  lemma {:induction false} PayloadOfPlan(addrs: seq<nat>, infoLen: nat, file: seq<byte>, msgs: seq<Msg>)
    requires OnPlan(addrs, infoLen, file, msgs)
    ensures Payload(msgs) == file[..PrefixLen(|file|, |msgs|)]
  {
    hide Planned;
    if msgs != [] {
      var k := |msgs| - 1;
      var front := msgs[..k];
      assert forall i | 0 <= i < k :: front[i] == msgs[i];
      PayloadOfPlan(addrs, infoLen, file, front);
      assert Planned(addrs, infoLen, file, k, msgs[k]);
      PayloadStep(addrs, infoLen, file, k, msgs[k]);
    }
  }

  lemma PayloadStep(addrs: seq<nat>, infoLen: nat, file: seq<byte>, k: nat, m: Msg)
    requires Planned(addrs, infoLen, file, k, m)
    ensures file[..PrefixLen(|file|, k)]
            + (if m.FileChunk? && m.dataLen <= |m.data| then m.data[..m.dataLen] else [])
            == file[..PrefixLen(|file|, k + 1)]
  {
    if 2 <= k < CrcIndex(|file|) {
      var offset := 256 * (k - 2);
      assert file[..offset] + file[offset..offset + m.dataLen] == file[..offset + m.dataLen];
    }
  }

  /** In every run of every transfer the messages sent for the first time are those of the plan, every repetition
      repeats the outstanding one, and once the CRC check has been asked for the chunks are exactly the file. */
  lemma FileDelivered(s: State, addrs: seq<nat>, len: nat, file: seq<byte>, now: nat, events: seq<Event>)
    requires Tables(s) && |file| < 0x1_0000_0000
    ensures var t := Run(Start(s, addrs, len, file, now), events);
            && ResendsFaithful(t.log)
            && OnPlan(addrs, len, file, Firsts(t.log))
            && (CheckCrc(0x1234_5678) in Firsts(t.log) ==> Payload(Firsts(t.log)) == file)
  {
    hide Run, Start, ResendsFaithful, Planned, Pending, ExpiredPolls, PollsLeft, BudgetLeft, Paid;
    var s0 := Start(s, addrs, len, file, now);
    StartDelivers(s, addrs, len, file, now);
    RunDelivers(s0, s.recs[DATA].offset, addrs, events);
    RunFile(s0, events);
    var t := Run(s0, events);
    var msgs := Firsts(t.log);
    PayloadOfPlan(addrs, len, file, msgs);
    if CheckCrc(MAGIC) in msgs {
      var i :| 0 <= i < |msgs| && msgs[i] == CheckCrc(MAGIC);
      assert Planned(addrs, len, file, i, msgs[i]);
      OnlyCrcIsCrc(addrs, len, file, i);
      assert file[..|file|] == file;
    }
  }

  lemma OnlyCrcIsCrc(addrs: seq<nat>, infoLen: nat, file: seq<byte>, k: nat)
    requires Planned(addrs, infoLen, file, k, CheckCrc(MAGIC))
    ensures k == CrcIndex(|file|)
  {
  }

  /** Lockstep: while the master waits, every listed node last acknowledged the current message or the one before
      it; with an address requested, the list is not empty and somebody still owes the current one. */
  lemma Lockstep(s: State, addrs: seq<nat>, len: nat, file: seq<byte>, now: nat, events: seq<Event>)
    requires Tables(s) && |file| < 0x1_0000_0000
    ensures var t := Run(Start(s, addrs, len, file, now), events);
            t.cur != IDLE ==>
              && (forall n | n in t.nodes :: AtIndex(|file|, n, Pos(t)) || AtIndex(|file|, n, Pos(t) - 1))
              && t.cur == StepOf(|file|, Pos(t)) && Target(t) == OffsetOf(|file|, Pos(t))
              && (addrs != [] ==>
                    exists n | n in t.nodes :: AtIndex(|file|, n, Pos(t) - 1) && !AtIndex(|file|, n, Pos(t)))
  {
    hide Run, Start, ResendsFaithful, Planned, Firsts, ExpiredPolls, PollsLeft, BudgetLeft, Paid, AtIndex;
    var s0, k := Start(s, addrs, len, file, now), s.recs[DATA].offset;
    StartDelivers(s, addrs, len, file, now);
    RunDelivers(s0, k, addrs, events);
    RunFile(s0, events);
    var t := Run(s0, events);
    if t.cur != IDLE {
      StepAtPos(t);
      if addrs != [] {
        var n :| n in t.nodes && !n.At(t.cur, Target(t));
        TargetIndex(t, n);
      }
    }
  }

  lemma StepAtPos(s: State)
    requires Tables(s) && s.cur != IDLE && (s.cur == DATA ==> s.chunk.offset % 256 == 0)
    ensures s.cur == StepOf(|s.file|, Pos(s)) && Target(s) == OffsetOf(|s.file|, Pos(s))
  {
    if s.cur == DATA { ChunkIndex(|s.file|, s.chunk.offset); }
  }

  /** A run from a start contains at most 109 + 4 * chunks timeouts, and at most 106 + 3 * chunks + nodes; when it
      contains as many, it is over. */
  lemma RunsEnd(s: State, addrs: seq<nat>, len: nat, file: seq<byte>, now: nat, events: seq<Event>)
    requires Tables(s) && |file| < 0x1_0000_0000
    ensures var s0, nodes := Start(s, addrs, len, file, now), if addrs == [] then 1 else |addrs|;
            var polls := ExpiredPolls(s0, events);
            && polls <= 109 + 4 * NumChunks(|file|) && polls <= 106 + 3 * NumChunks(|file|) + nodes
            && (polls == 109 + 4 * NumChunks(|file|) || polls == 106 + 3 * NumChunks(|file|) + nodes
                ==> Run(s0, events).cur == IDLE)
  {
    hide Run, Start, Delivering, ExpiredPolls, Owes;
    var s0, k := Start(s, addrs, len, file, now), s.recs[DATA].offset;
    StartDelivers(s, addrs, len, file, now);
    RunDelivers(s0, k, addrs, events);
    var t := Run(s0, events);
    if t.cur != IDLE { PosBound(t, k, addrs); }
  }
}
