/**
 What holds in every run of the second group master: every requested address is accounted for exactly once.
 */
module FileTransferRuns {
  import opened Bits
  import opened TransferSteps
  import opened UpdateNodes
  import opened FileTransferProtocol

  // ----- every address accounted for -----

  /** Addresses a session can be asked to serve: distinct, and none of them the invalid address. */
  ghost predicate Requestable(addrs: seq<nat>) {
    && (forall i, j | 0 <= i < j < |addrs| :: addrs[i] != addrs[j])
    && (forall i | 0 <= i < |addrs| :: addrs[i] != 0xFF)
  }

  function ReportCount(log: seq<Entry>, a: nat): nat {
    multiset(log)[Reported(a)]
  }

  /** Address `a`, whose slot in the request table holds `slot`: reported exactly once and struck out, or not
      reported, still in the table, and listed or removed for a bad CRC. */
  ghost predicate Accounted(log: seq<Entry>, nodes: seq<NodeVal>, slot: nat, a: nat) {
    if ReportCount(log, a) > 0 then slot == 0xFF && ReportCount(log, a) == 1 && !Listed(nodes, a)
    else slot == a && (Listed(nodes, a) || Removed(a) in log)
  }

  ghost predicate Conserved(s: State, addrs: seq<nat>) {
    && Shape(s) && Requestable(addrs) && |s.objAddr| == |addrs|
    && DistinctAddrs(s.nodes) && (forall n | n in s.nodes :: n.addr in addrs)
    && (forall i | 0 <= i < |addrs| :: Accounted(s.log, s.nodes, s.objAddr[i], addrs[i]))
    && (forall a | Removed(a) in s.log :: a in addrs && !Listed(s.nodes, a))
    && (forall a | Reported(a) in s.log :: a in addrs)
  }

  /** Operations that neither report, remove nor drop: only the log grows, by entries of other kinds, and the
      listed addresses stay. */
  lemma QuietKeeps(s: State, t: State, addrs: seq<nat>, e: Entry)
    requires Conserved(s, addrs) && Shape(t) && t.objAddr == s.objAddr
    requires t.log == s.log || t.log == s.log + [e]
    requires !e.Reported? && !e.Removed?
    requires DistinctAddrs(t.nodes) && forall a :: Listed(t.nodes, a) <==> Listed(s.nodes, a)
    ensures Conserved(t, addrs)
  {
    hide Listed;
    forall n | n in t.nodes ensures n.addr in addrs {
      ListedIs(t.nodes, n);
      ListedWitness(s.nodes, n.addr);
    }
    forall i | 0 <= i < |addrs| ensures Accounted(t.log, t.nodes, t.objAddr[i], addrs[i]) {
      assert Accounted(s.log, s.nodes, s.objAddr[i], addrs[i]);
    }
  }

  lemma ListedIs(nodes: seq<NodeVal>, n: NodeVal)
    requires n in nodes
    ensures Listed(nodes, n.addr)
  {
  }

  lemma ListedWitness(nodes: seq<NodeVal>, a: nat)
    requires Listed(nodes, a)
    ensures exists n | n in nodes :: n.addr == a
  {
  }

  lemma MarkAddrs(nodes: seq<NodeVal>, src: nat, step: nat, offset: nat)
    requires DistinctAddrs(nodes)
    ensures var t := SetProcess(nodes, src, step, offset);
            DistinctAddrs(t) && forall a :: Listed(t, a) <==> Listed(nodes, a)
  {
    hide SetProcess;
    var t := SetProcess(nodes, src, step, offset);
    forall i | 0 <= i < |nodes| ensures t[i].addr == nodes[i].addr {
      SetProcessAt(nodes, src, step, offset, i);
    }
    forall a ensures Listed(t, a) <==> Listed(nodes, a) {
      if Listed(t, a) { var i :| 0 <= i < |t| && t[i].addr == a; assert nodes[i] in nodes; }
      if Listed(nodes, a) { var i :| 0 <= i < |nodes| && nodes[i].addr == a; assert t[i] in t; }
    }
  }

  lemma {:induction false} RemoveAddrs(nodes: seq<NodeVal>, src: nat)
    requires DistinctAddrs(nodes)
    ensures var t := RemoveFirst(nodes, src);
            && DistinctAddrs(t) && (forall n | n in t :: n in nodes)
            && forall a :: Listed(t, a) <==> Listed(nodes, a) && a != src
  {
    hide Listed;
    if nodes != [] {
      var n, rest := nodes[0], nodes[1..];
      RemoveAddrs(rest, src);
      assert nodes == [n] + rest;
      forall m | m in rest ensures m.addr != n.addr {
        var i :| 0 <= i < |rest| && rest[i] == m;
        assert nodes[i + 1] == m;
      }
      forall a ensures Listed(nodes, a) <==> n.addr == a || Listed(rest, a)
               ensures Listed([n] + RemoveFirst(rest, src), a) <==> n.addr == a || Listed(RemoveFirst(rest, src), a)
               ensures a == n.addr ==> !Listed(rest, a)
      {
        ListedCons(n, rest, a);
        ListedCons(n, RemoveFirst(rest, src), a);
      }
    } else {
      assert forall a :: !Listed([], a) by { ListedNone(); }
    }
  }

  lemma ListedCons(n: NodeVal, rest: seq<NodeVal>, a: nat)
    ensures Listed([n] + rest, a) <==> n.addr == a || Listed(rest, a)
    ensures (forall m | m in rest :: m.addr != a) ==> !Listed(rest, a)
  {
    if n.addr == a { assert n in [n] + rest; }
    if Listed(rest, a) {
      var m :| m in rest && m.addr == a;
      assert m in [n] + rest;
    }
  }

  lemma ListedNone()
    ensures forall a :: !Listed([], a)
  {
  }

  lemma RemoveKeeps(s: State, addrs: seq<nat>, src: nat)
    requires Conserved(s, addrs)
    ensures Conserved(Remove(s, src), addrs)
  {
    hide Listed, RemoveFirst;
    RemoveAddrs(s.nodes, src);
    var t := Remove(s, src);
    if Listed(s.nodes, src) { ListedWitness(s.nodes, src); }
    forall i | 0 <= i < |addrs| ensures Accounted(t.log, t.nodes, t.objAddr[i], addrs[i]) {
      assert Accounted(s.log, s.nodes, s.objAddr[i], addrs[i]);
    }
  }

  // ----- the check that reports -----

  /** A check reports in the order of the request: table after table, and of each entry itself unless it is 0xFF or its
      address is still listed. */
  lemma {:induction false} ReportsInOrder(a: seq<nat>, b: seq<nat>, x: nat, nodes: seq<NodeVal>)
    ensures Reports(a + b, nodes) == Reports(a, nodes) + Reports(b, nodes)
    ensures Reports([x], nodes) == if x == 0xFF || Listed(nodes, x) then [] else [Reported(x)]
    decreases |b|
  {
    hide Listed;
    assert [x][..0] == [];
    if b == [] {
      assert a + b == a;
    } else {
      var n := |b| - 1;
      assert (a + b)[..|a| + n] == a + b[..n];
      ReportsInOrder(a, b[..n], x, nodes);
    }
  }

  /** Whom a check reports: the addresses still in the table that are not listed any more, once each. */
  lemma {:induction false} ReportsCount(objAddr: seq<nat>, addrs: seq<nat>, nodes: seq<NodeVal>, a: nat)
    requires Requestable(addrs) && |objAddr| <= |addrs|
    requires forall i | 0 <= i < |objAddr| :: objAddr[i] == addrs[i] || objAddr[i] == INVALID
    ensures var reports := Reports(objAddr, nodes);
            && ReportCount(reports, a) == (if a in objAddr && a != INVALID && !Listed(nodes, a) then 1 else 0)
            && forall e | e in reports :: e.Reported?
  {
    hide Listed, ReportCount;
    if objAddr != [] {
      var n := |objAddr| - 1;
      var front, x := objAddr[..n], objAddr[n];
      ReportsCount(front, addrs, nodes, a);
      assert objAddr == front + [x];
      var last := if x != INVALID && !Listed(nodes, x) then [Reported(x)] else [];
      assert Reports(objAddr, nodes) == Reports(front, nodes) + last;
      CountConcat(Reports(front, nodes), last, a);
      CountSmall(x, a);
      if x == a && a != INVALID {
        assert forall i | 0 <= i < n :: objAddr[i] != a;
      }
    } else {
      CountSmall(0, a);
    }
  }

  lemma CountConcat(x: seq<Entry>, y: seq<Entry>, a: nat)
    ensures ReportCount(x + y, a) == ReportCount(x, a) + ReportCount(y, a)
  {
  }

  lemma CountSmall(x: nat, a: nat)
    ensures ReportCount([], a) == 0 && ReportCount([Reported(x)], a) == if x == a then 1 else 0
  {
  }

  /** Dropping silent nodes and checking right away keeps the account, and leaves no address unsettled. */
  lemma DropAndCheckKeeps(s: State, m: State, addrs: seq<nat>, step: nat, offset: nat)
    requires Conserved(s, addrs) && s.cur != IDLE
    requires m == s.(recs := m.recs, nodes := KeepAt(s.nodes, step, offset)) && Shape(m)
    ensures var t := UpdateCheck(m);
            && Conserved(t, addrs) && t.nodes == m.nodes
            && forall i | 0 <= i < |addrs| :: Listed(t.nodes, addrs[i]) || ReportCount(t.log, addrs[i]) == 1
  {
    hide Listed, KeepAt, Reports, StruckOut, Accounted, ReportCount, Requestable;
    var t := UpdateCheck(m);
    KeepAddrs(s.nodes, step, offset);
    SlotsAre(s, addrs);
    forall i | 0 <= i < |addrs|
      ensures Accounted(t.log, t.nodes, t.objAddr[i], addrs[i])
      ensures Listed(t.nodes, addrs[i]) || ReportCount(t.log, addrs[i]) == 1
    {
      SettleOne(s, t, addrs, i);
    }
    forall a ensures Reported(a) in t.log ==> a in addrs
             ensures Removed(a) in t.log ==> a in addrs && !Listed(t.nodes, a) {
      SettleOthers(s, t, addrs, a);
    }
  }

  lemma SlotsAre(s: State, addrs: seq<nat>)
    requires Conserved(s, addrs)
    ensures forall i | 0 <= i < |addrs| :: s.objAddr[i] == addrs[i] || s.objAddr[i] == INVALID
  {
    hide Listed, ReportCount;
    forall i | 0 <= i < |addrs| ensures s.objAddr[i] == addrs[i] || s.objAddr[i] == INVALID {
      assert Accounted(s.log, s.nodes, s.objAddr[i], addrs[i]);
    }
  }

  lemma SettleOthers(s: State, t: State, addrs: seq<nat>, a: nat)
    requires Conserved(s, addrs)
    requires t.log == s.log + Reports(s.objAddr, t.nodes)
    requires forall b | Listed(t.nodes, b) :: Listed(s.nodes, b)
    ensures Reported(a) in t.log ==> a in addrs
    ensures Removed(a) in t.log ==> a in addrs && !Listed(t.nodes, a)
  {
    hide Listed, Reports;
    SlotsAre(s, addrs);
    ReportsCount(s.objAddr, addrs, t.nodes, a);
    if a in s.objAddr && a != INVALID {
      var j :| 0 <= j < |s.objAddr| && s.objAddr[j] == a;
      assert addrs[j] == a;
    }
  }

  lemma SettleOne(s: State, t: State, addrs: seq<nat>, i: nat)
    requires Conserved(s, addrs) && i < |addrs|
    requires forall j | 0 <= j < |addrs| :: s.objAddr[j] == addrs[j] || s.objAddr[j] == INVALID
    requires t.log == s.log + Reports(s.objAddr, t.nodes) && t.objAddr == StruckOut(s.objAddr, t.nodes)
    requires forall a | Listed(t.nodes, a) :: Listed(s.nodes, a)
    ensures Accounted(t.log, t.nodes, t.objAddr[i], addrs[i])
    ensures Listed(t.nodes, addrs[i]) || ReportCount(t.log, addrs[i]) == 1
  {
    hide Listed;
    var a, reports := addrs[i], Reports(s.objAddr, t.nodes);
    ReportsCount(s.objAddr, addrs, t.nodes, a);
    assert ReportCount(t.log, a) == ReportCount(s.log, a) + ReportCount(reports, a);
    assert Accounted(s.log, s.nodes, s.objAddr[i], a);
    if a in s.objAddr {
      var j :| 0 <= j < |s.objAddr| && s.objAddr[j] == a;
      assert addrs[j] == a && j == i;
    }
    assert s.objAddr[i] == a <==> a in s.objAddr;
  }

  lemma KeepAddrs(nodes: seq<NodeVal>, step: nat, offset: nat)
    requires DistinctAddrs(nodes)
    ensures var t := KeepAt(nodes, step, offset);
            && DistinctAddrs(t) && (forall n | n in t :: n in nodes)
            && forall a | Listed(t, a) :: Listed(nodes, a)
  {
    hide KeepAt;
    var t := KeepAt(nodes, step, offset);
    forall n | n in t ensures n in nodes { KeepAtIsFilter(nodes, step, offset, n); }
    KeepDistinct(nodes, step, offset);
  }

  // ----- every event -----

  lemma FinishFrame(s: State, now: nat)
    requires Shape(s) && s.cur != IDLE
    ensures var t := Finish(s, now);
            && Shape(t) && t.nodes == s.nodes && t.objAddr == s.objAddr && t.file == s.file
            && (t.log == s.log || t.log == s.log + [Sent(t.last)])
  {
    hide ReadChunk;
  }

  lemma FinishConserves(s: State, addrs: seq<nat>, offset: nat, now: nat)
    requires Conserved(s, addrs) && s.cur != IDLE
    ensures Conserved(Finish(s, now), addrs) && Conserved(FinishIfSame(s, offset, now), addrs)
  {
    hide Finish, Conserved, AllAt;
    ConservedShape(s, addrs);
    FinishFrame(s, now);
    QuietKeeps(s, Finish(s, now), addrs, Sent(Finish(s, now).last));
  }

  lemma ConservedShape(s: State, addrs: seq<nat>)
    requires Conserved(s, addrs)
    ensures Shape(s) && DistinctAddrs(s.nodes)
  {
  }

  lemma MarkConserves(s: State, addrs: seq<nat>, src: nat, step: nat, offset: nat)
    requires Conserved(s, addrs)
    ensures Conserved(Mark(s, src, step, offset), addrs)
  {
    hide Conserved, SetProcess, Listed;
    ConservedShape(s, addrs);
    MarkAddrs(s.nodes, src, step, offset);
    QuietKeeps(s, Mark(s, src, step, offset), addrs, Acked(src, step, offset));
  }

  lemma NotifyConserves(s: State, addrs: seq<nat>, src: nat, result: int, offset: nat)
    requires Conserved(s, addrs)
    ensures Conserved(Notify(s, src, result, offset), addrs)
  {
    hide Conserved;
    ConservedShape(s, addrs);
    QuietKeeps(s, Notify(s, src, result, offset), addrs, Notified(src, result, offset));
  }

  lemma PollConserves(s: State, addrs: seq<nat>, checked: nat, now: nat)
    requires Conserved(s, addrs)
    ensures Conserved(Poll(s, checked, now), addrs)
  {
    hide Conserved, Finish, UpdateCheck, KeepAt, Elapsed;
    ConservedShape(s, addrs);
    if Expired(s, checked) {
      var rec := s.recs[s.cur].(overTick := now, resendCnt := s.recs[s.cur].resendCnt + 1);
      var s1 := s.(recs := s.recs[s.cur := rec]);
      if rec.resendCnt <= ResendMax(s.cur) {
        QuietKeeps(s, Poll(s, checked, now), addrs, Resent(s.last));
      } else {
        var m := s1.(nodes := KeepAt(s1.nodes, s.cur, rec.offset));
        DropAndCheckKeeps(s, m, addrs, s.cur, rec.offset);
        CheckFrame(m);
        var s2 := UpdateCheck(m);
        ConservedShape(s2, addrs);
        if s2.nodes == [] {
          QuietKeeps(s2, Poll(s, checked, now), addrs, Aborted);
        } else {
          FinishConserves(s2, addrs, 0, now);
        }
      }
    }
  }

  lemma CheckFrame(s: State)
    ensures UpdateCheck(s).cur == s.cur && UpdateCheck(s).recs == s.recs
  {
  }

  lemma ApplyConserves(s: State, addrs: seq<nat>, e: Event)
    requires Conserved(s, addrs)
    ensures Shape(s) && Conserved(Apply(s, e), addrs)
  {
    hide Conserved, Poll, FinishIfSame, SetProcess, RemoveFirst, Listed, Notify;
    ConservedShape(s, addrs);
    match e
    case Tick(checked, now) =>
      PollConserves(s, addrs, checked, now);
    case CmdResponse(src, ret, now) =>
      MarkConserves(s, addrs, src, CMD, 0);
      HandledConserves(s, if ret == RESPONSE_OK then Mark(s, src, CMD, 0) else s, addrs, 0, now);
      NotifyConserves(HandleCmd(s, src, ret, now), addrs, src, 0, 0);
    case InfoResponse(src, ret, now) =>
      MarkConserves(s, addrs, src, INFO, 0);
      HandledConserves(s, if ret == RESPONSE_OK then Mark(s, src, INFO, 0) else s, addrs, 0, now);
      NotifyConserves(HandleInfo(s, src, ret, now), addrs, src, 1, 0);
    case DataResponse(src, offset, now) =>
      MarkConserves(s, addrs, src, DATA, offset);
      HandledConserves(s, if offset == s.chunk.offset then Mark(s, src, DATA, offset) else s, addrs, s.chunk.offset,
                         now);
      NotifyConserves(HandleData(s, src, offset, now), addrs, src, 2, offset);
    case CrcResponse(src, ret, now) =>
      MarkConserves(s, addrs, src, CRC, 0);
      RemoveKeeps(s, addrs, src);
      HandledConserves(s, if ret == RESPONSE_OK then Mark(s, src, CRC, 0) else Remove(s, src), addrs, 0, now);
      NotifyConserves(HandleCrc(s, src, ret, now), addrs, src, if ret == RESPONSE_OK then 3 else -3, 0);
  }

  lemma HandledConserves(s: State, m: State, addrs: seq<nat>, offset: nat, now: nat)
    requires Conserved(s, addrs) && Conserved(m, addrs)
    ensures Shape(m) && (m.cur != IDLE ==> Conserved(FinishIfSame(m, offset, now), addrs))
  {
    hide FinishIfSame, Conserved;
    ConservedShape(m, addrs);
    if m.cur != IDLE { FinishConserves(m, addrs, offset, now); }
  }

  lemma {:induction false} RunConserves(s: State, addrs: seq<nat>, events: seq<Event>)
    requires Conserved(s, addrs)
    ensures Shape(s) && Conserved(Run(s, events), addrs)
    decreases |events|
  {
    hide Conserved, Apply;
    ConservedShape(s, addrs);
    if events != [] {
      ApplyConserves(s, addrs, events[0]);
      RunConserves(Apply(s, events[0]), addrs, events[1..]);
    }
  }

  lemma StartConserves(s: State, addrs: seq<nat>, len: nat, file: seq<byte>, now: nat)
    requires Shape(s) && |file| < 0x1_0000_0000 && Requestable(addrs)
    ensures Conserved(Start(s, addrs, len, file, now), addrs)
  {
    var t := Start(s, addrs, len, file, now);
    assert t.log == [Sent(StartCmd(UPDATE_CMD, addrs))];
    forall i | 0 <= i < |addrs| ensures Accounted(t.log, t.nodes, t.objAddr[i], addrs[i]) {
      assert t.nodes[i] in t.nodes;
    }
  }

  // ----- the promises about addresses -----

  ghost function ListedSet(s: State): set<nat> {
    set n | n in s.nodes :: n.addr
  }

  ghost function ReportedSet(s: State, addrs: seq<nat>): set<nat> {
    set a | a in addrs && ReportCount(s.log, a) > 0
  }

  /** Removed for a bad CRC reply and not reported. */
  ghost function PendingSet(s: State, addrs: seq<nat>): set<nat> {
    set a | a in addrs && Removed(a) in s.log && ReportCount(s.log, a) == 0
  }

  /** In every run the requested addresses are the disjoint union of the listed, the reported and the pending
      ones, and no address is reported twice. */
  lemma AddressesConserved(s: State, addrs: seq<nat>, len: nat, file: seq<byte>, now: nat, events: seq<Event>)
    requires Shape(s) && |file| < 0x1_0000_0000 && Requestable(addrs)
    ensures var t := Run(Start(s, addrs, len, file, now), events);
            && (set a | a in addrs) == ListedSet(t) + ReportedSet(t, addrs) + PendingSet(t, addrs)
            && ListedSet(t) !! ReportedSet(t, addrs) && ListedSet(t) !! PendingSet(t, addrs)
            && ReportedSet(t, addrs) !! PendingSet(t, addrs)
            && forall a :: ReportCount(t.log, a) <= 1 && (ReportCount(t.log, a) > 0 ==> a in addrs)
  {
    hide Run, Start, ReportCount, Conserved;
    StartConserves(s, addrs, len, file, now);
    RunConserves(Start(s, addrs, len, file, now), addrs, events);
    AccountsPartition(Run(Start(s, addrs, len, file, now), events), addrs);
  }

  lemma AccountsPartition(t: State, addrs: seq<nat>)
    requires Conserved(t, addrs)
    ensures (set a | a in addrs) == ListedSet(t) + ReportedSet(t, addrs) + PendingSet(t, addrs)
    ensures ListedSet(t) !! ReportedSet(t, addrs) && ListedSet(t) !! PendingSet(t, addrs)
    ensures forall a :: ReportCount(t.log, a) <= 1 && (ReportCount(t.log, a) > 0 ==> a in addrs)
  {
    forall a | a in addrs
      ensures a in ListedSet(t) + ReportedSet(t, addrs) + PendingSet(t, addrs)
      ensures ReportCount(t.log, a) <= 1
      ensures !(a in ListedSet(t) && a in ReportedSet(t, addrs))
    {
      var i :| 0 <= i < |addrs| && addrs[i] == a;
      assert Accounted(t.log, t.nodes, t.objAddr[i], addrs[i]);
    }
  }

  /** A timeout that ends a step settles everything: afterwards every requested address is listed or reported. */
  lemma TimeoutSettles(s: State, addrs: seq<nat>, checked: nat, now: nat)
    requires Conserved(s, addrs) && Shape(s) && Expired(s, checked) && s.recs[s.cur].resendCnt >= ResendMax(s.cur)
    ensures forall a | a in addrs ::
              Listed(Poll(s, checked, now).nodes, a) || ReportCount(Poll(s, checked, now).log, a) == 1
  {
    hide Conserved, Finish, UpdateCheck, KeepAt, Elapsed, Listed;
    var rec := s.recs[s.cur].(overTick := now, resendCnt := s.recs[s.cur].resendCnt + 1);
    var m := s.(recs := s.recs[s.cur := rec], nodes := KeepAt(s.nodes, s.cur, rec.offset));
    ConservedShape(s, addrs);
    DropAndCheckKeeps(s, m, addrs, s.cur, rec.offset);
    CheckFrame(m);
    var s2 := UpdateCheck(m);
    ConservedShape(s2, addrs);
    var t := Poll(s, checked, now);
    if s2.nodes != [] { FinishFrame(s2, now); }
    forall a | a in addrs ensures Listed(t.nodes, a) || ReportCount(t.log, a) == 1 {
      var i :| 0 <= i < |addrs| && addrs[i] == a;
      assert Listed(s2.nodes, addrs[i]) || ReportCount(s2.log, addrs[i]) == 1;
    }
  }

  /** A transfer is aborted only with an empty list, and then every requested address has been reported. */
  lemma AbortReportsEveryone(s: State, addrs: seq<nat>, checked: nat, now: nat)
    requires Conserved(s, addrs) && Aborted !in s.log
    requires Shape(s) && Aborted in Poll(s, checked, now).log
    ensures var t := Poll(s, checked, now);
            t.nodes == [] && t.cur == IDLE && forall a | a in addrs :: ReportCount(t.log, a) == 1
  {
    hide Conserved, KeepAt, Elapsed, ReportCount;
    AbortShape(s, addrs, checked, now);
    TimeoutSettles(s, addrs, checked, now);
  }

  lemma AbortShape(s: State, addrs: seq<nat>, checked: nat, now: nat)
    requires Conserved(s, addrs) && Aborted !in s.log && Shape(s) && Aborted in Poll(s, checked, now).log
    ensures Expired(s, checked) && s.recs[s.cur].resendCnt >= ResendMax(s.cur)
    ensures Poll(s, checked, now).nodes == [] && Poll(s, checked, now).cur == IDLE
  {
    hide KeepAt, Elapsed, Reports, Finish, StruckOut;
    if Expired(s, checked) && s.recs[s.cur].resendCnt >= ResendMax(s.cur) {
      var rec := s.recs[s.cur].(overTick := now, resendCnt := s.recs[s.cur].resendCnt + 1);
      var m := s.(recs := s.recs[s.cur := rec], nodes := KeepAt(s.nodes, s.cur, rec.offset));
      SlotsAre(s, addrs);
      ReportsCount(s.objAddr, addrs, m.nodes, 0);
      if m.nodes != [] { FinishFrame(UpdateCheck(m), now); }
    }
  }
}
