/**
 Who is waited for by the second group master: a step is over when every listed node has answered or has been removed,
 whatever the order of the responses and whatever else comes in between.
 */
module FileTransferProgress {
  import opened Bits
  import opened SessionPlan
  import opened TransferSteps
  import opened UpdateNodes
  import opened NodeAnswers
  import opened FileTransferProtocol
  import opened FileTransferRuns
  import opened FileTransferOffsets
  import opened FileTransferRecords
  import opened FileTransferDelivery
  import Reports = FileTransferReports

  /** The event answers the outstanding message. */
  predicate Accepts(s: State, e: Event) {
    match e
    case Tick(_, _) => false
    case CmdResponse(_, ret, _) => s.cur == CMD && ret == 1
    case InfoResponse(_, ret, _) => s.cur == INFO && ret == 1
    case DataResponse(_, offset, _) => s.cur == DATA && offset == s.chunk.offset
    case CrcResponse(_, ret, _) => s.cur == CRC && ret == 1
  }

  /** The event reports a bad CRC in the CRC step. */
  predicate Refuses(s: State, e: Event) {
    e.CrcResponse? && s.cur == CRC && e.ret != 1
  }

  /** The addresses whose answer to the outstanding message is still missing. */
  ghost function Owing(s: State): set<nat> {
    OwingOf(s.nodes, s.cur, Target(s))
  }

  /** The sender of the event, if the event settles what its sender owes. */
  function Settles(s: State, e: Event): set<nat> {
    if Accepts(s, e) || Refuses(s, e) then {e.src} else {}
  }

  /** The sender of the event, if the event takes it off the list. */
  function Leaves(s: State, e: Event): set<nat> {
    if Refuses(s, e) then {e.src} else {}
  }

  /** The addresses that settle the outstanding message of `s` among `events`. */
  function Settled(s: State, events: seq<Event>): set<nat> {
    if events == [] then {}
    else Settled(s, events[..|events| - 1]) + Settles(s, events[|events| - 1])
  }

  /** The addresses that report a bad CRC among `events`. */
  function Left(s: State, events: seq<Event>): set<nat> {
    if events == [] then {}
    else Left(s, events[..|events| - 1]) + Leaves(s, events[|events| - 1])
  }

  ghost predicate SameStep(s: State, t: State) {
    t.cur == s.cur && t.chunk == s.chunk && t.file == s.file
  }

  /** The transfer has gone on from `s` to the next message, or has ended after the last one. */
  ghost predicate MovedOn(s: State, t: State) {
    if s.cur == CRC || (s.cur == INFO && s.file == []) then t.cur == IDLE
    else |t.recs| == 5 && CMD < t.cur <= CRC && Pos(t) == Pos(s) + 1 && t.recs[t.cur].resendCnt == 0
  }

  // ----- one response -----

  lemma HandledIs(s: State, e: Event)
    requires Shape(s) && s.cur != IDLE && !e.Tick?
    ensures Reports.Handled(s, e)
            == if Accepts(s, e) then Mark(s, e.src, s.cur, Target(s)) else if Refuses(s, e) then Remove(s, e.src) else s
  {
    hide Mark, Remove;
  }

  lemma RemoveSettles(nodes: seq<NodeVal>, src: nat, step: nat, offset: nat)
    requires DistinctAddrs(nodes)
    ensures var t := RemoveFirst(nodes, src);
            DistinctAddrs(t) && OwingOf(t, step, offset) == OwingOf(nodes, step, offset) - {src}
  {
    hide RemoveFirst, Listed;
    var t := RemoveFirst(nodes, src);
    RemoveAddrs(nodes, src);
    forall n | n in nodes && n.addr != src ensures n in t {
      ListedIs(nodes, n);
      ListedWitness(t, n.addr);
      var m :| m in t && m.addr == n.addr;
      var i, j :| 0 <= i < |nodes| && 0 <= j < |nodes| && nodes[i] == n && nodes[j] == m;
    }
    forall n | n in t ensures n.addr != src {
      ListedIs(t, n);
    }
  }

  lemma HandledSettles(s: State, e: Event)
    requires Shape(s) && s.cur != IDLE && !e.Tick? && DistinctAddrs(s.nodes)
    ensures var m := Reports.Handled(s, e);
            && DistinctAddrs(m.nodes) && OwingOf(m.nodes, s.cur, Target(s)) == Owing(s) - Settles(s, e)
            && (forall a :: Listed(m.nodes, a) <==> Listed(s.nodes, a) && a !in Leaves(s, e))
  {
    hide Reports.Handled, SetProcess, RemoveFirst, Listed, OwingOf, DistinctAddrs;
    HandledIs(s, e);
    if Accepts(s, e) {
      MarkSettles(s.nodes, e.src, s.cur, Target(s));
      MarkAddrs(s.nodes, e.src, s.cur, Target(s));
    } else if Refuses(s, e) {
      RemoveSettles(s.nodes, e.src, s.cur, Target(s));
      RemoveAddrs(s.nodes, e.src);
    }
  }

  /** A response settles its sender, and a bad CRC reply takes it off the list. When nobody else owes an answer the
      transfer goes on, otherwise it stays. */
  lemma ResponseSettles(s: State, k: nat, addrs: seq<nat>, e: Event)
    requires InTransfer(s, k, addrs) && DistinctAddrs(s.nodes) && s.cur != IDLE && addrs != [] && !e.Tick?
    ensures var t := Apply(s, e);
            && DistinctAddrs(t.nodes)
            && (forall a :: Listed(t.nodes, a) <==> Listed(s.nodes, a) && a !in Leaves(s, e))
            && if Owing(s) - Settles(s, e) == {} then MovedOn(s, t)
               else SameStep(s, t) && t.recs == s.recs && Owing(t) == Owing(s) - Settles(s, e)
  {
    hide Apply, Finish, Delivering, AllAt, AtIndex, Reports.Handled, Listed, OwingOf, DistinctAddrs, Settles, Leaves;
    DeliveringTables(s, k, addrs);
    var m := Reports.Handled(s, e);
    HandledSettles(s, e);
    HandledDelivers(s, k, addrs, e);
    DeliveringTables(m, k, addrs);
    OwingNobody(s.nodes, s.cur, Target(s));
    OwingNobody(m.nodes, s.cur, Target(s));
    var f, n := Reports.ResponseParts(s, e);
    if AllAt(m.nodes, s.cur, Target(s)) {
      SomebodyOwes(s.nodes, s.cur, Target(s));
      DeliveringInStep(m, k, addrs);
      EveryoneIndexed(m);
      FinishDelivers(m, k, addrs, e.now);
      FinishMoves(m, e.now);
    }
  }

  // ----- any number of events -----

  lemma {:induction false} PollsSnoc(s: State, events: seq<Event>, e: Event)
    requires Shape(s)
    ensures Run(s, events + [e]) == Apply(Run(s, events), e)
    ensures ExpiredPolls(s, events + [e]) == ExpiredPolls(s, events) + if Expires(Run(s, events), e) then 1 else 0
    decreases |events|
  {
    hide Apply, Expires;
    if events == [] {
      ApplyShape(s, e);
      assert [] + [e] == [e] && [e][1..] == [];
    } else {
      ApplyShape(s, events[0]);
      assert (events + [e])[1..] == events[1..] + [e];
      PollsSnoc(Apply(s, events[0]), events[1..], e);
    }
  }

  /** What a list of events has made of `s` when it is still at the same step. */
  ghost predicate Waited(s: State, t: State, events: seq<Event>)
    requires Shape(s)
  {
    && Shape(t) && SameStep(s, t) && DistinctAddrs(t.nodes)
    && Owing(t) == Owing(s) - Settled(s, events)
    && (forall a :: Listed(t.nodes, a) <==> Listed(s.nodes, a) && a !in Left(s, events))
    && t.recs[t.cur].resendCnt == s.recs[s.cur].resendCnt + ExpiredPolls(s, events)
  }

  lemma SameStepSame(s: State, t: State, e: Event)
    requires SameStep(s, t)
    ensures Settles(s, e) == Settles(t, e) && Leaves(s, e) == Leaves(t, e) && Target(s) == Target(t)
    ensures forall u :: MovedOn(t, u) ==> MovedOn(s, u)
  {
  }

  lemma TickWaits(t: State, k: nat, addrs: seq<nat>, e: Event)
    requires InTransfer(t, k, addrs) && e.Tick? && t.cur != IDLE
    requires Expires(t, e) ==> t.recs[t.cur].resendCnt < if t.cur == CMD then 100 else 3
    ensures var u := Apply(t, e);
            && Shape(u) && SameStep(t, u) && u.nodes == t.nodes
            && u.recs[u.cur].resendCnt == t.recs[t.cur].resendCnt + if Expires(t, e) then 1 else 0
  {
    hide Delivering, Poll, Elapsed, Apply, AllAt;
    TickPolls(t, e);
    ApplyShape(t, e);
    if Expires(t, e) { PollDelivers(t, k, addrs, e.checked, e.now); }
  }

  lemma StepWaits(s: State, k: nat, addrs: seq<nat>, front: seq<Event>, e: Event)
    requires Shape(s) && InTransfer(Run(s, front), k, addrs) && s.cur != IDLE && addrs != []
    requires Waited(s, Run(s, front), front) && Owing(s) - Settled(s, front + [e]) != {}
    requires s.recs[s.cur].resendCnt + ExpiredPolls(s, front + [e]) <= if s.cur == CMD then 100 else 3
    ensures Waited(s, Run(s, front + [e]), front + [e])
  {
    hide Apply, InTransfer, Run, ExpiredPolls, Expires, Settles, Leaves, Listed, OwingOf, DistinctAddrs;
    var t := Run(s, front);
    PollsSnoc(s, front, e);
    ApplyShape(t, e);
    SameStepSame(s, t, e);
    assert (front + [e])[..|front|] == front;
    if e.Tick? {
      TickWaits(t, k, addrs, e);
      TickSettlesNobody(s, e);
    } else {
      ResponseSettles(t, k, addrs, e);
      NotExpired(t, e);
    }
  }

  lemma TickSettlesNobody(s: State, e: Event)
    requires e.Tick?
    ensures Settles(s, e) == {} && Leaves(s, e) == {}
  {
  }

  lemma NotExpired(s: State, e: Event)
    requires Shape(s) && !e.Tick?
    ensures !Expires(s, e)
  {
  }

  /** As long as somebody owes an answer and the resends are not used up, the transfer stays at its message, keeps every
      node that has not reported a bad CRC, and has settled exactly those who answered: in any order, with duplicates,
      foreign, late and rejecting responses in between. */
  lemma {:induction false} StaysWhileOwed(s: State, k: nat, addrs: seq<nat>, events: seq<Event>)
    requires InTransfer(s, k, addrs) && DistinctAddrs(s.nodes) && s.cur != IDLE && addrs != []
    requires Shape(s) && s.recs[s.cur].resendCnt + ExpiredPolls(s, events) <= if s.cur == CMD then 100 else 3
    requires Owing(s) - Settled(s, events) != {}
    ensures InTransfer(Run(s, events), k, addrs) && Waited(s, Run(s, events), events)
  {
    hide Apply, InTransfer, Run, ExpiredPolls, Expires, Waited, Settles, Leaves, OwingOf;
    RunDelivers(s, k, addrs, events);
    if events == [] {
      NothingWaited(s);
    } else {
      var n := |events| - 1;
      var front, e := events[..n], events[n];
      assert events == front + [e];
      PollsSnoc(s, front, e);
      StaysWhileOwed(s, k, addrs, front);
      StepWaits(s, k, addrs, front, e);
    }
  }

  lemma NothingWaited(s: State)
    requires Shape(s) && DistinctAddrs(s.nodes)
    ensures Waited(s, Run(s, []), [])
  {
  }

  /** The response that completes the set moves the transfer on, once, with nobody dropped but for a bad CRC. */
  lemma AdvancesWhenAllSettled(s: State, k: nat, addrs: seq<nat>, events: seq<Event>, e: Event)
    requires InTransfer(s, k, addrs) && DistinctAddrs(s.nodes) && s.cur != IDLE && addrs != []
    requires Shape(s) && s.recs[s.cur].resendCnt + ExpiredPolls(s, events) <= if s.cur == CMD then 100 else 3
    requires Owing(s) - Settled(s, events) != {} && Owing(s) - Settled(s, events + [e]) == {}
    ensures var t := Run(s, events + [e]);
            && MovedOn(s, t)
            && forall a :: Listed(t.nodes, a) <==> Listed(s.nodes, a) && a !in Left(s, events + [e])
  {
    hide Apply, InTransfer, Run, ExpiredPolls, Expires, Settles, Leaves, Listed, OwingOf, DistinctAddrs, MovedOn;
    StaysWhileOwed(s, k, addrs, events);
    PollsSnoc(s, events, e);
    var t := Run(s, events);
    assert (events + [e])[..|events|] == events;
    SameStepSame(s, t, e);
    if e.Tick? {
      TickSettlesNobody(s, e);
    } else {
      ResponseSettles(t, k, addrs, e);
    }
  }

  /** A start to distinct addresses is such a state: everybody owes an answer to the command. */
  lemma StartOwed(s: State, addrs: seq<nat>, len: nat, file: seq<byte>, now: nat)
    requires Tables(s) && |file| < 0x1_0000_0000 && Requestable(addrs)
    ensures var t := Start(s, addrs, len, file, now);
            && InTransfer(t, s.recs[DATA].offset, addrs) && DistinctAddrs(t.nodes) && t.cur == CMD
            && Owing(t) == (set a | a in addrs) && forall a :: Listed(t.nodes, a) <==> a in addrs
  {
    hide InTransfer;
    StartDelivers(s, addrs, len, file, now);
    var t := Start(s, addrs, len, file, now);
    forall a | a in addrs ensures a in Owing(t) && Listed(t.nodes, a) {
      var i :| 0 <= i < |addrs| && addrs[i] == a;
      assert t.nodes[i] in t.nodes;
    }
  }
}
