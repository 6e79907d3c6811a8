/**
 Progress of the firmware-update master: how many timeouts a run can contain, when a step is over,
 and whom the master drops.
 */
module BootProgress {
  import opened Bits
  import opened SessionPlan
  import opened TransferSteps
  import opened UpdateNodes
  import opened NodeAnswers
  import opened BootProtocol
  import opened BootRuns
  import opened BootTheorems

  // ----- a bound on timeouts -----

  /** The event is a poll that finds the current step's time elapsed. */
  predicate Expires(s: State, e: Event)
    requires Shape(s)
  {
    e.Tick? && Expired(s, e.checked)
  }

  function ExpiredPolls(s: State, events: seq<Event>): nat
    requires Shape(s)
    decreases |events|
  {
    if events == [] then 0
    else
      ApplyShape(s, events[0]);
      (if Expires(s, events[0]) then 1 else 0) + ExpiredPolls(Apply(s, events[0]), events[1..])
  }

  /** Timeouts the run can still contain when every step uses up its resends and is ended by dropping nodes. */
  function PollsLeft(s: State): int
    requires Shape(s)
  {
    if s.cur == IDLE then 0
    else ResendMax(s.cur) + 1 - s.recs[s.cur].resendCnt + 4 * (CrcIndex(|s.file|) - Pos(s))
  }

  /** The same, when each step that is ended by a timeout also costs a node. */
  function BudgetLeft(s: State): int
    requires Shape(s)
  {
    if s.cur == IDLE then 0
    else ResendMax(s.cur) - s.recs[s.cur].resendCnt + 3 * (CrcIndex(|s.file|) - Pos(s)) + |s.nodes|
  }

  lemma EventCosts(s: State, e: Event)
    requires InSession(s)
    ensures Shape(s) && Shape(Apply(s, e))
    ensures var t, cost := Apply(s, e), if Expires(s, e) then 1 else 0;
            PollsLeft(t) + cost <= PollsLeft(s) && BudgetLeft(t) + cost <= BudgetLeft(s)
  {
    hide Core, Poll, Respond, Succeeded, GaveUp, Addrs, AllAt, KeepAt, Elapsed;
    SessionShape(s);
    ApplyShape(s, e);
    var t := Apply(s, e);
    if Waiting(s) {
      CoreTracks(s);
      if e.Tick? {
        PollKeeps(s, e.checked, e.now);
      } else {
        ApplyResponse(s, e);
        if Heard(s, e) {
          RespondKeeps(s, e.src, Accepts(s, e), s.recs[s.cur].offset, e.now);
          assert |Addrs(t.nodes)| == |Addrs(s.nodes)|;
        }
      }
      if Succeeded(t) || GaveUp(t) { EndIsIdle(t); } else { CoreTracks(t); }
    } else {
      IdleStays(s, e);
    }
  }

  lemma EndIsIdle(s: State)
    requires Succeeded(s) || GaveUp(s)
    ensures s.cur == IDLE
  {
  }

  lemma {:induction false} RunCosts(s: State, events: seq<Event>)
    requires InSession(s)
    ensures Shape(s)
    ensures var t := Run(s, events);
            && PollsLeft(t) + ExpiredPolls(s, events) <= PollsLeft(s)
            && BudgetLeft(t) + ExpiredPolls(s, events) <= BudgetLeft(s)
    decreases |events|
  {
    hide Apply, InSession, PollsLeft, BudgetLeft, Expires;
    SessionShape(s);
    if events != [] {
      EventCosts(s, events[0]);
      ApplyKeeps(s, events[0]);
      RunCosts(Apply(s, events[0]), events[1..]);
    }
  }

  /** A run from a start contains at most 109 + 4 * chunks timeouts, and at most 106 + 3 * chunks + nodes; when
      it contains as many, it is over. */
  lemma RunsEnd(s: State, addrs: seq<nat>, info: seq<byte>, file: seq<byte>, now: nat, events: seq<Event>)
    requires Started(s, addrs, file)
    ensures var s0 := Start(s, addrs, info, file, now);
            var polls := ExpiredPolls(s0, events);
            && polls <= 109 + 4 * NumChunks(|file|) && polls <= 106 + 3 * NumChunks(|file|) + |addrs|
            && (polls == 109 + 4 * NumChunks(|file|) || polls == 106 + 3 * NumChunks(|file|) + |addrs|
                ==> Run(s0, events).cur == IDLE)
  {
    hide Run, Start, Waiting, Succeeded, GaveUp, ExpiredPolls, Addrs;
    var s0 := Start(s, addrs, info, file, now);
    StartWaits(s, addrs, info, file, now);
    StartRun(s, addrs, info, file, now, events);
    StartCounts(s, addrs, info, file, now);
    RunCosts(s0, events);
    LeftPositive(Run(s0, events));
  }

  lemma StartCounts(s: State, addrs: seq<nat>, info: seq<byte>, file: seq<byte>, now: nat)
    requires Started(s, addrs, file)
    ensures var s0 := Start(s, addrs, info, file, now);
            && PollsLeft(s0) == 109 + 4 * NumChunks(|file|)
            && BudgetLeft(s0) == 106 + 3 * NumChunks(|file|) + |addrs|
  {
  }

  lemma LeftPositive(s: State)
    requires InSession(s)
    ensures Shape(s)
    ensures if s.cur == IDLE then PollsLeft(s) == BudgetLeft(s) == 0 else PollsLeft(s) > 0 && BudgetLeft(s) > 0
  {
    hide AckedIn, Firsts, ResendsFaithful, Failures, Planned;
  }

  // ----- who still owes an answer -----

  /** The addresses whose answer to the current message is still missing. */
  ghost function Owing(s: State): set<nat>
    requires Shape(s)
  {
    OwingOf(s.nodes, s.cur, s.recs[s.cur].offset)
  }

  /** The target of `t` is that of `s`: same step, same offset, same addresses. */
  ghost predicate SameTarget(s: State, t: State)
    requires Shape(s) && Shape(t)
  {
    && t.cur == s.cur && t.chunk == s.chunk && t.file == s.file && t.recs[t.cur].offset == s.recs[s.cur].offset
    && Addrs(t.nodes) == Addrs(s.nodes)
  }

  /** The master has moved on from `s` to the next message, or to the jump, with the same nodes. */
  ghost predicate MovedOn(s: State, t: State) {
    && Addrs(t.nodes) == Addrs(s.nodes)
    && if Pos(s) < CrcIndex(|s.file|) then Waiting(t) && Pos(t) == Pos(s) + 1 && t.recs[t.cur].resendCnt == 0
       else Succeeded(t)
  }

  /** The addresses that answer the current message of `s` among `events`. */
  function Answers(s: State, events: seq<Event>): set<nat> {
    if events == [] then {}
    else Answers(s, events[..|events| - 1])
         + if Accepts(s, events[|events| - 1]) then {events[|events| - 1].src} else {}
  }

  /** A response settles its sender; when nobody else owes an answer the master moves on, otherwise it stays. */
  lemma ResponseSettles(s: State, e: Event)
    requires Waiting(s) && DistinctAddrs(s.nodes) && !e.Tick?
    ensures Shape(s) && Shape(Apply(s, e))
    ensures var t := Apply(s, e);
            var owing := Owing(s) - (if Accepts(s, e) then {e.src} else {});
            if owing == {} then MovedOn(s, t)
            else Waiting(t) && SameTarget(s, t) && t.recs == s.recs && Owing(t) == owing && DistinctAddrs(t.nodes)
  {
    hide Core, Finish, Succeeded, Addrs, SetProcess, AllAt;
    CoreTracks(s);
    ApplyShape(s, e);
    ApplyResponse(s, e);
    var step, offset := s.cur, s.recs[s.cur].offset;
    OwingNobody(s.nodes, step, offset);
    if Accepts(s, e) {
      var s1 := Mark(s, e.src, step, offset);
      MarkKeeps(s, e.src);
      MarkSettles(s.nodes, e.src, step, offset);
      OwingNobody(s1.nodes, step, offset);
      CoreTracks(s1);
      if AllAt(s1.nodes, step, offset) { FinishKeeps(s1, e.now); }
    }
  }

  lemma {:induction false} RunAppend(s: State, events: seq<Event>, e: Event)
    requires Shape(s)
    ensures Shape(Run(s, events)) && Run(s, events + [e]) == Apply(Run(s, events), e)
    ensures ExpiredPolls(s, events + [e]) == ExpiredPolls(s, events) + if Expires(Run(s, events), e) then 1 else 0
    decreases |events|
  {
    hide Apply, Expires;
    if events == [] {
      ApplyShape(s, e);
      assert [] + [e] == [e] && [e][1..] == [];
    } else {
      ApplyShape(s, events[0]);
      assert (events + [e])[1..] == events[1..] + [e];
      RunAppend(Apply(s, events[0]), events[1..], e);
    }
  }

  /** As long as somebody owes an answer and the resends are not used up, the master stays at its message, keeps
      every node, and has settled exactly those who answered: in any order, with duplicates, foreign, late
      and rejecting responses in between. */
  lemma {:induction false} StaysWhileOwed(s: State, events: seq<Event>)
    requires Waiting(s) && DistinctAddrs(s.nodes)
    requires s.recs[s.cur].resendCnt + ExpiredPolls(s, events) <= ResendMax(s.cur)
    requires Owing(s) - Answers(s, events) != {}
    ensures var t := Run(s, events);
            && Waiting(t) && SameTarget(s, t) && DistinctAddrs(t.nodes) && Owing(t) == Owing(s) - Answers(s, events)
            && t.recs[t.cur].resendCnt == s.recs[s.cur].resendCnt + ExpiredPolls(s, events)
    decreases |events|
  {
    hide Core, Apply, Run, ExpiredPolls, Expires, Addrs, Owing;
    CoreTracks(s);
    if events == [] {
      RunNothing(s);
    } else {
      var n := |events| - 1;
      var front, e := events[..n], events[n];
      assert events == front + [e];
      RunAppend(s, front, e);
      StaysWhileOwed(s, front);
      StepWhileOwed(s, Run(s, front), e);
    }
  }

  lemma RunNothing(s: State)
    requires Shape(s)
    ensures Run(s, []) == s && ExpiredPolls(s, []) == 0
  {
  }

  lemma SameTargetSameAnswers(s: State, t: State, e: Event)
    requires Shape(s) && Shape(t) && SameTarget(s, t)
    ensures Accepts(s, e) == Accepts(t, e)
  {
  }

  lemma StepWhileOwed(s: State, m: State, e: Event)
    requires Waiting(s) && Waiting(m) && SameTarget(s, m) && DistinctAddrs(m.nodes)
    requires Expires(m, e) ==> m.recs[m.cur].resendCnt < ResendMax(m.cur)
    requires Owing(m) - (if Accepts(s, e) then {e.src} else {}) != {}
    ensures Shape(Apply(m, e))
    ensures var t := Apply(m, e);
            && Waiting(t) && SameTarget(s, t) && DistinctAddrs(t.nodes)
            && Owing(t) == Owing(m) - (if Accepts(s, e) then {e.src} else {})
            && t.recs[t.cur].resendCnt == m.recs[m.cur].resendCnt + if Expires(m, e) then 1 else 0
  {
    hide Core, Poll, Addrs, AllAt, KeepAt, Elapsed;
    CoreTracks(s);
    CoreTracks(m);
    ApplyShape(m, e);
    SameTargetSameAnswers(s, m, e);
    if e.Tick? {
      PollKeeps(m, e.checked, e.now);
      PollSameTarget(m, e.checked, e.now);
    } else {
      ResponseSettles(m, e);
    }
  }

  lemma PollSameTarget(s: State, checked: nat, now: nat)
    requires Waiting(s)
    requires Expired(s, checked) ==> s.recs[s.cur].resendCnt < ResendMax(s.cur)
    ensures var t := Poll(s, checked, now); Shape(t) && SameTarget(s, t) && Owing(t) == Owing(s) && t.nodes == s.nodes
  {
    hide Firsts, AckedIn, ResendsFaithful, Failures, Planned;
  }

  /** The response that completes the set moves the master on, once, with nobody dropped. */
  lemma AdvancesWhenAllAnswered(s: State, events: seq<Event>, e: Event)
    requires Waiting(s) && DistinctAddrs(s.nodes)
    requires s.recs[s.cur].resendCnt + ExpiredPolls(s, events) <= ResendMax(s.cur)
    requires Owing(s) - Answers(s, events) != {} && Owing(s) - Answers(s, events + [e]) == {}
    ensures MovedOn(s, Run(s, events + [e]))
  {
    hide Core, Apply, Run, ExpiredPolls, Expires, Addrs, Owing;
    CoreTracks(s);
    StaysWhileOwed(s, events);
    RunAppend(s, events, e);
    var m := Run(s, events);
    assert (events + [e])[..|events|] == events;
    SameTargetSameAnswers(s, m, e);
    ResponseSettles(m, e);
    SameTargetSamePos(s, m);
  }

  lemma SameTargetSamePos(s: State, t: State)
    requires Shape(s) && Shape(t) && SameTarget(s, t)
    ensures Pos(s) == Pos(t)
  {
  }

  /** When the resends (100 for the command, 3 for every other message) are used up, the next timeout drops
      exactly the nodes that still owe their answer. */
  lemma TimeoutDropsOwing(s: State, events: seq<Event>, e: Event)
    requires Waiting(s) && DistinctAddrs(s.nodes) && s.recs[s.cur].resendCnt == 0
    requires Owing(s) - Answers(s, events) != {}
    requires ExpiredPolls(s, events) == if s.cur == CMD then 100 else 3
    requires Shape(s) && Expires(Run(s, events), e)
    ensures var t := Run(s, events + [e]);
            && (forall a :: a in Addrs(t.nodes) <==> a in Addrs(s.nodes) && a !in Owing(s) - Answers(s, events))
            && (t.nodes == [] <==> GaveUp(t)) && (t.nodes != [] ==> Waiting(t) || Succeeded(t))
  {
    hide Core, Apply, Run, ExpiredPolls, Owing, Succeeded, Elapsed, KeepAt;
    CoreTracks(s);
    StaysWhileOwed(s, events);
    RunAppend(s, events, e);
    var m := Run(s, events);
    CoreTracks(m);
    PollKeeps(m, e.checked, e.now);
    ApplyTick(m, e);
    var t := Poll(m, e.checked, e.now);
    KeptAddrs(m.nodes, m.cur, m.recs[m.cur].offset);
    OwingIs(m);
    if GaveUp(t) { GaveUpEmpty(t); }
  }

  lemma ApplyTick(s: State, e: Event)
    requires Shape(s) && e.Tick?
    ensures Apply(s, e) == Poll(s, e.checked, e.now)
  {
  }

  lemma OwingIs(s: State)
    requires Shape(s)
    ensures Owing(s) == OwingOf(s.nodes, s.cur, s.recs[s.cur].offset)
  {
  }

  lemma GaveUpEmpty(s: State)
    requires GaveUp(s)
    ensures s.nodes == []
  {
  }

  lemma KeptAddrs(nodes: seq<NodeVal>, step: nat, offset: nat)
    requires DistinctAddrs(nodes)
    ensures forall a :: a in Addrs(KeepAt(nodes, step, offset))
                        <==> a in Addrs(nodes) && a !in OwingOf(nodes, step, offset)
  {
    hide KeepAt;
    var kept := KeepAt(nodes, step, offset);
    forall a ensures a in Addrs(kept) <==> a in Addrs(nodes) && a !in OwingOf(nodes, step, offset) {
      if a in Addrs(kept) {
        var i :| 0 <= i < |kept| && kept[i].addr == a;
        KeepAtIsFilter(nodes, step, offset, kept[i]);
        var j :| 0 <= j < |nodes| && nodes[j] == kept[i];
        assert Addrs(nodes)[j] == a;
        forall n | n in nodes && n.addr == a ensures n == nodes[j] {
          var l :| 0 <= l < |nodes| && nodes[l] == n;
          assert l == j;
        }
      }
      if a in Addrs(nodes) && a !in OwingOf(nodes, step, offset) {
        var j :| 0 <= j < |nodes| && nodes[j].addr == a;
        KeepAtIsFilter(nodes, step, offset, nodes[j]);
        assert nodes[j] in nodes;
        var i :| 0 <= i < |kept| && kept[i] == nodes[j];
        assert Addrs(kept)[i] == a;
      }
    }
  }

  // ----- repeated addresses -----

  predicate NoTicks(events: seq<Event>) {
    forall e | e in events :: !e.Tick?
  }

  /** A node behind another one with its address is never settled, so no response ever ends the step. */
  lemma {:induction false} RepeatedAddressBlocks(s: State, i: nat, j: nat, events: seq<Event>)
    requires Waiting(s) && i < j < |s.nodes| && s.nodes[i].addr == s.nodes[j].addr
    requires !s.nodes[j].At(s.cur, s.recs[s.cur].offset) && NoTicks(events)
    ensures Shape(s) && Run(s, events).cur == s.cur && Pos(Run(s, events)) == Pos(s)
    decreases |events|
  {
    hide Apply, Core;
    CoreTracks(s);
    if events != [] {
      BlockedStep(s, i, j, events[0]);
      RepeatedAddressBlocks(Apply(s, events[0]), i, j, events[1..]);
    }
  }

  lemma BlockedStep(s: State, i: nat, j: nat, e: Event)
    requires Waiting(s) && i < j < |s.nodes| && s.nodes[i].addr == s.nodes[j].addr
    requires !s.nodes[j].At(s.cur, s.recs[s.cur].offset) && !e.Tick?
    ensures Shape(s) && Shape(Apply(s, e))
    ensures var t := Apply(s, e);
            && Waiting(t) && t.cur == s.cur && Pos(t) == Pos(s) && t.recs == s.recs
            && |t.nodes| == |s.nodes| && t.nodes[j] == s.nodes[j] && t.nodes[i].addr == s.nodes[i].addr
  {
    hide Core, Finish, SetProcess;
    CoreTracks(s);
    ApplyShape(s, e);
    ApplyResponse(s, e);
    var offset := s.recs[s.cur].offset;
    if Accepts(s, e) {
      MarkKeeps(s, e.src);
      SetProcessAt(s.nodes, e.src, s.cur, offset, i);
      SetProcessAt(s.nodes, e.src, s.cur, offset, j);
      var s1 := Mark(s, e.src, s.cur, offset);
      assert s1.nodes[j] in s1.nodes;
      CoreTracks(s1);
    } else {
      assert s.nodes[j] in s.nodes;
    }
  }

  /** An accepting answer of `src` to the current message. */
  function AnswerOf(s: State, src: nat, now: nat): (e: Event)
    requires CMD <= s.cur <= CRC
    ensures !e.Tick? && Accepts(s, e) && e.src == src
  {
    if s.cur == CMD then CmdResponse(src, RESPONSE_OK, now)
    else if s.cur == INFO then InfoResponse(src, RESPONSE_OK, now)
    else if s.cur == DATA then DataResponse(src, s.chunk.offset, now)
    else CrcResponse(src, RESPONSE_OK, now)
  }

  lemma WaitingOwes(s: State)
    requires Waiting(s)
    ensures Shape(s) && CMD <= s.cur <= CRC && Owing(s) != {}
  {
    hide Core, AllAt;
    CoreTracks(s);
    OwingNobody(s.nodes, s.cur, s.recs[s.cur].offset);
  }

  /** Responses that move a master with distinct addresses on by one message, with every node. */
  lemma {:induction false} StepPasses(s: State) returns (events: seq<Event>)
    requires Waiting(s) && DistinctAddrs(s.nodes)
    ensures Shape(s) && NoTicks(events) && MovedOn(s, Run(s, events))
    decreases |(WaitingOwes(s); Owing(s))|
  {
    hide Core, Apply, Owing, Addrs, Succeeded;
    WaitingOwes(s);
    var a :| a in Owing(s);
    var e := AnswerOf(s, a, 0);
    ResponseSettles(s, e);
    var t := Apply(s, e);
    RunFirst(s, [e]);
    if Owing(s) - {a} == {} {
      events := [e];
    } else {
      var rest := StepPasses(t);
      events := [e] + rest;
      RunFirst(s, events);
      assert events[1..] == rest;
      SameTargetSamePos(s, t);
    }
  }

  lemma RunFirst(s: State, events: seq<Event>)
    requires Shape(s) && events != []
    ensures Shape(Apply(s, events[0])) && Run(s, events) == Run(Apply(s, events[0]), events[1..])
    ensures |events| == 1 ==> Run(s, events) == Apply(s, events[0])
  {
    hide Apply;
    ApplyShape(s, events[0]);
  }

  lemma {:induction false} RunJoin(s: State, a: seq<Event>, b: seq<Event>)
    requires Shape(s)
    ensures Run(s, a + b) == Run(Run(s, a), b)
    decreases |a|
  {
    hide Apply;
    if a == [] {
      assert a + b == b;
    } else {
      ApplyShape(s, a[0]);
      RunJoin(Apply(s, a[0]), a[1..], b);
      assert (a + b)[1..] == a[1..] + b;
    }
  }

  lemma SameAddrsDistinct(nodes: seq<NodeVal>, later: seq<NodeVal>)
    requires DistinctAddrs(nodes) && Addrs(later) == Addrs(nodes)
    ensures DistinctAddrs(later)
  {
    assert |Addrs(later)| == |later| == |nodes|;
    forall i, j | 0 <= i < j < |later| ensures later[i].addr != later[j].addr {
      assert later[i].addr == Addrs(nodes)[i] && later[j].addr == Addrs(nodes)[j];
    }
  }

  /** Responses that bring a master with distinct addresses to the jump, with every node. */
  lemma {:induction false} SessionPasses(s: State) returns (events: seq<Event>)
    requires Waiting(s) && DistinctAddrs(s.nodes)
    ensures Shape(s) && NoTicks(events)
    ensures var t := Run(s, events); Succeeded(t) && Addrs(t.nodes) == Addrs(s.nodes)
    decreases (CoreTracks(s); CrcIndex(|s.file|) - Pos(s))
  {
    hide Core, Apply, Run, Addrs, Succeeded;
    CoreTracks(s);
    var first := StepPasses(s);
    var t := Run(s, first);
    events := first;
    if Pos(s) < CrcIndex(|s.file|) {
      SameAddrsDistinct(s.nodes, t.nodes);
      RunKeeps(s, first);
      CoreTracks(t);
      var rest := SessionPasses(t);
      RunJoin(s, first, rest);
      events := first + rest;
    }
  }

  /** Responses alone can bring a session to the jump with every node still listed exactly when its addresses are
      distinct. */
  lemma AnsweredThroughIffDistinct(s: State, addrs: seq<nat>, info: seq<byte>, file: seq<byte>, now: nat)
    requires Started(s, addrs, file)
    ensures (exists events :: NoTicks(events) &&
              var t := Run(Start(s, addrs, info, file, now), events);
              t.cur == IDLE && Addrs(t.nodes) == addrs && JumpApp(MAGIC) in Firsts(t.log))
            <==> (forall i, j | 0 <= i < j < |addrs| :: addrs[i] != addrs[j])
  {
    hide Run, Start, Core, Addrs;
    var s0 := Start(s, addrs, info, file, now);
    StartWaits(s, addrs, info, file, now);
    StartTarget(s, addrs, info, file, now);
    if i, j :| 0 <= i < j < |addrs| && addrs[i] == addrs[j] {
      forall events | NoTicks(events) ensures Run(s0, events).cur == CMD {
        RepeatedAddressBlocks(s0, i, j, events);
      }
    } else {
      var events := SessionPasses(s0);
      var t := Run(s0, events);
      StartRun(s, addrs, info, file, now, events);
      JumpIsLast(t, Firsts(t.log));
    }
  }

  /** Responses alone can get a session past its command exactly when its addresses are distinct. */
  lemma CommandAnsweredIffDistinct(s: State, addrs: seq<nat>, info: seq<byte>, file: seq<byte>, now: nat)
    requires Started(s, addrs, file)
    ensures (exists events :: NoTicks(events) && Run(Start(s, addrs, info, file, now), events).cur != CMD)
            <==> (forall i, j | 0 <= i < j < |addrs| :: addrs[i] != addrs[j])
  {
    hide Run, Start, Core, Addrs, Firsts;
    var s0 := Start(s, addrs, info, file, now);
    AnsweredThroughIffDistinct(s, addrs, info, file, now);
    StartWaits(s, addrs, info, file, now);
    StartTarget(s, addrs, info, file, now);
    if i, j :| 0 <= i < j < |addrs| && addrs[i] == addrs[j] {
      forall events | NoTicks(events) ensures Run(s0, events).cur == CMD {
        RepeatedAddressBlocks(s0, i, j, events);
      }
    }
  }

  lemma StartTarget(s: State, addrs: seq<nat>, info: seq<byte>, file: seq<byte>, now: nat)
    requires Started(s, addrs, file)
    ensures var s0 := Start(s, addrs, info, file, now);
            && s0.cur == CMD && s0.recs[CMD].offset == 0 && s0.recs[CMD].resendCnt == 0 && |s0.nodes| == |addrs|
            && (forall i | 0 <= i < |addrs| :: s0.nodes[i] == NodeVal(addrs[i], IDLE, 0))
  {
  }

  // ----- addresses stay distinct -----

  lemma FinishNodes(s: State, now: nat)
    requires Shape(s) && s.cur != IDLE
    ensures Finish(s, now).nodes == s.nodes
  {
    hide ReadChunk;
  }

  lemma ApplyDistinct(s: State, e: Event)
    requires Shape(s) && DistinctAddrs(s.nodes)
    ensures DistinctAddrs(Apply(s, e).nodes)
  {
    hide Finish, SetProcess, KeepAt, AllAt, Elapsed, DistinctAddrs;
    if e.Tick? {
      if Expired(s, e.checked) && s.recs[s.cur].resendCnt >= ResendMax(s.cur) {
        var rec := s.recs[s.cur].(overTick := e.now, resendCnt := s.recs[s.cur].resendCnt + 1);
        var m := s.(recs := s.recs[s.cur := rec], nodes := KeepAt(s.nodes, s.cur, rec.offset));
        KeepDistinct(s.nodes, s.cur, rec.offset);
        FinishNodes(m, e.now);
      }
    } else if Heard(s, e) {
      var offset := if s.cur == DATA then s.chunk.offset else 0;
      var m := if Accepts(s, e) then Mark(s, e.src, s.cur, offset) else s;
      MarkSettles(s.nodes, e.src, s.cur, offset);
      FinishNodes(m, e.now);
    }
  }

  /** No event sequence, timeouts included, gives two listed nodes the same address. */
  lemma {:induction false} RunKeepsDistinct(s: State, events: seq<Event>)
    requires Shape(s) && DistinctAddrs(s.nodes)
    ensures DistinctAddrs(Run(s, events).nodes)
    decreases |events|
  {
    hide Apply, DistinctAddrs;
    if events != [] {
      ApplyShape(s, events[0]);
      ApplyDistinct(s, events[0]);
      RunKeepsDistinct(Apply(s, events[0]), events[1..]);
    }
  }
}
