/**
 The nodes' verdicts on the file's CRC, and what the firmware-update master makes of them: nothing. The jump to the
 new program can go out to nodes that have all reported a bad CRC.
 */
module BootVerdicts {
  import opened Bits
  import opened TransferSteps
  import opened UpdateNodes
  import opened BootProtocol
  import opened BootRuns
  import opened BootTheorems
  import opened BootProgress

  /** The same events, as far as they are not verdicts: a CRC response may say something else. */
  predicate SameButVerdicts(x: seq<Event>, y: seq<Event>) {
    && |x| == |y|
    && forall i | 0 <= i < |x| ::
         x[i] == y[i] || (x[i].CrcResponse? && y[i].CrcResponse? && x[i].src == y[i].src && x[i].now == y[i].now)
  }

  /** No verdict changes what the master does. */
  lemma {:induction false} VerdictsIgnored(s: State, x: seq<Event>, y: seq<Event>)
    requires Shape(s) && SameButVerdicts(x, y)
    ensures Run(s, x) == Run(s, y)
    decreases |x|
  {
    if x != [] {
      assert Apply(s, x[0]) == Apply(s, y[0]) by { hide Respond, Poll; }
      hide Apply;
      ApplyShape(s, x[0]);
      VerdictsIgnored(Apply(s, x[0]), x[1..], y[1..]);
    }
  }

  /** Some response of `a`, in the CRC step, says that the CRC is right. */
  ghost predicate GoodVerdict(s: State, events: seq<Event>, a: nat)
    requires Shape(s)
  {
    exists i | 0 <= i < |events| ::
      events[i].CrcResponse? && events[i].src == a && events[i].ret == 1 && Run(s, events[..i]).cur == CRC
  }

  /** The jump has been sent, and every node it is meant for has said that the CRC is right. */
  ghost predicate JumpJustified(s: State, events: seq<Event>)
    requires Shape(s)
  {
    var t := Run(s, events);
    JumpApp(MAGIC) in Firsts(t.log) ==> forall n | n in t.nodes :: GoodVerdict(s, events, n.addr)
  }

  // ----- a run to the jump, for any addresses -----

  lemma {:induction false} OnlyFirstKept(nodes: seq<NodeVal>, step: nat, offset: nat)
    requires nodes != [] && nodes[0].At(step, offset)
    requires forall i | 1 <= i < |nodes| :: !nodes[i].At(step, offset)
    ensures KeepAt(nodes, step, offset) == [nodes[0]]
  {
    var n := |nodes| - 1;
    if n > 0 { OnlyFirstKept(nodes[..n], step, offset); }
  }

  /** A poll late enough for the current step. */
  function Late(s: State): (e: Event)
    requires Shape(s)
    ensures e.Tick? && (s.cur != IDLE ==> Expired(s, e.checked))
  {
    Tick(s.recs[s.cur].overTick + OverTime(s.cur), 0)
  }

  /** When only the first node has answered the command, the timeouts leave it alone on the list. */
  lemma {:induction false} OthersTimeOut(s: State) returns (events: seq<Event>)
    requires Waiting(s) && s.cur == CMD && s.recs[CMD].resendCnt <= ResendMax(CMD)
    requires s.nodes[0].At(CMD, s.recs[CMD].offset)
    requires forall i | 1 <= i < |s.nodes| :: !s.nodes[i].At(CMD, s.recs[CMD].offset)
    ensures Shape(s) && Waiting(Run(s, events)) && |Run(s, events).nodes| == 1
    decreases ResendMax(CMD) - s.recs[CMD].resendCnt
  {
    hide Core, Poll, Run, KeepAt, Elapsed, Succeeded, GaveUp;
    CoreTracks(s);
    var e := Late(s);
    PollKeeps(s, e.checked, e.now);
    ApplyTick(s, e);
    RunFirst(s, [e]);
    var t := Apply(s, e);
    events := [e];
    if s.recs[CMD].resendCnt < ResendMax(CMD) {
      StillCmd(s, e.checked, e.now);
      var rest := OthersTimeOut(t);
      RunJoin(s, [e], rest);
      events := [e] + rest;
    } else {
      OnlyFirstKept(s.nodes, CMD, s.recs[CMD].offset);
    }
  }

  lemma StillCmd(s: State, checked: nat, now: nat)
    requires Waiting(s) && Expired(s, checked) && s.recs[s.cur].resendCnt < ResendMax(s.cur)
    ensures Shape(s) && var t := Poll(s, checked, now);
            Shape(t) && t.cur == s.cur && t.recs[s.cur].offset == s.recs[s.cur].offset
  {
    hide Firsts, AckedIn, ResendsFaithful, Failures, Planned;
  }

  /** Every session with at least one address can be led to the jump. */
  lemma JumpReached(s: State, addrs: seq<nat>, info: seq<byte>, file: seq<byte>, now: nat) returns (events: seq<Event>)
    requires Started(s, addrs, file)
    ensures Succeeded(Run(Start(s, addrs, info, file, now), events))
  {
    hide Run, Start, Core, Addrs, SetProcess, Apply, Succeeded;
    var s0 := Start(s, addrs, info, file, now);
    StartWaits(s, addrs, info, file, now);
    StartTarget(s, addrs, info, file, now);
    if |addrs| == 1 {
      events := SessionPasses(s0);
    } else {
      var e := CmdResponse(addrs[0], RESPONSE_OK, 0);
      FirstAnswers(s0, e);
      var m := Apply(s0, e);
      RunFirst(s0, [e]);
      var y := OthersTimeOut(m);
      RunJoin(s0, [e], y);
      var x := [e] + y;
      CoreTracks(Run(s0, x));
      var z := SessionPasses(Run(s0, x));
      RunJoin(s0, x, z);
      events := x + z;
    }
  }

  /** Only the first node is marked, so the step goes on. */
  lemma FirstMarked(s: State)
    requires |s.nodes| >= 2 && s.cur == CMD && forall n | n in s.nodes :: n.step == IDLE
    ensures var m := Mark(s, s.nodes[0].addr, CMD, 0);
            && m.nodes[0].At(CMD, 0) && (forall i | 1 <= i < |m.nodes| :: !m.nodes[i].At(CMD, 0))
            && !AllAt(m.nodes, CMD, 0)
  {
    var m := Mark(s, s.nodes[0].addr, CMD, 0);
    assert m.nodes == [NodeVal(s.nodes[0].addr, CMD, 0)] + s.nodes[1..];
    assert m.nodes[1] in m.nodes && forall i | 1 <= i < |s.nodes| :: m.nodes[i] == s.nodes[i] && s.nodes[i] in s.nodes;
  }

  lemma FirstAnswers(s: State, e: Event)
    requires Waiting(s) && s.cur == CMD && s.recs[CMD].offset == 0 && |s.nodes| >= 2
    requires forall n | n in s.nodes :: n.step == IDLE
    requires e == CmdResponse(s.nodes[0].addr, RESPONSE_OK, 0)
    ensures Shape(s) && var t := Apply(s, e);
            && Waiting(t) && t.cur == CMD && t.recs == s.recs && |t.nodes| == |s.nodes|
            && t.nodes[0].At(CMD, 0) && forall i | 1 <= i < |t.nodes| :: !t.nodes[i].At(CMD, 0)
  {
    hide Core, Finish, Succeeded, AllAt, SetProcess, Addrs, Listed;
    CoreTracks(s);
    RespondKeeps(s, e.src, true, 0, 0);
    FirstMarked(s);
  }

  // ----- exactly when the jump means good CRCs -----

  function Spoilt(e: Event): Event {
    if e.CrcResponse? then e.(ret := 0) else e
  }

  /** Every such session can end in the jump with nobody ever having said that the CRC is right. */
  lemma BadCrcJumps(s: State, addrs: seq<nat>, info: seq<byte>, file: seq<byte>, now: nat) returns (events: seq<Event>)
    requires Started(s, addrs, file)
    ensures Succeeded(Run(Start(s, addrs, info, file, now), events))
    ensures forall e | e in events && e.CrcResponse? :: e.ret != RESPONSE_OK
  {
    hide Run, Start, Succeeded;
    var x := JumpReached(s, addrs, info, file, now);
    events := seq(|x|, i requires 0 <= i < |x| => Spoilt(x[i]));
    VerdictsIgnored(Start(s, addrs, info, file, now), x, events);
  }

  lemma {:induction false} NobodyStays(s: State, events: seq<Event>)
    requires Shape(s) && s.nodes == []
    ensures Run(s, events).nodes == []
    decreases |events|
  {
    hide Apply;
    if events != [] {
      ApplyShape(s, events[0]);
      NobodyAppears(s, events[0]);
      NobodyStays(Apply(s, events[0]), events[1..]);
    }
  }

  lemma NobodyAppears(s: State, e: Event)
    requires Shape(s) && s.nodes == []
    ensures Apply(s, e).nodes == []
  {
    hide ReadChunk, Elapsed;
  }

  /** In every run the jump means that all the nodes left have reported a good CRC, only if there are no nodes: for
      any address, list and file the jump can follow nothing but bad verdicts. */
  lemma JumpJustifiedIff(s: State, addrs: seq<nat>, info: seq<byte>, file: seq<byte>, now: nat)
    requires Shape(s) && |file| < 0x1_0000_0000
    ensures (forall events :: JumpJustified(Start(s, addrs, info, file, now), events)) <==> addrs == []
  {
    hide Run, Start, Firsts, Core;
    var s0 := Start(s, addrs, info, file, now);
    if addrs == [] {
      NobodyStarts(s, info, file, now);
      forall events ensures JumpJustified(s0, events) {
        NobodyStays(s0, events);
      }
    } else {
      var events := BadCrcJumps(s, addrs, info, file, now);
      var t := Run(s0, events);
      StartRun(s, addrs, info, file, now, events);
      SucceededJumped(t);
      assert t.nodes[0] in t.nodes && !GoodVerdict(s0, events, t.nodes[0].addr);
      assert !JumpJustified(s0, events);
    }
  }

  lemma NobodyStarts(s: State, info: seq<byte>, file: seq<byte>, now: nat)
    requires Shape(s) && |file| < 0x1_0000_0000
    ensures Start(s, [], info, file, now).nodes == []
  {
  }

  lemma SucceededJumped(t: State)
    requires Succeeded(t) && t.cmd.UpdateCmd?
    ensures t.nodes != [] && JumpApp(MAGIC) in Firsts(t.log)
  {
    hide Firsts, AckedIn, ResendsFaithful, Failures;
    JumpIsLast(t, Firsts(t.log));
  }
}
