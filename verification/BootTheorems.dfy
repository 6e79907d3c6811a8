/**
 The promises of the firmware-update master over whole runs: the file arrives complete, everybody
 is waited for, runs end within a bounded number of timeouts, and they end in one of two ways.
 */
module BootTheorems {
  import opened Bits
  import opened SessionPlan
  import opened TransferSteps
  import opened UpdateNodes
  import opened BootProtocol
  import opened BootRuns

  // ----- what the nodes were sent -----

  /** The file bytes carried by a sequence of messages. */
  function Payload(msgs: seq<Msg>): seq<byte> {
    if msgs == [] then []
    else
      var m := msgs[|msgs| - 1];
      Payload(msgs[..|msgs| - 1])
      + if m.FileChunk? && m.chunk.dataLen <= |m.chunk.data| then m.chunk.data[..m.chunk.dataLen] else []
  }

  /** After `i` planned messages the chunks carry the file up to where the next one would start. */
  lemma {:induction false} PayloadOfPlan(s: State, msgs: seq<Msg>)
    requires OnPlan(s, msgs) && s.cmd.UpdateCmd?
    ensures Payload(msgs) == s.file[..PrefixLen(|s.file|, |msgs|)]
  {
    hide Planned;
    if msgs != [] {
      var k := |msgs| - 1;
      var front := msgs[..k];
      assert forall i | 0 <= i < k :: front[i] == msgs[i];
      PayloadOfPlan(s, front);
      assert Planned(s, k, msgs[k]);
      PayloadStep(s, k, msgs[k]);
    }
  }

  lemma PayloadStep(s: State, k: nat, m: Msg)
    requires Planned(s, k, m) && s.cmd.UpdateCmd?
    ensures s.file[..PrefixLen(|s.file|, k)]
            + (if m.FileChunk? && m.chunk.dataLen <= |m.chunk.data| then m.chunk.data[..m.chunk.dataLen] else [])
            == s.file[..PrefixLen(|s.file|, k + 1)]
  {
    if 2 <= k < CrcIndex(|s.file|) {
      var offset := 256 * (k - 2);
      assert s.file[..offset] + s.file[offset..offset + m.chunk.dataLen] == s.file[..offset + m.chunk.dataLen];
    }
  }

  // ----- one run from one start -----

  ghost predicate Started(s: State, addrs: seq<nat>, file: seq<byte>) {
    Shape(s) && |file| < 0x1_0000_0000 && addrs != []
  }

  lemma StartRun(s: State, addrs: seq<nat>, info: seq<byte>, file: seq<byte>, now: nat, events: seq<Event>)
    requires Started(s, addrs, file)
    ensures var t := Run(Start(s, addrs, info, file, now), events);
            InSession(t) && t.cmd == UpdateCmd(0x56, addrs) && t.info == info && t.file == file
  {
    StartWaits(s, addrs, info, file, now);
    RunKeeps(Start(s, addrs, info, file, now), events);
  }

  /** Lockstep: while the master waits, the list is not empty, every listed node last acknowledged the current
      message or the one before it, at least one still owes the current one, and the step record agrees
      with the chunk being sent. */
  lemma Lockstep(s: State, addrs: seq<nat>, info: seq<byte>, file: seq<byte>, now: nat, events: seq<Event>)
    requires Started(s, addrs, file)
    ensures var t := Run(Start(s, addrs, info, file, now), events);
            t.cur != IDLE ==>
              && t.nodes != []
              && (forall n | n in t.nodes :: AtIndex(|file|, n, Pos(t)) || AtIndex(|file|, n, Pos(t) - 1))
              && (exists n | n in t.nodes :: AtIndex(|file|, n, Pos(t) - 1) && !AtIndex(|file|, n, Pos(t)))
              && (t.cur == DATA ==> t.recs[DATA].offset == t.chunk.offset < |file| && t.chunk.offset % 256 == 0)
              && t.cur == StepOf(|file|, Pos(t)) && t.recs[t.cur].offset == OffsetOf(|file|, Pos(t))
  {
    hide Run, Start, Firsts, AckedIn, ResendsFaithful, Failures;
    StartRun(s, addrs, info, file, now, events);
    var t := Run(Start(s, addrs, info, file, now), events);
    if t.cur != IDLE {
      var n :| n in t.nodes && !n.At(t.cur, t.recs[t.cur].offset);
      assert !AtIndex(|file|, n, Pos(t));
    }
  }

  /** Once the CRC check has been asked for, the chunks first sent are exactly the file, without gap or overlap;
      every repetition repeats the message outstanding at that point. */
  lemma FileDelivered(s: State, addrs: seq<nat>, info: seq<byte>, file: seq<byte>, now: nat, events: seq<Event>)
    requires Started(s, addrs, file)
    ensures var t := Run(Start(s, addrs, info, file, now), events);
            && ResendsFaithful(t.log)
            && OnPlan(t, Firsts(t.log))
            && t.cmd == UpdateCmd(0x56, addrs) && t.info == info && t.file == file
            && (CheckCrc(0x1234_5678) in Firsts(t.log) ==> Payload(Firsts(t.log)) == file)
  {
    hide Run, Start, AckedIn, ResendsFaithful, Failures, Planned;
    StartRun(s, addrs, info, file, now, events);
    var t := Run(Start(s, addrs, info, file, now), events);
    var msgs := Firsts(t.log);
    PayloadOfPlan(t, msgs);
    if CheckCrc(MAGIC) in msgs {
      var k :| 0 <= k < |msgs| && msgs[k] == CheckCrc(MAGIC);
      assert Planned(t, k, msgs[k]);
      OnlyCrcIsCrc(t, k);
      assert file[..|file|] == file;
    }
  }

  lemma OnlyCrcIsCrc(s: State, k: nat)
    requires s.cmd.UpdateCmd? && Planned(s, k, CheckCrc(MAGIC))
    ensures k == CrcIndex(|s.file|)
  {
  }

  /** Every node still listed has answered every superseded message while that message was outstanding; a node
      counted as done with the current message has answered that too. */
  lemma SurvivorsAnswered(s: State, addrs: seq<nat>, info: seq<byte>, file: seq<byte>, now: nat, events: seq<Event>,
                          n: NodeVal, k: nat)
    requires Started(s, addrs, file)
    requires var t := Run(Start(s, addrs, info, file, now), events);
             n in t.nodes && k < |Firsts(t.log)| && k <= CrcIndex(|file|)
             && (k + 1 == |Firsts(t.log)| ==> AtIndex(|file|, n, k))
    ensures AckedIn(|file|, Run(Start(s, addrs, info, file, now), events).log, k, n.addr)
  {
    hide Run, Start, AckedIn, Firsts, ResendsFaithful, Failures, Planned;
    StartRun(s, addrs, info, file, now, events);
  }

  /** A run that has come to rest either sent the jump with survivors left and reported no failure, or reported
      exactly one failure with nobody left and never sent the jump; and it stays there. */
  lemma EndsOneOfTwoWays(s: State, addrs: seq<nat>, info: seq<byte>, file: seq<byte>, now: nat, events: seq<Event>,
                         e: Event)
    requires Started(s, addrs, file)
    ensures var t := Run(Start(s, addrs, info, file, now), events);
            if t.cur == IDLE then
              && Apply(t, e) == t
              && ((t.nodes != [] && JumpApp(MAGIC) in Firsts(t.log) && Failures(t.log) == 0)
                  <==> !(t.nodes == [] && JumpApp(MAGIC) !in Firsts(t.log) && Failures(t.log) == 1))
            else JumpApp(MAGIC) !in Firsts(t.log) && Failures(t.log) == 0
  {
    hide Run, Start, AckedIn, ResendsFaithful, Planned;
    StartRun(s, addrs, info, file, now, events);
    var t := Run(Start(s, addrs, info, file, now), events);
    ApplyKeeps(t, e);
    JumpIsLast(t, Firsts(t.log));
  }

  lemma JumpIsLast(s: State, msgs: seq<Msg>)
    requires OnPlan(s, msgs) && s.cmd.UpdateCmd?
    ensures JumpApp(MAGIC) in msgs <==> |msgs| == CrcIndex(|s.file|) + 2
  {
    if JumpApp(MAGIC) in msgs {
      var k :| 0 <= k < |msgs| && msgs[k] == JumpApp(MAGIC);
      assert Planned(s, k, msgs[k]) && Planned(s, |msgs| - 1, msgs[|msgs| - 1]);
    }
    if |msgs| == CrcIndex(|s.file|) + 2 {
      assert Planned(s, |msgs| - 1, msgs[|msgs| - 1]);
    }
  }

  // ----- a start without addresses -----

  /** With nobody listed, a response from anywhere ends the step, whatever it says. */
  lemma EmptyListAdvances(s: State, e: Event)
    requires Tracking(s) && s.nodes == [] && Heard(s, e)
    ensures var t := Apply(s, e);
            && t.nodes == [] && t.file == s.file && t.log == s.log + [Sent(t.last)]
            && if Pos(s) < CrcIndex(|s.file|) then Tracking(t) && Pos(t) == Pos(s) + 1
               else Shape(t) && t.cur == IDLE && t.last == JumpApp(MAGIC)
  {
    hide ReadChunk;
    assert Apply(s, e) == Finish(s, e.now) by { hide Finish; NobodyMarked(s, e.src, s.cur); }
    if s.cur == INFO {
      FinishChunk(s, 0, e.now);
    } else if s.cur == DATA {
      ChunkIndex(|s.file|, s.chunk.offset);
      FinishChunk(s, s.chunk.offset + s.chunk.dataLen, e.now);
    }
  }

  lemma NobodyMarked(s: State, src: nat, step: nat)
    requires s.nodes == []
    ensures forall offset :: Mark(s, src, step, offset) == s && AllAt(s.nodes, step, offset)
  {
  }

  /** A response from `src` that the current step looks at. */
  function AnyResponse(s: State, src: nat): (e: Event)
    requires CMD <= s.cur <= CRC
    ensures Heard(s, e)
  {
    if s.cur == CMD then CmdResponse(src, 0, 0) else if s.cur == INFO then InfoResponse(src, 0, 0)
    else if s.cur == DATA then DataResponse(src, 0, 0) else CrcResponse(src, 0, 0)
  }

  /** So a master with nobody listed can be led through the whole file to the jump, by responses from one stranger. */
  lemma {:induction false} EmptyListRunsThrough(s: State, src: nat) returns (events: seq<Event>)
    requires Tracking(s) && s.nodes == []
    ensures var t := Run(s, events);
            && t.cur == IDLE && t.nodes == [] && JumpApp(MAGIC) in Firsts(t.log) && Failures(t.log) == Failures(s.log)
    decreases CrcIndex(|s.file|) - Pos(s)
  {
    hide Apply, Firsts, Failures;
    var e := AnyResponse(s, src);
    EmptyListAdvances(s, e);
    var t := Apply(s, e);
    LogGrows(s.log, Sent(t.last));
    if Pos(s) < CrcIndex(|s.file|) {
      var rest := EmptyListRunsThrough(t, src);
      events := [e] + rest;
      assert events[1..] == rest;
    } else {
      events := [e];
      assert events[1..] == [] && Run(t, []) == t;
    }
  }

  /** A start without addresses, of any file, can end in the jump, sent to nobody and with no failure reported. */
  lemma EmptyStartRunsThrough(s: State, info: seq<byte>, file: seq<byte>, now: nat, src: nat)
    returns (events: seq<Event>)
    requires Shape(s) && |file| < 0x1_0000_0000
    ensures var t := Run(Start(s, [], info, file, now), events);
            t.cur == IDLE && t.nodes == [] && JumpApp(MAGIC) in Firsts(t.log) && Failures(t.log) == 0
  {
    hide Run;
    var s0 := Start(s, [], info, file, now);
    LogGrows([], Sent(s0.cmd));
    assert [] + [Sent(s0.cmd)] == s0.log && s0.nodes == [];
    events := EmptyListRunsThrough(s0, src);
  }

  /** The jump is never sent without survivors, in any run, exactly when the session was started with an address. */
  lemma JumpMeansSurvivorsIff(s: State, addrs: seq<nat>, info: seq<byte>, file: seq<byte>, now: nat)
    requires Shape(s) && |file| < 0x1_0000_0000
    ensures (forall events ::
               var t := Run(Start(s, addrs, info, file, now), events);
               JumpApp(MAGIC) in Firsts(t.log) ==> t.nodes != [])
            <==> addrs != []
  {
    hide Run, Start, Firsts, Failures;
    if addrs == [] {
      var events := EmptyStartRunsThrough(s, info, file, now, 0);
    } else {
      forall events
        ensures var t := Run(Start(s, addrs, info, file, now), events);
                JumpApp(MAGIC) in Firsts(t.log) ==> t.nodes != []
      {
        EndsOneOfTwoWays(s, addrs, info, file, now, events, Tick(0, 0));
      }
    }
  }
}
