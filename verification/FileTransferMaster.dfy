/**
 The second group master as the object of the source (group_update/file_transfer_master.c): step records, node
 list and request table updated in place. Every handler is proved to do what the function of the same
 event in `FileTransferProtocol` says.
 */
module FileTransferMaster {
  import opened Bits
  import opened TransferSteps
  import opened UpdateNodes
  import opened FileTransferProtocol
  import FileTransferRuns
  import FileImage

  /** `FILE_OBJ_ADDR_MAX_NUM` */
  const OBJ_ADDR_MAX: nat := 32

  class Master {
    var cur: nat
    const steps: array<StepRecord>
    const nodeRoot: NodeList
    const objAddr: array<nat>
    var objNum: nat
    var infoLen: nat
    const source: FileImage.FileDataInfo
    var chunkOffset: nat
    var chunkLen: nat
    const chunkData: array<byte>
    var msgSend: Msg
    ghost var log: seq<Entry>

    ghost predicate Valid()
      reads this, steps, nodeRoot, nodeRoot.chain, objAddr, source, source.buffer, chunkData
    {
      && nodeRoot.Valid()
      && steps.Length == 5 && cur < 5
      && objAddr.Length == OBJ_ADDR_MAX && objNum <= OBJ_ADDR_MAX
      && chunkData.Length == FileImage.CHUNK_MAX && chunkLen <= FileImage.CHUNK_MAX && chunkData != source.buffer
      && steps as object != chunkData && steps as object != source.buffer && steps as object != objAddr
      && objAddr as object != chunkData && objAddr as object != source.buffer
      && source.len <= source.buffer.Length && source.len < 0x1_0000_0000
    }

    ghost function Abs(): (s: State)
      reads this, steps, nodeRoot, nodeRoot.chain, objAddr, source, source.buffer, chunkData
      requires Valid()
      ensures Shape(s)
    {
      State(cur, steps[..], nodeRoot.contents, objAddr[..objNum], infoLen, source.buffer[..source.len],
            FileData(chunkOffset, chunkLen, chunkData[..]), msgSend, log)
    }

    constructor (source: FileImage.FileDataInfo)
      requires source.len <= source.buffer.Length && source.len < 0x1_0000_0000
      ensures Valid() && this.source == source && Abs().cur == IDLE && Abs().nodes == [] && Abs().log == []
      ensures forall r | r in Abs().recs :: r == StepRecord(0, 0, 0)
      ensures fresh(steps) && fresh(nodeRoot) && fresh(nodeRoot.chain) && fresh(objAddr) && fresh(chunkData)
    {
      this.source := source;
      cur := IDLE;
      steps := new StepRecord[5](_ => StepRecord(0, 0, 0));
      nodeRoot := new NodeList();
      objAddr := new nat[OBJ_ADDR_MAX](_ => 0);
      objNum, infoLen := 0, 0;
      chunkOffset, chunkLen := 0, 0;
      chunkData := new byte[FileImage.CHUNK_MAX](_ => 0);
      msgSend := StartCmd(0, []);
      log := [];
    }

    /** `file_master_state_machine_switch` called with the record of step `from`. */
    method SwitchStep(from: nat, step: nat, offset: nat, now: nat)
      requires Valid() && from < 5 && step < 5
      modifies this`cur, steps
      ensures Valid() && Abs() == Switch(old(Abs()), from, step, offset, now)
    {
      steps[from] := steps[from].(offset := offset);
      assert steps[..] == old(steps[..])[from := steps[from]];
      ghost var mid := steps[..];
      cur := step;
      if step != IDLE {
        steps[step] := steps[step].(overTick := now, resendCnt := 0);
        assert steps[..] == mid[step := steps[step]];
      }
    }

    method MsgSend(msg: Msg)
      requires Valid()
      modifies this`msgSend, this`log
      ensures Valid() && Abs() == Send(old(Abs()), msg)
    {
      msgSend := msg;
      log := log + [Sent(msg)];
    }

    method ReadFileData(offset: nat)
      requires Valid()
      modifies this`chunkOffset, this`chunkLen, chunkData
      ensures Valid() && Abs() == old(Abs()).(chunk := ReadChunk(old(Abs()), offset))
    {
      chunkOffset := offset;
      chunkLen := source.GetFileData(offset, chunkData, FileImage.CHUNK_MAX);
      ghost var n := chunkLen;
      assert chunkData[..] == chunkData[..n] + chunkData[n..];
    }

    /** `file_master_update_check`: report and strike out every requested address that is no longer listed. */
    method Check()
      requires Valid()
      modifies this`log, objAddr
      ensures Valid() && Abs() == UpdateCheck(old(Abs()))
    {
      if cur != IDLE {
        ghost var before, nodes, logged := objAddr[..objNum], nodeRoot.contents, log;
        for i := 0 to objNum
          invariant Valid() && objAddr[..i] == StruckOut(before[..i], nodes) && objAddr[i..objNum] == before[i..]
          invariant log == logged + Reports(before[..i], nodes)
        {
          hide StruckOut, Reports;
          ghost var mid := objAddr[..];
          CheckOne(i);
          StrikeOneMore(before, nodes, mid, objAddr[..], i);
        }
        assert before[..objNum] == before;
      }
    }

    /** The loop body of the check, on entry `i` of the table. */
    method CheckOne(i: nat)
      requires Valid() && i < objNum
      modifies this`log, objAddr
      ensures Valid()
      ensures var a := old(objAddr[i]);
              if Strikes(a, nodeRoot.contents) then
                log == old(log) + [Reported(a)] && objAddr[..] == old(objAddr[..])[i := INVALID]
              else log == old(log) && objAddr[..] == old(objAddr[..])
    {
      if objAddr[i] != INVALID {
        var listed := nodeRoot.Exists(objAddr[i]);
        if !listed {
          log := log + [Reported(objAddr[i])];
          objAddr[i] := INVALID;
        }
      }
    }

    method CmdRespondFinish(now: nat)
      requires Valid()
      modifies this, steps
      ensures Valid() && Abs() == CmdFinish(old(Abs()), now)
    {
      SwitchStep(CMD, INFO, 0, now);
      MsgSend(FileInfo(infoLen));
    }

    method InfoRespondFinish(now: nat)
      requires Valid()
      modifies this, steps, chunkData
      ensures Valid() && Abs() == InfoFinish(old(Abs()), now)
    {
      ReadFileData(0);
      if chunkLen > 0 {
        MsgSend(FileChunk(chunkOffset, chunkLen, chunkData[..]));
        SwitchStep(INFO, DATA, 0, now);
      } else {
        MsgSend(CheckCrc(MAGIC));
        SwitchStep(INFO, IDLE, 0, now);
      }
    }

    method DataRespondFinish(now: nat)
      requires Valid()
      modifies this, steps, chunkData
      ensures Valid() && Abs() == DataFinish(old(Abs()), now)
    {
      hide ReadChunk;
      var offset := (chunkOffset + chunkLen) % 0x1_0000_0000;
      ReadFileData(offset);
      if chunkLen > 0 {
        MsgSend(FileChunk(chunkOffset, chunkLen, chunkData[..chunkLen]));
        SwitchStep(DATA, DATA, chunkOffset, now);
      } else {
        MsgSend(CheckCrc(MAGIC));
        SwitchStep(DATA, CRC, 0, now);
      }
    }

    method CrcCheckRespondFinish(now: nat)
      requires Valid()
      modifies this, steps
      ensures Valid() && Abs() == CrcFinish(old(Abs()), now)
    {
      SwitchStep(CRC, IDLE, 0, now);
    }

    /** `finish_handle` of the current step. */
    method FinishHandle(now: nat)
      requires Valid() && cur != IDLE
      modifies this, steps, chunkData
      ensures Valid() && Abs() == Finish(old(Abs()), now)
    {
      if cur == CMD {
        CmdRespondFinish(now);
      } else if cur == INFO {
        InfoRespondFinish(now);
      } else if cur == DATA {
        DataRespondFinish(now);
      } else {
        CrcCheckRespondFinish(now);
      }
    }

    /** `file_transfer_master_task` */
    method Task(checked: nat, now: nat)
      requires Valid()
      modifies this, steps, objAddr, chunkData, nodeRoot, nodeRoot.chain
      ensures Valid() && Abs() == Poll(old(Abs()), checked, now)
      ensures forall n | n in nodeRoot.chain :: n in old(nodeRoot.chain)
    {
      hide Finish, KeepAt, Elapsed, UpdateCheck;
      if cur != IDLE && Elapsed(checked, steps[cur].overTick, OverTime(cur)) {
        var cnt := steps[cur].resendCnt + 1;
        steps[cur] := steps[cur].(overTick := now, resendCnt := cnt);
        assert steps[..] == old(steps[..])[cur := steps[cur]];
        if cnt > ResendMax(cur) {
          GiveUpStep(now);
        } else {
          log := log + [Resent(msgSend)];
        }
      }
    }

    /** The part of the poll that runs when the resends are used up. */
    method GiveUpStep(now: nat)
      requires Valid() && cur != IDLE
      modifies this, steps, objAddr, chunkData, nodeRoot, nodeRoot.chain
      ensures Valid()
      ensures var s := old(Abs());
              var s2 := UpdateCheck(s.(nodes := KeepAt(s.nodes, s.cur, s.recs[s.cur].offset)));
              s2.cur == s.cur && |s2.recs| == 5 && Shape(s2)
              && Abs() == if s2.nodes == [] then
                            var s3 := Switch(s2, s.cur, IDLE, 0, now);
                            s3.(log := s3.log + [Aborted])
                          else Finish(s2, now)
      ensures forall n | n in nodeRoot.chain :: n in old(nodeRoot.chain)
    {
      hide Finish, KeepAt, UpdateCheck;
      nodeRoot.RemoveDiff(cur, steps[cur].offset);
      CheckShape(Abs());
      Check();
      var empty := nodeRoot.IsEmpty();
      if empty {
        SwitchStep(cur, IDLE, 0, now);
        log := log + [Aborted];
      } else {
        FinishHandle(now);
      }
    }

    /** Record an accepted response. */
    method Accept(src: nat, step: nat, offset: nat)
      requires Valid()
      modifies this`log, nodeRoot, nodeRoot.chain
      ensures Valid() && Abs() == Mark(old(Abs()), src, step, offset) && nodeRoot.chain == old(nodeRoot.chain)
    {
      ghost var found := nodeRoot.SetNodeProcess(src, step, offset);
      if found {
        log := log + [Acked(src, step, offset)];
      }
    }

    method FinishIfAllSame(offset: nat, now: nat)
      requires Valid() && cur != IDLE
      modifies this, steps, chunkData
      ensures Valid() && Abs() == FinishIfSame(old(Abs()), offset, now)
    {
      hide Finish, AllAt;
      var same := nodeRoot.IsSame(cur, offset);
      if same {
        FinishHandle(now);
      }
    }

    method RecvUpdateCmdRespond(src: nat, ret: nat, now: nat)
      requires Valid()
      modifies this, steps, chunkData, nodeRoot, nodeRoot.chain
      ensures Valid() && Abs() == Apply(old(Abs()), CmdResponse(src, ret, now)) && nodeRoot.chain == old(nodeRoot.chain)
    {
      hide FinishIfSame, Mark;
      if cur == CMD {
        if ret == RESPONSE_OK {
          Accept(src, CMD, 0);
          MarkCur(old(Abs()), src, CMD, 0);
        }
        FinishIfAllSame(0, now);
      }
      log := log + [Notified(src, 0, 0)];
    }

    method RecvFileInfoRespond(src: nat, ret: nat, now: nat)
      requires Valid()
      modifies this, steps, chunkData, nodeRoot, nodeRoot.chain
      ensures Valid() && Abs() == Apply(old(Abs()), InfoResponse(src, ret, now))
      ensures nodeRoot.chain == old(nodeRoot.chain)
    {
      hide FinishIfSame, Mark;
      if cur == INFO {
        if ret == RESPONSE_OK {
          Accept(src, INFO, 0);
          MarkCur(old(Abs()), src, INFO, 0);
        }
        FinishIfAllSame(0, now);
      }
      log := log + [Notified(src, 1, 0)];
    }

    method RecvFileDataRespond(src: nat, offset: nat, now: nat)
      requires Valid()
      modifies this, steps, chunkData, nodeRoot, nodeRoot.chain
      ensures Valid() && Abs() == Apply(old(Abs()), DataResponse(src, offset, now))
      ensures nodeRoot.chain == old(nodeRoot.chain)
    {
      hide FinishIfSame, Mark;
      if cur == DATA {
        if offset == chunkOffset {
          Accept(src, DATA, offset);
          MarkCur(old(Abs()), src, DATA, offset);
        }
        FinishIfAllSame(chunkOffset, now);
      }
      log := log + [Notified(src, 2, offset)];
    }

    method RecvCrcCheckRespond(src: nat, ret: nat, now: nat)
      requires Valid()
      modifies this, steps, chunkData, nodeRoot, nodeRoot.chain
      ensures Valid() && Abs() == Apply(old(Abs()), CrcResponse(src, ret, now))
      ensures forall n | n in nodeRoot.chain :: n in old(nodeRoot.chain)
    {
      hide FinishIfSame, SetProcess, RemoveFirst;
      if cur == CRC {
        if ret == RESPONSE_OK {
          Accept(src, CRC, 0);
        } else {
          ghost var listed := Listed(nodeRoot.contents, src);
          nodeRoot.RemoveNode(src);
          if listed {
            log := log + [Removed(src)];
          }
        }
        FinishIfAllSame(0, now);
      }
      log := log + [Notified(src, if ret == RESPONSE_OK then 3 else -3, 0)];
    }

    /** Copy the requested addresses to the front of the table. */
    method Request(addrs: seq<nat>)
      requires objAddr.Length == OBJ_ADDR_MAX && |addrs| <= OBJ_ADDR_MAX
      modifies this`objNum, objAddr
      ensures objNum == |addrs| && objAddr[..objNum] == addrs
    {
      forall i | 0 <= i < |addrs| {
        objAddr[i] := addrs[i];
      }
      objNum := |addrs|;
    }

    /** The first half of `file_master_update_start`: a new node list, request table and image size. */
    method Prepare(addrs: seq<nat>, len: nat)
      requires Valid() && |addrs| <= OBJ_ADDR_MAX
      modifies this`log, this`objNum, this`infoLen, objAddr, nodeRoot, nodeRoot.chain
      ensures Valid() && Abs() == old(Abs()).(nodes := StartNodes(addrs), objAddr := addrs, infoLen := len, log := [])
      ensures forall j | 0 <= j < |nodeRoot.chain| ::
                nodeRoot.chain[j] in old(nodeRoot.chain) || fresh(nodeRoot.chain[j])
    {
      hide StartNodes;
      log := [];
      nodeRoot.ListAll(addrs);
      Request(addrs);
      infoLen := len;
    }

    /** `file_master_update_start`; the request table holds at most 32 addresses. */
    method UpdateStart(addrs: seq<nat>, len: nat, now: nat)
      requires Valid() && |addrs| <= OBJ_ADDR_MAX
      modifies this, steps, objAddr, nodeRoot, nodeRoot.chain
      ensures Valid() && Abs() == Start(old(Abs()), addrs, len, source.buffer[..source.len], now)
      ensures forall j | 0 <= j < |nodeRoot.chain| ::
                nodeRoot.chain[j] in old(nodeRoot.chain) || fresh(nodeRoot.chain[j])
    {
      hide StartNodes;
      Prepare(addrs, len);
      MsgSend(StartCmd(UPDATE_CMD, addrs));
      SwitchStep(CMD, CMD, 0, now);
    }

    /** Whatever arrives: a turn of the poll timer or a response. */
    method Handle(e: Event)
      requires Valid()
      modifies this, steps, objAddr, chunkData, nodeRoot, nodeRoot.chain
      ensures Valid() && Abs() == Apply(old(Abs()), e)
      ensures forall n | n in nodeRoot.chain :: n in old(nodeRoot.chain)
    {
      hide Apply, Poll;
      ghost var s := Abs();
      if e.Tick? { TickIsPoll(s, e); }
      match e
      case Tick(checked, now) => Task(checked, now);
      case CmdResponse(src, ret, now) => RecvUpdateCmdRespond(src, ret, now);
      case InfoResponse(src, ret, now) => RecvFileInfoRespond(src, ret, now);
      case DataResponse(src, offset, now) => RecvFileDataRespond(src, offset, now);
      case CrcResponse(src, ret, now) => RecvCrcCheckRespond(src, ret, now);
    }

    /** Any sequence of events, one after the other. */
    method HandleAll(events: seq<Event>)
      requires Valid()
      modifies this, steps, objAddr, chunkData, nodeRoot, nodeRoot.chain
      ensures Valid() && Abs() == Run(old(Abs()), events)
      ensures forall n | n in nodeRoot.chain :: n in old(nodeRoot.chain)
    {
      hide Apply;
      ghost var s := Abs();
      assert events[0..] == events;
      for i := 0 to |events|
        invariant Valid() && Run(Abs(), events[i..]) == Run(s, events)
        invariant forall j | 0 <= j < |nodeRoot.chain| :: nodeRoot.chain[j] in old(nodeRoot.chain)
      {
        ApplyShape(Abs(), events[i]);
        assert events[i..][1..] == events[i + 1..];
        ghost var before := nodeRoot.chain;
        Handle(events[i]);
        forall j | 0 <= j < |nodeRoot.chain| ensures nodeRoot.chain[j] in old(nodeRoot.chain) {
          assert nodeRoot.chain[j] in before;
        }
      }
    }

    /** A whole transfer of the object: every requested address is listed, reported or removed for a bad CRC. */
    method Session(addrs: seq<nat>, len: nat, now: nat, events: seq<Event>)
      requires Valid() && |addrs| <= OBJ_ADDR_MAX && FileTransferRuns.Requestable(addrs)
      modifies this, steps, objAddr, chunkData, nodeRoot, nodeRoot.chain
      ensures Valid() && Abs() == Run(Start(old(Abs()), addrs, len, source.buffer[..source.len], now), events)
      ensures (set a | a in addrs) == FileTransferRuns.ListedSet(Abs()) + FileTransferRuns.ReportedSet(Abs(), addrs)
                                      + FileTransferRuns.PendingSet(Abs(), addrs)
      ensures forall a :: FileTransferRuns.ReportCount(log, a) <= 1
    {
      hide Run, Start, FileTransferRuns.ListedSet, FileTransferRuns.ReportedSet, FileTransferRuns.PendingSet,
           FileTransferRuns.ReportCount;
      FileTransferRuns.AddressesConserved(Abs(), addrs, len, source.buffer[..source.len], now, events);
      UpdateStart(addrs, len, now);
      HandleAll(events);
    }
  }

  lemma TickIsPoll(s: State, e: Event)
    requires Shape(s) && e.Tick?
    ensures Apply(s, e) == Poll(s, e.checked, e.now)
  {
  }

  predicate Strikes(addr: nat, nodes: seq<NodeVal>) {
    addr != INVALID && !Listed(nodes, addr)
  }

  lemma StrikeOneMore(before: seq<nat>, nodes: seq<NodeVal>, table: seq<nat>, after: seq<nat>, i: nat)
    requires i < |before| <= |table|
    requires table[..i] == StruckOut(before[..i], nodes) && table[i..|before|] == before[i..]
    requires after == table[i := if Strikes(before[i], nodes) then INVALID else before[i]]
    ensures after[..i + 1] == StruckOut(before[..i + 1], nodes) && after[i + 1..|before|] == before[i + 1..]
    ensures Reports(before[..i + 1], nodes)
            == Reports(before[..i], nodes) + if Strikes(before[i], nodes) then [Reported(before[i])] else []
  {
    assert before[..i + 1][..i] == before[..i] && after[..i] == table[..i];
    assert after[i + 1..|before|] == table[i..|before|][1..] && before[i + 1..] == before[i..][1..];
  }

  lemma CheckShape(s: State)
    requires Shape(s)
    ensures var t := UpdateCheck(s); Shape(t) && t.cur == s.cur && t.recs == s.recs
  {
  }

  lemma MarkCur(s: State, src: nat, step: nat, offset: nat)
    requires Shape(s)
    ensures var t := Mark(s, src, step, offset); Shape(t) && t.cur == s.cur && t.chunk == s.chunk
  {
  }
}
