/**
 The firmware-update master as the object the source keeps in globals (boot_update/boot_master.cpp):
 a step table, the outstanding message, the chunk buffer and the linked list of nodes. Every handler
 is proved to do what the function of the same event in `BootProtocol` says.
 */
module BootMaster {
  import opened Bits
  import opened TransferSteps
  import opened UpdateNodes
  import opened BootProtocol
  import BootRuns
  import BootTheorems
  import FileImage

  class Master {
    var cur: nat
    const records: array<StepRecord>
    const updateRoot: NodeList
    var cmdUpdate: Msg
    var fileInfo: seq<byte>
    const source: FileImage.FileDataInfo
    var chunkOffset: nat
    var chunkLen: nat
    const chunkData: array<byte>
    var msgSend: Msg
    ghost var log: seq<Entry>

    ghost predicate Valid()
      reads this, records, updateRoot, updateRoot.chain, source, source.buffer, chunkData
    {
      && updateRoot.Valid()
      && records.Length == 6 && cur < 6
      && chunkData.Length == FileImage.CHUNK_MAX && chunkData != source.buffer
      && records as object != chunkData && records as object != source.buffer
      && source.len <= source.buffer.Length && source.len < 0x1_0000_0000
    }

    ghost function Abs(): (s: State)
      reads this, records, updateRoot, updateRoot.chain, source, source.buffer, chunkData
      requires Valid()
      ensures Shape(s)
    {
      State(cur, records[..], updateRoot.contents, cmdUpdate, fileInfo, source.buffer[..source.len],
            FileData(chunkOffset, chunkLen, chunkData[..]), msgSend, log)
    }

    constructor (source: FileImage.FileDataInfo)
      requires source.len <= source.buffer.Length && source.len < 0x1_0000_0000
      ensures Valid() && this.source == source && Abs().cur == IDLE && Abs().nodes == [] && Abs().log == []
      ensures fresh(records) && fresh(updateRoot) && fresh(updateRoot.chain) && fresh(chunkData)
    {
      this.source := source;
      cur := IDLE;
      records := new StepRecord[6](_ => StepRecord(0, 0, 0));
      updateRoot := new NodeList();
      cmdUpdate := UpdateCmd(0, []);
      fileInfo := [];
      chunkOffset, chunkLen := 0, 0;
      chunkData := new byte[FileImage.CHUNK_MAX](_ => 0);
      msgSend := UpdateCmd(0, []);
      log := [];
    }

    method SwitchStateMachine(step: nat, offset: nat, now: nat)
      requires Valid() && step < 6
      modifies this`cur, records
      ensures Valid() && Abs() == Enter(old(Abs()), step, offset, now)
    {
      cur := step;
      records[step] := records[step].(offset := offset);
      if step != IDLE {
        records[step] := records[step].(overTick := now, resendCnt := 0);
      }
      assert records[..] == old(records[..])[step := records[step]];
    }

    method MsgSend(msg: Msg)
      requires Valid()
      modifies this`msgSend, this`log
      ensures Valid() && Abs() == Send(old(Abs()), msg)
    {
      msgSend := msg;
      log := log + [Sent(msg)];
    }

    /** Fill the chunk buffer from the file. */
    method ReadFileData(offset: nat)
      requires Valid()
      modifies this`chunkOffset, this`chunkLen, chunkData
      ensures Valid() && Abs() == old(Abs()).(chunk := ReadChunk(old(Abs()), offset))
    {
      chunkOffset := offset;
      chunkLen := source.GetFileData(offset, chunkData, FileImage.CHUNK_MAX);
      ghost var n := chunkLen;
      assert chunkData[..] == chunkData[..n] + chunkData[n..];
    }

    method SendFileData(offset: nat, now: nat)
      requires Valid()
      modifies this`cur, this`msgSend, this`log, records
      ensures Valid() && Abs() == SendChunk(old(Abs()), offset, now)
    {
      if chunkLen > 0 {
        MsgSend(FileChunk(FileData(chunkOffset, chunkLen, chunkData[..])));
        SwitchStateMachine(DATA, offset, now);
      } else {
        MsgSend(CheckCrc(MAGIC));
        SwitchStateMachine(CRC, 0, now);
      }
    }

    method CmdRespondFinish(now: nat)
      requires Valid()
      modifies this, records
      ensures Valid() && Abs() == CmdFinish(old(Abs()), now)
    {
      SwitchStateMachine(INFO, 0, now);
      MsgSend(FileInfo(fileInfo));
    }

    method InfoRespondFinish(now: nat)
      requires Valid()
      modifies this, records, chunkData
      ensures Valid() && Abs() == InfoFinish(old(Abs()), now)
    {
      SwitchStateMachine(DATA, 0, now);
      ReadFileData(0);
      SendFileData(0, now);
    }

    method FileDataRespondFinish(now: nat)
      requires Valid()
      modifies this, records, chunkData
      ensures Valid() && Abs() == DataFinish(old(Abs()), now)
    {
      hide ReadChunk, SendChunk;
      var offset := (chunkOffset + chunkLen) % 0x1_0000_0000;
      ReadFileData(offset);
      SendFileData(offset, now);
    }

    method CrcCheckRespondFinish(now: nat)
      requires Valid()
      modifies this, records
      ensures Valid() && Abs() == CrcFinish(old(Abs()), now)
    {
      SwitchStateMachine(IDLE, 0, now);
      MsgSend(JumpApp(MAGIC));
    }

    /** `finish_handle` of the current step. */
    method FinishHandle(now: nat)
      requires Valid() && cur != IDLE
      modifies this, records, chunkData
      ensures Valid() && Abs() == Finish(old(Abs()), now)
    {
      if cur == CMD {
        CmdRespondFinish(now);
      } else if cur == INFO {
        InfoRespondFinish(now);
      } else if cur == DATA {
        FileDataRespondFinish(now);
      } else {
        CrcCheckRespondFinish(now);
      }
    }

    /** `boot_master_poll`; the clock is read once for the timeout and once more afterwards. */
    method MasterPoll(checked: nat, now: nat)
      requires Valid()
      modifies this, records, chunkData, updateRoot, updateRoot.chain
      ensures Valid() && Abs() == Poll(old(Abs()), checked, now)
      ensures forall n | n in updateRoot.chain :: n in old(updateRoot.chain)
    {
      hide Finish, KeepAt, Elapsed;
      if cur != IDLE && Elapsed(checked, records[cur].overTick, OverTime(cur)) {
        var cnt := records[cur].resendCnt + 1;
        records[cur] := records[cur].(overTick := now, resendCnt := cnt);
        assert records[..] == old(records[..])[cur := records[cur]];
        if cnt > ResendMax(cur) {
          GiveUpStep(now);
        } else {
          log := log + [Resent(msgSend)];
        }
      }
    }

    /** The part of the poll that runs when the resends are used up. */
    method GiveUpStep(now: nat)
      requires Valid() && cur != IDLE
      modifies this, records, chunkData, updateRoot, updateRoot.chain
      ensures Valid()
      ensures var s := old(Abs());
              var s2 := s.(nodes := KeepAt(s.nodes, s.cur, s.recs[s.cur].offset));
              Abs() == if s2.nodes == [] then
                         var s3 := Enter(s2, IDLE, 0, now);
                         s3.(log := s3.log + [Failed])
                       else Finish(s2, now)
      ensures forall n | n in updateRoot.chain :: n in old(updateRoot.chain)
    {
      hide Finish, KeepAt;
      updateRoot.RemoveDiff(cur, records[cur].offset);
      var empty := updateRoot.IsEmpty();
      if empty {
        SwitchStateMachine(IDLE, 0, now);
        log := log + [Failed];
      } else {
        FinishHandle(now);
      }
    }

    /** The common part of the response handlers. */
    method Answer(src: nat, accepted: bool, offset: nat, now: nat)
      requires Valid() && cur != IDLE
      modifies this, records, chunkData, updateRoot, updateRoot.chain
      ensures Valid() && Abs() == Respond(old(Abs()), src, accepted, offset, now)
      ensures updateRoot.chain == old(updateRoot.chain)
    {
      hide Finish, SetProcess, AllAt;
      if accepted {
        ghost var found := updateRoot.SetNodeProcess(src, cur, offset);
        if found {
          log := log + [Acked(src, cur, offset)];
        }
      }
      var same := updateRoot.IsSame(cur, offset);
      if same {
        FinishHandle(now);
      }
    }

    method RecvUpdateCmdRespond(src: nat, ret: nat, now: nat)
      requires Valid()
      modifies this, records, chunkData, updateRoot, updateRoot.chain
      ensures Valid() && Abs() == Apply(old(Abs()), CmdResponse(src, ret, now))
      ensures updateRoot.chain == old(updateRoot.chain)
    {
      if cur == CMD {
        Answer(src, ret == RESPONSE_OK, 0, now);
      }
    }

    method RecvFileInfoRespond(src: nat, ret: nat, now: nat)
      requires Valid()
      modifies this, records, chunkData, updateRoot, updateRoot.chain
      ensures Valid() && Abs() == Apply(old(Abs()), InfoResponse(src, ret, now))
      ensures updateRoot.chain == old(updateRoot.chain)
    {
      if cur == INFO {
        Answer(src, ret == RESPONSE_OK, 0, now);
      }
    }

    method RecvFileDataRespond(src: nat, offset: nat, now: nat)
      requires Valid()
      modifies this, records, chunkData, updateRoot, updateRoot.chain
      ensures Valid() && Abs() == Apply(old(Abs()), DataResponse(src, offset, now))
      ensures updateRoot.chain == old(updateRoot.chain)
    {
      if cur == DATA {
        Answer(src, offset == chunkOffset, chunkOffset, now);
      }
    }

    /** The result byte is ignored here. */
    method RecvCrcCheckRespond(src: nat, ret: nat, now: nat)
      requires Valid()
      modifies this, records, chunkData, updateRoot, updateRoot.chain
      ensures Valid() && Abs() == Apply(old(Abs()), CrcResponse(src, ret, now))
      ensures updateRoot.chain == old(updateRoot.chain)
    {
      if cur == CRC {
        Answer(src, true, 0, now);
      }
    }

    /** The new node list and start command. */
    method Prepare(addrs: seq<nat>)
      requires Valid()
      modifies this`log, this`cmdUpdate, updateRoot, updateRoot.chain
      ensures Valid()
      ensures Abs() == old(Abs()).(nodes := StartNodes(addrs), cmd := UpdateCmd(UPDATE_CMD, addrs), log := [])
      ensures forall j | 0 <= j < |updateRoot.chain| ::
                updateRoot.chain[j] in old(updateRoot.chain) || fresh(updateRoot.chain[j])
    {
      hide StartNodes;
      log := [];
      updateRoot.ListAll(addrs);
      cmdUpdate := UpdateCmd(UPDATE_CMD, addrs);
    }

    /** `boot_master_update_satrt`; the file has been loaded into `source` before. */
    method UpdateStart(addrs: seq<nat>, info: seq<byte>, now: nat)
      requires Valid()
      modifies this, records, updateRoot, updateRoot.chain
      ensures Valid() && Abs() == Start(old(Abs()), addrs, info, source.buffer[..source.len], now)
      ensures forall j | 0 <= j < |updateRoot.chain| ::
                updateRoot.chain[j] in old(updateRoot.chain) || fresh(updateRoot.chain[j])
    {
      hide StartNodes;
      Prepare(addrs);
      MsgSend(cmdUpdate);
      fileInfo := info;
      SwitchStateMachine(CMD, 0, now);
    }

    /** Whatever arrives: a turn of the poll timer or a response. */
    method Handle(e: Event)
      requires Valid()
      modifies this, records, chunkData, updateRoot, updateRoot.chain
      ensures Valid() && Abs() == Apply(old(Abs()), e)
      ensures forall n | n in updateRoot.chain :: n in old(updateRoot.chain)
    {
      hide Respond, Poll;
      match e
      case Tick(checked, now) => MasterPoll(checked, now);
      case CmdResponse(src, ret, now) => RecvUpdateCmdRespond(src, ret, now);
      case InfoResponse(src, ret, now) => RecvFileInfoRespond(src, ret, now);
      case DataResponse(src, offset, now) => RecvFileDataRespond(src, offset, now);
      case CrcResponse(src, ret, now) => RecvCrcCheckRespond(src, ret, now);
    }

    /** Any sequence of events, one after the other. */
    method HandleAll(events: seq<Event>)
      requires Valid()
      modifies this, records, chunkData, updateRoot, updateRoot.chain
      ensures Valid() && Abs() == Run(old(Abs()), events)
      ensures forall n | n in updateRoot.chain :: n in old(updateRoot.chain)
    {
      hide Apply;
      ghost var s := Abs();
      assert events[0..] == events;
      for i := 0 to |events|
        invariant Valid() && Run(Abs(), events[i..]) == Run(s, events)
        invariant forall j | 0 <= j < |updateRoot.chain| :: updateRoot.chain[j] in old(updateRoot.chain)
      {
        ApplyShape(Abs(), events[i]);
        assert events[i..][1..] == events[i + 1..];
        ghost var before := updateRoot.chain;
        Handle(events[i]);
        forall j | 0 <= j < |updateRoot.chain| ensures updateRoot.chain[j] in old(updateRoot.chain) {
          assert updateRoot.chain[j] in before;
        }
      }
    }

    /** A whole session of the object: what its log shows once the CRC request has been sent. */
    method Session(addrs: seq<nat>, info: seq<byte>, now: nat, events: seq<Event>)
      requires Valid() && addrs != []
      modifies this, records, chunkData, updateRoot, updateRoot.chain
      ensures Valid() && Abs() == Run(Start(old(Abs()), addrs, info, source.buffer[..source.len], now), events)
      ensures BootRuns.ResendsFaithful(log)
      ensures CheckCrc(MAGIC) in BootRuns.Firsts(log) ==>
                BootTheorems.Payload(BootRuns.Firsts(log)) == source.buffer[..source.len]
    {
      hide Run, Start, BootRuns.Firsts, BootRuns.ResendsFaithful;
      BootTheorems.FileDelivered(Abs(), addrs, info, source.buffer[..source.len], now, events);
      UpdateStart(addrs, info, now);
      HandleAll(events);
    }
  }
}
