/**
 The second group master (group_update/file_transfer_master.c) as a state and one function per event.
 It differs from the firmware master in its bookkeeping: the offset is written into the record of the
 step being left, failures are reported address by address, and a bad CRC reply removes a node at once.
 */
module FileTransferProtocol {
  import opened Bits
  import opened TransferSteps
  import opened UpdateNodes
  import FileImage

  /** `FILE_ADDR_INVAILD` */
  const INVALID: nat := 0xFF

  // ----- state -----

  datatype Msg =
    | StartCmd(process: nat, addrs: seq<nat>)
    | FileInfo(len: nat)
    | FileChunk(offset: nat, dataLen: nat, data: seq<byte>)
    | CheckCrc(magic: nat)

  datatype Entry =
    | Sent(msg: Msg)
    | Resent(msg: Msg)
    | Acked(addr: nat, step: nat, offset: nat)           // a response was accepted from a listed node
    | Removed(addr: nat)                                 // taken off the list for a bad CRC reply
    | Reported(addr: nat)                                // `update_failed_cb` with an address
    | Aborted                                            // `update_failed_cb(0xFF)`
    | Notified(src: nat, result: int, offset: nat)       // `transfer_state_cb`

  datatype State = State(
    cur: nat,
    recs: seq<StepRecord>,
    nodes: seq<NodeVal>,
    objAddr: seq<nat>,
    infoLen: nat,
    file: seq<byte>,
    chunk: FileData,
    last: Msg,
    log: seq<Entry>)

  predicate Shape(s: State) {
    && |s.recs| == 5 && s.cur < 5
    && |s.chunk.data| == FileImage.CHUNK_MAX
    && |s.file| < 0x1_0000_0000
  }

  // ----- the parts of the handlers -----

  /** `file_master_state_machine_switch`: the offset goes into the record of the step `from`. */
  function Switch(s: State, from: nat, step: nat, offset: nat, now: nat): (t: State)
    requires |s.recs| == 5 && from < 5 && step < 5
    ensures |t.recs| == 5
  {
    var recs := s.recs[from := s.recs[from].(offset := offset)];
    s.(cur := step,
       recs := if step == IDLE then recs else recs[step := recs[step].(overTick := now, resendCnt := 0)])
  }

  function Send(s: State, msg: Msg): State {
    s.(last := msg, log := s.log + [Sent(msg)])
  }

  function ReadChunk(s: State, offset: nat): (c: FileData)
    requires |s.chunk.data| == FileImage.CHUNK_MAX
    ensures |c.data| == FileImage.CHUNK_MAX && c.dataLen <= FileImage.CHUNK_MAX && c.offset == offset
  {
    ReadFile(s.file, s.chunk.data, offset)
  }

  /** The requested addresses after a check: those no longer listed are struck out. */
  function StruckOut(objAddr: seq<nat>, nodes: seq<NodeVal>): (r: seq<nat>)
    ensures |r| == |objAddr|
    ensures forall i | 0 <= i < |objAddr| ::
              r[i] == if objAddr[i] != INVALID && !Listed(nodes, objAddr[i]) then INVALID else objAddr[i]
  {
    seq(|objAddr|, i requires 0 <= i < |objAddr| =>
      if objAddr[i] != INVALID && !Listed(nodes, objAddr[i]) then INVALID else objAddr[i])
  }

  /** The reports a check makes, in order. */
  function Reports(objAddr: seq<nat>, nodes: seq<NodeVal>): seq<Entry> {
    if objAddr == [] then []
    else
      var n := |objAddr| - 1;
      Reports(objAddr[..n], nodes)
      + if objAddr[n] != INVALID && !Listed(nodes, objAddr[n]) then [Reported(objAddr[n])] else []
  }

  /** `file_master_update_check`: an address 0xFF in the list is never looked up. */
  function UpdateCheck(s: State): State {
    if s.cur == IDLE then s
    else s.(objAddr := StruckOut(s.objAddr, s.nodes), log := s.log + Reports(s.objAddr, s.nodes))
  }

  function CmdFinish(s: State, now: nat): State
    requires Shape(s)
  {
    Send(Switch(s, CMD, INFO, 0, now), FileInfo(s.infoLen))
  }

  /** The first chunk goes out with the whole buffer behind it; an empty file ends the transfer here. */
  function InfoFinish(s: State, now: nat): State
    requires Shape(s)
  {
    var c := ReadChunk(s, 0);
    var s1 := s.(chunk := c);
    if c.dataLen > 0 then Switch(Send(s1, FileChunk(0, c.dataLen, c.data)), INFO, DATA, 0, now)
    else Switch(Send(s1, CheckCrc(MAGIC)), INFO, IDLE, 0, now)
  }

  function DataFinish(s: State, now: nat): State
    requires Shape(s)
  {
    var offset := (s.chunk.offset + s.chunk.dataLen) % 0x1_0000_0000;
    var c := ReadChunk(s, offset);
    var s1 := s.(chunk := c);
    if c.dataLen > 0 then Switch(Send(s1, FileChunk(offset, c.dataLen, c.data[..c.dataLen])), DATA, DATA, offset, now)
    else Switch(Send(s1, CheckCrc(MAGIC)), DATA, CRC, 0, now)
  }

  function CrcFinish(s: State, now: nat): State
    requires Shape(s)
  {
    Switch(s, CRC, IDLE, 0, now)
  }

  function Finish(s: State, now: nat): State
    requires Shape(s) && s.cur != IDLE
  {
    if s.cur == CMD then CmdFinish(s, now)
    else if s.cur == INFO then InfoFinish(s, now)
    else if s.cur == DATA then DataFinish(s, now)
    else CrcFinish(s, now)
  }

  predicate Expired(s: State, checked: nat)
    requires Shape(s)
  {
    s.cur != IDLE && Elapsed(checked, s.recs[s.cur].overTick, OverTime(s.cur))
  }

  function Poll(s: State, checked: nat, now: nat): State
    requires Shape(s)
  {
    if s.cur == IDLE || !Expired(s, checked) then s
    else
      var rec := s.recs[s.cur].(overTick := now, resendCnt := s.recs[s.cur].resendCnt + 1);
      var s1 := s.(recs := s.recs[s.cur := rec]);
      if rec.resendCnt <= ResendMax(s.cur) then s1.(log := s1.log + [Resent(s1.last)])
      else
        var s2 := UpdateCheck(s1.(nodes := KeepAt(s1.nodes, s.cur, rec.offset)));
        if s2.nodes == [] then
          var s3 := Switch(s2, s.cur, IDLE, 0, now);
          s3.(log := s3.log + [Aborted])
        else Finish(s2, now)
  }

  function Mark(s: State, src: nat, step: nat, offset: nat): State {
    s.(nodes := SetProcess(s.nodes, src, step, offset),
       log := if Listed(s.nodes, src) then s.log + [Acked(src, step, offset)] else s.log)
  }

  /** `remove_update_node` on a bad CRC reply. */
  function Remove(s: State, src: nat): State {
    s.(nodes := RemoveFirst(s.nodes, src),
       log := if Listed(s.nodes, src) then s.log + [Removed(src)] else s.log)
  }

  function FinishIfSame(s: State, offset: nat, now: nat): State
    requires Shape(s) && s.cur != IDLE
  {
    if AllAt(s.nodes, s.cur, offset) then Finish(s, now) else s
  }

  function Notify(s: State, src: nat, result: int, offset: nat): State {
    s.(log := s.log + [Notified(src, result, offset)])
  }

  /** `file_master_update_start`, for the file to be sent; the log starts over. */
  function Start(s: State, addrs: seq<nat>, len: nat, file: seq<byte>, now: nat): (t: State)
    requires Shape(s) && |file| < 0x1_0000_0000
    ensures Shape(t)
  {
    var s1 := s.(nodes := StartNodes(addrs), objAddr := addrs, infoLen := len, file := file, log := []);
    Switch(Send(s1, StartCmd(UPDATE_CMD, addrs)), CMD, CMD, 0, now)
  }

  // ----- events and runs -----

  datatype Event =
    | Tick(checked: nat, now: nat)
    | CmdResponse(src: nat, ret: nat, now: nat)
    | InfoResponse(src: nat, ret: nat, now: nat)
    | DataResponse(src: nat, offset: nat, now: nat)
    | CrcResponse(src: nat, ret: nat, now: nat)

  function HandleCmd(s: State, src: nat, ret: nat, now: nat): State
    requires Shape(s)
  {
    if s.cur == CMD then FinishIfSame(if ret == RESPONSE_OK then Mark(s, src, CMD, 0) else s, 0, now) else s
  }

  function HandleInfo(s: State, src: nat, ret: nat, now: nat): State
    requires Shape(s)
  {
    if s.cur == INFO then FinishIfSame(if ret == RESPONSE_OK then Mark(s, src, INFO, 0) else s, 0, now) else s
  }

  function HandleData(s: State, src: nat, offset: nat, now: nat): State
    requires Shape(s)
  {
    if s.cur == DATA then
      FinishIfSame(if offset == s.chunk.offset then Mark(s, src, DATA, offset) else s, s.chunk.offset, now)
    else s
  }

  function HandleCrc(s: State, src: nat, ret: nat, now: nat): State
    requires Shape(s)
  {
    if s.cur == CRC then FinishIfSame(if ret == RESPONSE_OK then Mark(s, src, CRC, 0) else Remove(s, src), 0, now)
    else s
  }

  function Apply(s: State, e: Event): State
    requires Shape(s)
  {
    match e
    case Tick(checked, now) => Poll(s, checked, now)
    case CmdResponse(src, ret, now) => Notify(HandleCmd(s, src, ret, now), src, 0, 0)
    case InfoResponse(src, ret, now) => Notify(HandleInfo(s, src, ret, now), src, 1, 0)
    case DataResponse(src, offset, now) => Notify(HandleData(s, src, offset, now), src, 2, offset)
    case CrcResponse(src, ret, now) => Notify(HandleCrc(s, src, ret, now), src, if ret == RESPONSE_OK then 3 else -3, 0)
  }

  lemma ApplyShape(s: State, e: Event)
    requires Shape(s)
    ensures Shape(Apply(s, e))
  {
    hide KeepAt, SetProcess, RemoveFirst, AllAt, Elapsed, Reports, ReadChunk;
  }

  function Run(s: State, events: seq<Event>): (t: State)
    requires Shape(s)
    ensures Shape(t)
    decreases |events|
  {
    if events == [] then s
    else
      ApplyShape(s, events[0]);
      Run(Apply(s, events[0]), events[1..])
  }

  lemma RunOne(s: State, e: Event)
    requires Shape(s)
    ensures Shape(Apply(s, e)) && Run(s, [e]) == Apply(s, e)
  {
    hide Apply;
    ApplyShape(s, e);
    assert [e][1..] == [];
  }

  lemma {:induction false} RunJoin(s: State, x: seq<Event>, y: seq<Event>)
    requires Shape(s)
    ensures Run(s, x + y) == Run(Run(s, x), y)
    decreases |x|
  {
    hide Apply;
    if x == [] {
      assert x + y == y;
    } else {
      ApplyShape(s, x[0]);
      assert (x + y)[1..] == x[1..] + y;
      RunJoin(Apply(s, x[0]), x[1..], y);
    }
  }
}
