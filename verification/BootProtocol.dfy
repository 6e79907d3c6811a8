/**
 The group firmware-update master (boot_update/boot_master.cpp) as a state and one function per
 event. Time, responses and the file are inputs; everything the master puts on the bus, every
 response it accepts and every failure report is recorded in a log.
 */
module BootProtocol {
  import opened Bits
  import opened TransferSteps
  import opened UpdateNodes
  import FileImage

  // ----- state -----

  datatype Msg =
    | UpdateCmd(cmd: nat, addrs: seq<nat>)
    | FileInfo(info: seq<byte>)
    | FileChunk(chunk: FileData)
    | CheckCrc(magic: nat)
    | JumpApp(magic: nat)

  datatype Entry =
    | Sent(msg: Msg)                             // a new outstanding message
    | Resent(msg: Msg)                           // the outstanding message again
    | Acked(addr: nat, step: nat, offset: nat)   // a response was accepted from a listed node
    | Failed                                     // `boot_update_failed`

  datatype State = State(
    cur: nat,
    recs: seq<StepRecord>,
    nodes: seq<NodeVal>,
    cmd: Msg,
    info: seq<byte>,
    file: seq<byte>,
    chunk: FileData,
    last: Msg,
    log: seq<Entry>)

  /** What holds of the static tables from the beginning and is never lost; the sixth record, of
      `BOOT_MASTER_WAIT_JUMP_APP`, is never entered. */
  predicate Shape(s: State) {
    && |s.recs| == 6 && s.cur < 6
    && |s.chunk.data| == FileImage.CHUNK_MAX
    && |s.file| < 0x1_0000_0000
  }

  // ----- the parts of the handlers -----

  /** `switch_state_machine`: the entry action of a waiting step restarts its clock and resend count. */
  function Enter(s: State, step: nat, offset: nat, now: nat): (t: State)
    requires |s.recs| == 6 && step < 6
    ensures |t.recs| == 6
  {
    var rec := if step == IDLE then s.recs[step].(offset := offset) else StepRecord(offset, now, 0);
    s.(cur := step, recs := s.recs[step := rec])
  }

  /** `msg_send` */
  function Send(s: State, msg: Msg): State {
    s.(last := msg, log := s.log + [Sent(msg)])
  }

  function ReadChunk(s: State, offset: nat): (c: FileData)
    requires |s.chunk.data| == FileImage.CHUNK_MAX
    ensures |c.data| == FileImage.CHUNK_MAX
  {
    ReadFile(s.file, s.chunk.data, offset)
  }

  /** Sending the chunk just read, or asking for the CRC check when there is none. */
  function SendChunk(s: State, offset: nat, now: nat): (t: State)
    requires |s.recs| == 6
  {
    if s.chunk.dataLen > 0 then Enter(Send(s, FileChunk(s.chunk)), DATA, offset, now)
    else Enter(Send(s, CheckCrc(MAGIC)), CRC, 0, now)
  }

  function CmdFinish(s: State, now: nat): State
    requires Shape(s)
  {
    Send(Enter(s, INFO, 0, now), FileInfo(s.info))
  }

  function InfoFinish(s: State, now: nat): State
    requires Shape(s)
  {
    var s1 := Enter(s, DATA, 0, now);
    SendChunk(s1.(chunk := ReadChunk(s1, 0)), 0, now)
  }

  function DataFinish(s: State, now: nat): State
    requires Shape(s)
  {
    var offset := (s.chunk.offset + s.chunk.dataLen) % 0x1_0000_0000;
    SendChunk(s.(chunk := ReadChunk(s, offset)), offset, now)
  }

  function CrcFinish(s: State, now: nat): State
    requires Shape(s)
  {
    Send(Enter(s, IDLE, 0, now), JumpApp(MAGIC))
  }

  /** The `finish_handle` of the current step. */
  function Finish(s: State, now: nat): State
    requires Shape(s) && s.cur != IDLE
  {
    if s.cur == CMD then CmdFinish(s, now)
    else if s.cur == INFO then InfoFinish(s, now)
    else if s.cur == DATA then DataFinish(s, now)
    else CrcFinish(s, now)
  }

  /** `set_update_node_process` on an accepted response. */
  function Mark(s: State, src: nat, step: nat, offset: nat): State {
    s.(nodes := SetProcess(s.nodes, src, step, offset),
       log := if Listed(s.nodes, src) then s.log + [Acked(src, step, offset)] else s.log)
  }

  /** What every response handler does once the step matches. */
  function Respond(s: State, src: nat, accepted: bool, offset: nat, now: nat): State
    requires Shape(s) && s.cur != IDLE
  {
    var s1 := if accepted then Mark(s, src, s.cur, offset) else s;
    if AllAt(s1.nodes, s.cur, offset) then Finish(s1, now) else s1
  }

  /** A waiting step is polled: `checked` is read for the timeout, `now` for everything after it. */
  function Poll(s: State, checked: nat, now: nat): State
    requires Shape(s)
  {
    if s.cur == IDLE || !Expired(s, checked) then s
    else
      var rec := s.recs[s.cur].(overTick := now, resendCnt := s.recs[s.cur].resendCnt + 1);
      var s1 := s.(recs := s.recs[s.cur := rec]);
      if rec.resendCnt <= ResendMax(s.cur) then s1.(log := s1.log + [Resent(s1.last)])
      else
        var s2 := s1.(nodes := KeepAt(s1.nodes, s.cur, rec.offset));
        if s2.nodes == [] then
          var s3 := Enter(s2, IDLE, 0, now);
          s3.(log := s3.log + [Failed])
        else Finish(s2, now)
  }

  predicate Expired(s: State, checked: nat)
    requires Shape(s)
  {
    s.cur != IDLE && Elapsed(checked, s.recs[s.cur].overTick, OverTime(s.cur))
  }

  /** `boot_master_update_satrt` for a file just loaded; the log starts over. */
  function Start(s: State, addrs: seq<nat>, info: seq<byte>, file: seq<byte>, now: nat): (t: State)
    requires Shape(s) && |file| < 0x1_0000_0000
    ensures Shape(t)
  {
    var cmd := UpdateCmd(UPDATE_CMD, addrs);
    var s1 := s.(nodes := StartNodes(addrs), cmd := cmd, file := file, log := []);
    Enter(Send(s1, cmd).(info := info), CMD, 0, now)
  }

  // ----- events and runs -----

  datatype Event =
    | Tick(checked: nat, now: nat)
    | CmdResponse(src: nat, ret: nat, now: nat)
    | InfoResponse(src: nat, ret: nat, now: nat)
    | DataResponse(src: nat, offset: nat, now: nat)
    | CrcResponse(src: nat, ret: nat, now: nat)

  function Apply(s: State, e: Event): State
    requires Shape(s)
  {
    match e
    case Tick(checked, now) => Poll(s, checked, now)
    case CmdResponse(src, ret, now) => if s.cur == CMD then Respond(s, src, ret == RESPONSE_OK, 0, now) else s
    case InfoResponse(src, ret, now) => if s.cur == INFO then Respond(s, src, ret == RESPONSE_OK, 0, now) else s
    case DataResponse(src, offset, now) =>
      if s.cur == DATA then Respond(s, src, offset == s.chunk.offset, s.chunk.offset, now) else s
    case CrcResponse(src, ret, now) => if s.cur == CRC then Respond(s, src, true, 0, now) else s
  }

  lemma ApplyShape(s: State, e: Event)
    requires Shape(s)
    ensures Shape(Apply(s, e))
  {
    hide KeepAt, SetProcess, AllAt, Elapsed, ReadChunk;
  }

  function Run(s: State, events: seq<Event>): (t: State)
    requires Shape(s)
    ensures Shape(t)
    decreases |events|
  {
    if events == [] then s
    else
      ApplyShape(s, events[0]);
      Run(Apply(s, events[0]), events[1..])
  }
}
