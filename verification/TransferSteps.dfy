/**
 What the two group masters (boot_update/boot_master.cpp and group_update/file_transfer_master.c) have
 in common: step numbers, timeouts, resend budgets, and reading the next chunk of the file.
 */
module TransferSteps {
  import opened Bits
  import FileImage

  const IDLE: nat := 0
  const CMD: nat := 1
  const INFO: nat := 2
  const DATA: nat := 3
  const CRC: nat := 4

  const RESPONSE_OK: nat := 1
  const MAGIC: nat := 0x1234_5678
  const UPDATE_CMD: nat := 0x56

  /** Milliseconds before a step is considered unanswered. */
  function OverTime(step: nat): nat {
    if step == IDLE then 0 else if step == CMD then 30 else if step == INFO then 3000 else 1000
  }

  /** How often the outstanding message of a step is sent again. */
  function ResendMax(step: nat): nat {
    if step == IDLE then 0 else if step == CMD then 100 else 3
  }

  /** `now - start >= duration` on unsigned 64-bit milliseconds. */
  predicate Elapsed(now: nat, start: nat, duration: nat) {
    (now as int - start as int) % 0x1_0000_0000_0000_0000 >= duration
  }

  datatype StepRecord = StepRecord(offset: nat, overTick: nat, resendCnt: nat)

  /** `file_data_t`: a chunk buffer and how much of it is file. */
  datatype FileData = FileData(offset: nat, dataLen: nat, data: seq<byte>)

  /** `get_file_data` into the buffer `data`; bytes past the served ones stay as they were. */
  function ReadFile(file: seq<byte>, data: seq<byte>, offset: nat): (c: FileData)
    requires |data| == FileImage.CHUNK_MAX
    ensures c.offset == offset && |c.data| == FileImage.CHUNK_MAX
    ensures c.dataLen == FileImage.ChunkLen(|file|, offset, FileImage.CHUNK_MAX)
    ensures c.dataLen > 0 ==> c.data[..c.dataLen] == file[offset..offset + c.dataLen]
    ensures c.data[c.dataLen..] == data[c.dataLen..]
  {
    var n := FileImage.ChunkLen(|file|, offset, FileImage.CHUNK_MAX);
    FileData(offset, n, (if n > 0 then file[offset..offset + n] else []) + data[n..])
  }

  /** Some set mark has no clearing after it. */
  predicate LastUncleared(marks: seq<bool>, clears: seq<bool>)
    requires |marks| == |clears|
  {
    exists i | 0 <= i < |marks| :: marks[i] && forall j | i < j < |clears| :: !clears[j]
  }

  lemma UnclearedStep(marks: seq<bool>, clears: seq<bool>, m: bool, c: bool)
    requires |marks| == |clears|
    ensures LastUncleared(marks + [m], clears + [c]) <==> m || (LastUncleared(marks, clears) && !c)
  {
    var n, ms, cs := |marks|, marks + [m], clears + [c];
    if LastUncleared(ms, cs) && !m {
      var i :| 0 <= i <= n && ms[i] && forall j | i < j <= n :: !cs[j];
      assert marks[i] && !cs[n] && forall j | i < j < n :: clears[j] == cs[j];
    }
    if m {
      assert ms[n];
    } else if LastUncleared(marks, clears) && !c {
      var i :| 0 <= i < n && marks[i] && forall j | i < j < n :: !clears[j];
      assert ms[i] && forall j | i < j < n :: clears[j] == cs[j];
    }
  }
}
