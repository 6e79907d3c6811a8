/**
 The messages of a session of either group master, numbered in the order they are sent for the first time.
 */
module SessionPlan {
  import opened TransferSteps
  import opened UpdateNodes
  import FileImage

  function NumChunks(fileLen: nat): nat {
    (fileLen + 255) / 256
  }

  /** Messages are numbered 0: command, 1: file info, 2..: chunks, then the CRC check; the jump comes after it. */
  function CrcIndex(fileLen: nat): nat {
    2 + NumChunks(fileLen)
  }

  function StepOf(fileLen: nat, k: nat): nat {
    if k == 0 then CMD else if k == 1 then INFO else if k < CrcIndex(fileLen) then DATA else CRC
  }

  function OffsetOf(fileLen: nat, k: nat): nat {
    if 2 <= k < CrcIndex(fileLen) then 256 * (k - 2) else 0
  }

  /** The node's last acknowledgement is for message `k`, or it has none yet. */
  predicate AtIndex(fileLen: nat, n: NodeVal, k: int) {
    if k < 0 then n.At(IDLE, 0) else n.At(StepOf(fileLen, k), OffsetOf(fileLen, k))
  }

  lemma ChunkIndex(fileLen: nat, offset: nat)
    requires offset % 256 == 0 && offset < fileLen
    ensures var n := FileImage.ChunkLen(fileLen, offset, FileImage.CHUNK_MAX);
            && 2 + offset / 256 < CrcIndex(fileLen) && 256 * (offset / 256) == offset
            && (offset + n < fileLen ==> (offset + n) % 256 == 0 && (offset + n) / 256 == offset / 256 + 1)
            && (offset + n >= fileLen ==> 3 + offset / 256 == CrcIndex(fileLen) && offset + n == fileLen)
  {
  }

  function PrefixLen(fileLen: nat, sent: nat): (n: nat)
    ensures n <= fileLen
  {
    if sent <= 2 then 0 else if 256 * (sent - 2) <= fileLen then 256 * (sent - 2) else fileLen
  }
}
