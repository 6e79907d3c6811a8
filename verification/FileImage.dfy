/**
 The firmware file held by the sender (boot_update/boot_port.cpp): loading it into a fixed buffer,
 checking its CRC, and serving it in chunks.
 */
module FileImage {
  import opened Bits
  import Crc32

  /** `FILE_DATA_RECV_MAX_SIZE` */
  const CHUNK_MAX: nat := 256
  /** The application header in front of the CRC-protected part. */
  const HEADER: nat := 512

  // ----- serving chunks -----

  /** How many bytes are served at `offset` when at most `max` are asked for. */
  function ChunkLen(fileLen: nat, offset: nat, max: nat): (n: nat)
    ensures n <= max && (offset < fileLen ==> offset + n <= fileLen)
    ensures n == 0 <==> offset >= fileLen || max == 0
    ensures 0 < n < max ==> offset + n == fileLen
  {
    if offset >= fileLen then 0 else if fileLen - offset > max then max else fileLen - offset
  }

  // ----- loading a file -----

  /** Buffer and length after a file has been offered; short or unreadable files change nothing. */
  datatype Image = Image(buffer: seq<byte>, len: nat) {
    ghost predicate Valid() {
      len <= |buffer| && (len == 0 || (len % 4 == 0 && len >= HEADER + 4))
    }

    function Contents(): seq<byte>
      requires len <= |buffer|
    {
      buffer[..len]
    }
  }

  predicate Loadable(file: seq<byte>, readable: bool) {
    |file| >= HEADER + 4 && readable
  }

  function PaddedLen(n: nat): (p: nat)
    ensures n <= p < n + 4 && p % 4 == 0
  {
    if n % 4 > 0 then n + (4 - n % 4) else n
  }

  function Load(im: Image, file: seq<byte>, readable: bool): (r: Image)
    requires Loadable(file, readable) ==> PaddedLen(|file|) <= |im.buffer|
    ensures |r.buffer| == |im.buffer|
  {
    if !Loadable(file, readable) then im
    else Image(file + im.buffer[|file|..], PaddedLen(|file|))
  }

  /** The remainder that decides whether the loader warns. */
  function ImageCrc(im: Image): bv32
    requires im.Valid() && im.len > 0
  {
    Crc32.WordCrc(im.buffer[HEADER..im.len])
  }

  function Zeros(n: nat): (z: seq<byte>)
    ensures |z| == n && forall j | 0 <= j < n :: z[j] == 0
  {
    seq(n, _ => 0 as byte)
  }

  /** The length is rounded up to whole words but nothing is written there: the padding is zero exactly
      when the buffer already was. */
  lemma PaddingZeroIff(im: Image, file: seq<byte>)
    requires Loadable(file, true) && PaddedLen(|file|) <= |im.buffer|
    ensures var pad := PaddedLen(|file|) - |file|;
            Load(im, file, true).Contents() == file + Zeros(pad)
            <==> forall j | |file| <= j < PaddedLen(|file|) :: im.buffer[j] == 0
  {
    var pad := PaddedLen(|file|) - |file|;
    var c, want := Load(im, file, true).Contents(), file + Zeros(pad);
    forall j | |file| <= j < PaddedLen(|file|) ensures c[j] == im.buffer[j] && want[j] == 0 {
      assert want[j] == Zeros(pad)[j - |file|];
    }
    if c == want {
      forall j | |file| <= j < PaddedLen(|file|) ensures im.buffer[j] == 0 {
        assert c[j] == want[j];
      }
    }
    if forall j | |file| <= j < PaddedLen(|file|) :: im.buffer[j] == 0 {
      assert c == want;
    }
  }

  /** The buffer at program start: a zeroed global. */
  function Blank(size: nat): (im: Image)
    ensures im.Valid() && |im.buffer| == size
  {
    Image(Zeros(size), 0)
  }

  /** The image after several files have been loaded, first to last. */
  function LoadAll(im: Image, files: seq<seq<byte>>): (r: Image)
    requires forall f | f in files :: PaddedLen(|f|) <= |im.buffer|
    ensures |r.buffer| == |im.buffer|
  {
    if files == [] then im
    else
      var n := |files| - 1;
      Load(LoadAll(im, files[..n]), files[n], true)
  }

  /** The byte the last loadable file long enough had at `j`, or 0. */
  function LastByte(files: seq<seq<byte>>, j: nat): byte {
    if files == [] then 0
    else
      var n := |files| - 1;
      if Loadable(files[n], true) && j < |files[n]| then files[n][j] else LastByte(files[..n], j)
  }

  lemma {:induction false} LoadAllBytes(size: nat, files: seq<seq<byte>>, j: nat)
    requires (forall f | f in files :: PaddedLen(|f|) <= size) && j < size
    ensures LoadAll(Blank(size), files).buffer[j] == LastByte(files, j)
  {
    hide PaddedLen;
    if files != [] {
      var n := |files| - 1;
      var front, file := files[..n], files[n];
      assert file in files && forall f | f in front :: f in files;
      LoadAllBytes(size, front, j);
      var im := LoadAll(Blank(size), front);
      assert LoadAll(Blank(size), files) == Load(im, file, true);
    }
  }

  /** After any sequence of loads into the zeroed buffer, a file is padded with zeros exactly when in every place of
      its padding the last file that reached there had a zero, or none did. */
  lemma PaddingZeroOverLoads(size: nat, files: seq<seq<byte>>, file: seq<byte>)
    requires forall f | f in files + [file] :: PaddedLen(|f|) <= size
    requires Loadable(file, true)
    ensures LoadAll(Blank(size), files + [file]).Contents() == file + Zeros(PaddedLen(|file|) - |file|)
            <==> forall j | |file| <= j < PaddedLen(|file|) :: LastByte(files, j) == 0
  {
    hide PaddedLen, Load, LoadAll;
    var all, lo, hi := files + [file], |file|, PaddedLen(|file|);
    assert file in all && forall f | f in files :: f in all;
    var im := LoadAll(Blank(size), files);
    LoadLast(Blank(size), files, file);
    PaddingZeroIff(im, file);
    forall j | lo <= j < hi ensures im.buffer[j] == LastByte(files, j) {
      LoadAllBytes(size, files, j);
    }
    SameZeros(im.buffer, files, lo, hi);
  }

  lemma LoadLast(im: Image, files: seq<seq<byte>>, file: seq<byte>)
    requires forall f | f in files + [file] :: PaddedLen(|f|) <= |im.buffer|
    ensures file in files + [file] && forall f | f in files :: f in files + [file]
    ensures LoadAll(im, files + [file]) == Load(LoadAll(im, files), file, true)
  {
    hide Load;
    assert (files + [file])[..|files|] == files;
    assert file in files + [file];
  }

  lemma SameZeros(buffer: seq<byte>, files: seq<seq<byte>>, lo: nat, hi: nat)
    requires hi <= |buffer| && forall j | lo <= j < hi :: buffer[j] == LastByte(files, j)
    ensures (forall j | lo <= j < hi :: buffer[j] == 0) <==> (forall j | lo <= j < hi :: LastByte(files, j) == 0)
  {
    if j :| lo <= j < hi && buffer[j] != 0 {
      assert LastByte(files, j) != 0;
    }
  }

  /** After a longer file, a file of 517 bytes is sent with three bytes of its predecessor behind it. */
  lemma StalePadding(im: Image, first: seq<byte>, second: seq<byte>)
    requires |first| == 520 && first[517] == 0xAB && |second| == 517 && |im.buffer| >= 520
    ensures var c := Load(Load(im, first, true), second, true).Contents();
            |c| == 520 && c[..517] == second && c[517] == 0xAB
  {
  }

  /** No warning exactly when the last word is the CRC of the words between the header and it. */
  lemma AcceptedIffCrcMatches(im: Image)
    requires im.Valid() && im.len > 0
    ensures ImageCrc(im) == 0
            <==> im.buffer[im.len - 4..im.len] == Crc32.WordBytes(Crc32.WordCrc(im.buffer[512..im.len - 4]))
  {
    var body, last := im.buffer[HEADER..im.len - 4], im.buffer[im.len - 4..im.len];
    assert im.buffer[HEADER..im.len] == body + last;
    Crc32.AppendedCrc(body, last);
  }

  /** A file that loads without warning, damaged only within 32 consecutive fed bits, loads with one. */
  lemma DamagedImageWarned(im: Image, damaged: Image, start: nat)
    requires im.Valid() && im.len > 0 && damaged.Valid() && damaged.len == im.len
    requires im.buffer[HEADER..im.len] != damaged.buffer[HEADER..im.len]
    requires DifferWithin(Crc32.MsgBits(Crc32.WordsReversed(im.buffer[HEADER..im.len])),
                          Crc32.MsgBits(Crc32.WordsReversed(damaged.buffer[HEADER..im.len])), start, 32)
    requires ImageCrc(im) == 0
    ensures ImageCrc(damaged) != 0
  {
    Crc32.BurstDetected(im.buffer[HEADER..im.len], damaged.buffer[HEADER..im.len], start);
  }

  // ----- the object -----

  class FileDataInfo {
    const buffer: array<byte>
    var len: nat

    constructor (size: nat)
      ensures fresh(buffer) && Abs() == Blank(size)
    {
      buffer := new byte[size](_ => 0);
      len := 0;
    }

    ghost function Abs(): Image
      reads this, buffer
    {
      Image(buffer[..], len)
    }

    /** `QFile::read` into the front of the buffer. */
    method Read(file: seq<byte>)
      requires |file| <= buffer.Length
      modifies buffer
      ensures buffer[..] == file + old(buffer[..])[|file|..]
    {
      forall i | 0 <= i < |file| {
        buffer[i] := file[i];
      }
    }

    /** Read a loadable file and round its length up to whole words. */
    method LoadFile(file: seq<byte>)
      requires Loadable(file, true) && PaddedLen(|file|) <= buffer.Length
      modifies this, buffer
      ensures Abs() == Load(old(Abs()), file, true) && Abs().Valid()
    {
      Read(file);
      len := |file|;
      if len % 4 > 0 {
        len := len + (4 - len % 4);
      }
    }

    /** `set_file_data_info`: `file` is what is on disk, `readable` whether it can be read. */
    method SetFile(file: seq<byte>, readable: bool) returns (warned: bool)
      requires Abs().Valid()
      requires Loadable(file, readable) ==> PaddedLen(|file|) <= buffer.Length
      modifies this, buffer
      ensures Abs() == Load(old(Abs()), file, readable) && Abs().Valid()
      ensures warned == (Loadable(file, readable) && ImageCrc(Abs()) != 0)
      ensures if |file| < 516 || !readable then !warned && Abs() == old(Abs())
              else Abs().buffer[..|file|] == file && |file| <= Abs().len < |file| + 4 && Abs().len % 4 == 0
    {
      hide Crc32.WordCrc, PaddedLen;
      warned := false;
      if |file| < HEADER + 4 {
        return;
      }
      if !readable {
        return;
      }
      LoadFile(file);
      var words := (len - HEADER) / 4;
      assert HEADER + 4 * words == len;
      assert buffer[..][HEADER..len] == buffer[HEADER..len];
      var fileCrc := Crc32.Crc32Cal(buffer, HEADER, words);
      Crc32.WordCrcIs(buffer[HEADER..len]);
      warned := fileCrc != 0;
    }

    /** `get_file_data`: copies the served bytes to the front of `data` and leaves the rest of it alone. */
    method GetFileData(offset: nat, data: array<byte>, max: nat) returns (retLen: nat)
      requires len <= buffer.Length && data != buffer && max <= data.Length
      modifies data
      ensures retLen == ChunkLen(len, offset, max)
      ensures retLen > 0 ==> data[..retLen] == buffer[offset..offset + retLen]
      ensures data[retLen..] == old(data[retLen..])
    {
      if offset >= len {
        retLen := 0;
      } else if len - offset > max {
        retLen := max;
      } else {
        retLen := len - offset;
      }
      forall i | 0 <= i < retLen {
        data[i] := buffer[offset + i];
      }
    }
  }
}
