/**
 Bit-level serialization (bytes/canard_dsdl.c): copying runs of bits between byte buffers at
 arbitrary bit offsets, and integer fields on top of that.
 */
module CanardDsdl {
  import opened Bits

  // ----- what a bit copy means -----

  /** Bit `k` of a buffer: bit `k % 8` of byte `k / 8`. */
  predicate BufBit(s: seq<byte>, k: nat)
    requires k < 8 * |s|
  {
    Bit(s[k / 8], k % 8)
  }

  /** A run of `len` bits starting at `off` lies inside a buffer of `size` bytes; an empty run always does. */
  predicate Fits(size: nat, off: nat, len: nat) {
    len == 0 || off + len <= 8 * size
  }

  /** `after` is `before` with the run at `dstOff` replaced by the run of `src` at `srcOff`. */
  ghost predicate CopiedBits(before: seq<byte>, after: seq<byte>, dstOff: nat, src: seq<byte>, srcOff: nat, len: nat)
    requires Fits(|src|, srcOff, len)
  {
    && |after| == |before|
    && forall k | 0 <= k < 8 * |after| ::
         BufBit(after, k) == if dstOff <= k < dstOff + len then BufBit(src, srcOff + k - dstOff) else BufBit(before, k)
  }

  lemma BuffersAgree(s: seq<byte>, t: seq<byte>)
    requires |s| == |t|
    requires forall k | 0 <= k < 8 * |s| :: BufBit(s, k) == BufBit(t, k)
    ensures s == t
  {
    forall j | 0 <= j < |s| ensures s[j] == t[j] {
      forall i | 0 <= i < 8 ensures Bit(s[j], i) == Bit(t[j], i) {
        assert BufBit(s, 8 * j + i) == BufBit(t, 8 * j + i);
      }
      BitsAgree(s[j], t[j]);
    }
  }

  // ----- masks -----

  /** `size` one bits starting at bit `shift`, computed in 32 bits and cut to a byte. */
  function MaskOf(size: nat, shift: nat): byte
    requires size <= 8 && shift < 8
  {
    ((((1 as bv32 << size) - 1) << shift) & 0xFF) as byte
  }

  lemma MaskBit(size: nat, shift: nat, i: nat)
    requires size <= 8 && shift < 8 && i < 8
    ensures Bit(MaskOf(size, shift), i) == (shift <= i < shift + size)
  {
  }

  /** The bits of `p` where `mask` is set, those of `q` elsewhere. */
  function Merge(q: byte, p: byte, mask: byte): byte {
    (q & !mask) | (p & mask)
  }

  lemma MergeBit(q: byte, p: byte, mask: byte, i: nat)
    requires i < 8
    ensures Bit(Merge(q, p, mask), i) == if Bit(mask, i) then Bit(p, i) else Bit(q, i)
  {
    if i == 0 {} else if i == 1 {} else if i == 2 {} else if i == 3 {}
    else if i == 4 {} else if i == 5 {} else if i == 6 {} else { assert i == 7; }
  }

  /** One turn of the unaligned loop, on the two bytes it touches. */
  lemma ChunkBit(q: byte, p: byte, srcMod: nat, dstMod: nat, size: nat, i: nat)
    requires srcMod < 8 && dstMod < 8 && srcMod + size <= 8 && dstMod + size <= 8 && i < 8
    ensures Bit(Merge(q, ShiftLeft(ShiftRight(p, srcMod), dstMod), MaskOf(size, dstMod)), i)
            == if dstMod <= i < dstMod + size then Bit(p, srcMod + i - dstMod) else Bit(q, i)
  {
    hide Bit, MaskOf, Merge, ShiftLeft, ShiftRight;
    MaskBit(size, dstMod, i);
    MergeBit(q, ShiftLeft(ShiftRight(p, srcMod), dstMod), MaskOf(size, dstMod), i);
    ShiftLeftBit(ShiftRight(p, srcMod), dstMod, i);
    if dstMod <= i {
      ShiftRightBit(p, srcMod, i - dstMod);
    }
  }

  // ----- canardDSDLCopyBits -----

  method CopyBits(lengthBit: nat, srcOffsetBit: nat, dstOffsetBit: nat, src: array<byte>, dst: array<byte>)
    requires src != dst
    requires Fits(src.Length, srcOffsetBit, lengthBit) && Fits(dst.Length, dstOffsetBit, lengthBit)
    modifies dst
    ensures CopiedBits(old(dst[..]), dst[..], dstOffsetBit, src[..], srcOffsetBit, lengthBit)
  {
    hide Bit, MaskOf, Merge, ShiftLeft, ShiftRight;
    if srcOffsetBit % 8 == 0 && dstOffsetBit % 8 == 0 {
      CopyAligned(lengthBit, srcOffsetBit / 8, dstOffsetBit / 8, src, dst);
    } else {
      ghost var before := dst[..];
      var srcOff, dstOff := srcOffsetBit, dstOffsetBit;
      var lastBit := srcOff + lengthBit;
      while lastBit > srcOff
        invariant srcOffsetBit <= srcOff <= lastBit
        invariant dstOff - dstOffsetBit == srcOff - srcOffsetBit
        invariant CopiedBits(before, dst[..], dstOffsetBit, src[..], srcOffsetBit, srcOff - srcOffsetBit)
      {
        ghost var mid := dst[..];
        var size := CopyStep(src, dst, srcOff, dstOff, lastBit - srcOff);
        CopyExtends(before, mid, dst[..], dstOffsetBit, src[..], srcOffsetBit, srcOff - srcOffsetBit, size);
        srcOff := srcOff + size;
        dstOff := dstOff + size;
      }
    }
  }

  /** The body of the unaligned loop: as many bits as the two current bytes allow. */
  method CopyStep(src: array<byte>, dst: array<byte>, srcOff: nat, dstOff: nat, left: nat) returns (size: nat)
    requires src != dst
    requires 0 < left && srcOff + left <= 8 * src.Length && dstOff + left <= 8 * dst.Length
    modifies dst
    ensures 0 < size <= left
    ensures CopiedBits(old(dst[..]), dst[..], dstOff, src[..], srcOff, size)
  {
    hide Bit, MaskOf, Merge, ShiftLeft, ShiftRight;
    var srcMod, dstMod := srcOff % 8, dstOff % 8;
    var maxMod := if srcMod > dstMod then srcMod else dstMod;
    size := Min(8 - maxMod, left);
    var mask := MaskOf(size, dstMod);
    var inp := ShiftLeft(ShiftRight(src[srcOff / 8], srcMod), dstMod);
    ghost var before := dst[..];
    dst[dstOff / 8] := Merge(dst[dstOff / 8], inp, mask);
    CopyChunk(before, dst[..], src[..], srcOff, dstOff, size);
  }

  /** The branch taken when both offsets are whole bytes: `memcpy`, then a masked last byte. */
  method CopyAligned(lengthBit: nat, srcByte: nat, dstByte: nat, src: array<byte>, dst: array<byte>)
    requires src != dst
    requires lengthBit == 0 || (8 * srcByte + lengthBit <= 8 * src.Length && 8 * dstByte + lengthBit <= 8 * dst.Length)
    modifies dst
    ensures CopiedBits(old(dst[..]), dst[..], 8 * dstByte, src[..], 8 * srcByte, lengthBit)
  {
    hide Bit, MaskOf, Merge, ShiftLeft, ShiftRight, CopiedBits;
    ghost var before := dst[..];
    var lengthBytes := lengthBit / 8;
    forall j | 0 <= j < lengthBytes {
      dst[dstByte + j] := src[srcByte + j];
    }
    ghost var mid := dst[..];
    CopyBytes(before, mid, dstByte, src[..], srcByte, lengthBytes);
    var lengthMod := lengthBit % 8;
    if lengthMod != 0 {
      var mask := MaskOf(lengthMod, 0);
      var last := dstByte + lengthBytes;
      dst[last] := Merge(dst[last], src[srcByte + lengthBytes], mask);
      var so, d := 8 * (srcByte + lengthBytes), 8 * last;
      ShiftByZero(src[srcByte + lengthBytes]);
      CopyChunk(mid, dst[..], src[..], so, d, lengthMod);
      CopyExtends(before, mid, dst[..], 8 * dstByte, src[..], 8 * srcByte, 8 * lengthBytes, lengthMod);
    }
  }

  /** `memcpy` of whole bytes is a bit copy. */
  lemma CopyBytes(before: seq<byte>, after: seq<byte>, dstByte: nat, src: seq<byte>, srcByte: nat, len: nat)
    requires |after| == |before| && (len == 0 || (dstByte + len <= |before| && srcByte + len <= |src|))
    requires forall j | 0 <= j < |after| ::
               after[j] == if dstByte <= j < dstByte + len then src[srcByte + (j - dstByte)] else before[j]
    ensures CopiedBits(before, after, 8 * dstByte, src, 8 * srcByte, 8 * len)
  {
    hide Bit;
    forall k | 0 <= k < 8 * |after|
      ensures BufBit(after, k)
              == if 8 * dstByte <= k < 8 * dstByte + 8 * len then BufBit(src, 8 * srcByte + k - 8 * dstByte)
                 else BufBit(before, k)
    {
      var j := k / 8;
      if dstByte <= j < dstByte + len {
        SameByte(srcByte + (j - dstByte), k % 8, 8 * srcByte + k - 8 * dstByte);
      }
    }
  }

  lemma ShiftByZero(p: byte)
    ensures ShiftLeft(ShiftRight(p, 0), 0) == p
  {
  }

  function Min(a: nat, b: nat): nat {
    if a < b then a else b
  }

  lemma CopyChunk(mid: seq<byte>, after: seq<byte>, src: seq<byte>, srcOff: nat, dstOff: nat, size: nat)
    requires srcOff % 8 + size <= 8 && dstOff % 8 + size <= 8
    requires srcOff / 8 < |src| && dstOff / 8 < |mid|
    requires after == mid[dstOff / 8 :=
               Merge(mid[dstOff / 8], ShiftLeft(ShiftRight(src[srcOff / 8], srcOff % 8), dstOff % 8),
                      MaskOf(size, dstOff % 8))]
    ensures CopiedBits(mid, after, dstOff, src, srcOff, size)
  {
    hide Bit, MaskOf, Merge, ShiftLeft, ShiftRight;
    var d, e := dstOff / 8, srcOff / 8;
    forall k | 0 <= k < 8 * |after|
      ensures BufBit(after, k)
              == if dstOff <= k < dstOff + size then BufBit(src, srcOff + k - dstOff) else BufBit(mid, k)
    {
      if k / 8 == d {
        ChunkBit(mid[d], src[e], srcOff % 8, dstOff % 8, size, k % 8);
        if dstOff <= k < dstOff + size {
          SameByte(e, srcOff % 8 + (k % 8 - dstOff % 8), srcOff + k - dstOff);
        }
      }
    }
  }

  lemma SameByte(e: nat, i: nat, k: nat)
    requires i < 8 && k == 8 * e + i
    ensures k / 8 == e && k % 8 == i
  {
  }

  /** Two adjacent copies make one longer copy. */
  lemma CopyExtends(before: seq<byte>, mid: seq<byte>, after: seq<byte>, dstOff: nat, src: seq<byte>, srcOff: nat,
                    done: nat, more: nat)
    requires Fits(|src|, srcOff, done + more) && Fits(|before|, dstOff, done + more)
    requires CopiedBits(before, mid, dstOff, src, srcOff, done)
    requires CopiedBits(mid, after, dstOff + done, src, srcOff + done, more)
    ensures CopiedBits(before, after, dstOff, src, srcOff, done + more)
  {
  }

  // ----- integer fields: what is written and what is read -----

  function ByteFromBits(bits: seq<bool>): byte
    requires |bits| == 8
  {
    assert Pow2(8) == 256 by { Pow2Of8(); }
    FromBits(bits) as byte
  }

  lemma ByteFromBitsBit(bits: seq<bool>, i: nat)
    requires |bits| == 8 && i < 8
    ensures Bit(ByteFromBits(bits), i) == bits[i]
  {
    Pow2Of8();
    ByteOfNatBit(FromBits(bits), i);
    FromBitsBit(bits, i);
  }

  /** The buffer `s` with the `n` low bits of `v` stored from bit `off` on. */
  function WriteField(s: seq<byte>, off: nat, n: nat, v: nat): (t: seq<byte>)
    ensures |t| == |s|
  {
    seq(|s|, (j: nat) requires j < |s| => ByteFromBits(FieldByte(s[j], 8 * j, off, n, v)))
  }

  function FieldByte(b: byte, base: nat, off: nat, n: nat, v: nat): (bits: seq<bool>)
    ensures |bits| == 8
    ensures forall i | 0 <= i < 8 ::
              bits[i] == if off <= base + i < off + n then NatBit(v, base + i - off) else Bit(b, i)
  {
    seq(8, i requires 0 <= i < 8 => if off <= base + i < off + n then NatBit(v, base + i - off) else Bit(b, i))
  }

  lemma WriteFieldBit(s: seq<byte>, off: nat, n: nat, v: nat, k: nat)
    requires k < 8 * |s|
    ensures BufBit(WriteField(s, off, n, v), k) == if off <= k < off + n then NatBit(v, k - off) else BufBit(s, k)
  {
    hide Bit, ByteFromBits;
    ByteFromBitsBit(FieldByte(s[k / 8], 8 * (k / 8), off, n, v), k % 8);
  }

  /** The number in the `n` bits from `off` on; bits past the end of the buffer are zero. */
  function ReadField(s: seq<byte>, off: nat, n: nat): (v: nat)
    ensures v < Pow2(n)
  {
    FromBits(FieldBits(s, off, n))
  }

  function FieldBits(s: seq<byte>, off: nat, n: nat): (bits: seq<bool>)
    ensures |bits| == n
    ensures forall i | 0 <= i < n :: bits[i] == (off + i < 8 * |s| && BufBit(s, off + i))
  {
    seq(n, i requires 0 <= i < n => off + i < 8 * |s| && BufBit(s, off + i))
  }

  /** A field written at `off` is read back modulo two to the number of bits read. */
  lemma FieldRoundTrip(s: seq<byte>, off: nat, n: nat, v: nat, m: nat)
    requires Fits(|s|, off, n) && m <= n
    ensures ReadField(WriteField(s, off, n, v), off, m) == v % Pow2(m)
  {
    hide Bit, WriteField, FromBits;
    var t := WriteField(s, off, n, v);
    var bits := FieldBits(t, off, m);
    forall i | 0 <= i < m ensures NatBit(FromBits(bits), i) == NatBit(v % Pow2(m), i) {
      FromBitsBit(bits, i);
      WriteFieldBit(s, off, n, v, off + i);
      ModBit(v, m, i);
    }
    NatBitsAgree(FromBits(bits), v % Pow2(m), m);
  }

  /** Writing one field leaves every field that shares no bit with it as it was. */
  lemma FieldsIndependent(s: seq<byte>, off: nat, n: nat, v: nat, other: nat, m: nat)
    requires other + m <= off || off + n <= other
    ensures ReadField(WriteField(s, off, n, v), other, m) == ReadField(s, other, m)
  {
    hide Bit, ByteFromBits, FieldByte, WriteField;
    var t := WriteField(s, off, n, v);
    forall i | 0 <= i < m ensures FieldBits(t, other, m)[i] == FieldBits(s, other, m)[i] {
      if other + i < 8 * |s| {
        WriteFieldBit(s, off, n, v, other + i);
      }
    }
    assert FieldBits(t, other, m) == FieldBits(s, other, m);
  }

  /** Reading past the end is reading the buffer extended with zero bytes. */
  lemma ReadPastEnd(s: seq<byte>, zeros: seq<byte>, off: nat, n: nat)
    requires forall b | b in zeros :: b == 0
    ensures ReadField(s + zeros, off, n) == ReadField(s, off, n)
  {
    hide Bit;
    forall i | 0 <= i < n ensures FieldBits(s + zeros, off, n)[i] == FieldBits(s, off, n)[i] {
      var k := off + i;
      if 8 * |s| <= k < 8 * |s + zeros| {
        ZeroByte(k % 8);
        assert (s + zeros)[k / 8] == zeros[k / 8 - |s|] && zeros[k / 8 - |s|] in zeros;
      }
    }
    assert FieldBits(s + zeros, off, n) == FieldBits(s, off, n);
  }

  /** Cutting the buffer after `size` bytes keeps exactly the bits of the field that lie before the cut. */
  lemma ReadTruncated(s: seq<byte>, size: nat, off: nat, n: nat)
    requires size <= |s|
    ensures ReadField(s[..size], off, n)
            == ReadField(s, off, n) % Pow2(Min(n, if off <= 8 * size then 8 * size - off else 0))
  {
    hide Bit;
    var m := Min(n, if off <= 8 * size then 8 * size - off else 0);
    var a, b := ReadField(s[..size], off, n), ReadField(s, off, n);
    forall i | 0 <= i < n ensures NatBit(a, i) == NatBit(b % Pow2(m), i) {
      FromBitsBit(FieldBits(s[..size], off, n), i);
      FromBitsBit(FieldBits(s, off, n), i);
      ModBit(b, m, i);
    }
    Pow2Monotone(m, n);
    NatBitsAgree(a, b % Pow2(m), n);
  }

  /** Two's complement reading of an `n`-bit number. */
  function SignedValue(u: nat, n: nat): int {
    if n > 0 && NatBit(u, n - 1) then u - Pow2(n) else u
  }

  lemma {:induction false} TopBit(u: nat, n: nat)
    requires u < Pow2(n + 1)
    ensures NatBit(u, n) == (u >= Pow2(n))
  {
    if n != 0 {
      TopBit(u / 2, n - 1);
    }
  }

  /** `(uint64_t)value` of a signed 64-bit number. */
  function ToUnsigned64(value: int): (u: nat)
    ensures u < 0x1_0000_0000_0000_0000
  {
    value % 0x1_0000_0000_0000_0000
  }

  /** A signed value comes back unchanged from an `n`-bit field exactly when it fits the field. */
  lemma SignedRoundTrip(s: seq<byte>, off: nat, n: nat, value: int)
    requires 1 <= n <= 64 && Fits(|s|, off, n)
    ensures SignedValue(ReadField(WriteField(s, off, n, ToUnsigned64(value)), off, n), n) == value
            <==> -(Pow2(n - 1) as int) <= value < Pow2(n - 1)
  {
    hide Bit, WriteField, ReadField;
    FieldRoundTrip(s, off, n, ToUnsigned64(value), n);
    var u := ReadField(WriteField(s, off, n, ToUnsigned64(value)), off, n);
    TopBit(u, n - 1);
    if -(Pow2(n - 1) as int) <= value < Pow2(n - 1) {
      LowBitsOfSigned(value, n);
    }
  }

  lemma LowBitsOfSigned(value: int, n: nat)
    requires 1 <= n <= 64 && -(Pow2(n - 1) as int) <= value < Pow2(n - 1)
    ensures ToUnsigned64(value) % Pow2(n) == if value >= 0 then value else value + Pow2(n)
  {
    Pow2Of64();
    Pow2Monotone(n, 64);
    if value >= 0 {
      ModUnique(value, Pow2(n), 0, value);
    } else {
      Pow2Sum(n, 64 - n);
      NegativeMod(value, Pow2(n), Pow2(64 - n));
    }
  }

  lemma NegativeMod(value: int, p: nat, q: nat)
    requires q > 0 && -(p as int) <= value < 0
    ensures (value + p * q) % p == value + p
  {
    assert p * q == p * (q - 1) + p;
    ModUnique(value + p * q, p, q - 1, value + p);
  }

  // ----- canardDSDLSetUxx / canardDSDLSetIxx -----

  method SetUxx(buf: array<byte>, offBit: nat, value: nat, lenBit: nat)
    requires value < 0x1_0000_0000_0000_0000
    requires Fits(buf.Length, offBit, Min(lenBit, 64))
    modifies buf
    ensures buf[..] == WriteField(old(buf[..]), offBit, Min(lenBit, 64), value)
  {
    hide Bit, WriteField, LowByte;
    ghost var before := buf[..];
    var saturated := Min(lenBit, 64);
    var tmp := new byte[8](j => LowByte(Shr(value, 8 * j)));
    CopyBits(saturated, 0, offBit, tmp, buf);
    forall k | 0 <= k < 8 * |before|
      ensures BufBit(buf[..], k) == BufBit(WriteField(before, offBit, saturated, value), k)
    {
      WriteFieldBit(before, offBit, saturated, value, k);
      if offBit <= k < offBit + saturated {
        LittleEndianBit(value, k - offBit);
      }
    }
    BuffersAgree(buf[..], WriteField(before, offBit, saturated, value));
  }

  /** Bit `k` of a number is bit `k % 8` of its byte `k / 8` in little-endian order. */
  lemma LittleEndianBit(value: nat, k: nat)
    ensures Bit(LowByte(Shr(value, 8 * (k / 8))), k % 8) == NatBit(value, k)
  {
    hide Bit, LowByte;
    LowByteBit(Shr(value, 8 * (k / 8)), k % 8);
    ShrBit(value, 8 * (k / 8), k % 8);
  }

  method SetIxx(buf: array<byte>, offBit: nat, value: int, lenBit: nat)
    requires -0x8000_0000_0000_0000 <= value < 0x8000_0000_0000_0000
    requires Fits(buf.Length, offBit, Min(lenBit, 64))
    modifies buf
    ensures buf[..] == WriteField(old(buf[..]), offBit, Min(lenBit, 64), ToUnsigned64(value))
  {
    SetUxx(buf, offBit, ToUnsigned64(value), lenBit);
  }

  // ----- canardDSDLGetU8..U64 / canardDSDLGetI8..I64 -----

  /** The longest prefix of the request that the value type and the buffer can both supply. */
  function GetBitCopySize(bufSizeBytes: nat, offsetBit: nat, requested: nat, valueLength: nat): (n: nat)
    ensures n <= requested && n <= valueLength && Fits(bufSizeBytes, offsetBit, n)
    ensures n < requested && n < valueLength ==> !Fits(bufSizeBytes, offsetBit, n + 1)
  {
    var bufSizeBit := bufSizeBytes * 8;
    var remaining := bufSizeBit - Min(bufSizeBit, offsetBit);
    Min(remaining, Min(requested, valueLength))
  }

  /** Bytes put together little-endian. */
  function LeValue(s: seq<byte>): (v: nat) {
    if s == [] then 0 else (s[0] as nat) + 256 * LeValue(s[1..])
  }

  lemma {:induction false} LeValueBit(s: seq<byte>, k: nat)
    ensures NatBit(LeValue(s), k) == (k < 8 * |s| && BufBit(s, k))
  {
    hide Bit;
    if s == [] {
      ZeroBit(k);
    } else {
      Pow2Of8();
      ConcatBit(s[0] as nat, 8, LeValue(s[1..]), k);
      if k < 8 {
        NatOfByteBit(s[0], k);
      } else {
        LeValueBit(s[1..], k - 8);
        assert k < 8 * |s| ==> s[1..][(k - 8) / 8] == s[k / 8];
      }
    }
  }

  lemma {:induction false} LeValueBound(s: seq<byte>)
    ensures LeValue(s) < Pow2(8 * |s|)
  {
    if s != [] {
      LeValueBound(s[1..]);
      Pow2Of8();
      Pow2Sum(8, 8 * |s[1..]|);
    }
  }

  method GetUxx(buf: array<byte>, bufSize: nat, offBit: nat, lenBit: nat, width: nat) returns (val: nat)
    requires bufSize <= buf.Length && width in {8, 16, 32, 64}
    ensures val == ReadField(buf[..bufSize], offBit, Min(lenBit, width))
  {
    hide Bit, ReadField, LeValue;
    var copySize := GetBitCopySize(bufSize, offBit, lenBit, width);
    var tmp := new byte[width / 8](_ => 0);
    ghost var zeros := tmp[..];
    CopyBits(copySize, offBit, 0, buf, tmp);
    val := LeValue(tmp[..]);
    CopiedIsField(zeros, tmp[..], buf[..], bufSize, offBit, Min(lenBit, width), copySize);
  }

  /** The zeroed temporary, after the copy, holds the requested field. */
  lemma CopiedIsField(zeros: seq<byte>, tmp: seq<byte>, src: seq<byte>, size: nat, off: nat, n: nat, copySize: nat)
    requires size <= |src| && n <= 8 * |zeros| && forall b | b in zeros :: b == 0
    requires copySize == GetBitCopySize(size, off, n, n)
    requires CopiedBits(zeros, tmp, 0, src, off, copySize)
    ensures LeValue(tmp) == ReadField(src[..size], off, n)
  {
    hide Bit, LeValue, FromBits;
    var bits := FieldBits(src[..size], off, n);
    forall i | 0 <= i < 8 * |tmp| ensures NatBit(LeValue(tmp), i) == NatBit(FromBits(bits), i) {
      LeValueBit(tmp, i);
      FromBitsBit(bits, i);
      ZeroByte(i % 8);
      assert zeros[i / 8] in zeros;
      assert BufBit(tmp, i) == if i < copySize then BufBit(src, off + i) else BufBit(zeros, i);
    }
    LeValueBound(tmp);
    Pow2Monotone(n, 8 * |tmp|);
    NatBitsAgree(LeValue(tmp), FromBits(bits), 8 * |tmp|);
  }

  lemma ZeroByte(i: nat)
    requires i < 8
    ensures !Bit(0, i)
  {
  }

  method GetIxx(buf: array<byte>, bufSize: nat, offBit: nat, lenBit: nat, width: nat) returns (r: int)
    requires bufSize <= buf.Length && width in {8, 16, 32, 64}
    ensures var n := Min(lenBit, width); r == SignedValue(ReadField(buf[..bufSize], offBit, n), n)
  {
    hide ReadField, NatBit, Pow2;
    var sat := Min(lenBit, width);
    var val := GetUxx(buf, bufSize, offBit, sat, width);
    var neg := sat > 0 && NatBit(val, sat - 1);
    if sat < width && neg {
      // sign extension: keep the low bits, set all the bits above them
      Pow2Monotone(sat, width);
      ModUnique(val, Pow2(sat), 0, val);
      val := val % Pow2(sat) + (Pow2(width) - Pow2(sat));
    }
    r := if neg then -((Pow2(width) - 1 - val) as int) - 1 else val;
  }
}
