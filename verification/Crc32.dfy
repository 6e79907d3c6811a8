/**
 CRC-32 (bytes/crc32.cpp): table-driven loops against bit-by-bit division by the polynomial
 0x04C11DB7, most significant bit first, initial value all ones (ISO/IEC 13818-1, Annex A).
 */
module Crc32 {
  import opened Bits

  // ----- bit-by-bit division -----

  function Xor(a: bv32, b: bv32): bv32 {
    a ^ b
  }

  function Double(c: bv32): bv32 {
    c << 1
  }

  function Halve(c: bv32): bv32 {
    c >> 1
  }

  /** A one is about to be shifted out. */
  predicate Carry(c: bv32) {
    c & 0x8000_0000 != 0
  }

  /** The polynomial when a one is shifted out at the top. */
  function Reduction(c: bv32): bv32 {
    if Carry(c) then 0x04C1_1DB7 else 0
  }

  function ShiftStep(c: bv32): bv32 {
    Xor(Double(c), Reduction(c))
  }

  function TopBitIf(b: bool): bv32 {
    if b then 0x8000_0000 else 0
  }

  /** The division register after the message bits `bits`, first bit first. */
  function Division(c: bv32, bits: seq<bool>): bv32
    decreases |bits|
  {
    if bits == [] then c else Division(ShiftStep(Xor(c, TopBitIf(bits[0]))), bits[1..])
  }

  /** The bits of a byte in the order they are fed. */
  function ByteBits(b: byte): (bits: seq<bool>)
    ensures |bits| == 8
  {
    [Bit(b, 7), Bit(b, 6), Bit(b, 5), Bit(b, 4), Bit(b, 3), Bit(b, 2), Bit(b, 1), Bit(b, 0)]
  }

  lemma {:induction false} DivisionAppend(c: bv32, a: seq<bool>, b: seq<bool>)
    ensures Division(c, a + b) == Division(Division(c, a), b)
    decreases |a|
  {
    hide ShiftStep, Xor, TopBitIf;
    if a == [] {
      assert a + b == b;
    } else {
      assert (a + b)[1..] == a[1..] + b;
      DivisionAppend(ShiftStep(Xor(c, TopBitIf(a[0]))), a[1..], b);
    }
  }

  // ----- the step is linear and injective -----

  lemma XorSelf(a: bv32)
    ensures Xor(a, a) == 0
  {
  }

  lemma XorWithZero(a: bv32)
    ensures Xor(a, 0) == a
  {
  }

  lemma XorComm(a: bv32, b: bv32)
    ensures Xor(a, b) == Xor(b, a)
  {
  }

  lemma XorAssoc(a: bv32, b: bv32, c: bv32)
    ensures Xor(Xor(a, b), c) == Xor(a, Xor(b, c))
  {
  }

  lemma XorBack(a: bv32, b: bv32)
    ensures Xor(Xor(a, b), b) == a
  {
    hide Xor;
    XorAssoc(a, b, b);
    XorSelf(b);
    XorWithZero(a);
  }

  lemma XorZero(a: bv32, b: bv32)
    ensures Xor(a, b) == 0 <==> a == b
  {
    hide Xor;
    XorSelf(a);
    XorBack(a, b);
    XorComm(0, b);
    XorWithZero(b);
  }

  lemma Interchange(p: bv32, q: bv32, r: bv32, s: bv32)
    ensures Xor(Xor(p, q), Xor(r, s)) == Xor(Xor(p, r), Xor(q, s))
  {
    hide Xor;
    XorAssoc(p, q, Xor(r, s));
    XorAssoc(q, r, s);
    XorComm(q, r);
    XorAssoc(r, q, s);
    XorAssoc(p, r, Xor(q, s));
  }

  lemma DoubleXor(a: bv32, b: bv32)
    ensures Double(Xor(a, b)) == Xor(Double(a), Double(b))
  {
  }

  lemma CarryXor(a: bv32, b: bv32)
    ensures Carry(Xor(a, b)) == (Carry(a) != Carry(b))
  {
  }

  lemma ReductionXor(a: bv32, b: bv32)
    ensures Reduction(Xor(a, b)) == Xor(Reduction(a), Reduction(b))
  {
    hide Xor, Carry;
    CarryXor(a, b);
    XorSelf(Reduction(a));
    XorWithZero(Reduction(a));
    XorComm(0, Reduction(b));
    XorWithZero(Reduction(b));
  }

  lemma ShiftStepLinear(a: bv32, b: bv32)
    ensures ShiftStep(Xor(a, b)) == Xor(ShiftStep(a), ShiftStep(b))
  {
    hide Xor, Double, Reduction;
    DoubleXor(a, b);
    ReductionXor(a, b);
    Interchange(Double(a), Double(b), Reduction(a), Reduction(b));
  }

  /** The polynomial is odd, so no non-zero register is shifted to zero. */
  lemma ShiftStepKernel(c: bv32)
    requires ShiftStep(c) == 0
    ensures c == 0
  {
    hide Xor;
    XorZero(Double(c), Reduction(c));
    DoubleKernel(c);
  }

  lemma DoubleKernel(c: bv32)
    requires Double(c) == Reduction(c)
    ensures c == 0
  {
  }

  lemma ShiftStepInjective(a: bv32, b: bv32)
    requires ShiftStep(a) == ShiftStep(b)
    ensures a == b
  {
    hide Xor, ShiftStep;
    ShiftStepLinear(a, b);
    XorZero(ShiftStep(a), ShiftStep(b));
    ShiftStepKernel(Xor(a, b));
    XorZero(a, b);
  }

  /** Different registers stay different, whatever bits follow. */
  lemma {:induction false} DivisionInjective(a: bv32, b: bv32, bits: seq<bool>)
    requires a != b
    ensures Division(a, bits) != Division(b, bits)
    decreases |bits|
  {
    hide Xor, ShiftStep, TopBitIf;
    if bits != [] {
      var t := TopBitIf(bits[0]);
      var a', b' := Xor(a, t), Xor(b, t);
      assert a' != b' by { XorBack(a, t); XorBack(b, t); }
      assert ShiftStep(a') != ShiftStep(b') by {
        if ShiftStep(a') == ShiftStep(b') { ShiftStepInjective(a', b'); }
      }
      DivisionInjective(ShiftStep(a'), ShiftStep(b'), bits[1..]);
    }
  }

  // ----- feeding up to 32 bits at once -----

  function Steps(c: bv32, n: nat): bv32
    decreases n
  {
    if n == 0 then c else Steps(ShiftStep(c), n - 1)
  }

  /** The bits left-justified in a word, `bits[0]` at the top. */
  function Top(bits: seq<bool>): bv32 {
    if bits == [] then 0 else Xor(TopBitIf(bits[0]), Halve(Top(bits[1..])))
  }

  /** The `n` lowest bits are zero. */
  predicate LowZero(c: bv32, n: nat)
    decreases n
  {
    n == 0 || (c & 1 == 0 && LowZero(Halve(c), n - 1))
  }

  lemma HalveXor(a: bv32, b: bv32)
    ensures Halve(Xor(a, b)) == Xor(Halve(a), Halve(b))
    ensures a & 1 == 0 && b & 1 == 0 ==> Xor(a, b) & 1 == 0
  {
  }

  lemma {:induction false} LowZeroXor(a: bv32, b: bv32, n: nat)
    requires LowZero(a, n) && LowZero(b, n)
    ensures LowZero(Xor(a, b), n)
    decreases n
  {
    hide Xor, Halve;
    if n != 0 {
      HalveXor(a, b);
      LowZeroXor(Halve(a), Halve(b), n - 1);
    }
  }

  lemma LowZeroTop(b: bool, n: nat)
    requires n <= 31
    ensures LowZero(TopBitIf(b), n)
  {
    LowZeroOfZero(n);
    assert LowZero(0x80, 7);
    assert LowZero(0x8000, 15);
    assert LowZero(0x80_0000, 23);
    assert LowZero(0x8000_0000, 31);
    LowZeroLess(0x8000_0000, n, 31);
  }

  lemma {:induction false} LowZeroLess(c: bv32, m: nat, n: nat)
    requires m <= n && LowZero(c, n)
    ensures LowZero(c, m)
    decreases m
  {
    if m != 0 {
      LowZeroLess(Halve(c), m - 1, n - 1);
    }
  }

  lemma {:induction false} LowZeroOfZero(n: nat)
    ensures LowZero(0, n)
  {
    if n != 0 {
      LowZeroOfZero(n - 1);
    }
  }

  lemma {:induction false} TopLowZero(bits: seq<bool>)
    requires |bits| <= 32
    ensures LowZero(Top(bits), 32 - |bits|)
  {
    hide Xor, Halve, TopBitIf;
    if bits == [] {
      LowZeroOfZero(32);
    } else {
      TopLowZero(bits[1..]);
      LowZeroTop(bits[0], 32 - |bits|);
      LowZeroXor(TopBitIf(bits[0]), Halve(Top(bits[1..])), 32 - |bits|);
    }
  }

  lemma ShiftStepOfHalf(c: bv32)
    requires c & 1 == 0
    ensures ShiftStep(Halve(c)) == c
  {
  }

  /** Feeding up to 32 bits is xoring them in at the top and shifting as often. */
  lemma {:induction false} FeedWindow(c: bv32, bits: seq<bool>)
    requires |bits| <= 32
    ensures Division(c, bits) == Steps(Xor(c, Top(bits)), |bits|)
    decreases |bits|
  {
    hide Xor, Halve, TopBitIf, ShiftStep;
    if bits == [] {
      XorWithZero(c);
    } else {
      var b, t := TopBitIf(bits[0]), Top(bits[1..]);
      FeedWindow(ShiftStep(Xor(c, b)), bits[1..]);
      TopLowZero(bits[1..]);
      ShiftStepOfHalf(t);
      ShiftStepLinear(Xor(c, b), Halve(t));
      XorAssoc(c, b, Halve(t));
    }
  }

  /** Different bit strings of equal length up to 32 are different words. */
  lemma {:induction false} TopInjective(v: seq<bool>, w: seq<bool>)
    requires |v| == |w| <= 32 && v != w
    ensures Top(v) != Top(w)
  {
    hide Xor, Halve, TopBitIf;
    var s, t := Top(v[1..]), Top(w[1..]);
    TopLowZero(v[1..]);
    TopLowZero(w[1..]);
    if Top(v) == Top(w) {
      SplitTop(v[0], s, w[0], t);
      assert v == [v[0]] + v[1..] && w == [w[0]] + w[1..];
      TopInjective(v[1..], w[1..]);
    }
  }

  lemma SplitTop(b: bool, s: bv32, d: bool, t: bv32)
    requires s & 1 == 0 && t & 1 == 0
    requires Xor(TopBitIf(b), Halve(s)) == Xor(TopBitIf(d), Halve(t))
    ensures b == d && s == t
  {
  }

  lemma {:induction false} StepsInjective(a: bv32, b: bv32, n: nat)
    requires a != b
    ensures Steps(a, n) != Steps(b, n)
    decreases n
  {
    hide ShiftStep;
    if n != 0 {
      if ShiftStep(a) == ShiftStep(b) { ShiftStepInjective(a, b); }
      StepsInjective(ShiftStep(a), ShiftStep(b), n - 1);
    }
  }

  /** A burst: messages that differ only inside a window of at most 32 bits leave different remainders. */
  lemma BurstBits(c: bv32, before: seq<bool>, v: seq<bool>, w: seq<bool>, after: seq<bool>)
    requires |v| == |w| <= 32 && v != w
    ensures Division(c, before + v + after) != Division(c, before + w + after)
  {
    hide Division, Top, Steps, Xor;
    var s := Division(c, before);
    DivisionAppend(c, before, v);
    DivisionAppend(c, before, w);
    DivisionAppend(c, before + v, after);
    DivisionAppend(c, before + w, after);
    FeedWindow(s, v);
    FeedWindow(s, w);
    TopInjective(v, w);
    if Xor(s, Top(v)) == Xor(s, Top(w)) { XorInjective(s, Top(v), Top(w)); }
    StepsInjective(Xor(s, Top(v)), Xor(s, Top(w)), |v|);
    DivisionInjective(Division(s, v), Division(s, w), after);
  }

  lemma XorInjective(s: bv32, a: bv32, b: bv32)
    requires Xor(s, a) == Xor(s, b)
    ensures a == b
  {
    hide Xor;
    XorComm(s, a);
    XorComm(s, b);
    XorBack(a, s);
    XorBack(b, s);
  }

  // ----- the table -----

  // `crc_normal_table`, in rows of sixteen entries
  const ROW_0: seq<bv32> := [
    0x00000000, 0x04c11db7, 0x09823b6e, 0x0d4326d9, 0x130476dc, 0x17c56b6b, 0x1a864db2, 0x1e475005,
    0x2608edb8, 0x22c9f00f, 0x2f8ad6d6, 0x2b4bcb61, 0x350c9b64, 0x31cd86d3, 0x3c8ea00a, 0x384fbdbd]
  const ROW_1: seq<bv32> := [
    0x4c11db70, 0x48d0c6c7, 0x4593e01e, 0x4152fda9, 0x5f15adac, 0x5bd4b01b, 0x569796c2, 0x52568b75,
    0x6a1936c8, 0x6ed82b7f, 0x639b0da6, 0x675a1011, 0x791d4014, 0x7ddc5da3, 0x709f7b7a, 0x745e66cd]
  const ROW_2: seq<bv32> := [
    0x9823b6e0, 0x9ce2ab57, 0x91a18d8e, 0x95609039, 0x8b27c03c, 0x8fe6dd8b, 0x82a5fb52, 0x8664e6e5,
    0xbe2b5b58, 0xbaea46ef, 0xb7a96036, 0xb3687d81, 0xad2f2d84, 0xa9ee3033, 0xa4ad16ea, 0xa06c0b5d]
  const ROW_3: seq<bv32> := [
    0xd4326d90, 0xd0f37027, 0xddb056fe, 0xd9714b49, 0xc7361b4c, 0xc3f706fb, 0xceb42022, 0xca753d95,
    0xf23a8028, 0xf6fb9d9f, 0xfbb8bb46, 0xff79a6f1, 0xe13ef6f4, 0xe5ffeb43, 0xe8bccd9a, 0xec7dd02d]
  const ROW_4: seq<bv32> := [
    0x34867077, 0x30476dc0, 0x3d044b19, 0x39c556ae, 0x278206ab, 0x23431b1c, 0x2e003dc5, 0x2ac12072,
    0x128e9dcf, 0x164f8078, 0x1b0ca6a1, 0x1fcdbb16, 0x018aeb13, 0x054bf6a4, 0x0808d07d, 0x0cc9cdca]
  const ROW_5: seq<bv32> := [
    0x7897ab07, 0x7c56b6b0, 0x71159069, 0x75d48dde, 0x6b93dddb, 0x6f52c06c, 0x6211e6b5, 0x66d0fb02,
    0x5e9f46bf, 0x5a5e5b08, 0x571d7dd1, 0x53dc6066, 0x4d9b3063, 0x495a2dd4, 0x44190b0d, 0x40d816ba]
  const ROW_6: seq<bv32> := [
    0xaca5c697, 0xa864db20, 0xa527fdf9, 0xa1e6e04e, 0xbfa1b04b, 0xbb60adfc, 0xb6238b25, 0xb2e29692,
    0x8aad2b2f, 0x8e6c3698, 0x832f1041, 0x87ee0df6, 0x99a95df3, 0x9d684044, 0x902b669d, 0x94ea7b2a]
  const ROW_7: seq<bv32> := [
    0xe0b41de7, 0xe4750050, 0xe9362689, 0xedf73b3e, 0xf3b06b3b, 0xf771768c, 0xfa325055, 0xfef34de2,
    0xc6bcf05f, 0xc27dede8, 0xcf3ecb31, 0xcbffd686, 0xd5b88683, 0xd1799b34, 0xdc3abded, 0xd8fba05a]
  const ROW_8: seq<bv32> := [
    0x690ce0ee, 0x6dcdfd59, 0x608edb80, 0x644fc637, 0x7a089632, 0x7ec98b85, 0x738aad5c, 0x774bb0eb,
    0x4f040d56, 0x4bc510e1, 0x46863638, 0x42472b8f, 0x5c007b8a, 0x58c1663d, 0x558240e4, 0x51435d53]
  const ROW_9: seq<bv32> := [
    0x251d3b9e, 0x21dc2629, 0x2c9f00f0, 0x285e1d47, 0x36194d42, 0x32d850f5, 0x3f9b762c, 0x3b5a6b9b,
    0x0315d626, 0x07d4cb91, 0x0a97ed48, 0x0e56f0ff, 0x1011a0fa, 0x14d0bd4d, 0x19939b94, 0x1d528623]
  const ROW_A: seq<bv32> := [
    0xf12f560e, 0xf5ee4bb9, 0xf8ad6d60, 0xfc6c70d7, 0xe22b20d2, 0xe6ea3d65, 0xeba91bbc, 0xef68060b,
    0xd727bbb6, 0xd3e6a601, 0xdea580d8, 0xda649d6f, 0xc423cd6a, 0xc0e2d0dd, 0xcda1f604, 0xc960ebb3]
  const ROW_B: seq<bv32> := [
    0xbd3e8d7e, 0xb9ff90c9, 0xb4bcb610, 0xb07daba7, 0xae3afba2, 0xaafbe615, 0xa7b8c0cc, 0xa379dd7b,
    0x9b3660c6, 0x9ff77d71, 0x92b45ba8, 0x9675461f, 0x8832161a, 0x8cf30bad, 0x81b02d74, 0x857130c3]
  const ROW_C: seq<bv32> := [
    0x5d8a9099, 0x594b8d2e, 0x5408abf7, 0x50c9b640, 0x4e8ee645, 0x4a4ffbf2, 0x470cdd2b, 0x43cdc09c,
    0x7b827d21, 0x7f436096, 0x7200464f, 0x76c15bf8, 0x68860bfd, 0x6c47164a, 0x61043093, 0x65c52d24]
  const ROW_D: seq<bv32> := [
    0x119b4be9, 0x155a565e, 0x18197087, 0x1cd86d30, 0x029f3d35, 0x065e2082, 0x0b1d065b, 0x0fdc1bec,
    0x3793a651, 0x3352bbe6, 0x3e119d3f, 0x3ad08088, 0x2497d08d, 0x2056cd3a, 0x2d15ebe3, 0x29d4f654]
  const ROW_E: seq<bv32> := [
    0xc5a92679, 0xc1683bce, 0xcc2b1d17, 0xc8ea00a0, 0xd6ad50a5, 0xd26c4d12, 0xdf2f6bcb, 0xdbee767c,
    0xe3a1cbc1, 0xe760d676, 0xea23f0af, 0xeee2ed18, 0xf0a5bd1d, 0xf464a0aa, 0xf9278673, 0xfde69bc4]
  const ROW_F: seq<bv32> := [
    0x89b8fd09, 0x8d79e0be, 0x803ac667, 0x84fbdbd0, 0x9abc8bd5, 0x9e7d9662, 0x933eb0bb, 0x97ffad0c,
    0xafb010b1, 0xab710d06, 0xa6322bdf, 0xa2f33668, 0xbcb4666d, 0xb8757bda, 0xb5365d03, 0xb1f740b4]

  function Row(r: byte): (row: seq<bv32>)
    requires r < 16
  {
    if r < 8 then
      if r == 0 then ROW_0 else if r == 1 then ROW_1 else if r == 2 then ROW_2 else if r == 3 then ROW_3
      else if r == 4 then ROW_4 else if r == 5 then ROW_5 else if r == 6 then ROW_6 else ROW_7
    else
      if r == 8 then ROW_8 else if r == 9 then ROW_9 else if r == 10 then ROW_A else if r == 11 then ROW_B
      else if r == 12 then ROW_C else if r == 13 then ROW_D else if r == 14 then ROW_E else ROW_F
  }

  function CrcNormalTable(i: byte): bv32 {
    RowIsDivision(i >> 4);
    Row(i >> 4)[(i & 0x0F) as nat]
  }

  /** One step written out, for the evaluation of the table. */
  function StepOnce(c: bv32): bv32 {
    if c & 0x8000_0000 != 0 then (c << 1) ^ 0x04C1_1DB7 else c << 1
  }

  function Shift8(c: bv32): bv32 {
    StepOnce(StepOnce(StepOnce(StepOnce(StepOnce(StepOnce(StepOnce(StepOnce(c))))))))
  }

  lemma StepOnceIsStep(c: bv32)
    ensures StepOnce(c) == ShiftStep(c)
  {
    hide ShiftStep;
    if c & 0x8000_0000 == 0 { ShiftOut0(c); } else { ShiftOut1(c); }
  }

  lemma ShiftOut0(c: bv32)
    requires c & 0x8000_0000 == 0
    ensures ShiftStep(c) == c << 1
  {
  }

  lemma ShiftOut1(c: bv32)
    requires c & 0x8000_0000 != 0
    ensures ShiftStep(c) == (c << 1) ^ 0x04C1_1DB7
  {
  }

  lemma Shift8IsSteps(c: bv32)
    ensures Shift8(c) == Steps(c, 8)
  {
    hide ShiftStep, StepOnce;
    var c1, c2 := StepOnce(c), StepOnce(StepOnce(c));
    var c4 := StepOnce(StepOnce(c2));
    var c6 := StepOnce(StepOnce(c4));
    StepOnceIsStep(c);
    StepOnceIsStep(c1);
    StepOnceIsStep(c2);
    StepOnceIsStep(StepOnce(c2));
    StepOnceIsStep(c4);
    StepOnceIsStep(StepOnce(c4));
    StepOnceIsStep(c6);
    StepOnceIsStep(StepOnce(c6));
    assert Steps(c, 8) == Steps(c2, 6) && Steps(c2, 6) == Steps(c4, 4) && Steps(c4, 4) == Steps(c6, 2);
  }

  /** The division remainders of the sixteen bytes that share the high nibble of `h`. */
  function DivisionRow(h: bv32): (row: seq<bv32>)
    ensures |row| == 16
  {
    [Shift8(h), Shift8(h | 0x0100_0000), Shift8(h | 0x0200_0000), Shift8(h | 0x0300_0000),
     Shift8(h | 0x0400_0000), Shift8(h | 0x0500_0000), Shift8(h | 0x0600_0000), Shift8(h | 0x0700_0000),
     Shift8(h | 0x0800_0000), Shift8(h | 0x0900_0000), Shift8(h | 0x0a00_0000), Shift8(h | 0x0b00_0000),
     Shift8(h | 0x0c00_0000), Shift8(h | 0x0d00_0000), Shift8(h | 0x0e00_0000), Shift8(h | 0x0f00_0000)]
  }

  lemma Rows0To3()
    ensures ROW_0 == DivisionRow(0x0000_0000)
    ensures ROW_1 == DivisionRow(0x1000_0000)
    ensures ROW_2 == DivisionRow(0x2000_0000)
    ensures ROW_3 == DivisionRow(0x3000_0000)
  {
  }

  lemma Rows4To7()
    ensures ROW_4 == DivisionRow(0x4000_0000)
    ensures ROW_5 == DivisionRow(0x5000_0000)
    ensures ROW_6 == DivisionRow(0x6000_0000)
    ensures ROW_7 == DivisionRow(0x7000_0000)
  {
  }

  lemma Rows8ToB()
    ensures ROW_8 == DivisionRow(0x8000_0000)
    ensures ROW_9 == DivisionRow(0x9000_0000)
    ensures ROW_A == DivisionRow(0xa000_0000)
    ensures ROW_B == DivisionRow(0xb000_0000)
  {
  }

  lemma RowsCToF()
    ensures ROW_C == DivisionRow(0xc000_0000)
    ensures ROW_D == DivisionRow(0xd000_0000)
    ensures ROW_E == DivisionRow(0xe000_0000)
    ensures ROW_F == DivisionRow(0xf000_0000)
  {
  }

  lemma RowIsDivision(r: byte)
    requires r < 16
    ensures Row(r) == DivisionRow((r as bv32) << 28)
  {
    hide DivisionRow, ROW_0, ROW_1, ROW_2, ROW_3, ROW_4, ROW_5, ROW_6, ROW_7, ROW_8, ROW_9, ROW_A,
         ROW_B, ROW_C, ROW_D, ROW_E, ROW_F;
    Rows0To3();
    Rows4To7();
    Rows8ToB();
    RowsCToF();
    if r == 0 {} else if r == 1 {} else if r == 2 {} else if r == 3 {} else if r == 4 {} else if r == 5 {}
    else if r == 6 {} else if r == 7 {} else if r == 8 {} else if r == 9 {} else if r == 10 {} else if r == 11 {}
    else if r == 12 {} else if r == 13 {} else if r == 14 {} else { assert r == 15; }
  }

  /** Every entry of the table is the remainder of its index. */
  lemma TableEntry(i: byte)
    ensures CrcNormalTable(i) == Shift8((i as bv32) << 24)
  {
    hide Shift8, DivisionRow, Row;
    RowIsDivision(i >> 4);
    RowEntry(((i >> 4) as bv32) << 28, i & 0x0F);
    JoinNibbles(i);
  }

  lemma RowEntry(h: bv32, c: byte)
    requires c < 16
    ensures DivisionRow(h)[c as nat] == Shift8(h | ((c as bv32) << 24))
  {
    hide Shift8;
    if c == 0 { assert h | 0 == h; } else if c == 1 {} else if c == 2 {} else if c == 3 {} else if c == 4 {}
    else if c == 5 {}
    else if c == 6 {} else if c == 7 {} else if c == 8 {} else if c == 9 {} else if c == 10 {} else if c == 11 {}
    else if c == 12 {} else if c == 13 {} else if c == 14 {} else { assert c == 15; }
  }

  lemma JoinNibbles(i: byte)
    ensures (((i >> 4) as bv32) << 28) | (((i & 0x0F) as bv32) << 24) == (i as bv32) << 24
  {
  }

  // ----- table steps are eight division steps -----

  /** The loop body: one byte through the table. */
  function TableStep(c: bv32, b: byte): bv32 {
    (c << 8) ^ CrcNormalTable(((c >> 24) as byte) ^ b)
  }

  lemma {:induction false} StepsLinear(a: bv32, b: bv32, n: nat)
    ensures Steps(Xor(a, b), n) == Xor(Steps(a, n), Steps(b, n))
    decreases n
  {
    hide Xor, ShiftStep;
    if n != 0 {
      ShiftStepLinear(a, b);
      StepsLinear(ShiftStep(a), ShiftStep(b), n - 1);
    }
  }

  lemma TopOfByte(b: byte)
    ensures Top(ByteBits(b)) == (b as bv32) << 24
  {
    hide Xor, Halve, TopBitIf, Bit;
    var bits := ByteBits(b);
    var t4 := Top(bits[4..]);
    assert t4 == TopNibble(bits[4], bits[5], bits[6], bits[7], 0) by {
      TopFour(bits[4..]);
      assert bits[4..][4..] == [];
    }
    assert Top(bits) == TopNibble(bits[0], bits[1], bits[2], bits[3], t4) by { TopFour(bits); }
    JoinBits(b);
  }

  function TopNibble(p: bool, q: bool, r: bool, s: bool, t: bv32): bv32 {
    Xor(TopBitIf(p), Halve(Xor(TopBitIf(q), Halve(Xor(TopBitIf(r), Halve(Xor(TopBitIf(s), Halve(t))))))))
  }

  lemma TopFour(bits: seq<bool>)
    requires |bits| >= 4
    ensures Top(bits) == TopNibble(bits[0], bits[1], bits[2], bits[3], Top(bits[4..]))
  {
    hide Xor, Halve, TopBitIf;
    TopTwo(bits);
    TopTwo(bits[2..]);
    assert bits[2..][2..] == bits[4..];
  }

  lemma TopTwo(bits: seq<bool>)
    requires |bits| >= 2
    ensures Top(bits) == Xor(TopBitIf(bits[0]), Halve(Xor(TopBitIf(bits[1]), Halve(Top(bits[2..])))))
  {
    hide Xor, Halve, TopBitIf;
    assert bits[1..][1..] == bits[2..];
    assert Top(bits[1..]) == Xor(TopBitIf(bits[1]), Halve(Top(bits[2..])));
  }

  lemma JoinBits(b: byte)
    ensures TopNibble(Bit(b, 7), Bit(b, 6), Bit(b, 5), Bit(b, 4),
                      TopNibble(Bit(b, 3), Bit(b, 2), Bit(b, 1), Bit(b, 0), 0))
            == (b as bv32) << 24
  {
  }

  lemma LowSteps(y: bv32)
    requires y & 0xFF00_0000 == 0
    ensures Shift8(y) == y << 8
  {
  }

  lemma SplitRegister(c: bv32, b: byte)
    ensures Xor(c, (b as bv32) << 24) == Xor(((((c >> 24) as byte) ^ b) as bv32) << 24, c & 0x00FF_FFFF)
    ensures (c & 0x00FF_FFFF) & 0xFF00_0000 == 0 && (c & 0x00FF_FFFF) << 8 == c << 8
  {
  }

  /** One byte through the table is its eight bits through the division. */
  lemma TableStepIsDivision(c: bv32, b: byte)
    ensures TableStep(c, b) == Division(c, ByteBits(b))
  {
    hide *;
    var hi, lo, x := TableHigh(c, b), c & 0x00FF_FFFF, (b as bv32) << 24;
    HighPart(c, b);
    LowPart(c);
    assert Xor(c, x) == Xor(hi, lo) by { SplitRegister(c, b); TableHighIs(c, b); }
    assert Division(c, ByteBits(b)) == Steps(Xor(c, x), 8) by { FeedWindow(c, ByteBits(b)); TopOfByte(b); }
    StepsLinear(hi, lo, 8);
    TableStepIsXor(c, b);
    XorComm(Steps(hi, 8), Steps(lo, 8));
  }

  /** The part of the register that selects the table entry, after the byte has been added. */
  function TableHigh(c: bv32, b: byte): bv32 {
    ((((c >> 24) as byte) ^ b) as bv32) << 24
  }

  lemma TableHighIs(c: bv32, b: byte)
    ensures TableHigh(c, b) == ((((c >> 24) as byte) ^ b) as bv32) << 24
  {
  }

  lemma HighPart(c: bv32, b: byte)
    ensures Steps(TableHigh(c, b), 8) == CrcNormalTable(((c >> 24) as byte) ^ b)
  {
    hide Shift8, Steps, CrcNormalTable;
    TableEntry(((c >> 24) as byte) ^ b);
    Shift8IsSteps(TableHigh(c, b));
  }

  lemma LowPart(c: bv32)
    ensures Steps(c & 0x00FF_FFFF, 8) == c << 8
  {
    hide Shift8, Steps, Xor;
    SplitRegister(c, 0);
    LowSteps(c & 0x00FF_FFFF);
    Shift8IsSteps(c & 0x00FF_FFFF);
  }

  lemma TableStepIsXor(c: bv32, b: byte)
    ensures TableStep(c, b) == Xor(c << 8, CrcNormalTable(((c >> 24) as byte) ^ b))
  {
    hide CrcNormalTable;
    XorIs(c << 8, CrcNormalTable(((c >> 24) as byte) ^ b));
  }

  lemma XorIs(a: bv32, b: bv32)
    ensures Xor(a, b) == a ^ b
  {
  }

  // ----- whole messages -----

  const INITIAL: bv32 := 0xFFFF_FFFF

  /** The bits of a byte string in the order they are fed. */
  function MsgBits(bytes: seq<byte>): (bits: seq<bool>)
    ensures |bits| == 8 * |bytes|
  {
    if bytes == [] then [] else MsgBits(bytes[..|bytes| - 1]) + ByteBits(bytes[|bytes| - 1])
  }

  lemma {:induction false} MsgBitsInjective(a: seq<byte>, b: seq<byte>)
    requires |a| == |b| && a != b
    ensures MsgBits(a) != MsgBits(b)
  {
    hide Bit, ByteBits;
    var n := |a| - 1;
    var x, y := MsgBits(a[..n]), MsgBits(b[..n]);
    assert a == a[..n] + [a[n]] && b == b[..n] + [b[n]];
    assert MsgBits(a)[..8 * n] == x && MsgBits(b)[..8 * n] == y;
    assert MsgBits(a)[8 * n..] == ByteBits(a[n]) && MsgBits(b)[8 * n..] == ByteBits(b[n]);
    if a[..n] != b[..n] {
      MsgBitsInjective(a[..n], b[..n]);
    } else {
      ByteBitsInjective(a[n], b[n]);
    }
  }

  lemma ByteBitsInjective(a: byte, b: byte)
    requires a != b
    ensures ByteBits(a) != ByteBits(b)
  {
    hide Bit;
    var x, y := ByteBits(a), ByteBits(b);
    if x == y {
      forall i | 0 <= i < 8 ensures Bit(a, i) == Bit(b, i) {
        assert x[7 - i] == y[7 - i];
      }
      BitsAgree(a, b);
    }
  }

  lemma DivisionOfByte(c: bv32, bytes: seq<byte>, b: byte)
    ensures Division(c, MsgBits(bytes + [b])) == TableStep(Division(c, MsgBits(bytes)), b)
  {
    hide Division, TableStep, ByteBits;
    assert (bytes + [b])[..|bytes|] == bytes;
    DivisionAppend(c, MsgBits(bytes), ByteBits(b));
    TableStepIsDivision(Division(c, MsgBits(bytes)), b);
  }

  /** The bytes of every four-byte word in reverse order. */
  function WordsReversed(s: seq<byte>): (r: seq<byte>)
    requires |s| % 4 == 0
    ensures |r| == |s|
  {
    if s == [] then []
    else
      var n := |s| - 4;
      WordsReversed(s[..n]) + Reverse4(s[n..])
  }

  function Reverse4(w: seq<byte>): (r: seq<byte>)
    requires |w| == 4
    ensures |r| == 4
  {
    [w[3], w[2], w[1], w[0]]
  }

  lemma {:induction false} WordsReversedTwice(s: seq<byte>)
    requires |s| % 4 == 0
    ensures WordsReversed(WordsReversed(s)) == s
  {
    hide Reverse4;
    if s != [] {
      var n := |s| - 4;
      var front, word := s[..n], s[n..];
      var r := WordsReversed(s);
      assert r == WordsReversed(front) + Reverse4(word);
      assert r[..n] == WordsReversed(front) && r[n..] == Reverse4(word);
      WordsReversedTwice(front);
      Reverse4Twice(word);
      assert s == front + word;
    }
  }

  lemma Reverse4Twice(w: seq<byte>)
    requires |w| == 4
    ensures Reverse4(Reverse4(w)) == w
  {
  }

  /** The remainder of a string of little-endian words, each fed from its highest byte down. */
  function WordCrc(s: seq<byte>): bv32
    requires |s| % 4 == 0
  {
    Division(INITIAL, MsgBits(WordsReversed(s)))
  }

  method Direct8TableCrc(ptr: array<byte>, len: nat) returns (crc: bv32)
    requires len <= ptr.Length
    ensures crc == Division(0xFFFF_FFFF, MsgBits(ptr[..len]))
  {
    hide TableStep, ByteBits;
    crc := INITIAL;
    for i := 0 to len
      invariant crc == Division(INITIAL, MsgBits(ptr[..i]))
    {
      DivisionOfByte(INITIAL, ptr[..i], ptr[i]);
      assert ptr[..i] + [ptr[i]] == ptr[..i + 1];
      crc := TableStep(crc, ptr[i]);
    }
  }

  /** `ptr` points at byte `base` of the buffer; `len` counts words. */
  method Direct32TableCrc(ptr: array<byte>, base: nat, len: nat) returns (crc: bv32)
    requires base + 4 * len <= ptr.Length
    ensures crc == Division(0xFFFF_FFFF, MsgBits(WordsReversed(ptr[base..base + 4 * len])))
  {
    hide *;
    crc := 0xFFFF_FFFF;
    EmptyWordCrc();
    assert ptr[base..base] == [];
    for i := 0 to len
      invariant crc == WordCrc(ptr[base..base + 4 * i])
    {
      hide *;
      var p := base + 4 * i;
      ghost var before, word := ptr[base..p], ptr[p..p + 4];
      crc := WordStep(crc, ptr, p);
      WordCrcAppend(before, word);
      assert before + word == ptr[base..p + 4];
    }
    WordCrcIs(ptr[base..base + 4 * len]);
  }

  /** One turn of the outer loop: a word, highest byte first. */
  method WordStep(before: bv32, ptr: array<byte>, p: nat) returns (crc: bv32)
    requires p + 4 <= ptr.Length
    ensures crc == Division(before, MsgBits(Reverse4(ptr[p..p + 4])))
  {
    hide TableStep, MsgBits, Division;
    crc := before;
    var u8p := new byte[4];
    u8p[3] := ptr[p + 0];
    u8p[2] := ptr[p + 1];
    u8p[1] := ptr[p + 2];
    u8p[0] := ptr[p + 3];
    MsgBitsEmpty(before);
    assert u8p[..0] == [];
    for j := 0 to 4
      invariant crc == Division(before, MsgBits(u8p[..j])) && u8p[..] == Reverse4(ptr[p..p + 4])
    {
      DivisionOfByte(before, u8p[..j], u8p[j]);
      assert u8p[..j] + [u8p[j]] == u8p[..j + 1];
      crc := TableStep(crc, u8p[j]);
    }
    assert u8p[..4] == u8p[..];
  }

  lemma WordCrcIs(s: seq<byte>)
    requires |s| % 4 == 0
    ensures WordCrc(s) == Division(0xFFFF_FFFF, MsgBits(WordsReversed(s)))
  {
  }

  lemma EmptyWordCrc()
    ensures WordCrc([]) == 0xFFFF_FFFF
  {
  }

  method Crc32Cal(ptr: array<byte>, base: nat, len: nat) returns (crc: bv32)
    requires base + 4 * len <= ptr.Length
    ensures crc == Division(0xFFFF_FFFF, MsgBits(WordsReversed(ptr[base..base + 4 * len])))
  {
    crc := Direct32TableCrc(ptr, base, len);
  }

  // ----- what the receiver relies on -----

  /** Two word strings of equal length that differ only within 32 consecutive fed bits have different CRCs. */
  lemma BurstDetected(a: seq<byte>, b: seq<byte>, start: nat)
    requires |a| == |b| && |a| % 4 == 0 && a != b
    requires DifferWithin(MsgBits(WordsReversed(a)), MsgBits(WordsReversed(b)), start, 32)
    ensures WordCrc(a) != WordCrc(b)
  {
    hide Division, MsgBits, WordsReversed;
    WordsReversedTwice(a);
    WordsReversedTwice(b);
    MsgBitsInjective(WordsReversed(a), WordsReversed(b));
    WindowDetected(INITIAL, MsgBits(WordsReversed(a)), MsgBits(WordsReversed(b)), start);
  }

  lemma WindowDetected(c: bv32, x: seq<bool>, y: seq<bool>, start: nat)
    requires x != y && DifferWithin(x, y, start, 32)
    ensures Division(c, x) != Division(c, y)
  {
    hide Division;
    var lo := if start <= |x| then start else |x|;
    var hi := if start + 32 <= |x| then start + 32 else |x|;
    assert x[..lo] == y[..lo] && x[hi..] == y[hi..];
    assert x == x[..lo] + x[lo..hi] + x[hi..];
    assert y == x[..lo] + y[lo..hi] + x[hi..];
    BurstBits(c, x[..lo], x[lo..hi], y[lo..hi], x[hi..]);
  }

  /** A word as the four bytes of a little-endian host. */
  function WordBytes(c: bv32): (w: seq<byte>)
    ensures |w| == 4
  {
    [(c & 0xFF) as byte, ((c >> 8) & 0xFF) as byte, ((c >> 16) & 0xFF) as byte, (c >> 24) as byte]
  }

  lemma WordCrcAppend(s: seq<byte>, w: seq<byte>)
    requires |s| % 4 == 0 && |w| == 4
    ensures WordCrc(s + w) == Division(WordCrc(s), MsgBits(Reverse4(w)))
  {
    hide Division, MsgBits;
    assert (s + w)[..|s|] == s;
    MsgBitsAppend(WordsReversed(s), Reverse4(w));
    DivisionAppend(INITIAL, MsgBits(WordsReversed(s)), MsgBits(Reverse4(w)));
  }

  lemma {:induction false} MsgBitsAppend(a: seq<byte>, b: seq<byte>)
    ensures MsgBits(a + b) == MsgBits(a) + MsgBits(b)
  {
    hide ByteBits;
    if b == [] {
      assert a + b == a;
    } else {
      var n := |b| - 1;
      assert (a + b)[..|a| + n] == a + b[..n];
      MsgBitsAppend(a, b[..n]);
    }
  }

  /** A register fed with its own top byte is only shifted. */
  lemma FeedTopByte(c: bv32)
    ensures TableStep(c, TopByte(c)) == ShiftByte(c)
  {
    hide CrcNormalTable;
    XorIs(c << 8, 0);
    XorWithZero(c << 8);
    assert ((c >> 24) as byte) ^ TopByte(c) == 0;
    ZeroEntry();
  }

  function TopByte(c: bv32): byte {
    (c >> 24) as byte
  }

  function ShiftByte(c: bv32): bv32 {
    c << 8
  }

  lemma ZeroEntry()
    ensures CrcNormalTable(0) == 0
  {
    hide CrcNormalTable;
    TableEntry(0);
  }

  lemma FeedFour(c: bv32, p: byte, q: byte, r: byte, s: byte)
    ensures Division(c, MsgBits([p, q, r, s])) == TableStep(TableStep(TableStep(TableStep(c, p), q), r), s)
  {
    hide Division, TableStep, MsgBits;
    MsgBitsEmpty(c);
    DivisionOfByte(c, [], p);
    DivisionOfByte(c, [p], q);
    DivisionOfByte(c, [p, q], r);
    DivisionOfByte(c, [p, q, r], s);
    assert [] + [p] == [p] && [p] + [q] == [p, q] && [p, q] + [r] == [p, q, r] && [p, q, r] + [s] == [p, q, r, s];
  }

  lemma FeedOwnWord(c: bv32)
    ensures Division(c, MsgBits(Reverse4(WordBytes(c)))) == 0
  {
    hide Division, MsgBits, TableStep, WordBytes, TopByte, ShiftByte;
    var w := WordBytes(c);
    FeedFour(c, w[3], w[2], w[1], w[0]);
    WordByteShifts(c);
    FeedTopByte(c);
    FeedTopByte(ShiftByte(c));
    FeedTopByte(ShiftByte(ShiftByte(c)));
    FeedTopByte(ShiftByte(ShiftByte(ShiftByte(c))));
  }

  lemma MsgBitsEmpty(c: bv32)
    ensures Division(c, MsgBits([])) == c
  {
  }

  lemma WordByteShifts(c: bv32)
    ensures var w := WordBytes(c);
            && w[3] == TopByte(c) && w[2] == TopByte(ShiftByte(c))
            && w[1] == TopByte(ShiftByte(ShiftByte(c))) && w[0] == TopByte(ShiftByte(ShiftByte(ShiftByte(c))))
    ensures ShiftByte(ShiftByte(ShiftByte(ShiftByte(c)))) == 0
  {
  }

  /** One more word makes the remainder zero exactly when that word is the CRC of what precedes it. */
  lemma AppendedCrc(s: seq<byte>, w: seq<byte>)
    requires |s| % 4 == 0 && |w| == 4
    ensures WordCrc(s + w) == 0 <==> w == WordBytes(WordCrc(s))
  {
    hide Division, MsgBits, WordBytes, WordCrc;
    var c := WordCrc(s);
    var own := WordBytes(c);
    WordCrcAppend(s, w);
    FeedOwnWord(c);
    if w != own {
      var x, y := Reverse4(w), Reverse4(own);
      assert w == Reverse4(x) && own == Reverse4(y);
      MsgBitsInjective(x, y);
      BurstBits(c, [], MsgBits(x), MsgBits(y), []);
      assert [] + MsgBits(x) + [] == MsgBits(x) && [] + MsgBits(y) + [] == MsgBits(y);
    }
  }

  // ----- published values -----

  lemma NextByte(s: seq<byte>, k: nat, c: bv32, next: bv32)
    requires k < |s| && Division(0xFFFF_FFFF, MsgBits(s[..k])) == c && TableStep(c, s[k]) == next
    ensures Division(0xFFFF_FFFF, MsgBits(s[..k + 1])) == next
  {
    hide Division, MsgBits, TableStep;
    DivisionOfByte(0xFFFF_FFFF, s[..k], s[k]);
    assert s[..k] + [s[k]] == s[..k + 1];
  }

  /** The check value of these parameters: the CRC of the digits 1 to 9, byte by byte. */
  lemma CheckValue()
    ensures Division(0xFFFF_FFFF, MsgBits([0x31, 0x32, 0x33, 0x34, 0x35, 0x36, 0x37, 0x38, 0x39])) == 0x0376_E6E7
  {
    hide Division, MsgBits, TableStep;
    var s: seq<byte> := [0x31, 0x32, 0x33, 0x34, 0x35, 0x36, 0x37, 0x38, 0x39];
    assert s[..0] == [];
    MsgBitsEmpty(0xFFFF_FFFF);
    CheckSteps();
    NextByte(s, 0, 0xFFFF_FFFF, 0x9EFB_CF93);
    NextByte(s, 1, 0x9EFB_CF93, 0x3FEC_5E6A);
    NextByte(s, 2, 0x3FEC_5E6A, 0xD952_F164);
    NextByte(s, 3, 0xD952_F164, 0xA695_C4AA);
    NextByte(s, 4, 0xA695_C4AA, 0xBD9A_B747);
    NextByte(s, 5, 0xBD9A_B747, 0xD8F0_6C8F);
    NextByte(s, 6, 0xD8F0_6C8F, 0x0D8A_14C4);
    NextByte(s, 7, 0x0D8A_14C4, 0x49E3_C2FB);
    NextByte(s, 8, 0x49E3_C2FB, 0x0376_E6E7);
    assert s[..9] == s;
  }

  lemma CheckSteps()
    ensures TableStep(0xFFFF_FFFF, 0x31) == 0x9EFB_CF93
    ensures TableStep(0x9EFB_CF93, 0x32) == 0x3FEC_5E6A
    ensures TableStep(0x3FEC_5E6A, 0x33) == 0xD952_F164
    ensures TableStep(0xD952_F164, 0x34) == 0xA695_C4AA
    ensures TableStep(0xA695_C4AA, 0x35) == 0xBD9A_B747
    ensures TableStep(0xBD9A_B747, 0x36) == 0xD8F0_6C8F
    ensures TableStep(0xD8F0_6C8F, 0x37) == 0x0D8A_14C4
    ensures TableStep(0x0D8A_14C4, 0x38) == 0x49E3_C2FB
    ensures TableStep(0x49E3_C2FB, 0x39) == 0x0376_E6E7
  {
    hide Division, MsgBits;
  }

  /** A word of zeros. */
  lemma ZeroWord()
    ensures WordCrc([0, 0, 0, 0]) == 0xC704_DD7B
  {
    hide Division, MsgBits, TableStep;
    var s: seq<byte> := [0, 0, 0, 0];
    assert s[..0] == [];
    MsgBitsEmpty(0xFFFF_FFFF);
    ZeroSteps();
    NextByte(s, 0, 0xFFFF_FFFF, 0x4E08_BFB4);
    NextByte(s, 1, 0x4E08_BFB4, 0x00B7_647D);
    NextByte(s, 2, 0x00B7_647D, 0xB764_7D00);
    NextByte(s, 3, 0xB764_7D00, 0xC704_DD7B);
    assert s[..4] == s && WordsReversed(s) == s;
  }

  lemma ZeroSteps()
    ensures TableStep(0xFFFF_FFFF, 0x00) == 0x4E08_BFB4
    ensures TableStep(0x4E08_BFB4, 0x00) == 0x00B7_647D
    ensures TableStep(0x00B7_647D, 0x00) == 0xB764_7D00
    ensures TableStep(0xB764_7D00, 0x00) == 0xC704_DD7B
  {
    hide Division, MsgBits;
  }
}
