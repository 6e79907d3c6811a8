/**
 CRC-16 of Modbus (bytes/modbus_crc.cpp): the two-table loop against bit-by-bit division by the
 reflected polynomial 0xA001, least significant bit first, initial value all ones
 (section 6.2.2 of "MODBUS over Serial Line Specification and Implementation Guide V1.02").
 */
module ModbusCrc {
  import opened Bits

  // ----- bit-by-bit division -----

  function Xor(a: bv16, b: bv16): bv16 {
    a ^ b
  }

  function Double(c: bv16): bv16 {
    c << 1
  }

  function Halve(c: bv16): bv16 {
    c >> 1
  }

  /** A one is about to be shifted out. */
  predicate Carry(c: bv16) {
    c & 1 != 0
  }

  /** The polynomial when a one is shifted out at the bottom. */
  function Reduction(c: bv16): bv16 {
    if Carry(c) then 0xA001 else 0
  }

  function ShiftStep(c: bv16): bv16 {
    Xor(Halve(c), Reduction(c))
  }

  function LowBitIf(b: bool): bv16 {
    if b then 1 else 0
  }

  /** The division register after the message bits `bits`, first bit first. */
  function Division(c: bv16, bits: seq<bool>): bv16
    decreases |bits|
  {
    if bits == [] then c else Division(ShiftStep(Xor(c, LowBitIf(bits[0]))), bits[1..])
  }

  /** The bits of a byte in the order they are fed. */
  function ByteBits(b: byte): (bits: seq<bool>)
    ensures |bits| == 8
  {
    [Bit(b, 0), Bit(b, 1), Bit(b, 2), Bit(b, 3), Bit(b, 4), Bit(b, 5), Bit(b, 6), Bit(b, 7)]
  }

  lemma {:induction false} DivisionAppend(c: bv16, a: seq<bool>, b: seq<bool>)
    ensures Division(c, a + b) == Division(Division(c, a), b)
    decreases |a|
  {
    hide ShiftStep, Xor, LowBitIf;
    if a == [] {
      assert a + b == b;
    } else {
      assert (a + b)[1..] == a[1..] + b;
      DivisionAppend(ShiftStep(Xor(c, LowBitIf(a[0]))), a[1..], b);
    }
  }

  // ----- the step is linear and injective -----

  lemma XorSelf(a: bv16)
    ensures Xor(a, a) == 0
  {
  }

  lemma XorWithZero(a: bv16)
    ensures Xor(a, 0) == a
  {
  }

  lemma XorComm(a: bv16, b: bv16)
    ensures Xor(a, b) == Xor(b, a)
  {
  }

  lemma XorAssoc(a: bv16, b: bv16, c: bv16)
    ensures Xor(Xor(a, b), c) == Xor(a, Xor(b, c))
  {
  }

  lemma XorBack(a: bv16, b: bv16)
    ensures Xor(Xor(a, b), b) == a
  {
    hide Xor;
    XorAssoc(a, b, b);
    XorSelf(b);
    XorWithZero(a);
  }

  lemma XorZero(a: bv16, b: bv16)
    ensures Xor(a, b) == 0 <==> a == b
  {
    hide Xor;
    XorSelf(a);
    XorBack(a, b);
    XorComm(0, b);
    XorWithZero(b);
  }

  lemma Interchange(p: bv16, q: bv16, r: bv16, s: bv16)
    ensures Xor(Xor(p, q), Xor(r, s)) == Xor(Xor(p, r), Xor(q, s))
  {
    hide Xor;
    XorAssoc(p, q, Xor(r, s));
    XorAssoc(q, r, s);
    XorComm(q, r);
    XorAssoc(r, q, s);
    XorAssoc(p, r, Xor(q, s));
  }

  lemma HalveXor(a: bv16, b: bv16)
    ensures Halve(Xor(a, b)) == Xor(Halve(a), Halve(b))
  {
  }

  lemma CarryXor(a: bv16, b: bv16)
    ensures Carry(Xor(a, b)) == (Carry(a) != Carry(b))
  {
  }

  lemma ReductionXor(a: bv16, b: bv16)
    ensures Reduction(Xor(a, b)) == Xor(Reduction(a), Reduction(b))
  {
    hide Xor, Carry;
    CarryXor(a, b);
    XorSelf(Reduction(a));
    XorWithZero(Reduction(a));
    XorComm(0, Reduction(b));
    XorWithZero(Reduction(b));
  }

  lemma ShiftStepLinear(a: bv16, b: bv16)
    ensures ShiftStep(Xor(a, b)) == Xor(ShiftStep(a), ShiftStep(b))
  {
    hide Xor, Halve, Reduction;
    HalveXor(a, b);
    ReductionXor(a, b);
    Interchange(Halve(a), Halve(b), Reduction(a), Reduction(b));
  }

  /** The polynomial has its top bit set, so no non-zero register is shifted to zero. */
  lemma ShiftStepKernel(c: bv16)
    requires ShiftStep(c) == 0
    ensures c == 0
  {
    hide Xor;
    XorZero(Halve(c), Reduction(c));
    HalveKernel(c);
  }

  lemma HalveKernel(c: bv16)
    requires Halve(c) == Reduction(c)
    ensures c == 0
  {
  }

  lemma ShiftStepInjective(a: bv16, b: bv16)
    requires ShiftStep(a) == ShiftStep(b)
    ensures a == b
  {
    hide Xor, ShiftStep;
    ShiftStepLinear(a, b);
    XorZero(ShiftStep(a), ShiftStep(b));
    ShiftStepKernel(Xor(a, b));
    XorZero(a, b);
  }

  /** Different registers stay different, whatever bits follow. */
  lemma {:induction false} DivisionInjective(a: bv16, b: bv16, bits: seq<bool>)
    requires a != b
    ensures Division(a, bits) != Division(b, bits)
    decreases |bits|
  {
    hide Xor, ShiftStep, LowBitIf;
    if bits != [] {
      var t := LowBitIf(bits[0]);
      var a', b' := Xor(a, t), Xor(b, t);
      assert a' != b' by { XorBack(a, t); XorBack(b, t); }
      assert ShiftStep(a') != ShiftStep(b') by {
        if ShiftStep(a') == ShiftStep(b') { ShiftStepInjective(a', b'); }
      }
      DivisionInjective(ShiftStep(a'), ShiftStep(b'), bits[1..]);
    }
  }

  // ----- feeding up to 16 bits at once -----

  function Steps(c: bv16, n: nat): bv16
    decreases n
  {
    if n == 0 then c else Steps(ShiftStep(c), n - 1)
  }

  /** The bits right-justified in a word, `bits[0]` at the bottom. */
  function Low(bits: seq<bool>): bv16 {
    if bits == [] then 0 else Xor(LowBitIf(bits[0]), Double(Low(bits[1..])))
  }

  /** The `n` highest bits are zero. */
  predicate HighZero(c: bv16, n: nat)
    decreases n
  {
    n == 0 || (c & 0x8000 == 0 && HighZero(Double(c), n - 1))
  }

  lemma DoubleXor(a: bv16, b: bv16)
    ensures Double(Xor(a, b)) == Xor(Double(a), Double(b))
    ensures a & 0x8000 == 0 && b & 0x8000 == 0 ==> Xor(a, b) & 0x8000 == 0
  {
  }

  lemma {:induction false} HighZeroXor(a: bv16, b: bv16, n: nat)
    requires HighZero(a, n) && HighZero(b, n)
    ensures HighZero(Xor(a, b), n)
    decreases n
  {
    hide Xor, Double;
    if n != 0 {
      DoubleXor(a, b);
      HighZeroXor(Double(a), Double(b), n - 1);
    }
  }

  lemma HighZeroLow(b: bool, n: nat)
    requires n <= 15
    ensures HighZero(LowBitIf(b), n)
  {
    HighZeroOfZero(n);
    assert HighZero(0x100, 7);
    assert HighZero(1, 15);
    HighZeroLess(1, n, 15);
  }

  lemma {:induction false} HighZeroLess(c: bv16, m: nat, n: nat)
    requires m <= n && HighZero(c, n)
    ensures HighZero(c, m)
    decreases m
  {
    if m != 0 {
      HighZeroLess(Double(c), m - 1, n - 1);
    }
  }

  lemma {:induction false} HighZeroOfZero(n: nat)
    ensures HighZero(0, n)
  {
    if n != 0 {
      HighZeroOfZero(n - 1);
    }
  }

  lemma {:induction false} LowHighZero(bits: seq<bool>)
    requires |bits| <= 16
    ensures HighZero(Low(bits), 16 - |bits|)
  {
    hide Xor, Double, LowBitIf;
    if bits == [] {
      HighZeroOfZero(16);
    } else {
      LowHighZero(bits[1..]);
      HighZeroLow(bits[0], 16 - |bits|);
      HighZeroXor(LowBitIf(bits[0]), Double(Low(bits[1..])), 16 - |bits|);
    }
  }

  lemma ShiftStepOfDouble(c: bv16)
    requires c & 0x8000 == 0
    ensures ShiftStep(Double(c)) == c
  {
  }

  /** Feeding up to 16 bits is xoring them in at the bottom and shifting as often. */
  lemma {:induction false} FeedWindow(c: bv16, bits: seq<bool>)
    requires |bits| <= 16
    ensures Division(c, bits) == Steps(Xor(c, Low(bits)), |bits|)
    decreases |bits|
  {
    hide Xor, Double, LowBitIf, ShiftStep;
    if bits == [] {
      XorWithZero(c);
    } else {
      var b, t := LowBitIf(bits[0]), Low(bits[1..]);
      FeedWindow(ShiftStep(Xor(c, b)), bits[1..]);
      LowHighZero(bits[1..]);
      ShiftStepOfDouble(t);
      ShiftStepLinear(Xor(c, b), Double(t));
      XorAssoc(c, b, Double(t));
    }
  }

  /** Different bit strings of equal length up to 16 are different words. */
  lemma {:induction false} LowInjective(v: seq<bool>, w: seq<bool>)
    requires |v| == |w| <= 16 && v != w
    ensures Low(v) != Low(w)
  {
    hide Xor, Double, LowBitIf;
    var s, t := Low(v[1..]), Low(w[1..]);
    LowHighZero(v[1..]);
    LowHighZero(w[1..]);
    if Low(v) == Low(w) {
      SplitLow(v[0], s, w[0], t);
      assert v == [v[0]] + v[1..] && w == [w[0]] + w[1..];
      LowInjective(v[1..], w[1..]);
    }
  }

  lemma SplitLow(b: bool, s: bv16, d: bool, t: bv16)
    requires s & 0x8000 == 0 && t & 0x8000 == 0
    requires Xor(LowBitIf(b), Double(s)) == Xor(LowBitIf(d), Double(t))
    ensures b == d && s == t
  {
  }

  lemma {:induction false} StepsInjective(a: bv16, b: bv16, n: nat)
    requires a != b
    ensures Steps(a, n) != Steps(b, n)
    decreases n
  {
    hide ShiftStep;
    if n != 0 {
      if ShiftStep(a) == ShiftStep(b) { ShiftStepInjective(a, b); }
      StepsInjective(ShiftStep(a), ShiftStep(b), n - 1);
    }
  }

  /** A burst: messages that differ only inside a window of at most 16 bits leave different remainders. */
  lemma BurstBits(c: bv16, before: seq<bool>, v: seq<bool>, w: seq<bool>, after: seq<bool>)
    requires |v| == |w| <= 16 && v != w
    ensures Division(c, before + v + after) != Division(c, before + w + after)
  {
    hide Division, Low, Steps, Xor;
    var s := Division(c, before);
    DivisionAppend(c, before, v);
    DivisionAppend(c, before, w);
    DivisionAppend(c, before + v, after);
    DivisionAppend(c, before + w, after);
    FeedWindow(s, v);
    FeedWindow(s, w);
    LowInjective(v, w);
    if Xor(s, Low(v)) == Xor(s, Low(w)) { XorInjective(s, Low(v), Low(w)); }
    StepsInjective(Xor(s, Low(v)), Xor(s, Low(w)), |v|);
    DivisionInjective(Division(s, v), Division(s, w), after);
  }

  lemma XorInjective(s: bv16, a: bv16, b: bv16)
    requires Xor(s, a) == Xor(s, b)
    ensures a == b
  {
    hide Xor;
    XorComm(s, a);
    XorComm(s, b);
    XorBack(a, s);
    XorBack(b, s);
  }

  // ----- the tables -----

  // `crc_h_array` and `crc_l_array`, in rows of sixteen entries
  const H_0: seq<byte> :=
    [0x00, 0xC1, 0x81, 0x40, 0x01, 0xC0, 0x80, 0x41, 0x01, 0xC0, 0x80, 0x41, 0x00, 0xC1, 0x81, 0x40]
  const H_1: seq<byte> :=
    [0x01, 0xC0, 0x80, 0x41, 0x00, 0xC1, 0x81, 0x40, 0x00, 0xC1, 0x81, 0x40, 0x01, 0xC0, 0x80, 0x41]
  const H_2: seq<byte> :=
    [0x01, 0xC0, 0x80, 0x41, 0x00, 0xC1, 0x81, 0x40, 0x00, 0xC1, 0x81, 0x40, 0x01, 0xC0, 0x80, 0x41]
  const H_3: seq<byte> :=
    [0x00, 0xC1, 0x81, 0x40, 0x01, 0xC0, 0x80, 0x41, 0x01, 0xC0, 0x80, 0x41, 0x00, 0xC1, 0x81, 0x40]
  const H_4: seq<byte> :=
    [0x01, 0xC0, 0x80, 0x41, 0x00, 0xC1, 0x81, 0x40, 0x00, 0xC1, 0x81, 0x40, 0x01, 0xC0, 0x80, 0x41]
  const H_5: seq<byte> :=
    [0x00, 0xC1, 0x81, 0x40, 0x01, 0xC0, 0x80, 0x41, 0x01, 0xC0, 0x80, 0x41, 0x00, 0xC1, 0x81, 0x40]
  const H_6: seq<byte> :=
    [0x00, 0xC1, 0x81, 0x40, 0x01, 0xC0, 0x80, 0x41, 0x01, 0xC0, 0x80, 0x41, 0x00, 0xC1, 0x81, 0x40]
  const H_7: seq<byte> :=
    [0x01, 0xC0, 0x80, 0x41, 0x00, 0xC1, 0x81, 0x40, 0x00, 0xC1, 0x81, 0x40, 0x01, 0xC0, 0x80, 0x41]
  const H_8: seq<byte> :=
    [0x01, 0xC0, 0x80, 0x41, 0x00, 0xC1, 0x81, 0x40, 0x00, 0xC1, 0x81, 0x40, 0x01, 0xC0, 0x80, 0x41]
  const H_9: seq<byte> :=
    [0x00, 0xC1, 0x81, 0x40, 0x01, 0xC0, 0x80, 0x41, 0x01, 0xC0, 0x80, 0x41, 0x00, 0xC1, 0x81, 0x40]
  const H_A: seq<byte> :=
    [0x00, 0xC1, 0x81, 0x40, 0x01, 0xC0, 0x80, 0x41, 0x01, 0xC0, 0x80, 0x41, 0x00, 0xC1, 0x81, 0x40]
  const H_B: seq<byte> :=
    [0x01, 0xC0, 0x80, 0x41, 0x00, 0xC1, 0x81, 0x40, 0x00, 0xC1, 0x81, 0x40, 0x01, 0xC0, 0x80, 0x41]
  const H_C: seq<byte> :=
    [0x00, 0xC1, 0x81, 0x40, 0x01, 0xC0, 0x80, 0x41, 0x01, 0xC0, 0x80, 0x41, 0x00, 0xC1, 0x81, 0x40]
  const H_D: seq<byte> :=
    [0x01, 0xC0, 0x80, 0x41, 0x00, 0xC1, 0x81, 0x40, 0x00, 0xC1, 0x81, 0x40, 0x01, 0xC0, 0x80, 0x41]
  const H_E: seq<byte> :=
    [0x01, 0xC0, 0x80, 0x41, 0x00, 0xC1, 0x81, 0x40, 0x00, 0xC1, 0x81, 0x40, 0x01, 0xC0, 0x80, 0x41]
  const H_F: seq<byte> :=
    [0x00, 0xC1, 0x81, 0x40, 0x01, 0xC0, 0x80, 0x41, 0x01, 0xC0, 0x80, 0x41, 0x00, 0xC1, 0x81, 0x40]

  const L_0: seq<byte> :=
    [0x00, 0xC0, 0xC1, 0x01, 0xC3, 0x03, 0x02, 0xC2, 0xC6, 0x06, 0x07, 0xC7, 0x05, 0xC5, 0xC4, 0x04]
  const L_1: seq<byte> :=
    [0xCC, 0x0C, 0x0D, 0xCD, 0x0F, 0xCF, 0xCE, 0x0E, 0x0A, 0xCA, 0xCB, 0x0B, 0xC9, 0x09, 0x08, 0xC8]
  const L_2: seq<byte> :=
    [0xD8, 0x18, 0x19, 0xD9, 0x1B, 0xDB, 0xDA, 0x1A, 0x1E, 0xDE, 0xDF, 0x1F, 0xDD, 0x1D, 0x1C, 0xDC]
  const L_3: seq<byte> :=
    [0x14, 0xD4, 0xD5, 0x15, 0xD7, 0x17, 0x16, 0xD6, 0xD2, 0x12, 0x13, 0xD3, 0x11, 0xD1, 0xD0, 0x10]
  const L_4: seq<byte> :=
    [0xF0, 0x30, 0x31, 0xF1, 0x33, 0xF3, 0xF2, 0x32, 0x36, 0xF6, 0xF7, 0x37, 0xF5, 0x35, 0x34, 0xF4]
  const L_5: seq<byte> :=
    [0x3C, 0xFC, 0xFD, 0x3D, 0xFF, 0x3F, 0x3E, 0xFE, 0xFA, 0x3A, 0x3B, 0xFB, 0x39, 0xF9, 0xF8, 0x38]
  const L_6: seq<byte> :=
    [0x28, 0xE8, 0xE9, 0x29, 0xEB, 0x2B, 0x2A, 0xEA, 0xEE, 0x2E, 0x2F, 0xEF, 0x2D, 0xED, 0xEC, 0x2C]
  const L_7: seq<byte> :=
    [0xE4, 0x24, 0x25, 0xE5, 0x27, 0xE7, 0xE6, 0x26, 0x22, 0xE2, 0xE3, 0x23, 0xE1, 0x21, 0x20, 0xE0]
  const L_8: seq<byte> :=
    [0xA0, 0x60, 0x61, 0xA1, 0x63, 0xA3, 0xA2, 0x62, 0x66, 0xA6, 0xA7, 0x67, 0xA5, 0x65, 0x64, 0xA4]
  const L_9: seq<byte> :=
    [0x6C, 0xAC, 0xAD, 0x6D, 0xAF, 0x6F, 0x6E, 0xAE, 0xAA, 0x6A, 0x6B, 0xAB, 0x69, 0xA9, 0xA8, 0x68]
  const L_A: seq<byte> :=
    [0x78, 0xB8, 0xB9, 0x79, 0xBB, 0x7B, 0x7A, 0xBA, 0xBE, 0x7E, 0x7F, 0xBF, 0x7D, 0xBD, 0xBC, 0x7C]
  const L_B: seq<byte> :=
    [0xB4, 0x74, 0x75, 0xB5, 0x77, 0xB7, 0xB6, 0x76, 0x72, 0xB2, 0xB3, 0x73, 0xB1, 0x71, 0x70, 0xB0]
  const L_C: seq<byte> :=
    [0x50, 0x90, 0x91, 0x51, 0x93, 0x53, 0x52, 0x92, 0x96, 0x56, 0x57, 0x97, 0x55, 0x95, 0x94, 0x54]
  const L_D: seq<byte> :=
    [0x9C, 0x5C, 0x5D, 0x9D, 0x5F, 0x9F, 0x9E, 0x5E, 0x5A, 0x9A, 0x9B, 0x5B, 0x99, 0x59, 0x58, 0x98]
  const L_E: seq<byte> :=
    [0x88, 0x48, 0x49, 0x89, 0x4B, 0x8B, 0x8A, 0x4A, 0x4E, 0x8E, 0x8F, 0x4F, 0x8D, 0x4D, 0x4C, 0x8C]
  const L_F: seq<byte> :=
    [0x44, 0x84, 0x85, 0x45, 0x87, 0x47, 0x46, 0x86, 0x82, 0x42, 0x43, 0x83, 0x41, 0x81, 0x80, 0x40]

  function HighArrayRow(r: byte): (row: seq<byte>)
    requires r < 16
  {
    if r < 8 then
      if r == 0 then H_0 else if r == 1 then H_1 else if r == 2 then H_2 else if r == 3 then H_3
      else if r == 4 then H_4 else if r == 5 then H_5 else if r == 6 then H_6 else H_7
    else
      if r == 8 then H_8 else if r == 9 then H_9 else if r == 10 then H_A else if r == 11 then H_B
      else if r == 12 then H_C else if r == 13 then H_D else if r == 14 then H_E else H_F
  }

  function LowArrayRow(r: byte): (row: seq<byte>)
    requires r < 16
  {
    if r < 8 then
      if r == 0 then L_0 else if r == 1 then L_1 else if r == 2 then L_2 else if r == 3 then L_3
      else if r == 4 then L_4 else if r == 5 then L_5 else if r == 6 then L_6 else L_7
    else
      if r == 8 then L_8 else if r == 9 then L_9 else if r == 10 then L_A else if r == 11 then L_B
      else if r == 12 then L_C else if r == 13 then L_D else if r == 14 then L_E else L_F
  }

  function CrcHArray(i: byte): byte {
    HRowIsDivision(i >> 4);
    HighArrayRow(i >> 4)[(i & 0x0F) as nat]
  }

  function CrcLArray(i: byte): byte {
    LRowIsDivision(i >> 4);
    LowArrayRow(i >> 4)[(i & 0x0F) as nat]
  }

  /** One step written out, for the evaluation of the tables. */
  function StepOnce(c: bv16): bv16 {
    if c & 1 != 0 then (c >> 1) ^ 0xA001 else c >> 1
  }

  function Shift8(c: bv16): bv16 {
    StepOnce(StepOnce(StepOnce(StepOnce(StepOnce(StepOnce(StepOnce(StepOnce(c))))))))
  }

  lemma StepOnceIsStep(c: bv16)
    ensures StepOnce(c) == ShiftStep(c)
  {
    hide ShiftStep;
    if c & 1 == 0 { ShiftOut0(c); } else { ShiftOut1(c); }
  }

  lemma ShiftOut0(c: bv16)
    requires c & 1 == 0
    ensures ShiftStep(c) == c >> 1
  {
  }

  lemma ShiftOut1(c: bv16)
    requires c & 1 != 0
    ensures ShiftStep(c) == (c >> 1) ^ 0xA001
  {
  }

  lemma Shift8IsSteps(c: bv16)
    ensures Shift8(c) == Steps(c, 8)
  {
    hide ShiftStep, StepOnce;
    var c1, c2 := StepOnce(c), StepOnce(StepOnce(c));
    var c4 := StepOnce(StepOnce(c2));
    var c6 := StepOnce(StepOnce(c4));
    StepOnceIsStep(c);
    StepOnceIsStep(c1);
    StepOnceIsStep(c2);
    StepOnceIsStep(StepOnce(c2));
    StepOnceIsStep(c4);
    StepOnceIsStep(StepOnce(c4));
    StepOnceIsStep(c6);
    StepOnceIsStep(StepOnce(c6));
    assert Steps(c, 8) == Steps(c2, 6) && Steps(c2, 6) == Steps(c4, 4) && Steps(c4, 4) == Steps(c6, 2);
  }

  function LowOf(c: bv16): byte {
    (c & 0xFF) as byte
  }

  function HighOf(c: bv16): byte {
    (c >> 8) as byte
  }

  /** Low bytes of the division remainders of the sixteen bytes that share the high nibble of `h`. */
  function LowDivisionRow(h: bv16): (row: seq<byte>)
    ensures |row| == 16
  {
    [LowOf(Shift8(h)), LowOf(Shift8(h | 0x1)), LowOf(Shift8(h | 0x2)), LowOf(Shift8(h | 0x3)),
     LowOf(Shift8(h | 0x4)), LowOf(Shift8(h | 0x5)), LowOf(Shift8(h | 0x6)), LowOf(Shift8(h | 0x7)),
     LowOf(Shift8(h | 0x8)), LowOf(Shift8(h | 0x9)), LowOf(Shift8(h | 0xA)), LowOf(Shift8(h | 0xB)),
     LowOf(Shift8(h | 0xC)), LowOf(Shift8(h | 0xD)), LowOf(Shift8(h | 0xE)), LowOf(Shift8(h | 0xF))]
  }

  /** High bytes of the same remainders. */
  function HighDivisionRow(h: bv16): (row: seq<byte>)
    ensures |row| == 16
  {
    [HighOf(Shift8(h)), HighOf(Shift8(h | 0x1)), HighOf(Shift8(h | 0x2)), HighOf(Shift8(h | 0x3)),
     HighOf(Shift8(h | 0x4)), HighOf(Shift8(h | 0x5)), HighOf(Shift8(h | 0x6)), HighOf(Shift8(h | 0x7)),
     HighOf(Shift8(h | 0x8)), HighOf(Shift8(h | 0x9)), HighOf(Shift8(h | 0xA)), HighOf(Shift8(h | 0xB)),
     HighOf(Shift8(h | 0xC)), HighOf(Shift8(h | 0xD)), HighOf(Shift8(h | 0xE)), HighOf(Shift8(h | 0xF))]
  }

  lemma HRows0To3()
    ensures H_0 == LowDivisionRow(0x00)
    ensures H_1 == LowDivisionRow(0x10)
    ensures H_2 == LowDivisionRow(0x20)
    ensures H_3 == LowDivisionRow(0x30)
  {
  }

  lemma HRows4To7()
    ensures H_4 == LowDivisionRow(0x40)
    ensures H_5 == LowDivisionRow(0x50)
    ensures H_6 == LowDivisionRow(0x60)
    ensures H_7 == LowDivisionRow(0x70)
  {
  }

  lemma HRows8ToB()
    ensures H_8 == LowDivisionRow(0x80)
    ensures H_9 == LowDivisionRow(0x90)
    ensures H_A == LowDivisionRow(0xA0)
    ensures H_B == LowDivisionRow(0xB0)
  {
  }

  lemma HRowsCToF()
    ensures H_C == LowDivisionRow(0xC0)
    ensures H_D == LowDivisionRow(0xD0)
    ensures H_E == LowDivisionRow(0xE0)
    ensures H_F == LowDivisionRow(0xF0)
  {
  }

  lemma LRows0To3()
    ensures L_0 == HighDivisionRow(0x00)
    ensures L_1 == HighDivisionRow(0x10)
    ensures L_2 == HighDivisionRow(0x20)
    ensures L_3 == HighDivisionRow(0x30)
  {
  }

  lemma LRows4To7()
    ensures L_4 == HighDivisionRow(0x40)
    ensures L_5 == HighDivisionRow(0x50)
    ensures L_6 == HighDivisionRow(0x60)
    ensures L_7 == HighDivisionRow(0x70)
  {
  }

  lemma LRows8ToB()
    ensures L_8 == HighDivisionRow(0x80)
    ensures L_9 == HighDivisionRow(0x90)
    ensures L_A == HighDivisionRow(0xA0)
    ensures L_B == HighDivisionRow(0xB0)
  {
  }

  lemma LRowsCToF()
    ensures L_C == HighDivisionRow(0xC0)
    ensures L_D == HighDivisionRow(0xD0)
    ensures L_E == HighDivisionRow(0xE0)
    ensures L_F == HighDivisionRow(0xF0)
  {
  }

  lemma HRowIsDivision(r: byte)
    requires r < 16
    ensures HighArrayRow(r) == LowDivisionRow((r as bv16) << 4)
  {
    hide LowDivisionRow, H_0, H_1, H_2, H_3, H_4, H_5, H_6, H_7, H_8, H_9, H_A, H_B, H_C, H_D, H_E, H_F;
    HRows0To3();
    HRows4To7();
    HRows8ToB();
    HRowsCToF();
    if r == 0 {} else if r == 1 {} else if r == 2 {} else if r == 3 {} else if r == 4 {} else if r == 5 {}
    else if r == 6 {} else if r == 7 {} else if r == 8 {} else if r == 9 {} else if r == 10 {} else if r == 11 {}
    else if r == 12 {} else if r == 13 {} else if r == 14 {} else { assert r == 15; }
  }

  lemma LRowIsDivision(r: byte)
    requires r < 16
    ensures LowArrayRow(r) == HighDivisionRow((r as bv16) << 4)
  {
    hide HighDivisionRow, L_0, L_1, L_2, L_3, L_4, L_5, L_6, L_7, L_8, L_9, L_A, L_B, L_C, L_D, L_E, L_F;
    LRows0To3();
    LRows4To7();
    LRows8ToB();
    LRowsCToF();
    if r == 0 {} else if r == 1 {} else if r == 2 {} else if r == 3 {} else if r == 4 {} else if r == 5 {}
    else if r == 6 {} else if r == 7 {} else if r == 8 {} else if r == 9 {} else if r == 10 {} else if r == 11 {}
    else if r == 12 {} else if r == 13 {} else if r == 14 {} else { assert r == 15; }
  }

  lemma LowRowEntry(h: bv16, c: byte)
    requires c < 16
    ensures LowDivisionRow(h)[c as nat] == LowOf(Shift8(h | (c as bv16)))
  {
    hide Shift8, LowOf, HighOf;
    assert h | 0 == h;
    if c == 0 {} else if c == 1 {} else if c == 2 {} else if c == 3 {} else if c == 4 {} else if c == 5 {}
    else if c == 6 {} else if c == 7 {} else if c == 8 {} else if c == 9 {} else if c == 10 {} else if c == 11 {}
    else if c == 12 {} else if c == 13 {} else if c == 14 {} else { assert c == 15; }
  }

  lemma HighRowEntry(h: bv16, c: byte)
    requires c < 16
    ensures HighDivisionRow(h)[c as nat] == HighOf(Shift8(h | (c as bv16)))
  {
    hide Shift8, LowOf, HighOf;
    assert h | 0 == h;
    if c == 0 {} else if c == 1 {} else if c == 2 {} else if c == 3 {} else if c == 4 {} else if c == 5 {}
    else if c == 6 {} else if c == 7 {} else if c == 8 {} else if c == 9 {} else if c == 10 {} else if c == 11 {}
    else if c == 12 {} else if c == 13 {} else if c == 14 {} else { assert c == 15; }
  }

  lemma JoinNibbles(i: byte)
    ensures (((i >> 4) as bv16) << 4) | ((i & 0x0F) as bv16) == i as bv16
  {
  }

  /** `crc_h_array` holds the low bytes and `crc_l_array` the high bytes of the remainders. */
  lemma TableEntry(i: byte)
    ensures CrcHArray(i) == LowOf(Shift8(i as bv16)) && CrcLArray(i) == HighOf(Shift8(i as bv16))
  {
    hide Shift8, LowOf, HighOf, LowDivisionRow, HighDivisionRow, HighArrayRow, LowArrayRow;
    HRowIsDivision(i >> 4);
    LRowIsDivision(i >> 4);
    LowRowEntry(((i >> 4) as bv16) << 4, i & 0x0F);
    HighRowEntry(((i >> 4) as bv16) << 4, i & 0x0F);
    JoinNibbles(i);
  }

  // ----- table steps are eight division steps -----

  /** The register from its two halves. */
  function Join(h: byte, l: byte): bv16 {
    ((h as bv16) << 8) | (l as bv16)
  }

  function XorByte(a: byte, b: byte): byte {
    a ^ b
  }

  /** The loop body: one byte through the tables. */
  function TableStep(c: bv16, b: byte): bv16 {
    var i := XorByte(LowOf(c), b);
    Join(CrcLArray(i), XorByte(HighOf(c), CrcHArray(i)))
  }

  lemma {:induction false} StepsLinear(a: bv16, b: bv16, n: nat)
    ensures Steps(Xor(a, b), n) == Xor(Steps(a, n), Steps(b, n))
    decreases n
  {
    hide Xor, ShiftStep;
    if n != 0 {
      ShiftStepLinear(a, b);
      StepsLinear(ShiftStep(a), ShiftStep(b), n - 1);
    }
  }

  lemma LowOfByte(b: byte)
    ensures Low(ByteBits(b)) == Wide(b)
  {
    hide Xor, Double, LowBitIf, Bit;
    var bits := ByteBits(b);
    var t4 := Low(bits[4..]);
    assert t4 == LowNibble(bits[4], bits[5], bits[6], bits[7], 0) by {
      LowFour(bits[4..]);
      assert bits[4..][4..] == [];
    }
    assert Low(bits) == LowNibble(bits[0], bits[1], bits[2], bits[3], t4) by { LowFour(bits); }
    JoinBits(b);
  }

  function LowNibble(p: bool, q: bool, r: bool, s: bool, t: bv16): bv16 {
    Xor(LowBitIf(p), Double(Xor(LowBitIf(q), Double(Xor(LowBitIf(r), Double(Xor(LowBitIf(s), Double(t))))))))
  }

  lemma LowFour(bits: seq<bool>)
    requires |bits| >= 4
    ensures Low(bits) == LowNibble(bits[0], bits[1], bits[2], bits[3], Low(bits[4..]))
  {
    hide Xor, Double, LowBitIf;
    LowTwo(bits);
    LowTwo(bits[2..]);
    assert bits[2..][2..] == bits[4..];
  }

  lemma LowTwo(bits: seq<bool>)
    requires |bits| >= 2
    ensures Low(bits) == Xor(LowBitIf(bits[0]), Double(Xor(LowBitIf(bits[1]), Double(Low(bits[2..])))))
  {
    hide Xor, Double, LowBitIf;
    assert bits[1..][1..] == bits[2..];
    assert Low(bits[1..]) == Xor(LowBitIf(bits[1]), Double(Low(bits[2..])));
  }

  lemma JoinBits(b: byte)
    ensures LowNibble(Bit(b, 0), Bit(b, 1), Bit(b, 2), Bit(b, 3),
                      LowNibble(Bit(b, 4), Bit(b, 5), Bit(b, 6), Bit(b, 7), 0))
            == b as bv16
  {
  }

  lemma HighSteps(y: bv16)
    requires y & 0x00FF == 0
    ensures Shift8(y) == ShiftByte(y)
  {
  }

  lemma SplitRegister(c: bv16, b: byte)
    ensures Xor(c, Wide(b)) == Xor(Wide(XorByte(LowOf(c), b)), HighHalf(c))
    ensures HighHalf(c) & 0x00FF == 0 && ShiftByte(HighHalf(c)) == ShiftByte(c)
  {
  }

  function HighHalf(c: bv16): bv16 {
    c & 0xFF00
  }

  function ShiftByte(c: bv16): bv16 {
    c >> 8
  }

  function Wide(b: byte): bv16 {
    b as bv16
  }

  /** One byte through the tables is its eight bits through the division. */
  lemma TableStepIsDivision(c: bv16, b: byte)
    ensures TableStep(c, b) == Division(c, ByteBits(b))
  {
    hide *;
    var lo, hi, x := Wide(XorByte(LowOf(c), b)), HighHalf(c), Wide(b);
    SplitRegister(c, b);
    FeedWindow(c, ByteBits(b));
    LowOfByte(b);
    StepsLinear(lo, hi, 8);
    HighPart(c);
    Shift8IsSteps(lo);
    TableStepIsXor(c, b);
  }

  lemma HighPart(c: bv16)
    ensures Steps(HighHalf(c), 8) == ShiftByte(c)
  {
    hide Shift8, Steps, Xor, HighHalf, ShiftByte;
    SplitRegister(c, 0);
    HighSteps(HighHalf(c));
    Shift8IsSteps(HighHalf(c));
  }

  lemma TableStepIsXor(c: bv16, b: byte)
    ensures TableStep(c, b) == Xor(Shift8(Wide(XorByte(LowOf(c), b))), ShiftByte(c))
  {
    hide CrcLArray, CrcHArray, Shift8, Join, Xor, LowOf, HighOf, XorByte, ShiftByte;
    var i := XorByte(LowOf(c), b);
    TableEntry(i);
    JoinXor(Shift8(Wide(i)), c);
  }

  lemma JoinXor(t: bv16, c: bv16)
    ensures Join(HighOf(t), XorByte(HighOf(c), LowOf(t))) == Xor(t, ShiftByte(c))
  {
  }

  // ----- whole messages -----

  const INITIAL: bv16 := 0xFFFF

  /** The bits of a byte string in the order they are fed. */
  function MsgBits(bytes: seq<byte>): (bits: seq<bool>)
    ensures |bits| == 8 * |bytes|
  {
    if bytes == [] then [] else MsgBits(bytes[..|bytes| - 1]) + ByteBits(bytes[|bytes| - 1])
  }

  lemma {:induction false} MsgBitsInjective(a: seq<byte>, b: seq<byte>)
    requires |a| == |b| && a != b
    ensures MsgBits(a) != MsgBits(b)
  {
    hide Bit, ByteBits;
    var n := |a| - 1;
    var x, y := MsgBits(a[..n]), MsgBits(b[..n]);
    assert a == a[..n] + [a[n]] && b == b[..n] + [b[n]];
    assert MsgBits(a)[..8 * n] == x && MsgBits(b)[..8 * n] == y;
    assert MsgBits(a)[8 * n..] == ByteBits(a[n]) && MsgBits(b)[8 * n..] == ByteBits(b[n]);
    if a[..n] != b[..n] {
      MsgBitsInjective(a[..n], b[..n]);
    } else {
      ByteBitsInjective(a[n], b[n]);
    }
  }

  lemma ByteBitsInjective(a: byte, b: byte)
    requires a != b
    ensures ByteBits(a) != ByteBits(b)
  {
    hide Bit;
    var x, y := ByteBits(a), ByteBits(b);
    if x == y {
      forall i | 0 <= i < 8 ensures Bit(a, i) == Bit(b, i) {
        assert x[i] == y[i];
      }
      BitsAgree(a, b);
    }
  }

  lemma DivisionOfByte(c: bv16, bytes: seq<byte>, b: byte)
    ensures Division(c, MsgBits(bytes + [b])) == TableStep(Division(c, MsgBits(bytes)), b)
  {
    hide Division, TableStep, ByteBits;
    assert (bytes + [b])[..|bytes|] == bytes;
    DivisionAppend(c, MsgBits(bytes), ByteBits(b));
    TableStepIsDivision(Division(c, MsgBits(bytes)), b);
  }

  /** The CRC of a byte string. */
  function CrcOf(s: seq<byte>): bv16 {
    Division(INITIAL, MsgBits(s))
  }

  method ModbusCrc16(buff: array<byte>, len: nat) returns (crc: bv16)
    requires len <= buff.Length
    ensures crc == CrcOf(buff[..len])
  {
    hide *;
    var crcH, crcL: byte := 0xFF, 0xFF;
    var n := 0;
    EmptyCrc();
    assert buff[..0] == [];
    while n < len
      invariant n <= len && Join(crcH, crcL) == CrcOf(buff[..n])
    {
      hide *;
      CrcStep(buff[..n], crcH, crcL, buff[n]);
      assert buff[..n] + [buff[n]] == buff[..n + 1];
      var index := XorByte(crcL, buff[n]);
      crcL := XorByte(crcH, CrcHArray(index));
      crcH := CrcLArray(index);
      n := n + 1;
    }
    crc := Join(crcH, crcL);
  }

  lemma EmptyCrc()
    ensures Join(0xFF, 0xFF) == CrcOf([])
  {
    MsgBitsEmpty(INITIAL);
  }

  lemma CrcStep(s: seq<byte>, h: byte, l: byte, b: byte)
    requires Join(h, l) == CrcOf(s)
    ensures Join(CrcLArray(XorByte(l, b)), XorByte(h, CrcHArray(XorByte(l, b)))) == CrcOf(s + [b])
  {
    hide Division, MsgBits, CrcLArray, CrcHArray, Join, HighOf, LowOf, XorByte;
    JoinParts(h, l);
    DivisionOfByte(INITIAL, s, b);
  }

  lemma JoinParts(h: byte, l: byte)
    ensures HighOf(Join(h, l)) == h && LowOf(Join(h, l)) == l
  {
  }

  lemma MsgBitsEmpty(c: bv16)
    ensures Division(c, MsgBits([])) == c
  {
  }

  // ----- what the receiver relies on -----

  /** A CRC as it is appended to a frame, low byte first. */
  function CrcBytes(c: bv16): (w: seq<byte>)
    ensures |w| == 2
  {
    [LowOf(c), HighOf(c)]
  }

  lemma {:induction false} MsgBitsAppend(a: seq<byte>, b: seq<byte>)
    ensures MsgBits(a + b) == MsgBits(a) + MsgBits(b)
  {
    hide ByteBits;
    if b == [] {
      assert a + b == a;
    } else {
      var n := |b| - 1;
      assert (a + b)[..|a| + n] == a + b[..n];
      MsgBitsAppend(a, b[..n]);
    }
  }

  /** A register fed with its own low byte is only shifted. */
  lemma FeedLowByte(c: bv16)
    ensures TableStep(c, LowOf(c)) == ShiftByte(c)
  {
    hide CrcLArray, CrcHArray;
    assert XorByte(LowOf(c), LowOf(c)) == 0;
    ZeroEntry();
  }

  lemma ZeroEntry()
    ensures CrcLArray(0) == 0 && CrcHArray(0) == 0
  {
    hide CrcLArray, CrcHArray;
    TableEntry(0);
  }

  lemma FeedOwnCrc(c: bv16)
    ensures Division(c, MsgBits(CrcBytes(c))) == 0
  {
    hide Division, MsgBits, TableStep, LowOf, HighOf, ShiftByte;
    MsgBitsEmpty(c);
    DivisionOfByte(c, [], LowOf(c));
    DivisionOfByte(c, [LowOf(c)], HighOf(c));
    assert [] + [LowOf(c)] == [LowOf(c)] && [LowOf(c)] + [HighOf(c)] == CrcBytes(c);
    FeedLowByte(c);
    ShiftByteParts(c);
    FeedLowByte(ShiftByte(c));
  }

  lemma ShiftByteParts(c: bv16)
    ensures LowOf(ShiftByte(c)) == HighOf(c) && ShiftByte(ShiftByte(c)) == 0
  {
  }

  /** Two more bytes make the CRC of the frame zero exactly when they are the CRC of what precedes them. */
  lemma AppendedCrc(s: seq<byte>, w: seq<byte>)
    requires |w| == 2
    ensures CrcOf(s + w) == 0 <==> w == CrcBytes(CrcOf(s))
  {
    hide Division, MsgBits, CrcBytes;
    var c := CrcOf(s);
    MsgBitsAppend(s, w);
    DivisionAppend(INITIAL, MsgBits(s), MsgBits(w));
    FeedOwnCrc(c);
    if w != CrcBytes(c) {
      MsgBitsInjective(w, CrcBytes(c));
      BurstBits(c, [], MsgBits(w), MsgBits(CrcBytes(c)), []);
      assert [] + MsgBits(w) + [] == MsgBits(w) && [] + MsgBits(CrcBytes(c)) + [] == MsgBits(CrcBytes(c));
    }
  }

  /** Two frames of equal length that differ only within 16 consecutive fed bits have different CRCs. */
  lemma BurstDetected(a: seq<byte>, b: seq<byte>, start: nat)
    requires |a| == |b| && a != b
    requires DifferWithin(MsgBits(a), MsgBits(b), start, 16)
    ensures CrcOf(a) != CrcOf(b)
  {
    hide Division, MsgBits;
    MsgBitsInjective(a, b);
    WindowDetected(INITIAL, MsgBits(a), MsgBits(b), start);
  }

  lemma WindowDetected(c: bv16, x: seq<bool>, y: seq<bool>, start: nat)
    requires x != y && DifferWithin(x, y, start, 16)
    ensures Division(c, x) != Division(c, y)
  {
    hide Division;
    var lo := if start <= |x| then start else |x|;
    var hi := if start + 16 <= |x| then start + 16 else |x|;
    assert x[..lo] == y[..lo] && x[hi..] == y[hi..];
    assert x == x[..lo] + x[lo..hi] + x[hi..];
    assert y == x[..lo] + y[lo..hi] + x[hi..];
    BurstBits(c, x[..lo], x[lo..hi], y[lo..hi], x[hi..]);
  }

  // ----- the published value -----

  lemma NextByte(s: seq<byte>, k: nat, c: bv16, next: bv16)
    requires k < |s| && CrcOf(s[..k]) == c && TableStep(c, s[k]) == next
    ensures CrcOf(s[..k + 1]) == next
  {
    hide Division, MsgBits, TableStep;
    DivisionOfByte(INITIAL, s[..k], s[k]);
    assert s[..k] + [s[k]] == s[..k + 1];
  }

  /** The check value of these parameters: the CRC of the digits 1 to 9. */
  lemma CheckValue()
    ensures CrcOf([0x31, 0x32, 0x33, 0x34, 0x35, 0x36, 0x37, 0x38, 0x39]) == 0x4B37
  {
    hide CrcOf, TableStep;
    var s: seq<byte> := [0x31, 0x32, 0x33, 0x34, 0x35, 0x36, 0x37, 0x38, 0x39];
    assert s[..0] == [];
    NoBytes();
    CheckSteps();
    NextByte(s, 0, 0xFFFF, 0x947E);
    NextByte(s, 1, 0x947E, 0xF595);
    NextByte(s, 2, 0xF595, 0x7A75);
    NextByte(s, 3, 0x7A75, 0x30BA);
    NextByte(s, 4, 0x30BA, 0xA471);
    NextByte(s, 5, 0xA471, 0x32E4);
    NextByte(s, 6, 0x32E4, 0x9D73);
    NextByte(s, 7, 0x9D73, 0x37DD);
    NextByte(s, 8, 0x37DD, 0x4B37);
    assert s[..9] == s;
  }

  lemma NoBytes()
    ensures CrcOf([]) == 0xFFFF
  {
    hide Division, MsgBits;
    MsgBitsEmpty(INITIAL);
  }

  lemma FirstEntries()
    ensures CrcLArray(0xCE) == 0x94 && CrcHArray(0xCE) == 0x81
    ensures CrcLArray(0x4C) == 0xF5 && CrcHArray(0x4C) == 0x01
    ensures CrcLArray(0xA6) == 0x7A && CrcHArray(0xA6) == 0x80
  {
  }

  lemma MiddleEntries()
    ensures CrcLArray(0x41) == 0x30 && CrcHArray(0x41) == 0xC0
    ensures CrcLArray(0x8F) == 0xA4 && CrcHArray(0x8F) == 0x41
    ensures CrcLArray(0x47) == 0x32 && CrcHArray(0x47) == 0x40
  {
  }

  lemma LastEntries()
    ensures CrcLArray(0xD3) == 0x9D && CrcHArray(0xD3) == 0x41
    ensures CrcLArray(0x4B) == 0x37 && CrcHArray(0x4B) == 0x40
    ensures CrcLArray(0xE4) == 0x4B && CrcHArray(0xE4) == 0x00
  {
  }

  lemma CheckSteps()
    ensures TableStep(0xFFFF, 0x31) == 0x947E
    ensures TableStep(0x947E, 0x32) == 0xF595
    ensures TableStep(0xF595, 0x33) == 0x7A75
    ensures TableStep(0x7A75, 0x34) == 0x30BA
    ensures TableStep(0x30BA, 0x35) == 0xA471
    ensures TableStep(0xA471, 0x36) == 0x32E4
    ensures TableStep(0x32E4, 0x37) == 0x9D73
    ensures TableStep(0x9D73, 0x38) == 0x37DD
    ensures TableStep(0x37DD, 0x39) == 0x4B37
  {
    hide CrcLArray, CrcHArray;
    FirstEntries();
    MiddleEntries();
    LastEntries();
  }
}
