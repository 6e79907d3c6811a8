/**
 Bits of bytes, of byte buffers and of natural numbers, and the correspondence between them.
 Everything that is read or written at bit granularity is specified with `BufBit`; numbers enter
 and leave through `NatBit`.
 */
module Bits {
  type byte = bv8

  // ----- powers of two and bits of a natural number -----

  function Pow2(n: nat): (p: nat)
    ensures p > 0
  {
    if n == 0 then 1 else 2 * Pow2(n - 1)
  }

  /** Bit `i` of `v`, bit 0 being the least significant. */
  predicate NatBit(v: nat, i: nat) {
    if i == 0 then v % 2 == 1 else NatBit(v / 2, i - 1)
  }

  /** `v >> n` on an unsigned number. */
  function Shr(v: nat, n: nat): nat {
    if n == 0 then v else Shr(v / 2, n - 1)
  }

  lemma {:induction false} ShrBit(v: nat, n: nat, i: nat)
    ensures NatBit(Shr(v, n), i) == NatBit(v, n + i)
  {
    if n != 0 {
      ShrBit(v / 2, n - 1, i);
    }
  }

  lemma {:induction false} NatBitsAgree(a: nat, b: nat, n: nat)
    requires a < Pow2(n) && b < Pow2(n)
    requires forall i | 0 <= i < n :: NatBit(a, i) == NatBit(b, i)
    ensures a == b
  {
    if n != 0 {
      assert NatBit(a, 0) == NatBit(b, 0);
      forall i | 0 <= i < n - 1 ensures NatBit(a / 2, i) == NatBit(b / 2, i) {
        assert NatBit(a, i + 1) == NatBit(b, i + 1);
      }
      NatBitsAgree(a / 2, b / 2, n - 1);
    }
  }

  /** Remainder modulo `2m`, split into its last bit and the rest. */
  lemma ModDouble(v: nat, m: nat)
    requires m > 0
    ensures v % (2 * m) == v % 2 + 2 * ((v / 2) % m)
  {
    var q, r := v / 2, v % 2;
    var a, b := q / m, q % m;
    assert v == (2 * m) * a + (2 * b + r) by {
      assert q == m * a + b;
      assert 2 * (m * a) == (2 * m) * a;
    }
    ModUnique(v, 2 * m, a, 2 * b + r);
  }

  lemma MulMonotone(m: nat, x: nat, y: nat)
    requires x <= y
    ensures m * x <= m * y
  {
  }

  lemma ModUnique(v: nat, m: nat, a: nat, b: nat)
    requires m > 0 && b < m && v == m * a + b
    ensures v % m == b && v / m == a
  {
    var d := v / m;
    assert d >= a by {
      if d < a { MulMonotone(m, d + 1, a); }
    }
    assert a >= d by {
      if a < d { MulMonotone(m, a + 1, d); }
    }
  }

  lemma {:induction false} ModBit(v: nat, n: nat, i: nat)
    ensures NatBit(v % Pow2(n), i) == (i < n && NatBit(v, i))
  {
    if n == 0 {
      ZeroBit(i);
    } else {
      var m, h := v % Pow2(n), (v / 2) % Pow2(n - 1);
      assert m == v % 2 + 2 * h by { ModDouble(v, Pow2(n - 1)); }
      if i != 0 {
        assert m / 2 == h;
        ModBit(v / 2, n - 1, i - 1);
      }
    }
  }

  lemma {:induction false} ZeroBit(i: nat)
    ensures !NatBit(0, i)
  {
    if i != 0 {
      ZeroBit(i - 1);
    }
  }

  /** Placing `y` above the `n` low bits of `x`. */
  lemma {:induction false} ConcatBit(x: nat, n: nat, y: nat, i: nat)
    requires x < Pow2(n)
    ensures NatBit(x + Pow2(n) * y, i) == if i < n then NatBit(x, i) else NatBit(y, i - n)
  {
    if n != 0 {
      var p := Pow2(n - 1);
      assert Pow2(n) * y == 2 * (p * y);
      assert (x + 2 * (p * y)) / 2 == x / 2 + p * y;
      if i != 0 {
        ConcatBit(x / 2, n - 1, y, i - 1);
      }
    }
  }

  lemma {:induction false} Pow2Sum(a: nat, b: nat)
    ensures Pow2(a + b) == Pow2(a) * Pow2(b)
  {
    if a != 0 {
      Pow2Sum(a - 1, b);
      assert 2 * (Pow2(a - 1) * Pow2(b)) == (2 * Pow2(a - 1)) * Pow2(b);
    }
  }

  lemma {:induction false} Pow2Monotone(a: nat, b: nat)
    requires a <= b
    ensures Pow2(a) <= Pow2(b)
  {
    if a < b {
      Pow2Monotone(a, b - 1);
    }
  }

  lemma {:induction false} ModMod(v: nat, a: nat, b: nat)
    requires a <= b
    ensures (v % Pow2(b)) % Pow2(a) == v % Pow2(a)
  {
    forall i | 0 <= i < a
      ensures NatBit((v % Pow2(b)) % Pow2(a), i) == NatBit(v % Pow2(a), i)
    {
      ModBit(v % Pow2(b), a, i);
      ModBit(v, b, i);
      ModBit(v, a, i);
    }
    NatBitsAgree((v % Pow2(b)) % Pow2(a), v % Pow2(a), a);
  }

  // ----- numbers from bits -----

  /** The number whose bit `i` is `s[i]`. */
  function FromBits(s: seq<bool>): (v: nat)
    ensures v < Pow2(|s|)
  {
    if s == [] then 0 else (if s[0] then 1 else 0) + 2 * FromBits(s[1..])
  }

  lemma {:induction false} FromBitsBit(s: seq<bool>, i: nat)
    ensures NatBit(FromBits(s), i) == (i < |s| && s[i])
  {
    if s == [] {
      ZeroBit(i);
    } else if i != 0 {
      FromBitsBit(s[1..], i - 1);
    }
  }

  // ----- bits of a byte -----

  predicate Bit(b: byte, i: nat)
    requires i < 8
  {
    if i == 0 then b & 0x01 != 0 else if i == 1 then b & 0x02 != 0
    else if i == 2 then b & 0x04 != 0 else if i == 3 then b & 0x08 != 0
    else if i == 4 then b & 0x10 != 0 else if i == 5 then b & 0x20 != 0
    else if i == 6 then b & 0x40 != 0 else b & 0x80 != 0
  }

  function ShiftRight(a: byte, s: nat): byte
    requires s < 8
  {
    a >> s
  }

  function ShiftLeft(a: byte, s: nat): byte
    requires s < 8
  {
    a << s
  }

  lemma ShiftRightBit(a: byte, s: nat, i: nat)
    requires i < 8 && s < 8
    ensures Bit(ShiftRight(a, s), i) == (i + s < 8 && Bit(a, i + s))
  {
    if s == 0 {} else if s == 1 {} else if s == 2 {} else if s == 3 {}
    else if s == 4 {} else if s == 5 {} else if s == 6 {} else { assert s == 7; }
  }

  lemma ShiftLeftBit(a: byte, s: nat, i: nat)
    requires i < 8 && s < 8
    ensures Bit(ShiftLeft(a, s), i) == (i >= s && Bit(a, i - s))
  {
    if s == 0 {} else if s == 1 {} else if s == 2 {} else if s == 3 {}
    else if s == 4 {} else if s == 5 {} else if s == 6 {} else { assert s == 7; }
  }

  lemma BitsAgree(a: byte, b: byte)
    requires forall i | 0 <= i < 8 :: Bit(a, i) == Bit(b, i)
    ensures a == b
  {
    assert Bit(a, 0) == Bit(b, 0) && Bit(a, 1) == Bit(b, 1) && Bit(a, 2) == Bit(b, 2) && Bit(a, 3) == Bit(b, 3);
    assert Bit(a, 4) == Bit(b, 4) && Bit(a, 5) == Bit(b, 5) && Bit(a, 6) == Bit(b, 6) && Bit(a, 7) == Bit(b, 7);
  }

  lemma ByteOfNatBit(n: nat, i: nat)
    requires n < 256 && i < 8
    ensures Bit(n as byte, i) == NatBit(n, i)
  {
    if i == 0 {} else if i == 1 { NatBit1(n); } else if i == 2 { NatBit2(n); } else if i == 3 { NatBit3(n); }
    else if i == 4 { NatBit4(n); } else if i == 5 { NatBit5(n); } else if i == 6 { NatBit6(n); } else { NatBit7(n); }
  }

  lemma NatBit1(n: nat) ensures NatBit(n, 1) == ((n / 2) % 2 == 1) {}
  lemma NatBit2(n: nat) ensures NatBit(n, 2) == ((n / 4) % 2 == 1) { NatBit1(n / 2); }
  lemma NatBit3(n: nat) ensures NatBit(n, 3) == ((n / 8) % 2 == 1) { NatBit2(n / 2); }
  lemma NatBit4(n: nat) ensures NatBit(n, 4) == ((n / 16) % 2 == 1) { NatBit3(n / 2); }
  lemma NatBit5(n: nat) ensures NatBit(n, 5) == ((n / 32) % 2 == 1) { NatBit4(n / 2); }
  lemma NatBit6(n: nat) ensures NatBit(n, 6) == ((n / 64) % 2 == 1) { NatBit5(n / 2); }
  lemma NatBit7(n: nat) ensures NatBit(n, 7) == ((n / 128) % 2 == 1) { NatBit6(n / 2); }

  lemma NatOfByteBit(b: byte, i: nat)
    requires i < 8
    ensures NatBit(b as nat, i) == Bit(b, i)
  {
    assert (b as nat) as byte == b;
    ByteOfNatBit(b as nat, i);
  }

  /** `(uint8_t)(x & 0xFF)` */
  function LowByte(x: nat): byte {
    (x % 256) as byte
  }

  lemma LowByteBit(x: nat, i: nat)
    requires i < 8
    ensures Bit(LowByte(x), i) == NatBit(x, i)
  {
    hide Bit;
    ByteOfNatBit(x % 256, i);
    Pow2Of8();
    ModBit(x, 8, i);
  }

  lemma Pow2Of8()
    ensures Pow2(8) == 256
  {
    assert Pow2(4) == 16;
  }

  lemma Pow2Plus8(n: nat)
    ensures Pow2(n + 8) == 256 * Pow2(n)
  {
    assert Pow2(n + 2) == 4 * Pow2(n) && Pow2(n + 4) == 4 * Pow2(n + 2);
    assert Pow2(n + 6) == 4 * Pow2(n + 4) && Pow2(n + 8) == 4 * Pow2(n + 6);
  }

  lemma Pow2Of32()
    ensures Pow2(16) == 0x1_0000 && Pow2(32) == 0x1_0000_0000
  {
    Pow2Of8();
    Pow2Plus8(8);
    Pow2Plus8(16);
    Pow2Plus8(24);
  }

  lemma Pow2Of64()
    ensures Pow2(64) == 0x1_0000_0000_0000_0000
  {
    Pow2Of32();
    Pow2Plus8(32);
    Pow2Plus8(40);
    Pow2Plus8(48);
    Pow2Plus8(56);
  }

  /** Bit strings of equal length whose differences all lie among `width` consecutive positions. */
  ghost predicate DifferWithin(x: seq<bool>, y: seq<bool>, start: nat, width: nat) {
    |x| == |y| && forall k | 0 <= k < |x| && x[k] != y[k] :: start <= k < start + width
  }
}
