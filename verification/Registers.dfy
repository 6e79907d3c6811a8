/**
 Sixteen-bit registers: their place in byte strings, the value conversions of msg_signals/dataobj.cpp and
 the way a range of registers is cut into pieces.
 */
module Registers {
  import opened Bits
  import opened CanardDsdl

  type u16 = n: nat | n < 0x1_0000

  /** Address arithmetic wraps at 16 bits. */
  function Wrap(a: nat): u16 {
    a % 0x1_0000
  }

  /** `L2B16` */
  function Swap16(v: u16): u16 {
    (v % 256) * 256 + v / 256
  }

  function LittleEndian(v: u16): (s: seq<byte>)
    ensures |s| == 2
  {
    [LowByte(v), LowByte(v / 256)]
  }

  /** Registers as they travel in the data of a frame, high byte first. */
  function BigEndian(regs: seq<u16>): (s: seq<byte>)
    ensures |s| == 2 * |regs|
    ensures forall j | 0 <= j < |s| :: s[j] == if j % 2 == 0 then LowByte(regs[j / 2] / 256) else LowByte(regs[j / 2])
  {
    seq(2 * |regs|, j requires 0 <= j < 2 * |regs| =>
      if j % 2 == 0 then LowByte(regs[j / 2] / 256) else LowByte(regs[j / 2]))
  }

  lemma LowByteValue(x: nat)
    ensures LowByte(x) as nat == x % 256
  {
    hide Bit, LowByte;
    Pow2Of8();
    forall i | 0 <= i < 8 ensures NatBit(LowByte(x) as nat, i) == NatBit(x % 256, i) {
      NatOfByteBit(LowByte(x), i);
      LowByteBit(x, i);
      ModBit(x, 8, i);
    }
    NatBitsAgree(LowByte(x) as nat, x % 256, 8);
  }

  /** A number from two bytes, the first one low. */
  function Word(lo: byte, hi: byte): (v: u16) {
    (lo as nat) + 256 * (hi as nat)
  }

  lemma WordBit(lo: byte, hi: byte, i: nat)
    requires i < 16
    ensures NatBit(Word(lo, hi), i) == if i < 8 then Bit(lo, i) else Bit(hi, i - 8)
  {
    hide Bit, NatBit, Pow2;
    Pow2Of8();
    ConcatBit(lo as nat, 8, hi as nat, i);
    if i < 8 {
      NatOfByteBit(lo, i);
    } else {
      NatOfByteBit(hi, i - 8);
    }
  }

  /** A 16-bit field at a byte boundary is its two bytes, the first one low. */
  lemma ReadWord(s: seq<byte>, j: nat)
    requires j + 2 <= |s|
    ensures ReadField(s, 8 * j, 16) == Word(s[j], s[j + 1])
  {
    hide ReadField, Word, NatBit, Pow2;
    Pow2Of32();
    forall i | 0 <= i < 16 ensures NatBit(ReadField(s, 8 * j, 16), i) == NatBit(Word(s[j], s[j + 1]), i) {
      FieldWordBit(s, j, i);
    }
    NatBitsAgree(ReadField(s, 8 * j, 16), Word(s[j], s[j + 1]), 16);
  }

  lemma FieldWordBit(s: seq<byte>, j: nat, i: nat)
    requires j + 2 <= |s| && i < 16
    ensures NatBit(ReadField(s, 8 * j, 16), i) == NatBit(Word(s[j], s[j + 1]), i)
  {
    hide Bit, FromBits, Word, NatBit;
    FromBitsBit(FieldBits(s, 8 * j, 16), i);
    WordBit(s[j], s[j + 1], i);
    SameByte(if i < 8 then j else j + 1, i % 8, 8 * j + i);
  }

  /** A big-endian register in a byte string. */
  lemma BigEndianWord(x: u16)
    ensures Swap16(Word(LowByte(x / 256), LowByte(x))) == x
  {
    hide LowByte, Swap16;
    LowByteValue(x / 256);
    LowByteValue(x);
    SwapParts(x / 256, x % 256);
  }

  lemma SwapParts(lo: nat, hi: nat)
    requires lo < 256 && hi < 256
    ensures Swap16(lo + 256 * hi) == hi + 256 * lo
  {
  }

  /** Nothing is left to read at or past the end of the buffer. */
  lemma ReadNothing(s: seq<byte>, off: nat, n: nat)
    requires off >= 8 * |s|
    ensures ReadField(s, off, n) == 0
  {
    hide FromBits;
    var bits := FieldBits(s, off, n);
    forall i | 0 <= i < n ensures NatBit(FromBits(bits), i) == NatBit(0, i) {
      FromBitsBit(bits, i);
      ZeroBit(i);
    }
    NatBitsAgree(FromBits(bits), 0, n);
  }

  // ----- value conversions (DataObj) -----

  predicate Contains32(kind: string) {
    exists i | 0 <= i < |kind| - 1 :: kind[i] == '3' && kind[i + 1] == '2'
  }

  /** The registers an object of this type name occupies. */
  function RegLen(kind: string): nat {
    if Contains32(kind) then 2 else 1
  }

  /** The type names the write path can convert: a name with "32" in it must be one of the two 32-bit ones. */
  predicate Convertible(kind: string) {
    Contains32(kind) ==> kind == "uint32_t" || kind == "int32_t"
  }

  lemma KindLengths()
    ensures RegLen("int16_t") == 1 && RegLen("uint16_t") == 1 && RegLen("int32_t") == 2 && RegLen("uint32_t") == 2
  {
    assert "int32_t"[3] == '3' && "int32_t"[3 + 1] == '2';
    assert "uint32_t"[4] == '3' && "uint32_t"[4 + 1] == '2';
  }

  /** Two's complement reading of a number below the even modulus `m`. */
  function Signed(u: nat, m: nat): int {
    if 2 * u < m then u else u - m
  }

  /** A number cut to the C type of the object. */
  function Converted(kind: string, value: int): int {
    if kind == "int16_t" then Signed(value % 0x1_0000, 0x1_0000)
    else if kind == "uint32_t" then value % 0x1_0000_0000
    else if kind == "int32_t" then Signed(value % 0x1_0000_0000, 0x1_0000_0000)
    else value % 0x1_0000
  }

  /** The numbers the C type of the object can hold. */
  predicate InRange(kind: string, value: int) {
    if kind == "int16_t" then -0x8000 <= value < 0x8000
    else if kind == "uint32_t" then 0 <= value < 0x1_0000_0000
    else if kind == "int32_t" then -0x8000_0000 <= value < 0x8000_0000
    else 0 <= value < 0x1_0000
  }

  function Low16(v: int): u16 {
    v % 0x1_0000
  }

  function High16(v: int): u16 {
    (v / 0x1_0000) % 0x1_0000
  }

  /** The registers that are written for a converted value: its memory, low word first. */
  function Words(kind: string, v: int): (regs: seq<u16>)
    ensures |regs| == RegLen(kind)
  {
    if RegLen(kind) == 1 then [Low16(v)]
    else [Low16(v), High16(v)]
  }

  /** The raw number a read delivers for the registers of one object. */
  function Raw(regs: seq<u16>): (v: nat)
    ensures v < 0x1_0000_0000 || |regs| > 2
  {
    if |regs| == 1 then regs[0] as nat else if |regs| == 2 then (regs[0] as nat) + 0x1_0000 * (regs[1] as nat) else 0
  }

  lemma JoinWords(v: int)
    ensures Low16(v) + 0x1_0000 * High16(v) == v % 0x1_0000_0000
  {
  }

  lemma Signed16(value: int)
    ensures var v := Signed(value % 0x1_0000, 0x1_0000);
            && -0x8000 <= v < 0x8000 && v % 0x1_0000 == value % 0x1_0000
            && (v == value <==> -0x8000 <= value < 0x8000)
  {
  }

  lemma Signed32(value: int)
    ensures var v := Signed(value % 0x1_0000_0000, 0x1_0000_0000);
            && -0x8000_0000 <= v < 0x8000_0000 && v % 0x1_0000_0000 == value % 0x1_0000_0000
            && (v == value <==> -0x8000_0000 <= value < 0x8000_0000)
  {
  }

  lemma Unsigned(value: int, m: nat)
    requires m > 0
    ensures (value % m) % m == value % m && (value % m == value <==> 0 <= value < m)
  {
  }

  /** A conversion never changes the low bits: 32 of a 32-bit type, 16 of any other. */
  lemma ConvertedCongruent(kind: string, value: int)
    ensures if kind == "int32_t" || kind == "uint32_t"
            then Converted(kind, value) % 0x1_0000_0000 == value % 0x1_0000_0000
            else Converted(kind, value) % 0x1_0000 == value % 0x1_0000
  {
    hide Signed;
    Signed16(value);
    Signed32(value);
    Unsigned(value, 0x1_0000);
    Unsigned(value, 0x1_0000_0000);
  }

  /** A conversion leaves a value alone exactly when the type can hold it. */
  lemma ConvertedIff(kind: string, value: int)
    ensures InRange(kind, Converted(kind, value))
    ensures Converted(kind, value) == value <==> InRange(kind, value)
  {
    hide Signed;
    if kind == "int16_t" {
      Signed16(value);
    } else if kind == "int32_t" {
      Signed32(value);
    } else {
      Unsigned(value, if kind == "uint32_t" then 0x1_0000_0000 else 0x1_0000);
    }
  }

  /** What is written to the registers of an object and read back is the written value after the C conversion. */
  lemma ValueRoundTrip(kind: string, value: int)
    requires Convertible(kind)
    ensures Converted(kind, Raw(Words(kind, Converted(kind, value)))) == Converted(kind, value)
  {
    hide Contains32, Signed, High16;
    KindLengths();
    var v := Converted(kind, value);
    Unsigned(value, 0x1_0000);
    Unsigned(value, 0x1_0000_0000);
    if kind == "int16_t" {
      Signed16(value);
    } else if kind == "int32_t" {
      Signed32(value);
      JoinWords(v);
    } else if kind == "uint32_t" {
      JoinWords(v);
    }
  }

  /** An object on the user's side: the last value written and the last value read. */
  class DataObj {
    const id: u16
    const kind: string
    const regLen: nat
    var writeValue: int
    var readValue: int

    ghost predicate Valid()
    {
      regLen == RegLen(kind)
    }

    constructor (id: u16, kind: string, def: int)
      ensures Valid() && this.id == id && this.kind == kind && writeValue == readValue == def
    {
      this.id := id;
      this.kind := kind;
      regLen := if Contains32(kind) then 2 else 1;
      writeValue, readValue := def, def;
    }

    /** `slot_request_write_reg`; the result is what is sent to the register master. */
    method RequestWriteReg(value: int) returns (array_: seq<u16>)
      requires Valid() && Convertible(kind)
      modifies this`writeValue
      ensures writeValue == Converted(kind, value)
      ensures array_ == Words(kind, writeValue) && |array_| == regLen
      ensures regLen == 1 ==> array_[0] == writeValue % 0x1_0000
      ensures regLen == 2 ==> (array_[0] as int) + 0x1_0000 * (array_[1] as int) == writeValue % 0x1_0000_0000
    {
      KindLengths();
      JoinWords(Converted(kind, value));
      if kind == "int16_t" {
        writeValue := ToInt(value, 0x1_0000);
        array_ := [Low16(writeValue)];
      } else if kind == "uint32_t" {
        writeValue := value % 0x1_0000_0000;
        array_ := [Low16(writeValue), High16(writeValue)];
      } else if kind == "int32_t" {
        writeValue := ToInt(value, 0x1_0000_0000);
        array_ := [Low16(writeValue), High16(writeValue)];
      } else {
        writeValue := value % 0x1_0000;
        array_ := [Low16(writeValue)];
      }
    }

    /** `slot_read_finish` */
    method ReadFinish(v: nat)
      requires Valid()
      modifies this`readValue
      ensures readValue == Converted(kind, v)
    {
      if kind == "int16_t" {
        readValue := ToInt(v, 0x1_0000);
      } else if kind == "uint32_t" {
        readValue := v % 0x1_0000_0000;
      } else if kind == "int32_t" {
        readValue := ToInt(v, 0x1_0000_0000);
      } else {
        readValue := v % 0x1_0000;
      }
    }
  }

  /** The cast to a signed integer with `m` values. */
  function ToInt(value: int, m: nat): int
    requires m > 0
  {
    Signed(value % m, m)
  }

  // ----- cutting a range of registers into pieces -----

  const PIECE_MAX: nat := 64

  datatype Piece = Piece(addr: u16, len: u16)

  /** The addresses of `len` registers from `addr` on. */
  function Addresses(addr: u16, len: nat): (a: seq<u16>)
    ensures |a| == len
  {
    seq<u16>(len, i requires 0 <= i < len => Wrap(addr + i))
  }

  /** The pieces from offset `done` on. */
  function Pieces(addr: u16, len: u16, done: nat): seq<Piece>
    decreases len - done
  {
    if done >= len then []
    else
      var n := Min(PIECE_MAX, len - done);
      [Piece(Wrap(addr + done), n)] + Pieces(addr, len, done + n)
  }

  /** All the addresses of a list of pieces, in order. */
  function Covered(pieces: seq<Piece>): seq<u16> {
    if pieces == [] then [] else Addresses(pieces[0].addr, pieces[0].len) + Covered(pieces[1..])
  }

  lemma WrapAgain(a: nat, b: nat)
    ensures Wrap(Wrap(a) + b) == Wrap(a + b)
  {
  }

  lemma AddressesJoin(addr: u16, a: nat, b: nat)
    ensures Addresses(addr, a + b) == Addresses(addr, a) + Addresses(Wrap(addr + a), b)
  {
    hide Wrap;
    var whole, tail := Addresses(addr, a + b), Addresses(Wrap(addr + a), b);
    forall i | 0 <= i < b ensures whole[a + i] == tail[i] {
      WrapAgain(addr + a, i);
    }
  }

  /** The pieces name every register of the range once, in order, at most 64 at a time, and no piece can be saved. */
  lemma {:induction false} PiecesCover(addr: u16, len: u16, done: nat)
    requires done <= len
    ensures Addresses(addr, done) + Covered(Pieces(addr, len, done)) == Addresses(addr, len)
    ensures forall p | p in Pieces(addr, len, done) :: 0 < p.len <= PIECE_MAX
    ensures |Pieces(addr, len, done)| == (len - done + 63) / 64
    decreases len - done
  {
    hide Addresses, Wrap;
    if done < len {
      var n := Min(PIECE_MAX, len - done);
      PiecesCover(addr, len, done + n);
      assert Pieces(addr, len, done)[1..] == Pieces(addr, len, done + n);
      AddressesJoin(addr, done, n);
    }
  }
}
