/**
 Whole messages (msg_signals/msgdata.cpp): a message is a list of signals, each a bit field of one
 shared buffer. Sending writes every signal and cuts the buffer to the message length; receiving
 reads every signal from the payload.
 */
module MsgData {
  import opened Bits
  import opened CanardDsdl

  // ----- the value view of a message -----

  /** One signal as it is written: `width` bits from `start` on, holding the low bits of `value`. */
  datatype Field = Field(start: nat, width: nat, value: nat) {
    function End(): nat {
      start + width
    }
  }

  /** The buffer after all the fields have been written, first to last. */
  function EncodeAll(s: seq<byte>, fields: seq<Field>): (t: seq<byte>)
    ensures |t| == |s|
  {
    if fields == [] then s
    else
      var f := fields[|fields| - 1];
      WriteField(EncodeAll(s, fields[..|fields| - 1]), f.start, f.width, f.value)
  }

  function TotalBits(fields: seq<Field>): nat {
    if fields == [] then 0 else TotalBits(fields[..|fields| - 1]) + fields[|fields| - 1].width
  }

  /** Message length in bytes for a number of bits, which is kept in 16 bits. */
  function MsgBytes(bits: nat): (n: nat)
    ensures n <= 0x2000
  {
    var kept := bits % 0x1_0000;
    if kept % 8 != 0 then kept / 8 + 1 else kept / 8
  }

  /** The fewest bytes that hold so many bits, as far as their number fits 16 bits. */
  lemma MsgBytesFit(bits: nat)
    ensures 8 * (MsgBytes(bits) - 1) < bits % 0x1_0000 <= 8 * MsgBytes(bits)
  {
    var kept := bits % 0x1_0000;
    assert kept == 8 * (kept / 8) + kept % 8;
  }

  ghost predicate Disjoint(fields: seq<Field>) {
    forall i, j | 0 <= i < j < |fields| ::
      fields[i].End() <= fields[j].start || fields[j].End() <= fields[i].start
  }

  /** The fields share no bit and lie within the sum of their widths, so they leave no gap from bit 0 on. */
  ghost predicate Tiles(fields: seq<Field>) {
    Disjoint(fields) && forall f | f in fields :: f.End() <= TotalBits(fields)
  }

  /** A field survives the writing of all the fields after it, whatever the buffer held before. */
  lemma {:induction false} EncodeKeepsField(s: seq<byte>, fields: seq<Field>, i: nat, m: nat)
    requires i < |fields| && Disjoint(fields) && m <= fields[i].width
    requires Fits(|s|, fields[i].start, fields[i].width)
    ensures ReadField(EncodeAll(s, fields), fields[i].start, m) == fields[i].value % Pow2(m)
  {
    hide WriteField, ReadField, Pow2;
    var n := |fields| - 1;
    var before := EncodeAll(s, fields[..n]);
    var f := fields[i];
    if i == n {
      FieldRoundTrip(before, f.start, f.width, f.value, m);
    } else {
      EncodeKeepsField(s, fields[..n], i, m);
      FieldsIndependent(before, fields[n].start, fields[n].width, fields[n].value, f.start, m);
    }
  }

  /** What decoding a payload of `size` bytes yields for signal `i`: its value, cut to the bits that were sent. */
  lemma ClippedRoundTrip(s: seq<byte>, fields: seq<Field>, i: nat, size: nat)
    requires i < |fields| && Disjoint(fields) && size <= |s|
    requires Fits(|s|, fields[i].start, fields[i].width)
    ensures var f := fields[i];
            var sent := Min(f.width, if f.start <= 8 * size then 8 * size - f.start else 0);
            ReadField(EncodeAll(s, fields)[..size], f.start, f.width) == f.value % Pow2(sent)
  {
    hide WriteField, ReadField, EncodeAll, Pow2;
    var f := fields[i];
    var sent := Min(f.width, if f.start <= 8 * size then 8 * size - f.start else 0);
    EncodeKeepsField(s, fields, i, f.width);
    ReadTruncated(EncodeAll(s, fields), size, f.start, f.width);
    ModMod(f.value, sent, f.width);
  }

  /** What decoding a payload of `size` bytes gives for signal `i`. */
  function Decoded(s: seq<byte>, fields: seq<Field>, i: nat, size: nat): nat
    requires i < |fields| && size <= |s|
  {
    ReadField(EncodeAll(s, fields)[..size], fields[i].start, fields[i].width)
  }

  /** The same message with another value in signal `i`. */
  function WithValue(fields: seq<Field>, i: nat, v: nat): (r: seq<Field>)
    requires i < |fields|
    ensures |r| == |fields|
  {
    fields[i := fields[i].(value := v)]
  }

  /** A signal that ends within the payload comes back, in any signal order and over any old buffer contents. */
  lemma MessageRoundTrip(s: seq<byte>, fields: seq<Field>, i: nat, size: nat)
    requires i < |fields| && Disjoint(fields) && size <= |s|
    requires fields[i].width == 0 || fields[i].End() <= 8 * size
    ensures Decoded(s, fields, i, size) == fields[i].value % Pow2(fields[i].width)
  {
    hide ReadField, EncodeAll, Pow2;
    ClippedRoundTrip(s, fields, i, size);
  }

  /** It comes back for every value exactly when it has no bits or ends within the payload. */
  lemma ComesBackIff(s: seq<byte>, fields: seq<Field>, i: nat, size: nat)
    requires i < |fields| && Disjoint(fields) && size <= |s| && Fits(|s|, fields[i].start, fields[i].width)
    ensures (forall v: nat :: Decoded(s, WithValue(fields, i, v), i, size) == v % Pow2(fields[i].width))
            <==> fields[i].width == 0 || fields[i].End() <= 8 * size
  {
    hide Decoded, Pow2;
    var f := fields[i];
    if f.width == 0 || f.End() <= 8 * size {
      forall v: nat ensures Decoded(s, WithValue(fields, i, v), i, size) == v % Pow2(f.width) {
        MessageRoundTrip(s, WithValue(fields, i, v), i, size);
      }
    } else {
      LostValue(s, fields, i, size);
    }
  }

  /** Of a signal that ends past the payload, the first bit that is not sent is lost. */
  lemma LostValue(s: seq<byte>, fields: seq<Field>, i: nat, size: nat)
    requires i < |fields| && Disjoint(fields) && size <= |s| && Fits(|s|, fields[i].start, fields[i].width)
    requires fields[i].width > 0 && fields[i].End() > 8 * size
    ensures var sent := if fields[i].start <= 8 * size then 8 * size - fields[i].start else 0;
            Decoded(s, WithValue(fields, i, Pow2(sent)), i, size) == 0 != Pow2(sent) % Pow2(fields[i].width)
  {
    hide ReadField, EncodeAll, Pow2;
    var f := fields[i];
    var sent := if f.start <= 8 * size then 8 * size - f.start else 0;
    var v := Pow2(sent);
    ClippedRoundTrip(s, WithValue(fields, i, v), i, size);
    ModUnique(v, Pow2(sent), 1, 0);
    Pow2Monotone(sent + 1, f.width);
    assert Pow2(sent + 1) == 2 * Pow2(sent) by { Doubled(sent); }
    ModUnique(v, Pow2(f.width), 0, v);
  }

  lemma Doubled(n: nat)
    ensures Pow2(n + 1) == 2 * Pow2(n)
  {
  }

  /** A payload as long as the signals together holds every one of them when they leave no gap. */
  lemma TilesFit(fields: seq<Field>, i: nat)
    requires i < |fields| && Tiles(fields) && TotalBits(fields) < 0x1_0000
    ensures fields[i].End() <= 8 * MsgBytes(TotalBits(fields))
  {
    hide TotalBits;
    assert fields[i] in fields;
  }

  /** The signed reading of such a signal comes back exactly when the number fits it. */
  lemma SignedMessageRoundTrip(s: seq<byte>, fields: seq<Field>, i: nat, size: nat, value: int)
    requires i < |fields| && Disjoint(fields) && size <= |s| && fields[i].End() <= 8 * size
    requires 1 <= fields[i].width <= 64 && fields[i].value == ToUnsigned64(value)
    ensures SignedValue(Decoded(s, fields, i, size), fields[i].width) == value
            <==> -(Pow2(fields[i].width - 1) as int) <= value < Pow2(fields[i].width - 1)
  {
    hide ReadField, EncodeAll, Pow2, WriteField;
    var f := fields[i];
    MessageRoundTrip(s, fields, i, size);
    FieldRoundTrip(s, f.start, f.width, f.value, f.width);
    SignedRoundTrip(s, f.start, f.width, value);
  }

  /** A gap can make the message too short: a lone byte at bit 8 is sent as a one-byte message and decodes as 0. */
  lemma GapLosesSignal(s: seq<byte>, value: nat)
    requires |s| >= 2
    ensures var fields := [Field(8, 8, value)];
            MsgBytes(TotalBits(fields)) == 1 && Decoded(s, fields, 0, 1) == 0
  {
    hide ReadField;
    var fields := [Field(8, 8, value)];
    assert fields[..0] == [];
    assert TotalBits(fields) == 8;
    ClippedRoundTrip(s, fields, 0, 1);
  }

  // ----- the objects -----

  class Signal {
    const bitLength: nat
    const startBit: nat
    const isFloat: bool
    const isSigned: bool
    /** The number in the send widget, as parsed for the signal's kind; a float by its bit pattern. */
    var typed: int
    var valueF: nat
    var valueU: nat
    var valueI: int

    constructor (bitLength: nat, startBit: nat, isFloat: bool, isSigned: bool)
      ensures this.bitLength == bitLength && this.startBit == startBit
      ensures this.isFloat == isFloat && this.isSigned == isSigned
    {
      this.bitLength, this.startBit, this.isFloat, this.isSigned := bitLength, startBit, isFloat, isSigned;
    }

    /** The 8-bit length parameter of the serializer. */
    function LenBit(): nat {
      bitLength % 256
    }

    ghost predicate Parsed()
      reads this
    {
      if isSigned && !isFloat then -0x8000_0000 <= typed < 0x8000_0000 else 0 <= typed < 0x1_0000_0000
    }

    ghost function AsField(): (f: Field)
      reads this
      requires Parsed()
    {
      if isFloat then Field(startBit, 32, typed)
      else Field(startBit, Min(LenBit(), 64), ToUnsigned64(typed))
    }
  }

  /** The sum of the lengths the message file declares. */
  function DeclaredBits(signals: seq<Signal>): nat {
    if signals == [] then 0 else DeclaredBits(signals[..|signals| - 1]) + signals[|signals| - 1].bitLength
  }

  class MsgData {
    var signalsList: seq<Signal>
    var msgLen: nat
    const encodeBuff: array<byte>

    /** The loader adds up the declared lengths of the signals. */
    constructor (signalsList: seq<Signal>, buffSize: nat)
      ensures this.signalsList == signalsList && msgLen == MsgBytes(DeclaredBits(signalsList))
      ensures fresh(encodeBuff) && encodeBuff.Length == buffSize
    {
      this.signalsList, msgLen := signalsList, 0;
      encodeBuff := new byte[buffSize];
      new;
      var msgBitLen := 0;
      for n := 0 to |signalsList|
        invariant this.signalsList == signalsList && msgBitLen == DeclaredBits(signalsList[..n]) % 0x1_0000
      {
        assert signalsList[..n + 1][..n] == signalsList[..n];
        msgBitLen := (msgBitLen + signalsList[n].bitLength) % 0x1_0000;
      }
      assert signalsList[..|signalsList|] == signalsList;
      msgLen := msgBitLen / 8;
      if msgBitLen % 8 != 0 {
        msgLen := msgLen + 1;
      }
    }

    ghost function Fields(n: nat): (fs: seq<Field>)
      reads this, signalsList
      requires n <= |signalsList| && forall sig | sig in signalsList :: sig.Parsed()
      ensures |fs| == n
    {
      seq(n, i requires 0 <= i < n reads this, signalsList
               requires n <= |signalsList| && forall sig | sig in signalsList :: sig.Parsed()
               => signalsList[i].AsField())
    }

    /** The body of the encoding loop. */
    method EncodeOne(sig: Signal)
      requires sig.Parsed() && Fits(encodeBuff.Length, sig.AsField().start, sig.AsField().width)
      modifies encodeBuff
      ensures var f := sig.AsField(); encodeBuff[..] == WriteField(old(encodeBuff[..]), f.start, f.width, f.value)
    {
      hide WriteField;
      if sig.isFloat {
        SmallIsUnsigned(sig.typed);
        SetUxx(encodeBuff, sig.startBit, sig.typed, 32);
      } else if sig.isSigned {
        SetIxx(encodeBuff, sig.startBit, sig.typed, sig.LenBit());
      } else {
        SmallIsUnsigned(sig.typed);
        SetUxx(encodeBuff, sig.startBit, sig.typed, sig.LenBit());
      }
    }

    method EncodeSend() returns (payload: array<byte>)
      requires forall sig | sig in signalsList ::
                 sig.Parsed() && Fits(encodeBuff.Length, sig.AsField().start, sig.AsField().width)
      requires msgLen <= encodeBuff.Length
      modifies encodeBuff
      ensures encodeBuff[..] == EncodeAll(old(encodeBuff[..]), Fields(|signalsList|))
      ensures fresh(payload) && payload[..] == encodeBuff[..msgLen]
    {
      hide WriteField;
      ghost var before := encodeBuff[..];
      for n := 0 to |signalsList|
        invariant encodeBuff[..] == EncodeAll(before, Fields(n))
      {
        assert Fields(n + 1)[..n] == Fields(n) && Fields(n + 1)[n] == signalsList[n].AsField();
        assert signalsList[n] in signalsList;
        EncodeOne(signalsList[n]);
      }
      payload := new byte[msgLen](i requires 0 <= i < encodeBuff.Length reads encodeBuff => encodeBuff[i]);
    }

    method Decode(data: array<byte>)
      modifies signalsList
      ensures var payload := data[..data.Length % 0x1_0000];
              forall sig | sig in signalsList ::
                && sig.valueF == ReadField(payload, sig.startBit, 32)
                && sig.valueU == ReadField(payload, sig.startBit, Min(sig.LenBit(), 32))
                && sig.valueI == SignedValue(sig.valueU, Min(sig.LenBit(), 32))
                && sig.typed == old(sig.typed)
    {
      hide ReadField, SignedValue;
      var dataSize := data.Length % 0x1_0000;
      ghost var payload := data[..dataSize];
      for n := 0 to |signalsList|
        invariant forall sig | sig in signalsList[..n] ::
                    && sig.valueF == ReadField(payload, sig.startBit, 32)
                    && sig.valueU == ReadField(payload, sig.startBit, Min(sig.LenBit(), 32))
                    && sig.valueI == SignedValue(sig.valueU, Min(sig.LenBit(), 32))
        invariant forall sig | sig in signalsList :: sig.typed == old(sig.typed)
      {
        var sig := signalsList[n];
        var f := GetUxx(data, dataSize, sig.startBit, 32, 32);
        var u := GetUxx(data, dataSize, sig.startBit, sig.LenBit(), 32);
        var i := GetIxx(data, dataSize, sig.startBit, sig.LenBit(), 32);
        sig.valueF, sig.valueU, sig.valueI := f, u, i;
      }
    }
  }

  // ----- from one object to another -----

  /** Signals the getters can take back whole: at most 32 bits, exactly 32 for floats. */
  ghost predicate Narrow(signals: seq<Signal>) {
    forall sig | sig in signals :: 1 <= sig.bitLength <= 32 && (sig.isFloat ==> sig.bitLength == 32)
  }

  ghost predicate SameLayout(a: seq<Signal>, b: seq<Signal>) {
    |a| == |b| &&
    forall i | 0 <= i < |a| ::
      && a[i].bitLength == b[i].bitLength && a[i].startBit == b[i].startBit
      && a[i].isFloat == b[i].isFloat && a[i].isSigned == b[i].isSigned
  }

  /** For narrow signals the declared lengths are the widths that are written. */
  lemma {:induction false} DeclaredIsTotal(m: MsgData, n: nat)
    requires n <= |m.signalsList| && Narrow(m.signalsList) && forall sig | sig in m.signalsList :: sig.Parsed()
    ensures TotalBits(m.Fields(n)) == DeclaredBits(m.signalsList[..n])
  {
    if n > 0 {
      assert m.Fields(n)[..n - 1] == m.Fields(n - 1) && m.signalsList[..n][..n - 1] == m.signalsList[..n - 1];
      assert m.signalsList[n - 1] in m.signalsList;
      DeclaredIsTotal(m, n - 1);
    }
  }

  /** So in a loaded message whose signals tile it, every signal ends within the payload. */
  lemma LoadedTilesFit(m: MsgData, i: nat)
    requires i < |m.signalsList| && Narrow(m.signalsList) && forall sig | sig in m.signalsList :: sig.Parsed()
    requires m.msgLen == MsgBytes(DeclaredBits(m.signalsList)) && DeclaredBits(m.signalsList) < 0x1_0000
    requires Tiles(m.Fields(|m.signalsList|))
    ensures m.Fields(|m.signalsList|)[i].End() <= 8 * m.msgLen
  {
    hide MsgBytes;
    var n := |m.signalsList|;
    DeclaredIsTotal(m, n);
    assert m.signalsList[..n] == m.signalsList;
    TilesFit(m.Fields(n), i);
  }

  /** What one message object sends another one with the same layout decodes: every signal that ends within the
      payload arrives, unsigned modulo two to its length, signed exactly when it fits, a float bit for bit. */
  method Transfer(sender: MsgData, receiver: MsgData)
    requires SameLayout(sender.signalsList, receiver.signalsList) && Narrow(sender.signalsList)
    requires forall sig | sig in sender.signalsList ::
               sig.Parsed() && Fits(sender.encodeBuff.Length, sig.AsField().start, sig.AsField().width)
    requires Disjoint(sender.Fields(|sender.signalsList|))
    requires sender.msgLen == MsgBytes(DeclaredBits(sender.signalsList)) <= sender.encodeBuff.Length
    modifies sender.encodeBuff, receiver.signalsList
    ensures forall i | 0 <= i < |sender.signalsList| ::
              Arrived(old(sender.signalsList[i].typed), receiver.signalsList[i], 8 * sender.msgLen)
  {
    hide EncodeAll, ReadField, SignedValue, DeclaredBits, Pow2, Disjoint, Arrived, MsgBytes, OnWire;
    var n := |sender.signalsList|;
    ghost var before, fields, size := sender.encodeBuff[..], sender.Fields(n), sender.msgLen;
    ghost var typed := Typed(sender);
    AllOnWire(sender);
    var payload := sender.EncodeSend();
    ghost var bytes := payload[..];
    assert bytes == EncodeAll(before, fields)[..size];
    receiver.Decode(payload);
    assert payload[..payload.Length % 0x1_0000] == bytes;
    AllArrive(before, fields, size, typed, sender.signalsList, receiver.signalsList);
  }

  lemma AllArrive(before: seq<byte>, fields: seq<Field>, size: nat, typed: seq<int>, sent: seq<Signal>,
                  received: seq<Signal>)
    requires |sent| == |received| == |fields| == |typed| && Disjoint(fields) && size <= |before|
    requires SameLayout(sent, received) && forall i | 0 <= i < |sent| :: OnWire(fields[i], sent[i], typed[i])
    requires var payload := EncodeAll(before, fields)[..size];
             forall sig | sig in received ::
               && sig.valueF == ReadField(payload, sig.startBit, 32)
               && sig.valueU == ReadField(payload, sig.startBit, Min(sig.LenBit(), 32))
               && sig.valueI == SignedValue(sig.valueU, Min(sig.LenBit(), 32))
    ensures forall i | 0 <= i < |received| :: received[i].bitLength > 0 && Arrived(typed[i], received[i], 8 * size)
  {
    hide EncodeAll, ReadField, SignedValue, Disjoint, Arrived, OnWire;
    forall i | 0 <= i < |received| ensures received[i].bitLength > 0 && Arrived(typed[i], received[i], 8 * size) {
      var sig := received[i];
      assert sig in received;
      assert OnWire(fields[i], sent[i], typed[i]);
      WireLayout(fields[i], sent[i], sig, typed[i]);
      FieldArrives(before, fields, i, size, typed[i], sig);
    }
  }

  ghost function Typed(m: MsgData): (t: seq<int>)
    reads m, m.signalsList
    ensures |t| == |m.signalsList| && forall i | 0 <= i < |t| :: t[i] == m.signalsList[i].typed
  {
    seq(|m.signalsList|, i requires 0 <= i < |m.signalsList| reads m, m.signalsList => m.signalsList[i].typed)
  }

  /** The field is a narrow signal of the given layout with the typed number in it. */
  ghost predicate OnWire(f: Field, sig: Signal, typed: int) {
    && 1 <= sig.bitLength <= 32 && (sig.isFloat ==> sig.bitLength == 32)
    && f == Field(sig.startBit, sig.bitLength, ToUnsigned64(typed))
    && ((sig.isSigned && !sig.isFloat) || 0 <= typed < 0x1_0000_0000)
  }

  lemma AllOnWire(m: MsgData)
    requires Narrow(m.signalsList) && forall sig | sig in m.signalsList :: sig.Parsed()
    ensures forall i | 0 <= i < |m.signalsList| :: OnWire(m.Fields(|m.signalsList|)[i], m.signalsList[i], Typed(m)[i])
  {
    hide ToUnsigned64;
    forall i | 0 <= i < |m.signalsList|
      ensures OnWire(m.Fields(|m.signalsList|)[i], m.signalsList[i], Typed(m)[i])
    {
      var sig := m.signalsList[i];
      assert sig in m.signalsList;
      if sig.isFloat { SmallIsUnsigned(sig.typed); }
    }
  }

  lemma WireLayout(f: Field, a: Signal, b: Signal, typed: int)
    requires OnWire(f, a, typed)
    requires a.bitLength == b.bitLength && a.startBit == b.startBit
    requires a.isFloat == b.isFloat && a.isSigned == b.isSigned
    ensures OnWire(f, b, typed) && b.LenBit() == b.bitLength && 1 <= b.bitLength <= 32
  {
  }

  lemma FieldArrives(before: seq<byte>, fields: seq<Field>, i: nat, size: nat, typed: int, sig: Signal)
    requires i < |fields| && Disjoint(fields) && size <= |before|
    requires OnWire(fields[i], sig, typed)
    requires sig.valueF == ReadField(EncodeAll(before, fields)[..size], sig.startBit, 32)
    requires sig.valueU == ReadField(EncodeAll(before, fields)[..size], sig.startBit, sig.bitLength)
    requires sig.valueI == SignedValue(sig.valueU, sig.bitLength)
    ensures Arrived(typed, sig, 8 * size)
  {
    hide EncodeAll, ReadField, SignedValue, Pow2, ToUnsigned64;
    if sig.startBit + sig.bitLength <= 8 * size {
      MessageRoundTrip(before, fields, i, size);
      if sig.isSigned && !sig.isFloat {
        SignedMessageRoundTrip(before, fields, i, size, typed);
      } else {
        SmallIsUnsigned(typed);
        if sig.isFloat {
          Pow2Of32();
          ModUnique(typed, Pow2(32), 0, typed);
        }
      }
    }
  }

  lemma SmallIsUnsigned(v: int)
    requires 0 <= v < 0x1_0000_0000
    ensures ToUnsigned64(v) == v
  {
  }

  /** The signal holds the typed number, provided it ends by bit `sentBits`. */
  ghost predicate Arrived(typed: int, sig: Signal, sentBits: nat)
    requires sig.bitLength > 0
    reads sig
  {
    sig.startBit + sig.bitLength <= sentBits ==>
      if sig.isFloat then sig.valueF == typed
      else if sig.isSigned then
        sig.valueI == typed <==> -(Pow2(sig.bitLength - 1) as int) <= typed < Pow2(sig.bitLength - 1)
      else sig.valueU == typed % Pow2(sig.bitLength)
  }
}
