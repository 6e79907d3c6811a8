/**
 Register access over J1939 (comm/j1939_modbus_master.cpp): read requests are queued in pieces, write requests
 become frames with a CRC, and read responses are checked and handed out to the registered objects.
 */
module ModbusMaster {
  import opened Bits
  import opened CanardDsdl
  import opened Registers
  import ModbusCrc

  const WRITE_REGISTER: nat := 0x0600
  const WRITE_MULTIPLE_REGISTERS: nat := 0x1000

  /** `sizeof(request_write_mul_reg_t)`; the CRC goes into the same buffer behind the data. */
  const WRITE_BUFF: nat := 252
  const REG_LEN_MAX: nat := 125
  /** The most registers for which data and CRC stay inside the buffer. */
  const WRITE_REGS_MAX: nat := 123

  /** `sizeof(respond_read_reg_t)`: address, data length, 255 data bytes. */
  const RESPONSE_SIZE: nat := 258

  /** `db_read_queue.set_max_size(200)` */
  const QUEUE_MAX: nat := 200

  datatype ReadRequest = ReadRequest(dst: byte, piece: Piece)

  datatype Frame = Frame(pgn: nat, dst: byte, bytes: seq<byte>)

  datatype Delivery = Delivery(addr: u16, value: nat)

  // ----- frames that write registers -----

  function SingleFrame(addr: u16, wireValue: u16): (f: seq<byte>)
    ensures |f| == 4
  {
    LittleEndian(addr) + LittleEndian(wireValue)
  }

  /** Address, count and data of a frame that writes several registers. */
  function MulBody(addr: u16, regs: seq<u16>): (f: seq<byte>)
    requires |regs| < 0x1_0000
    ensures |f| == 4 + 2 * |regs|
  {
    LittleEndian(addr) + LittleEndian(|regs|) + BigEndian(regs)
  }

  function MulFrame(addr: u16, regs: seq<u16>): (f: seq<byte>)
    requires |regs| < 0x1_0000
    ensures |f| == 6 + 2 * |regs|
  {
    var body := MulBody(addr, regs);
    body + ModbusCrc.CrcBytes(ModbusCrc.CrcOf(body))
  }

  /** Every frame that writes several registers has CRC zero over its whole length. */
  lemma MulFrameChecks(addr: u16, regs: seq<u16>)
    requires |regs| < 0x1_0000
    ensures ModbusCrc.CrcOf(MulFrame(addr, regs)) == 0
  {
    hide MulBody, ModbusCrc.CrcOf, ModbusCrc.CrcBytes;
    var body := MulBody(addr, regs);
    ModbusCrc.AppendedCrc(body, ModbusCrc.CrcBytes(ModbusCrc.CrcOf(body)));
  }

  /** The frames of one write request, from register `done` of `regs` on. */
  function WriteFrames(dst: byte, addr: u16, regs: seq<u16>, done: nat): seq<Frame>
    decreases |regs| - done
  {
    if done >= |regs| then []
    else
      var n := Min(PIECE_MAX, |regs| - done);
      [Frame(WRITE_MULTIPLE_REGISTERS, dst, MulFrame(Wrap(addr + done), regs[done..done + n]))]
      + WriteFrames(dst, addr, regs, done + n)
  }

  /** All the frames of one write request. */
  function Written(dst: byte, addr: u16, regs: seq<u16>): seq<Frame> {
    if |regs| == 1 then [Frame(WRITE_REGISTER, dst, SingleFrame(addr, Swap16(regs[0])))]
    else WriteFrames(dst, addr, regs, 0)
  }

  // ----- what a device finds in such a frame -----

  datatype Assignment = Assignment(addr: u16, value: u16)

  function WordAt(f: seq<byte>, j: nat): u16 {
    if j + 1 < |f| then Word(f[j], f[j + 1]) else 0
  }

  /** The registers a frame sets: a header of address and, for several registers, their number, then big-endian data. */
  function Assignments(f: Frame): (a: seq<Assignment>) {
    var n, data := if f.pgn == WRITE_REGISTER then 1 else WordAt(f.bytes, 2), if f.pgn == WRITE_REGISTER then 2 else 4;
    seq(n, i requires 0 <= i < n => Assignment(Wrap(WordAt(f.bytes, 0) + i), Swap16(WordAt(f.bytes, data + 2 * i))))
  }

  function AllAssignments(fs: seq<Frame>): seq<Assignment> {
    if fs == [] then [] else Assignments(fs[0]) + AllAssignments(fs[1..])
  }

  /** `regs` placed from `addr` on. */
  function Placed(addr: u16, regs: seq<u16>): (a: seq<Assignment>)
    ensures |a| == |regs|
  {
    seq(|regs|, i requires 0 <= i < |regs| => Assignment(Wrap(addr + i), regs[i]))
  }

  lemma LittleEndianWord(x: u16)
    ensures Word(LowByte(x), LowByte(x / 256)) == x
  {
    hide LowByte;
    LowByteValue(x);
    LowByteValue(x / 256);
    HalvesJoin(x);
  }

  lemma HalvesJoin(x: u16)
    ensures x % 256 + 256 * ((x / 256) % 256) == x
  {
  }

  lemma MulFrameHeader(addr: u16, regs: seq<u16>)
    requires |regs| < 0x1_0000
    ensures WordAt(MulFrame(addr, regs), 0) == addr && WordAt(MulFrame(addr, regs), 2) == |regs|
  {
    hide LowByte, Word, BigEndian, ModbusCrc.CrcOf, ModbusCrc.CrcBytes;
    var f := MulFrame(addr, regs);
    assert f[..4] == LittleEndian(addr) + LittleEndian(|regs|);
    LittleEndianWord(addr);
    LittleEndianWord(|regs|);
    assert WordAt(f, 0) == Word(f[..4][0], f[..4][1]) && WordAt(f, 2) == Word(f[..4][2], f[..4][3]);
  }

  lemma MulFrameData(addr: u16, regs: seq<u16>, i: nat)
    requires i < |regs| < 0x1_0000
    ensures Swap16(WordAt(MulFrame(addr, regs), 4 + 2 * i)) == regs[i]
  {
    hide LowByte, Word, Swap16, LittleEndian, ModbusCrc.CrcOf, ModbusCrc.CrcBytes;
    var f, data := MulFrame(addr, regs), BigEndian(regs);
    assert f[4 + 2 * i] == data[2 * i] && f[4 + 2 * i + 1] == data[2 * i + 1];
    BigEndianWord(regs[i]);
  }

  lemma MulFrameRegisters(dst: byte, addr: u16, regs: seq<u16>)
    requires |regs| < 0x1_0000
    ensures Assignments(Frame(WRITE_MULTIPLE_REGISTERS, dst, MulFrame(addr, regs))) == Placed(addr, regs)
  {
    hide MulFrame, WordAt, Swap16, Wrap;
    MulFrameHeader(addr, regs);
    forall i | 0 <= i < |regs| ensures Swap16(WordAt(MulFrame(addr, regs), 4 + 2 * i)) == regs[i] {
      MulFrameData(addr, regs, i);
    }
  }

  lemma SingleFrameRegister(dst: byte, addr: u16, value: u16)
    ensures Assignments(Frame(WRITE_REGISTER, dst, SingleFrame(addr, Swap16(value)))) == Placed(addr, [value])
  {
    hide LowByte, Word, Swap16, Wrap;
    LittleEndianWord(addr);
    LittleEndianWord(Swap16(value));
    SwapTwice(value);
  }

  lemma SwapTwice(v: u16)
    ensures Swap16(Swap16(v)) == v
  {
    SwapParts(v / 256, v % 256);
    SwapParts(v % 256, v / 256);
  }

  lemma PlacedJoin(addr: u16, a: seq<u16>, b: seq<u16>)
    ensures Placed(addr, a + b) == Placed(addr, a) + Placed(Wrap(addr + |a|), b)
  {
    hide Wrap;
    var whole, tail := Placed(addr, a + b), Placed(Wrap(addr + |a|), b);
    forall i | 0 <= i < |b| ensures whole[|a| + i] == tail[i] {
      WrapAgain(addr + |a|, i);
    }
  }

  lemma {:induction false} FramesPlace(dst: byte, addr: u16, regs: seq<u16>, done: nat)
    requires done <= |regs|
    ensures Placed(addr, regs[..done]) + AllAssignments(WriteFrames(dst, addr, regs, done)) == Placed(addr, regs)
    decreases |regs| - done
  {
    hide Placed, Assignments, MulFrame, Wrap;
    if done < |regs| {
      var n := Min(PIECE_MAX, |regs| - done);
      var fs, rest := WriteFrames(dst, addr, regs, done), WriteFrames(dst, addr, regs, done + n);
      FramesPlace(dst, addr, regs, done + n);
      assert fs[1..] == rest;
      assert regs[..done + n] == regs[..done] + regs[done..done + n];
      PlacedJoin(addr, regs[..done], regs[done..done + n]);
      MulFrameRegisters(dst, Wrap(addr + done), regs[done..done + n]);
    } else {
      assert regs[..done] == regs;
    }
  }

  /** A device that obeys the frames of a write request ends up with exactly the given registers, in order. */
  lemma WrittenPlacesAll(dst: byte, addr: u16, regs: seq<u16>)
    ensures AllAssignments(Written(dst, addr, regs)) == Placed(addr, regs)
  {
    hide Placed, Assignments, MulFrame, SingleFrame, Swap16;
    if |regs| == 1 {
      SingleFrameRegister(dst, addr, regs[0]);
      assert regs == [regs[0]];
      var fs := Written(dst, addr, regs);
      assert fs[1..] == [] && AllAssignments(fs) == Assignments(fs[0]) + AllAssignments([]);
    } else {
      FramesPlace(dst, addr, regs, 0);
      PlacedNone(addr);
      assert regs[..0] == [];
    }
  }

  lemma PlacedNone(addr: u16)
    ensures Placed(addr, []) == []
  {
  }

  /** Every frame of a write request that carries a CRC passes the check over its whole length. */
  lemma {:induction false} WrittenFramesCheck(dst: byte, addr: u16, regs: seq<u16>, done: nat)
    ensures forall f | f in WriteFrames(dst, addr, regs, done) ::
              ModbusCrc.CrcOf(f.bytes) == 0 && |f.bytes| <= 6 + 2 * PIECE_MAX
    decreases |regs| - done
  {
    hide ModbusCrc.CrcOf, MulFrame, Wrap;
    if done < |regs| {
      var n := Min(PIECE_MAX, |regs| - done);
      MulFrameChecks(Wrap(addr + done), regs[done..done + n]);
      WrittenFramesCheck(dst, addr, regs, done + n);
    }
  }

  // ----- the bytes on the wire -----

  /** One register is written by function 0x0600: address low byte first, value high byte first, nothing else. */
  ghost predicate SingleOnWire(f: Frame, dst: byte, addr: u16, value: u16) {
    && f.pgn == 0x0600 && f.dst == dst && |f.bytes| == 4
    && f.bytes[0] as nat == addr % 256 && f.bytes[1] as nat == addr / 256
    && f.bytes[2] as nat == value / 256 && f.bytes[3] as nat == value % 256
  }

  /** Piece `k` of several registers is written by function 0x1000: the registers from `64 * k` on, at most 64, each
      high byte first, behind their address and number, low byte first, and before two bytes that close the CRC. */
  ghost predicate PieceOnWire(f: Frame, dst: byte, addr: u16, regs: seq<u16>, k: nat) {
    var n := if |regs| - 64 * k < 64 then |regs| - 64 * k else 64;
    && f.pgn == 0x1000 && f.dst == dst && 0 < n && |f.bytes| == 6 + 2 * n
    && (f.bytes[0] as nat) + 256 * (f.bytes[1] as nat) == (addr + 64 * k) % 0x1_0000
    && (f.bytes[2] as nat) + 256 * (f.bytes[3] as nat) == n
    && (forall i | 0 <= i < n :: 256 * (f.bytes[4 + 2 * i] as nat) + (f.bytes[5 + 2 * i] as nat) == regs[64 * k + i])
    && ModbusCrc.CrcOf(f.bytes) == 0
  }

  /** The frames of a write request: one for one register, otherwise one for every 64 registers begun. */
  ghost predicate OnWire(fs: seq<Frame>, dst: byte, addr: u16, regs: seq<u16>) {
    if |regs| == 1 then |fs| == 1 && SingleOnWire(fs[0], dst, addr, regs[0])
    else |fs| == (|regs| + 63) / 64 && forall k | 0 <= k < |fs| :: PieceOnWire(fs[k], dst, addr, regs, k)
  }

  lemma WrittenOnWire(dst: byte, addr: u16, regs: seq<u16>)
    ensures OnWire(Written(dst, addr, regs), dst, addr, regs)
  {
    hide SingleFrame, SingleOnWire, PieceOnWire;
    if |regs| == 1 {
      SingleIsOnWire(dst, addr, regs[0]);
    } else {
      PiecesOnWire(dst, addr, regs, 0);
    }
  }

  lemma SingleIsOnWire(dst: byte, addr: u16, value: u16)
    ensures SingleOnWire(Frame(WRITE_REGISTER, dst, SingleFrame(addr, Swap16(value))), dst, addr, value)
  {
    hide LowByte, Swap16;
    var f := SingleFrame(addr, Swap16(value));
    Halves(addr, f[1], f[0]);
    Halves(Swap16(value), f[3], f[2]);
    SwapHalves(value);
  }

  /** The two bytes of a number, as numbers. */
  lemma Halves(x: u16, hi: byte, lo: byte)
    requires hi == LowByte(x / 256) && lo == LowByte(x)
    ensures hi as nat == x / 256 && lo as nat == x % 256 && 256 * (hi as nat) + (lo as nat) == x
  {
    hide LowByte;
    LowByteValue(x / 256);
    LowByteValue(x);
  }

  lemma SwapHalves(x: u16)
    ensures Swap16(x) / 256 == x % 256 && Swap16(x) % 256 == x / 256
  {
  }

  lemma {:induction false} PiecesOnWire(dst: byte, addr: u16, regs: seq<u16>, k: nat)
    requires |regs| != 1 && k <= (|regs| + 63) / 64
    ensures var fs := WriteFrames(dst, addr, regs, 64 * k);
            && |fs| == (|regs| + 63) / 64 - k
            && forall j | 0 <= j < |fs| :: PieceOnWire(fs[j], dst, addr, regs, k + j)
    decreases |regs| - 64 * k
  {
    hide PieceOnWire, MulFrame, Wrap;
    if 64 * k < |regs| {
      var fs := WriteFrames(dst, addr, regs, 64 * k);
      PieceIsOnWire(dst, addr, regs, k);
      if |regs| - 64 * k > 64 {
        PiecesOnWire(dst, addr, regs, k + 1);
        assert fs[1..] == WriteFrames(dst, addr, regs, 64 * (k + 1));
        forall j | 0 < j < |fs| ensures PieceOnWire(fs[j], dst, addr, regs, k + j) {
          assert fs[j] == fs[1..][j - 1];
        }
      }
    }
  }

  lemma PieceIsOnWire(dst: byte, addr: u16, regs: seq<u16>, k: nat)
    requires 64 * k < |regs|
    ensures var n := Min(PIECE_MAX, |regs| - 64 * k);
            PieceOnWire(Frame(WRITE_MULTIPLE_REGISTERS, dst, MulFrame(Wrap(addr + 64 * k), regs[64 * k..64 * k + n])),
                        dst, addr, regs, k)
  {
    hide MulFrame, ModbusCrc.CrcOf, WordAt;
    var n := Min(PIECE_MAX, |regs| - 64 * k);
    var start, piece := Wrap(addr + 64 * k), regs[64 * k..64 * k + n];
    var f := MulFrame(start, piece);
    MulFrameLength(start, piece);
    MulFrameHeader(start, piece);
    MulFrameChecks(start, piece);
    HeaderWords(f);
    forall i | 0 <= i < n ensures 256 * (f[4 + 2 * i] as nat) + (f[5 + 2 * i] as nat) == regs[64 * k + i] {
      MulFrameBytes(start, piece, i);
      assert piece[i] == regs[64 * k + i];
    }
  }

  lemma MulFrameLength(addr: u16, regs: seq<u16>)
    requires |regs| < 0x1_0000
    ensures |MulFrame(addr, regs)| == 6 + 2 * |regs|
  {
  }

  lemma HeaderWords(f: seq<byte>)
    requires |f| >= 4
    ensures WordAt(f, 0) == (f[0] as nat) + 256 * (f[1] as nat) && WordAt(f, 2) == (f[2] as nat) + 256 * (f[3] as nat)
  {
  }

  lemma MulFrameBytes(addr: u16, regs: seq<u16>, i: nat)
    requires i < |regs| < 0x1_0000
    ensures var f := MulFrame(addr, regs);
            |f| == 6 + 2 * |regs| && 256 * (f[4 + 2 * i] as nat) + (f[5 + 2 * i] as nat) == regs[i]
  {
    MulFrameByte(addr, regs, i);
    var f := MulFrame(addr, regs);
    Halves(regs[i], f[4 + 2 * i], f[5 + 2 * i]);
  }

  lemma MulFrameByte(addr: u16, regs: seq<u16>, i: nat)
    requires i < |regs| < 0x1_0000
    ensures |MulFrame(addr, regs)| == 6 + 2 * |regs|
    ensures var f := MulFrame(addr, regs); f[4 + 2 * i] == LowByte(regs[i] / 256) && f[5 + 2 * i] == LowByte(regs[i])
  {
    hide LowByte, LittleEndian, ModbusCrc.CrcOf, ModbusCrc.CrcBytes;
    var f, data := MulFrame(addr, regs), BigEndian(regs);
    assert f[4 + 2 * i] == data[2 * i] && f[4 + 2 * i + 1] == data[2 * i + 1];
  }

  // ----- read responses -----

  /** A response as received: address, data length in bytes, data, CRC; always the whole struct. */
  predicate IsResponse(r: seq<byte>) {
    |r| == RESPONSE_SIZE
  }

  function DataLen(r: seq<byte>): (n: nat)
    requires IsResponse(r)
    ensures n < 256
  {
    r[2] as nat
  }

  function RegCount(r: seq<byte>): nat
    requires IsResponse(r)
  {
    DataLen(r) / 2
  }

  /** How many bytes the receiver runs the CRC over. */
  function CheckedLen(r: seq<byte>): (n: nat)
    requires IsResponse(r)
    ensures n <= |r|
  {
    Min(RegCount(r) * 2 + 3 + 2, 256)
  }

  predicate Accepted(r: seq<byte>)
    requires IsResponse(r)
  {
    ModbusCrc.CrcOf(r[..CheckedLen(r)]) == 0
  }

  function Key(r: seq<byte>, i: nat): u16
    requires IsResponse(r)
  {
    Wrap(Word(r[0], r[1]) + i)
  }

  /** Register `i` of the data. */
  function RegisterAt(r: seq<byte>, i: nat): u16
    requires IsResponse(r)
  {
    assert Pow2(16) == 0x1_0000 by { Pow2Of32(); }
    Swap16(ReadField(r[..3 + DataLen(r)], 24 + 16 * i, 16))
  }

  /** What an object of `size` registers at index `i` is given; for a size other than 1 and 2 that is zero. */
  function DeliveryAt(db: map<u16, u16>, r: seq<byte>, i: nat): Delivery
    requires IsResponse(r) && Key(r, i) in db
  {
    var size := db[Key(r, i)];
    Delivery(Key(r, i), if size == 1 then Raw([RegisterAt(r, i)])
                        else if size == 2 then Raw([RegisterAt(r, i), RegisterAt(r, i + 1)]) else 0)
  }

  function Stride(db: map<u16, u16>, r: seq<byte>, i: nat): (n: nat)
    requires IsResponse(r)
    ensures 1 <= n <= 2
  {
    if Key(r, i) in db && db[Key(r, i)] == 2 then 2 else 1
  }

  /** What is handed out from index `i` on. */
  function Deliveries(db: map<u16, u16>, r: seq<byte>, i: nat): seq<Delivery>
    requires IsResponse(r)
    decreases RegCount(r) - i
  {
    if i >= RegCount(r) then []
    else (if Key(r, i) in db then [DeliveryAt(db, r, i)] else []) + Deliveries(db, r, i + Stride(db, r, i))
  }

  lemma DeliveriesStep(db: map<u16, u16>, r: seq<byte>, i: nat)
    requires IsResponse(r) && i < RegCount(r)
    ensures Deliveries(db, r, i)
            == (if Key(r, i) in db then [DeliveryAt(db, r, i)] else []) + Deliveries(db, r, i + Stride(db, r, i))
  {
    hide Key, DeliveryAt, Stride;
  }

  /** The indices the decode loop stops at: all but those directly behind a stop at a two-register object. */
  predicate Visited(db: map<u16, u16>, r: seq<byte>, i: nat)
    requires IsResponse(r)
  {
    i == 0 || !(Visited(db, r, i - 1) && Stride(db, r, i - 1) == 2)
  }

  /** `js` are the registered indices from `i` on that the loop stops at, ascending, and `ds` what they are given. */
  ghost predicate Served(db: map<u16, u16>, r: seq<byte>, i: nat, js: seq<nat>, ds: seq<Delivery>)
    requires IsResponse(r)
  {
    && |js| == |ds|
    && (forall k | 0 <= k < |js| ::
          && i <= js[k] < RegCount(r) && Visited(db, r, js[k]) && Key(r, js[k]) in db
          && ds[k] == DeliveryAt(db, r, js[k]))
    && (forall a, b | 0 <= a < b < |js| :: js[a] < js[b])
    && (forall j | i <= j < RegCount(r) && Visited(db, r, j) && Key(r, j) in db :: j in js)
  }

  /** What is handed out is exactly one value for each registered index the loop stops at, in ascending order. */
  lemma {:induction false} DeliveredIndices(db: map<u16, u16>, r: seq<byte>, i: nat) returns (js: seq<nat>)
    requires IsResponse(r) && Visited(db, r, i)
    ensures Served(db, r, i, js, Deliveries(db, r, i))
    decreases RegCount(r) - i
  {
    hide DeliveryAt, Key, Stride, Served, Visited;
    if i >= RegCount(r) {
      js := [];
      ServedNone(db, r, i);
    } else {
      VisitedNext(db, r, i);
      var rest := Deliveries(db, r, i + Stride(db, r, i));
      js := DeliveredIndices(db, r, i + Stride(db, r, i));
      ServedOneMore(db, r, i, js, rest);
      assert Deliveries(db, r, i) == if Key(r, i) in db then [DeliveryAt(db, r, i)] + rest else rest;
      if Key(r, i) in db {
        js := [i] + js;
      }
    }
  }

  lemma ServedNone(db: map<u16, u16>, r: seq<byte>, i: nat)
    requires IsResponse(r) && i >= RegCount(r)
    ensures Served(db, r, i, [], [])
  {
  }

  lemma VisitedNext(db: map<u16, u16>, r: seq<byte>, i: nat)
    requires IsResponse(r) && Visited(db, r, i)
    ensures Visited(db, r, i + Stride(db, r, i)) && (Stride(db, r, i) == 2 ==> !Visited(db, r, i + 1))
  {
    hide Stride;
  }

  lemma ServedOneMore(db: map<u16, u16>, r: seq<byte>, i: nat, js: seq<nat>, ds: seq<Delivery>)
    requires IsResponse(r) && Visited(db, r, i) && i < RegCount(r)
    requires Served(db, r, i + Stride(db, r, i), js, ds)
    ensures if Key(r, i) in db then Served(db, r, i, [i] + js, [DeliveryAt(db, r, i)] + ds)
            else Served(db, r, i, js, ds)
  {
    hide DeliveryAt, Key, Stride, RegCount, Visited;
    VisitedNext(db, r, i);
    forall j | i <= j < RegCount(r) && Visited(db, r, j) && Key(r, j) in db ensures j == i || j in js {
      assert j == i + 1 ==> Stride(db, r, i) != 2;
    }
  }

  /** No two-register object sits directly before another object of the response. */
  ghost predicate NoOverlap(db: map<u16, u16>, r: seq<byte>)
    requires IsResponse(r)
  {
    forall i | 0 <= i < RegCount(r) - 1 && Key(r, i) in db && db[Key(r, i)] == 2 :: Key(r, i + 1) !in db
  }

  lemma {:induction false} OverlapFreeVisited(db: map<u16, u16>, r: seq<byte>, i: nat)
    requires IsResponse(r) && NoOverlap(db, r) && i < RegCount(r) && Key(r, i) in db
    ensures Visited(db, r, i)
  {
    if i > 0 {
      OverlapFreeStride(db, r, i - 1);
    }
  }

  lemma OverlapFreeStride(db: map<u16, u16>, r: seq<byte>, k: nat)
    requires IsResponse(r) && NoOverlap(db, r) && k + 1 < RegCount(r) && Key(r, k + 1) in db
    ensures Stride(db, r, k) == 1
  {
  }

  /** Every registered object in the response is served exactly when no two-register object overlaps the next one. */
  lemma AllServedIff(db: map<u16, u16>, r: seq<byte>)
    requires IsResponse(r)
    ensures (forall i | 0 <= i < RegCount(r) && Key(r, i) in db :: Visited(db, r, i)) <==> NoOverlap(db, r)
  {
    if NoOverlap(db, r) {
      forall i | 0 <= i < RegCount(r) && Key(r, i) in db ensures Visited(db, r, i) {
        OverlapFreeVisited(db, r, i);
      }
    } else {
      var i :| 0 <= i < RegCount(r) - 1 && Key(r, i) in db && db[Key(r, i)] == 2 && Key(r, i + 1) in db;
      assert Visited(db, r, i) ==> !Visited(db, r, i + 1);
    }
  }

  /** Which delivery serves index `j`: there is one, and no other is for the same address. */
  ghost predicate ServedOnce(ds: seq<Delivery>, d: Delivery) {
    exists k :: 0 <= k < |ds| && ds[k] == d && forall m | 0 <= m < |ds| && ds[m].addr == d.addr :: m == k
  }

  lemma KeysDistinct(r: seq<byte>, i: nat, j: nat)
    requires IsResponse(r) && i < RegCount(r) && j < RegCount(r) && Key(r, i) == Key(r, j)
    ensures i == j
  {
    WrapDistinct(Word(r[0], r[1]), i, j);
  }

  lemma WrapDistinct(a: u16, i: nat, j: nat)
    requires i < 256 && j < 256 && Wrap(a + i) == Wrap(a + j)
    ensures i == j
  {
  }

  lemma EachServedOnce(db: map<u16, u16>, r: seq<byte>, j: nat)
    requires IsResponse(r) && NoOverlap(db, r) && j < RegCount(r) && Key(r, j) in db
    ensures ServedOnce(Deliveries(db, r, 0), DeliveryAt(db, r, j))
  {
    hide Key, DeliveryAt, Deliveries, RegCount;
    var ds := Deliveries(db, r, 0);
    var js := DeliveredIndices(db, r, 0);
    OverlapFreeVisited(db, r, j);
    var k :| 0 <= k < |js| && js[k] == j;
    DeliveryAddr(db, r, j);
    forall m | 0 <= m < |ds| && ds[m].addr == Key(r, j) ensures m == k {
      DeliveryAddr(db, r, js[m]);
      KeysDistinct(r, js[m], j);
      assert !(js[m] < js[k]) && !(js[k] < js[m]);
    }
  }

  lemma DeliveryAddr(db: map<u16, u16>, r: seq<byte>, i: nat)
    requires IsResponse(r) && Key(r, i) in db
    ensures DeliveryAt(db, r, i).addr == Key(r, i)
  {
  }

  // ----- values -----

  /** Byte `j` of a response, or 0 past its data. */
  function DataByte(r: seq<byte>, j: nat): nat
    requires IsResponse(r)
  {
    if j < 3 + DataLen(r) then r[j] as nat else 0
  }

  /** A register of the data, high byte first. */
  function DataWord(r: seq<byte>, i: nat): nat
    requires IsResponse(r)
  {
    256 * DataByte(r, 3 + 2 * i) + DataByte(r, 4 + 2 * i)
  }

  lemma RegisterBytes(r: seq<byte>, i: nat)
    requires IsResponse(r)
    ensures RegisterAt(r, i) == DataWord(r, i)
  {
    hide Swap16, ReadField, Word, DataByte;
    var s := r[..3 + DataLen(r)];
    var zeros := seq<byte>(2 * i + 2, _ => 0);
    var z := s + zeros;
    ReadPastEnd(s, zeros, 24 + 16 * i, 16);
    ReadWord(z, 3 + 2 * i);
    assert 8 * (3 + 2 * i) == 24 + 16 * i;
    SwapBytes(z[3 + 2 * i], z[4 + 2 * i]);
    PaddedByte(r, zeros, 3 + 2 * i);
    PaddedByte(r, zeros, 4 + 2 * i);
  }

  lemma PaddedByte(r: seq<byte>, zeros: seq<byte>, j: nat)
    requires IsResponse(r) && j < 3 + DataLen(r) + |zeros| && forall b | b in zeros :: b == 0
    ensures (r[..3 + DataLen(r)] + zeros)[j] as nat == DataByte(r, j)
  {
    if j >= 3 + DataLen(r) { assert zeros[j - 3 - DataLen(r)] in zeros; }
  }

  lemma SwapBytes(a: byte, b: byte)
    ensures Swap16(Word(a, b)) == 256 * (a as nat) + (b as nat)
  {
    SwapParts(a as nat, b as nat);
  }

  /** What is delivered, byte by byte: the address counts up from that of the response, and the value is one register or
      two, the first one low, each high byte first. */
  lemma DeliveryOnWire(db: map<u16, u16>, r: seq<byte>, i: nat)
    requires IsResponse(r) && Key(r, i) in db
    ensures var d := DeliveryAt(db, r, i);
            && d.addr == ((r[0] as nat) + 256 * (r[1] as nat) + i) % 0x1_0000
            && d.value == if db[d.addr] == 1 then DataWord(r, i)
                          else if db[d.addr] == 2 then DataWord(r, i) + 0x1_0000 * DataWord(r, i + 1) else 0
  {
    hide RegisterAt, DataWord;
    RegisterBytes(r, i);
    RegisterBytes(r, i + 1);
  }

  /** The data of the response is `regs` as a write request puts registers on the wire. */
  ghost predicate Carries(r: seq<byte>, regs: seq<u16>)
    requires IsResponse(r)
  {
    DataLen(r) == 2 * |regs| && r[3..3 + DataLen(r)] == BigEndian(regs)
  }

  lemma CarriedRegister(r: seq<byte>, regs: seq<u16>, i: nat)
    requires IsResponse(r) && Carries(r, regs)
    ensures RegisterAt(r, i) == if i < |regs| then regs[i] else 0
  {
    hide Word, Swap16, LowByte, ReadField, BigEndian;
    var s := r[..3 + DataLen(r)];
    if i < |regs| {
      CarriedBytes(r, regs, i);
      ReadWord(s, 3 + 2 * i);
      BigEndianWord(regs[i]);
    } else {
      ReadNothing(s, 24 + 16 * i, 16);
      SwapParts(0, 0);
    }
  }

  lemma CarriedBytes(r: seq<byte>, regs: seq<u16>, i: nat)
    requires IsResponse(r) && Carries(r, regs) && i < |regs|
    ensures var s := r[..3 + DataLen(r)];
            |s| == 3 + 2 * |regs| && s[3 + 2 * i] == LowByte(regs[i] / 256) && s[3 + 2 * i + 1] == LowByte(regs[i])
  {
    hide LowByte;
    var data := r[3..3 + DataLen(r)];
    assert data[2 * i] == r[3 + 2 * i] && data[2 * i + 1] == r[3 + 2 * i + 1];
  }

  /** A written object that lies wholly inside the response is served once, with the value that was written. */
  lemma RegisterRoundTrip(db: map<u16, u16>, r: seq<byte>, regs: seq<u16>, j: nat, kind: string, value: int)
    requires IsResponse(r) && Carries(r, regs) && NoOverlap(db, r)
    requires Convertible(kind) && j + RegLen(kind) <= |regs|
    requires Key(r, j) in db && db[Key(r, j)] == RegLen(kind)
    requires regs[j..j + RegLen(kind)] == Words(kind, Converted(kind, value))
    ensures ServedOnce(Deliveries(db, r, 0), DeliveryAt(db, r, j))
    ensures Converted(kind, DeliveryAt(db, r, j).value) == Converted(kind, value)
  {
    hide Key, Converted, Words, Contains32, Deliveries, NoOverlap, RegisterAt, BigEndian;
    EachServedOnce(db, r, j);
    CarriedRegister(r, regs, j);
    CarriedRegister(r, regs, j + 1);
    assert regs[j..j + RegLen(kind)] == if RegLen(kind) == 1 then [regs[j]] else [regs[j], regs[j + 1]];
    ValueRoundTrip(kind, value);
  }

  /** A two-register object on the last register of the data is served with its upper half zero. */
  lemma HalfInside(db: map<u16, u16>, r: seq<byte>, regs: seq<u16>)
    requires IsResponse(r) && Carries(r, regs) && regs != []
    requires Key(r, |regs| - 1) in db && db[Key(r, |regs| - 1)] == 2
    ensures DeliveryAt(db, r, |regs| - 1).value == regs[|regs| - 1]
  {
    hide Key, RegisterAt, BigEndian;
    CarriedRegister(r, regs, |regs| - 1);
    CarriedRegister(r, regs, |regs|);
  }

  // ----- the check -----

  /** The CRC of header and data stands directly behind the data. */
  predicate Closed(r: seq<byte>)
    requires IsResponse(r) && RegCount(r) <= 126
  {
    var n := 3 + 2 * RegCount(r);
    r[n..n + 2] == ModbusCrc.CrcBytes(ModbusCrc.CrcOf(r[..n]))
  }

  /** Up to 125 registers the receiver accepts exactly the responses that are closed by their CRC. */
  lemma AcceptedIffClosed(r: seq<byte>)
    requires IsResponse(r) && RegCount(r) <= 125
    ensures Accepted(r) <==> Closed(r)
  {
    hide ModbusCrc.CrcOf, ModbusCrc.CrcBytes;
    var n := 3 + 2 * RegCount(r);
    assert r[..n] + r[n..n + 2] == r[..n + 2];
    ModbusCrc.AppendedCrc(r[..n], r[n..n + 2]);
  }

  /** With 126 registers the last CRC byte falls outside the 256 checked bytes: it is taken to be zero. */
  lemma LargestResponse(r: seq<byte>)
    requires IsResponse(r) && RegCount(r) == 126 && Closed(r)
    ensures Accepted(r) <==> r[256] == 0
  {
    hide ModbusCrc.Division, ModbusCrc.MsgBits, ModbusCrc.TableStep, ModbusCrc.LowOf, ModbusCrc.HighOf;
    var c := ModbusCrc.CrcOf(r[..255]);
    assert r[255] == r[255..257][0] && r[256] == r[255..257][1];
    assert r[..255] + [r[255]] == r[..256];
    ModbusCrc.DivisionOfByte(ModbusCrc.INITIAL, r[..255], r[255]);
    ModbusCrc.FeedLowByte(c);
    ShiftedOut(c);
  }

  lemma ShiftedOut(c: bv16)
    ensures ModbusCrc.ShiftByte(c) == 0 <==> ModbusCrc.HighOf(c) == 0
  {
  }

  /** Damage confined to 16 consecutive bits of the checked part, the length byte untouched, is always noticed. */
  lemma DamagedResponseRejected(r: seq<byte>, damaged: seq<byte>, start: nat)
    requires IsResponse(r) && IsResponse(damaged) && Accepted(r) && r[2] == damaged[2]
    requires r[..CheckedLen(r)] != damaged[..CheckedLen(r)]
    requires DifferWithin(ModbusCrc.MsgBits(r[..CheckedLen(r)]), ModbusCrc.MsgBits(damaged[..CheckedLen(r)]), start, 16)
    ensures !Accepted(damaged)
  {
    hide ModbusCrc.CrcOf, ModbusCrc.MsgBits;
    ModbusCrc.BurstDetected(r[..CheckedLen(r)], damaged[..CheckedLen(r)], start);
  }

  // ----- the master object -----

  class CommJ1939Db {
    const dst: byte
    var dbMap: map<u16, u16>
    var readQueue: seq<ReadRequest>
    const requestBuff: array<byte>
    ghost var sent: seq<Frame>
    ghost var delivered: seq<Delivery>

    ghost predicate Valid() {
      requestBuff.Length == WRITE_BUFF
    }

    constructor (dst: byte)
      ensures Valid() && this.dst == dst && dbMap == map[] && readQueue == [] && sent == [] && delivered == []
    {
      this.dst := dst;
      dbMap := map[];
      readQueue := [];
      requestBuff := new byte[WRITE_BUFF](_ => 0);
      sent, delivered := [], [];
    }

    /** `db_reg_register`, for one source address: the first registration of an address stays. */
    method Register(regAddr: u16, regSize: u16)
      modifies this`dbMap
      ensures dbMap == if regAddr in old(dbMap) then old(dbMap) else old(dbMap)[regAddr := regSize]
    {
      if regAddr !in dbMap {
        dbMap := dbMap[regAddr := regSize];
      }
    }

    /** `slot_request_dst_read_reg`; a full queue drops the request silently. */
    method RequestDstReadReg(piece: Piece)
      modifies this`readQueue
      ensures readQueue == Enqueued(old(readQueue), dst, [piece])
    {
      if |readQueue| < QUEUE_MAX {
        readQueue := readQueue + [ReadRequest(dst, piece)];
      }
    }

    /** `slot_request_read_reg` */
    method RequestReadReg(regAddr: u16, regLen: u16)
      modifies this`readQueue
      ensures readQueue == Enqueued(old(readQueue), dst, Pieces(regAddr, regLen, 0))
    {
      var rIndex := 0;
      while rIndex < regLen
        invariant rIndex <= regLen
        invariant Enqueued(old(readQueue), dst, Pieces(regAddr, regLen, 0))
                  == Enqueued(readQueue, dst, Pieces(regAddr, regLen, rIndex))
      {
        var rLen := Min(PIECE_MAX, regLen - rIndex);
        RequestDstReadReg(Piece(Wrap(regAddr + rIndex), rLen));
        rIndex := rIndex + rLen;
      }
    }

    /** `slot_request_dst_write_reg` */
    method RequestDstWriteReg(regAddr: u16, regValue: u16)
      modifies this`sent
      ensures sent == old(sent) + [Frame(WRITE_REGISTER, dst, SingleFrame(regAddr, regValue))]
    {
      sent := sent + [Frame(WRITE_REGISTER, dst, LittleEndian(regAddr) + LittleEndian(regValue))];
    }

    /** The header and the data loop of `slot_request_dst_write_mul_reg`. */
    method FillWriteBuff(regAddr: u16, array_: seq<u16>)
      requires Valid() && |array_| <= WRITE_REGS_MAX
      modifies requestBuff
      ensures requestBuff[..4 + 2 * |array_|] == MulBody(regAddr, array_)
    {
      hide LowByte;
      var regLen := Min(|array_|, REG_LEN_MAX);
      requestBuff[0], requestBuff[1] := LowByte(regAddr), LowByte(regAddr / 256);
      requestBuff[2], requestBuff[3] := LowByte(regLen), LowByte(regLen / 256);
      ghost var header := requestBuff[..4];
      assert header == LittleEndian(regAddr) + LittleEndian(|array_|);
      var put := 4;
      for i := 0 to |array_|
        invariant put == 4 + 2 * i && requestBuff[..4] == header
        invariant forall j | 0 <= j < 2 * i :: requestBuff[4 + j] == BigEndian(array_)[j]
      {
        requestBuff[put] := LowByte(array_[i] / 256);
        requestBuff[put + 1] := LowByte(array_[i]);
        put := put + 2;
      }
      assert requestBuff[4..4 + 2 * |array_|] == BigEndian(array_);
      assert requestBuff[..4 + 2 * |array_|] == requestBuff[..4] + requestBuff[4..4 + 2 * |array_|];
    }

    /** `slot_request_dst_write_mul_reg`; the buffer has room for the data and CRC of 123 registers. */
    method RequestDstWriteMulReg(regAddr: u16, array_: seq<u16>)
      requires Valid() && |array_| <= WRITE_REGS_MAX
      modifies this`sent, requestBuff
      ensures sent == old(sent) + [Frame(WRITE_MULTIPLE_REGISTERS, dst, MulFrame(regAddr, array_))]
    {
      hide MulBody, ModbusCrc.CrcOf, ModbusCrc.LowOf, ModbusCrc.HighOf;
      FillWriteBuff(regAddr, array_);
      var crcOffset := Min(|array_|, REG_LEN_MAX) * 2 + 4;
      var crc := ModbusCrc.ModbusCrc16(requestBuff, crcOffset);
      ghost var body := requestBuff[..crcOffset];
      requestBuff[crcOffset] := ModbusCrc.LowOf(crc);
      requestBuff[crcOffset + 1] := ModbusCrc.HighOf(crc);
      assert requestBuff[..crcOffset + 2] == body + ModbusCrc.CrcBytes(crc);
      sent := sent + [Frame(WRITE_MULTIPLE_REGISTERS, dst, requestBuff[..crcOffset + 2])];
    }

    /** `slot_request_write_reg`; the length is kept in 16 bits. */
    method RequestWriteReg(regAddr: u16, array_: seq<u16>)
      requires Valid()
      modifies this`sent, requestBuff
      ensures sent == old(sent) + Written(dst, regAddr, array_[..Wrap(|array_|)])
      ensures sent[..|old(sent)|] == old(sent)
      ensures OnWire(sent[|old(sent)|..], dst, regAddr, array_[..|array_| % 0x1_0000])
    {
      hide MulFrame, SingleFrame, Swap16, OnWire;
      var regLen := Wrap(|array_|);
      ghost var data := array_[..regLen];
      if regLen == 1 {
        RequestDstWriteReg(regAddr, Swap16(array_[0]));
      } else {
        var wIndex := 0;
        while wIndex < regLen
          invariant wIndex <= regLen
          invariant sent + WriteFrames(dst, regAddr, data, wIndex) == old(sent) + WriteFrames(dst, regAddr, data, 0)
        {
          var wLen := Min(PIECE_MAX, regLen - wIndex);
          var vec := array_[wIndex..wIndex + wLen];
          assert vec == data[wIndex..wIndex + wLen];
          RequestDstWriteMulReg(Wrap(regAddr + wIndex), vec);
          wIndex := wIndex + wLen;
        }
      }
      WrittenOnWire(dst, regAddr, data);
      assert sent == old(sent) + Written(dst, regAddr, data);
      assert sent[|old(sent)|..] == Written(dst, regAddr, data);
    }

    /** `recv_read_reg_handle`: a response that fails the check is dropped, any other is decoded. */
    method RecvReadRegHandle(resp: array<byte>)
      requires IsResponse(resp[..])
      modifies this`delivered
      ensures delivered == old(delivered) + if Accepted(resp[..]) then Deliveries(dbMap, resp[..], 0) else []
    {
      hide ReadField, Accepted, DeliveryAt, Key, Stride;
      var regLen := (resp[2] as nat) / 2;
      var crc := CheckResponse(resp, regLen);
      if crc != 0 {
        return;
      }
      ghost var r := resp[..];
      var i := 0;
      while i < regLen
        invariant delivered + Deliveries(dbMap, r, i) == old(delivered) + Deliveries(dbMap, r, 0)
        decreases regLen - i
      {
        hide Deliveries;
        DeliveriesStep(dbMap, r, i);
        var stride := DeliverOne(resp, i);
        i := i + stride;
      }
    }

    /** The CRC over the checked part of a response. */
    method CheckResponse(resp: array<byte>, regLen: nat) returns (crc: bv16)
      requires IsResponse(resp[..]) && regLen == RegCount(resp[..])
      ensures crc == 0 <==> Accepted(resp[..])
    {
      hide ModbusCrc.CrcOf;
      var crcOffset := Min(regLen * 2 + 3 + 2, 256);
      crc := ModbusCrc.ModbusCrc16(resp, crcOffset);
      assert resp[..crcOffset] == resp[..][..crcOffset];
    }

    /** The body of the decode loop; the result is by how much the index moves on. */
    method DeliverOne(resp: array<byte>, i: nat) returns (stride: nat)
      requires IsResponse(resp[..]) && i < RegCount(resp[..])
      modifies this`delivered
      ensures delivered == old(delivered) + if Key(resp[..], i) in dbMap then [DeliveryAt(dbMap, resp[..], i)] else []
      ensures stride == Stride(dbMap, resp[..], i)
    {
      hide ReadField, Swap16, Word, RegisterAt, Wrap;
      stride := 1;
      var key := Wrap(Word(resp[0], resp[1]) + i);
      if key in dbMap {
        var value := 0;
        if dbMap[key] == 1 {
          value := GetRegister(resp, i, 16);
        } else if dbMap[key] == 2 {
          var lo := GetRegister(resp, i, 32);
          var hi := GetRegister(resp, i + 1, 32);
          value := (lo as nat) + 0x1_0000 * (hi as nat);
          stride := 2;
        }
        delivered := delivered + [Delivery(key, value)];
      }
    }

    /** `L2B16` of a 16-bit field of the data; the getter is the 16- or the 32-bit one. */
    method GetRegister(resp: array<byte>, i: nat, width: nat) returns (v: u16)
      requires IsResponse(resp[..]) && width in {16, 32}
      ensures v == RegisterAt(resp[..], i)
    {
      hide ReadField, Swap16;
      Pow2Of32();
      var size := 3 + (resp[2] as nat);
      var field := GetUxx(resp, size, 24 + 16 * i, 16, width);
      assert resp[..size] == resp[..][..size];
      v := Swap16(field);
    }
  }

  /** The read queue after a list of pieces has been offered to it one by one. */
  function Enqueued(q: seq<ReadRequest>, dst: byte, pieces: seq<Piece>): seq<ReadRequest>
    decreases |pieces|
  {
    if pieces == [] then q
    else Enqueued(if |q| < QUEUE_MAX then q + [ReadRequest(dst, pieces[0])] else q, dst, pieces[1..])
  }

  /** All pieces of a request are queued, in order, exactly when there is room for all of them; otherwise the last ones
      are lost. */
  lemma {:induction false} EnqueuedPieces(q: seq<ReadRequest>, dst: byte, pieces: seq<Piece>)
    requires |q| <= QUEUE_MAX
    decreases |pieces|
    ensures var n := Min(|pieces|, 200 - |q|);
            Enqueued(q, dst, pieces) == q + seq(n, i requires 0 <= i < n => ReadRequest(dst, pieces[i]))
  {
    if pieces != [] {
      if |q| < QUEUE_MAX {
        EnqueuedPieces(q + [ReadRequest(dst, pieces[0])], dst, pieces[1..]);
      } else {
        EnqueuedPieces(q, dst, pieces[1..]);
      }
    }
  }

  /** The pieces a queue asks for. */
  function PiecesOf(q: seq<ReadRequest>): (ps: seq<Piece>)
    ensures |ps| == |q|
  {
    seq(|q|, i requires 0 <= i < |q| => q[i].piece)
  }

  /** A read request on an empty queue is queued register by register, without gap or overlap, up to 200 pieces
      of 64. */
  lemma ReadRequestCovers(dst: byte, regAddr: u16, regLen: u16)
    requires regLen <= 12800
    ensures Covered(PiecesOf(Enqueued([], dst, Pieces(regAddr, regLen, 0)))) == Addresses(regAddr, regLen)
  {
    hide Addresses, Covered, Pieces;
    var pieces := Pieces(regAddr, regLen, 0);
    PiecesCover(regAddr, regLen, 0);
    EnqueuedPieces([], dst, pieces);
    assert PiecesOf(Enqueued([], dst, pieces)) == pieces;
    assert Addresses(regAddr, 0) + Covered(pieces) == Covered(pieces);
  }
}
