/**
 A polling pass and its responses together (page/pagewidgetscollect.cpp and comm/j1939_modbus_master.cpp): what the
 registered objects are given when every window of a pass is answered.
 */
module PollingRead {
  import opened Bits
  import opened CanardDsdl
  import opened Registers
  import opened ModbusMaster
  import opened PollingWindows

  /** The 65536 registers of the device. */
  type Memory = m: seq<u16> | |m| == 0x1_0000 witness seq<u16>(0x1_0000, _ => 0)

  function Slice(mem: Memory, base: u16, len: nat): (regs: seq<u16>)
    ensures |regs| == len && forall i | 0 <= i < len :: regs[i] == mem[Wrap(base + i)]
  {
    seq<u16>(len, i requires 0 <= i < len => mem[Wrap(base + i)])
  }

  /** The response is accepted and carries the registers of the window. */
  ghost predicate Answers(r: seq<byte>, w: Window, mem: Memory) {
    IsResponse(r) && Accepted(r) && Word(r[0], r[1]) == w.base && Carries(r, Slice(mem, w.base, w.len))
  }

  /** Every entry of the page is registered with its length. */
  ghost predicate Registered(list: seq<RegInfo>, db: map<u16, u16>) {
    forall i | 0 <= i < |list| :: list[i].addr in db && db[list[i].addr] == list[i].len
  }

  /** No two-register object overlaps another registered one. */
  ghost predicate Separated(db: map<u16, u16>) {
    forall k | k in db && db[k] == 2 :: Wrap(k + 1) !in db
  }

  /** What an object is given: its registers, but only the first one when the window ends there. */
  function ValueOf(mem: Memory, e: RegInfo, whole: bool): nat {
    if e.len == 1 then Raw([mem[e.addr]])
    else if e.len == 2 then Raw([mem[e.addr], if whole then mem[Wrap(e.addr + 1)] else 0]) else 0
  }

  lemma AnswerShape(r: seq<byte>, w: Window, mem: Memory)
    requires Answers(r, w, mem)
    ensures RegCount(r) == w.len && forall i: nat :: Key(r, i) == Wrap(w.base + i)
  {
  }

  lemma AnswerNoOverlap(db: map<u16, u16>, r: seq<byte>)
    requires IsResponse(r) && Separated(db)
    ensures NoOverlap(db, r)
  {
    hide Wrap;
    forall i | 0 <= i < RegCount(r) - 1 && Key(r, i) in db && db[Key(r, i)] == 2 ensures Key(r, i + 1) !in db {
      WrapAgain(Word(r[0], r[1]) + i, 1);
    }
  }

  lemma RegisterInWindow(mem: Memory, w: Window, r: seq<byte>, i: nat)
    requires Answers(r, w, mem)
    ensures RegisterAt(r, i) == if i < w.len then mem[Wrap(w.base + i)] else 0
  {
    hide Accepted, Carries, RegisterAt, Wrap, Word;
    CarriedRegister(r, Slice(mem, w.base, w.len), i);
  }

  lemma ValueInWindow(db: map<u16, u16>, mem: Memory, w: Window, r: seq<byte>, e: RegInfo)
    requires Answers(r, w, mem) && e.addr in db && db[e.addr] == e.len && 1 <= e.len <= 2 && Contains(w, e.addr)
    ensures var i := e.addr - w.base;
            && i < RegCount(r) && Key(r, i) == e.addr
            && DeliveryAt(db, r, i) == Delivery(e.addr, ValueOf(mem, e, Contains(w, e.addr + 1)))
  {
    hide Answers, RegisterAt, Wrap, Key, RegCount, Raw;
    var i := e.addr - w.base;
    AnswerIs(r, w, mem);
    AnswerShape(r, w, mem);
    KeyInside(w, i);
    RegisterInWindow(mem, w, r, i);
    RegisterInWindow(mem, w, r, i + 1);
    WrapAgain(w.base + i, 1);
  }

  /** The window that contains an entry serves it once, with what the window holds of it. */
  lemma WindowServes(db: map<u16, u16>, mem: Memory, w: Window, r: seq<byte>, e: RegInfo)
    requires Answers(r, w, mem) && Separated(db) && e.addr in db && db[e.addr] == e.len && 1 <= e.len <= 2
    requires Contains(w, e.addr)
    ensures ServedOnce(Deliveries(db, r, 0), Delivery(e.addr, ValueOf(mem, e, Contains(w, e.addr + 1))))
  {
    hide Answers, Deliveries, DeliveryAt, ServedOnce, ValueOf, Key, RegCount, Separated;
    AnswerIs(r, w, mem);
    AnswerNoOverlap(db, r);
    ValueInWindow(db, mem, w, r, e);
    EachServedOnce(db, r, e.addr - w.base);
  }

  lemma KeyInside(w: Window, i: nat)
    requires w.base + i < 0x1_0000
    ensures Wrap(w.base + i) == w.base + i
  {
  }

  // ----- the other windows -----

  /** A window that does not contain an entry never serves it, although addresses wrap: only a two-register entry at
      the last address reaches past the end, and then nothing is registered at 0. */
  lemma OtherWindowsSilent(list: seq<RegInfo>, db: map<u16, u16>, mem: Memory, b: nat, r: seq<byte>, j: nat,
                           d: Delivery)
    requires Ascending(list) && Registered(list, db) && Separated(db) && j < |list|
    requires b < |Pass(list, 0)| && Answers(r, Pass(list, 0)[b], mem) && !Contains(Pass(list, 0)[b], list[j].addr)
    requires IsResponse(r) && d in Deliveries(db, r, 0)
    ensures d.addr != list[j].addr
  {
    hide Deliveries, DeliveryAt, Answers, Pass, Ascending, Registered, Separated, Wrap, Key;
    var w := Pass(list, 0)[b];
    AnswerShape(r, w, mem);
    var js := DeliveredIndices(db, r, 0);
    var k :| 0 <= k < |js| && Deliveries(db, r, 0)[k] == d;
    DeliveryAddr(db, r, js[k]);
    var l := PassTight(list, 0, b);
    AscendingAt(list, l, l);
    if w.base + js[k] < 0x1_0000 {
      KeyInside(w, js[k]);
    } else {
      NothingAtZero(list, db, l, j);
    }
  }

  /** An entry that reaches past the last address is a two-register one there, so nothing is registered at 0. */
  lemma NothingAtZero(list: seq<RegInfo>, db: map<u16, u16>, l: nat, j: nat)
    requires Registered(list, db) && Separated(db) && l < |list| && j < |list|
    requires list[l].addr + list[l].len > 0x1_0000 && 1 <= list[l].len <= 2
    ensures list[l].addr + list[l].len == 0x1_0001 && Wrap(0x1_0000) == 0 && list[j].addr != 0
  {
    assert list[l].addr in db && db[list[l].addr] == 2;
    assert Wrap(list[l].addr + 1) !in db;
    assert list[j].addr in db;
  }

  // ----- a whole pass -----

  /** When every window of a pass is answered, each entry is served exactly once: by the one window that contains
      its address, with its whole value unless it is a two-register entry 63 past the window's base. */
  lemma PassServes(list: seq<RegInfo>, db: map<u16, u16>, mem: Memory, rs: seq<seq<byte>>, j: nat) returns (a: nat)
    requires Ascending(list) && Registered(list, db) && Separated(db) && j < |list|
    requires |rs| == |Pass(list, 0)| && forall k | 0 <= k < |rs| :: Answers(rs[k], Pass(list, 0)[k], mem)
    ensures var e, ws := list[j], Pass(list, 0);
            && a < |rs| && Contains(ws[a], e.addr) && IsResponse(rs[a])
            && ServedOnce(Deliveries(db, rs[a], 0), Delivery(e.addr, ValueOf(mem, e, e.addr != ws[a].base + 63)))
            && forall b | 0 <= b < |rs| && b != a ::
                 IsResponse(rs[b]) && forall d | d in Deliveries(db, rs[b], 0) :: d.addr != e.addr
  {
    hide Deliveries, ServedOnce, Pass, Ascending, Registered, Separated, Answers, Contains;
    var e, ws := list[j], Pass(list, 0);
    a := PassCovers(list, 0, j);
    AscendingAt(list, j, j);
    EntryRegistered(list, db, j);
    assert Answers(rs[a], ws[a], mem);
    AnswerIs(rs[a], ws[a], mem);
    WindowServes(db, mem, ws[a], rs[a], e);
    forall b, d | 0 <= b < |rs| && b != a && d in (AnswerIs(rs[b], ws[b], mem); Deliveries(db, rs[b], 0))
      ensures d.addr != e.addr
    {
      AnswerIs(rs[b], ws[b], mem);
      OtherWindowsSilent(list, db, mem, b, rs[b], j, d);
    }
    forall b | 0 <= b < |rs| ensures IsResponse(rs[b]) {
      AnswerIs(rs[b], ws[b], mem);
    }
  }

  lemma AnswerIs(r: seq<byte>, w: Window, mem: Memory)
    requires Answers(r, w, mem)
    ensures IsResponse(r)
  {
  }

  lemma EntryRegistered(list: seq<RegInfo>, db: map<u16, u16>, j: nat)
    requires Registered(list, db) && j < |list|
    ensures list[j].addr in db && db[list[j].addr] == list[j].len
  {
  }

  /** So an object written before, and whole in its window, reads its written value after the C conversion. */
  lemma PassRoundTrip(list: seq<RegInfo>, db: map<u16, u16>, mem: Memory, rs: seq<seq<byte>>, j: nat,
                      kind: string, value: int) returns (a: nat, v: nat)
    requires Ascending(list) && Registered(list, db) && Separated(db) && j < |list|
    requires |rs| == |Pass(list, 0)| && forall k | 0 <= k < |rs| :: Answers(rs[k], Pass(list, 0)[k], mem)
    requires Convertible(kind) && list[j].len == RegLen(kind)
    requires Slice(mem, list[j].addr, RegLen(kind)) == Words(kind, Converted(kind, value))
    ensures a < |rs| && IsResponse(rs[a]) && Contains(Pass(list, 0)[a], list[j].addr)
    ensures ServedOnce(Deliveries(db, rs[a], 0), Delivery(list[j].addr, v))
    ensures !(list[j].len == 2 && list[j].addr == Pass(list, 0)[a].base + 63) ==>
              Converted(kind, v) == Converted(kind, value)
  {
    hide Deliveries, ServedOnce, Pass, Ascending, Registered, Separated, Answers, Contains, Words, Converted,
         Contains32;
    a := PassServes(list, db, mem, rs, j);
    var e := list[j];
    v := ValueOf(mem, e, e.addr != Pass(list, 0)[a].base + 63);
    ValueRoundTrip(kind, value);
    SliceIs(mem, e.addr);
  }

  lemma SliceIs(mem: Memory, addr: u16)
    ensures Slice(mem, addr, 1) == [mem[addr]] && Slice(mem, addr, 2) == [mem[addr], mem[Wrap(addr + 1)]]
  {
  }

  // ----- the objects that do it -----

  /** What the responses deliver, one after the other. */
  function AllDeliveries(db: map<u16, u16>, rs: seq<seq<byte>>): seq<Delivery> {
    if rs == [] then []
    else
      var r := rs[|rs| - 1];
      AllDeliveries(db, rs[..|rs| - 1]) + if IsResponse(r) && Accepted(r) then Deliveries(db, r, 0) else []
  }

  lemma ServedByOne(x: seq<Delivery>, y: seq<Delivery>, d: Delivery)
    ensures ServedOnce(x, d) && (forall e | e in y :: e.addr != d.addr) ==> ServedOnce(x + y, d)
    ensures ServedOnce(y, d) && (forall e | e in x :: e.addr != d.addr) ==> ServedOnce(x + y, d)
  {
    if ServedOnce(x, d) && forall e | e in y :: e.addr != d.addr {
      var k :| 0 <= k < |x| && x[k] == d && forall m | 0 <= m < |x| && x[m].addr == d.addr :: m == k;
      assert (x + y)[k] == d;
    }
    if ServedOnce(y, d) && forall e | e in x :: e.addr != d.addr {
      var k :| 0 <= k < |y| && y[k] == d && forall m | 0 <= m < |y| && y[m].addr == d.addr :: m == k;
      assert (x + y)[|x| + k] == d;
    }
  }

  /** What one of the responses serves once, and no other one serves, is served once by all of them together. */
  lemma {:induction false} ServedAmong(db: map<u16, u16>, rs: seq<seq<byte>>, a: nat, d: Delivery)
    requires forall k | 0 <= k < |rs| :: IsResponse(rs[k]) && Accepted(rs[k])
    requires a < |rs| ==> ServedOnce(Deliveries(db, rs[a], 0), d)
    requires forall b | 0 <= b < |rs| && b != a :: forall x | x in Deliveries(db, rs[b], 0) :: x.addr != d.addr
    ensures if a < |rs| then ServedOnce(AllDeliveries(db, rs), d)
            else forall x | x in AllDeliveries(db, rs) :: x.addr != d.addr
  {
    hide Deliveries, ServedOnce, Accepted;
    if rs != [] {
      var n := |rs| - 1;
      ServedAmong(db, rs[..n], a, d);
      ServedByOne(AllDeliveries(db, rs[..n]), Deliveries(db, rs[n], 0), d);
    }
  }

  /** All the responses of an answered pass together serve each entry exactly once. */
  lemma PassDelivers(list: seq<RegInfo>, db: map<u16, u16>, mem: Memory, rs: seq<seq<byte>>, j: nat) returns (a: nat)
    requires Ascending(list) && Registered(list, db) && Separated(db) && j < |list|
    requires |rs| == |Pass(list, 0)| && forall k | 0 <= k < |rs| :: Answers(rs[k], Pass(list, 0)[k], mem)
    ensures var e, ws := list[j], Pass(list, 0);
            && a < |ws| && Contains(ws[a], e.addr)
            && ServedOnce(AllDeliveries(db, rs), Delivery(e.addr, ValueOf(mem, e, e.addr != ws[a].base + 63)))
  {
    hide Deliveries, ServedOnce, Pass, Ascending, Registered, Separated, Contains, ValueOf, Accepted, Carries;
    var e := list[j];
    a := PassServes(list, db, mem, rs, j);
    ServedAmong(db, rs, a, Delivery(e.addr, ValueOf(mem, e, e.addr != Pass(list, 0)[a].base + 63)));
  }

  /** The pieces the windows are requested in. */
  function PiecesFor(ws: seq<Window>): (ps: seq<Piece>)
    ensures |ps| == |ws|
  {
    seq(|ws|, i requires 0 <= i < |ws| => Piece(ws[i].base, ws[i].len))
  }

  lemma WindowIsOnePiece(w: Window)
    requires 1 <= w.len <= WINDOW_MAX
    ensures Pieces(w.base, w.len, 0) == [Piece(w.base, w.len)]
  {
  }

  lemma OnePieceMore(q: seq<ReadRequest>, dst: byte, ws: seq<Window>)
    requires ws != []
    ensures Enqueued(Enqueued(q, dst, [Piece(ws[0].base, ws[0].len)]), dst, PiecesFor(ws[1..]))
            == Enqueued(q, dst, PiecesFor(ws))
  {
    var one := [Piece(ws[0].base, ws[0].len)];
    assert PiecesFor(ws)[1..] == PiecesFor(ws[1..]);
    assert one[1..] == [];
  }

  /** The read requests the page's signals become. */
  method RequestAll(master: CommJ1939Db, ws: seq<Window>)
    requires forall w | w in ws :: 1 <= w.len <= WINDOW_MAX
    modifies master`readQueue
    ensures master.readQueue == Enqueued(old(master.readQueue), master.dst, PiecesFor(ws))
  {
    hide Pieces, Enqueued, PiecesFor;
    for i := 0 to |ws|
      invariant Enqueued(master.readQueue, master.dst, PiecesFor(ws[i..]))
                == Enqueued(old(master.readQueue), master.dst, PiecesFor(ws))
    {
      WindowIsOnePiece(ws[i]);
      OnePieceMore(master.readQueue, master.dst, ws[i..]);
      assert ws[i..][1..] == ws[i + 1..];
      master.RequestReadReg(ws[i].base, ws[i].len);
    }
    NothingMore(master.readQueue, master.dst, ws[|ws|..]);
  }

  lemma NothingMore(q: seq<ReadRequest>, dst: byte, ws: seq<Window>)
    requires ws == []
    ensures Enqueued(q, dst, PiecesFor(ws)) == q
  {
  }

  /** The responses as they come in. */
  method ReceiveAll(master: CommJ1939Db, responses: seq<array<byte>>, ghost rs: seq<seq<byte>>)
    requires |rs| == |responses| && forall k | 0 <= k < |rs| :: responses[k][..] == rs[k] && IsResponse(rs[k])
    modifies master`delivered
    ensures master.delivered == old(master.delivered) + AllDeliveries(master.dbMap, rs)
  {
    hide Deliveries, Accepted;
    for i := 0 to |responses|
      invariant master.delivered == old(master.delivered) + AllDeliveries(master.dbMap, rs[..i])
    {
      assert rs[..i + 1][..i] == rs[..i];
      master.RecvReadRegHandle(responses[i]);
    }
    assert rs[..|rs|] == rs;
  }

  /** A turn of the page's timer from its first entry on, with an answer to every window: each window is queued once,
      as far as the queue has room, and each entry of the page is delivered exactly once, with what its window holds
      of it. */
  method ReadPass(page: PageWidgetsCollect, master: CommJ1939Db, autoReadEn: bool,
                  responses: seq<array<byte>>, ghost rs: seq<seq<byte>>, ghost mem: Memory)
    requires 0 < |page.regInfoList| < 0x1_0000 && page.requestGetIndex == 0 && (page.isAutoRead ==> autoReadEn)
    requires Ascending(page.regInfoList) && Registered(page.regInfoList, master.dbMap) && Separated(master.dbMap)
    requires |responses| == |rs| == |Pass(page.regInfoList, 0)|
    requires forall k | 0 <= k < |rs| :: responses[k][..] == rs[k] && Answers(rs[k], Pass(page.regInfoList, 0)[k], mem)
    requires |master.readQueue| <= QUEUE_MAX
    modifies page`requestGetIndex, page`timerActive, page`requests, master`readQueue, master`delivered
    ensures var ws := Pass(page.regInfoList, 0);
            var n := Min(|ws|, 200 - |old(master.readQueue)|);
            && page.requests == old(page.requests) + ws
            && master.readQueue
               == old(master.readQueue)
                  + seq(n, i requires 0 <= i < n => ReadRequest(master.dst, Piece(ws[i].base, ws[i].len)))
    ensures var ds := AllDeliveries(master.dbMap, rs);
            && master.delivered == old(master.delivered) + ds
            && forall j | 0 <= j < |page.regInfoList| :: EntryServed(page.regInfoList, j, mem, ds)
  {
    hide Pass, Ascending, Registered, Separated, Answers, EntryServed, Enqueued;
    ghost var list, ws := page.regInfoList, Pass(page.regInfoList, 0);
    var before := |page.requests|;
    page.AutoReadTimeout(autoReadEn);
    assert list[..|list|] == list;
    PassSeparate(list, 0);
    var signalled := page.requests[before..];
    assert signalled == ws;
    RequestAll(master, signalled);
    EnqueuedPieces(old(master.readQueue), master.dst, PiecesFor(ws));
    forall k | 0 <= k < |rs| ensures IsResponse(rs[k]) {
      AnswerIs(rs[k], ws[k], mem);
    }
    ReceiveAll(master, responses, rs);
    forall j | 0 <= j < |list| ensures EntryServed(list, j, mem, AllDeliveries(master.dbMap, rs)) {
      EntryIsServed(list, master.dbMap, mem, rs, j);
    }
  }

  /** Some window of the pass contains the entry, and the entry is delivered once, whole unless it is cut at the
      window's end. */
  ghost predicate EntryServed(list: seq<RegInfo>, j: nat, mem: Memory, ds: seq<Delivery>)
    requires j < |list|
  {
    var e, ws := list[j], Pass(list, 0);
    exists a | 0 <= a < |ws| ::
      Contains(ws[a], e.addr) && ServedOnce(ds, Delivery(e.addr, ValueOf(mem, e, e.addr != ws[a].base + 63)))
  }

  lemma EntryIsServed(list: seq<RegInfo>, db: map<u16, u16>, mem: Memory, rs: seq<seq<byte>>, j: nat)
    requires Ascending(list) && Registered(list, db) && Separated(db) && j < |list|
    requires |rs| == |Pass(list, 0)| && forall k | 0 <= k < |rs| :: Answers(rs[k], Pass(list, 0)[k], mem)
    ensures EntryServed(list, j, mem, AllDeliveries(db, rs))
  {
    hide Pass, Ascending, Registered, Separated, Answers, Contains, ValueOf, ServedOnce, AllDeliveries;
    var a := PassDelivers(list, db, mem, rs, j);
  }
}
