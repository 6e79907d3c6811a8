/**
 The polling timer of a page (page/pagewidgetscollect.cpp): the page's registers are requested in windows of at
 most 64 registers, packed greedily in list order.
 */
module PollingWindows {
  import opened CanardDsdl
  import opened Registers

  const WINDOW_MAX: nat := 64

  datatype RegInfo = RegInfo(addr: u16, len: u16)

  /** A request for `len` registers from `base` on. */
  datatype Window = Window(base: u16, len: u16)

  function Distance(a: int, b: int): (d: nat)
    ensures d == a - b || d == b - a
  {
    if a < b then b - a else a - b
  }

  /** Where the window that starts at `base` stops taking entries: the first entry 64 or more registers away. */
  function GroupEnd(list: seq<RegInfo>, base: u16, i: nat): (e: nat)
    requires i <= |list|
    ensures i <= e <= |list|
    ensures forall j | i <= j < e :: Distance(list[j].addr, base) < WINDOW_MAX
    ensures e < |list| ==> Distance(list[e].addr, base) >= WINDOW_MAX
    decreases |list| - i
  {
    if i == |list| || Distance(list[i].addr, base) >= WINDOW_MAX then i else GroupEnd(list, base, i + 1)
  }

  /** The window for the entries from `i` to the last one taken. */
  function WindowAt(list: seq<RegInfo>, i: nat): (w: Window)
    requires i < |list|
    ensures w.len <= WINDOW_MAX
  {
    var base := list[i].addr;
    var last := list[GroupEnd(list, base, i) - 1];
    Window(base, Min(Distance((last.addr as int) + (last.len as int), base), WINDOW_MAX))
  }

  /** The windows of one pass from entry `i` on. */
  function Pass(list: seq<RegInfo>, i: nat): (ws: seq<Window>)
    decreases |list| - i
  {
    if i >= |list| then [] else [WindowAt(list, i)] + Pass(list, GroupEnd(list, list[i].addr, i))
  }

  // ----- the timer slot -----

  class PageWidgetsCollect {
    var regInfoList: seq<RegInfo>
    var requestGetIndex: nat
    var isAutoRead: bool
    var timerActive: bool
    var requests: seq<Window>

    constructor (list: seq<RegInfo>, isAutoRead: bool)
      ensures regInfoList == list && requestGetIndex == 0 && this.isAutoRead == isAutoRead && timerActive
      ensures requests == []
    {
      regInfoList := list;
      requestGetIndex := 0;
      this.isAutoRead := isAutoRead;
      timerActive := true;
      requests := [];
    }

    /** `slot_auto_read_timeout`; the number of entries is kept in 16 bits. */
    method AutoReadTimeout(autoReadEn: bool)
      modifies this`requestGetIndex, this`timerActive, this`requests
      ensures var n := |regInfoList| % 0x1_0000;
              if isAutoRead && !autoReadEn then
                requests == old(requests) && requestGetIndex == old(requestGetIndex) && timerActive == old(timerActive)
              else if n == 0 || (old(requestGetIndex) >= n && !isAutoRead) then
                requests == old(requests) && requestGetIndex == old(requestGetIndex) && !timerActive
              else
                var start := if old(requestGetIndex) >= |regInfoList| then 0 else old(requestGetIndex);
                && requests == old(requests) + Pass(regInfoList[..n], start)
                && requestGetIndex == (if start < n then n else start) && timerActive == old(timerActive)
    {
      var mapCount := |regInfoList| % 0x1_0000;
      if !autoReadEn && isAutoRead {
        return;
      }
      if mapCount < 1 || (requestGetIndex >= mapCount && !isAutoRead) {
        timerActive := false;
        return;
      }
      if requestGetIndex >= |regInfoList| {
        requestGetIndex := 0;
      }
      RunPass(mapCount);
    }

    /** The outer loop. */
    method RunPass(mapCount: nat)
      requires mapCount <= |regInfoList|
      modifies this`requestGetIndex, this`requests
      ensures requests == old(requests) + Pass(regInfoList[..mapCount], old(requestGetIndex))
      ensures requestGetIndex == if old(requestGetIndex) < mapCount then mapCount else old(requestGetIndex)
    {
      hide WindowAt, GroupEnd;
      ghost var list, start := regInfoList[..mapCount], requestGetIndex;
      while requestGetIndex < mapCount
        invariant start <= requestGetIndex && (start < mapCount ==> requestGetIndex <= mapCount)
        invariant start >= mapCount ==> requestGetIndex == start
        invariant requests + Pass(list, requestGetIndex) == old(requests) + Pass(list, start)
        decreases mapCount - requestGetIndex
      {
        RequestOne(mapCount);
      }
    }

    /** The body of the outer loop: one window, and the entries it takes. */
    method RequestOne(mapCount: nat)
      requires requestGetIndex < mapCount <= |regInfoList|
      modifies this`requestGetIndex, this`requests
      ensures requests == old(requests) + [WindowAt(regInfoList[..mapCount], old(requestGetIndex))]
      ensures var list := regInfoList[..mapCount];
              requestGetIndex == GroupEnd(list, list[old(requestGetIndex)].addr, old(requestGetIndex))
      ensures old(requestGetIndex) < requestGetIndex <= mapCount
    {
      ghost var list, from := regInfoList[..mapCount], requestGetIndex;
      var requestRegAddr := regInfoList[requestGetIndex].addr;
      var id: int := requestRegAddr;
      var idBack: int := id + 1;
      var i := requestGetIndex;
      while i < mapCount
        invariant from <= i == requestGetIndex <= mapCount && requests == old(requests)
        invariant GroupEnd(list, requestRegAddr, i) == GroupEnd(list, requestRegAddr, from)
        invariant i > from ==> idBack == (list[i - 1].addr as int) + (list[i - 1].len as int)
      {
        var p := regInfoList[i];
        assert list[i] == p;
        id := p.addr;
        if Distance(id, requestRegAddr) >= WINDOW_MAX {
          break;
        }
        requestGetIndex := requestGetIndex + 1;
        idBack := id + p.len;
        i := i + 1;
      }
      assert GroupEnd(list, requestRegAddr, from) == i && list[from].addr == requestRegAddr && i > from;
      requests := requests + [Window(requestRegAddr, Min(Distance(idBack, requestRegAddr), WINDOW_MAX))];
    }
  }

  // ----- what a pass achieves on an ascending list -----

  /** Addresses strictly ascending, each entry one or two registers long. */
  ghost predicate Ascending(list: seq<RegInfo>) {
    && (forall i, j | 0 <= i < j < |list| :: list[i].addr < list[j].addr)
    && forall i | 0 <= i < |list| :: 1 <= list[i].len <= 2
  }

  /** Windows of 1 to 64 registers, each ending before the next one begins. */
  ghost predicate Separate(ws: seq<Window>) {
    && (forall a | 0 <= a < |ws| :: 1 <= ws[a].len <= WINDOW_MAX)
    && forall a, b | 0 <= a < b < |ws| :: ws[a].base + ws[a].len <= ws[b].base && ws[a].base + WINDOW_MAX <= ws[b].base
  }

  predicate Contains(w: Window, addr: nat) {
    w.base <= addr < w.base + w.len
  }

  lemma AscendingAt(list: seq<RegInfo>, i: nat, j: nat)
    requires Ascending(list) && i <= j < |list|
    ensures list[i].addr <= list[j].addr && (i < j ==> list[i].addr < list[j].addr) && 1 <= list[j].len <= 2
  {
  }

  lemma GroupOfAscending(list: seq<RegInfo>, i: nat)
    requires Ascending(list) && i < |list|
    ensures var w := WindowAt(list, i);
            && 1 <= w.len
            && var e := GroupEnd(list, list[i].addr, i);
               && i < e && (forall j | e <= j < |list| :: w.base + WINDOW_MAX <= list[j].addr)
               && forall j | i <= j < e ::
                    && Contains(w, list[j].addr)
                    && (Contains(w, list[j].addr + list[j].len - 1)
                        <==> list[j].addr + list[j].len <= w.base + WINDOW_MAX)
  {
    hide Ascending;
    var e := GroupEnd(list, list[i].addr, i);
    assert i < e by { assert Distance(list[i].addr, list[i].addr) == 0; }
    forall j | i <= j < |list| ensures list[i].addr <= list[j].addr && list[j].len >= 1 && list[j].len <= 2 {
      AscendingAt(list, i, j);
    }
    forall j | i <= j < e ensures j == e - 1 || list[j].addr < list[e - 1].addr {
      AscendingAt(list, j, e - 1);
    }
    forall j | e <= j < |list| ensures list[i].addr + WINDOW_MAX <= list[j].addr {
      AscendingAt(list, e, j);
    }
  }

  lemma SeparateCons(w: Window, rest: seq<Window>)
    requires 1 <= w.len <= WINDOW_MAX && Separate(rest)
    requires forall b | 0 <= b < |rest| :: w.base + WINDOW_MAX <= rest[b].base
    ensures Separate([w] + rest)
  {
    var ws := [w] + rest;
    forall b | 0 < b < |ws| ensures ws[b] == rest[b - 1] {}
  }

  /** The window begins at an entry of the list, number `i` or later. */
  ghost predicate Begins(list: seq<RegInfo>, i: nat, w: Window) {
    exists j :: i <= j < |list| && list[j].addr == w.base
  }

  /** The windows of a pass are disjoint, 1 to 64 registers long, and each begins at an entry of the list. */
  lemma {:induction false} PassSeparate(list: seq<RegInfo>, i: nat)
    requires Ascending(list)
    ensures Separate(Pass(list, i)) && forall a | 0 <= a < |Pass(list, i)| :: Begins(list, i, Pass(list, i)[a])
    decreases |list| - i
  {
    if i < |list| {
      hide GroupEnd, WindowAt, Separate, Ascending;
      var e := GroupEnd(list, list[i].addr, i);
      GroupOfAscending(list, i);
      BaseOfWindow(list, i);
      PassSeparate(list, e);
      var w, rest := WindowAt(list, i), Pass(list, e);
      forall b | 0 <= b < |rest| ensures w.base + WINDOW_MAX <= rest[b].base {
        assert Begins(list, e, rest[b]);
      }
      SeparateCons(w, rest);
      forall a | 0 <= a < |Pass(list, i)| ensures Begins(list, i, Pass(list, i)[a]) {
        assert a > 0 ==> Begins(list, e, rest[a - 1]);
      }
    }
  }

  lemma BaseOfWindow(list: seq<RegInfo>, i: nat)
    requires i < |list|
    ensures WindowAt(list, i).base == list[i].addr
  {
  }

  lemma WindowTight(list: seq<RegInfo>, i: nat) returns (j: nat)
    requires Ascending(list) && i < |list|
    ensures var w := WindowAt(list, i);
            && i <= j < |list| && Contains(w, list[j].addr)
            && w.base + w.len == Min(list[j].addr + list[j].len, w.base + 64)
            && forall k | j < k < |list| :: !Contains(w, list[k].addr)
  {
    hide Ascending;
    var e := GroupEnd(list, list[i].addr, i);
    assert i < e by { assert Distance(list[i].addr, list[i].addr) == 0; }
    j := e - 1;
    AscendingAt(list, i, j);
    GroupOfAscending(list, i);
  }

  /** No window asks for more than its entries: it ends with the last one that begins in it, or after 64 registers. */
  lemma {:induction false} PassTight(list: seq<RegInfo>, i: nat, a: nat) returns (j: nat)
    requires Ascending(list) && a < |Pass(list, i)|
    ensures var w := Pass(list, i)[a];
            && i <= j < |list| && Contains(w, list[j].addr)
            && w.base + w.len == Min(list[j].addr + list[j].len, w.base + 64)
            && forall k | j < k < |list| :: !Contains(w, list[k].addr)
    decreases |list| - i
  {
    hide WindowAt, GroupEnd, Ascending, Contains;
    if a == 0 {
      j := WindowTight(list, i);
    } else {
      GroupOfAscending(list, i);
      j := PassTight(list, GroupEnd(list, list[i].addr, i), a - 1);
    }
  }

  /** Every entry begins in exactly one window, and is read whole unless it is two registers long and starts 63 past
      the window's base. */
  lemma {:induction false} PassCovers(list: seq<RegInfo>, i: nat, j: nat) returns (a: nat)
    requires Ascending(list) && i <= j < |list|
    ensures var ws := Pass(list, i);
            && a < |ws| && Contains(ws[a], list[j].addr)
            && (forall b | 0 <= b < |ws| && Contains(ws[b], list[j].addr) :: b == a)
            && (Contains(ws[a], list[j].addr + list[j].len - 1)
                <==> !(list[j].len == 2 && list[j].addr == ws[a].base + 63))
    decreases |list| - i
  {
    hide GroupEnd, WindowAt;
    var e := GroupEnd(list, list[i].addr, i);
    GroupOfAscending(list, i);
    PassSeparate(list, i);
    if j < e {
      a := 0;
    } else {
      a := PassCovers(list, e, j);
      a := a + 1;
    }
  }

  /** Distinct numbers below `m` are at most `m` many. */
  lemma {:induction false} Pigeonhole(f: seq<nat>, m: nat)
    requires forall k | 0 <= k < |f| :: f[k] < m
    requires forall k, l | 0 <= k < l < |f| :: f[k] != f[l]
    ensures |f| <= m
  {
    if f != [] {
      assert f[0] < m;
      if k :| 0 <= k < |f| && f[k] == m - 1 {
        Pigeonhole(f[..k] + f[k + 1..], m - 1);
      } else {
        Pigeonhole(f, m - 1);
      }
    }
  }

  ghost predicate CoversAll(ws: seq<Window>, list: seq<RegInfo>) {
    forall j | 0 <= j < |list| :: exists a :: 0 <= a < |ws| && Contains(ws[a], list[j].addr)
  }

  /** No set of windows of at most 64 registers that covers every entry's address is smaller than the pass. */
  lemma PassFewest(list: seq<RegInfo>, others: seq<Window>)
    requires Ascending(list) && CoversAll(others, list)
    requires forall w | w in others :: w.len <= WINDOW_MAX
    ensures |Pass(list, 0)| <= |others|
    ensures CoversAll(Pass(list, 0), list)
  {
    PassSeparate(list, 0);
    var ws := Pass(list, 0);
    forall k | 0 <= k < |ws| ensures exists a :: 0 <= a < |others| && Contains(others[a], ws[k].base) {
      assert Begins(list, 0, ws[k]);
    }
    var f := seq(|ws|, k requires 0 <= k < |ws| => Holder(others, ws[k].base));
    forall k, l | 0 <= k < l < |f| ensures f[k] != f[l] {
      assert others[f[k]] in others;
    }
    Pigeonhole(f, |others|);
    forall j | 0 <= j < |list| ensures exists a :: 0 <= a < |ws| && Contains(ws[a], list[j].addr) {
      var a := PassCovers(list, 0, j);
    }
  }

  /** A window that contains the address. */
  ghost function Holder(ws: seq<Window>, addr: nat): (a: nat)
    requires exists a :: 0 <= a < |ws| && Contains(ws[a], addr)
    ensures a < |ws| && Contains(ws[a], addr)
  {
    var a :| 0 <= a < |ws| && Contains(ws[a], addr);
    a
  }
}
