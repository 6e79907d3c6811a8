/**
 The list of nodes being updated (boot_update/boot_update_node.cpp) on the intrusive singly linked
 list of boot_update/rt_list_slist/rt_slist.h. The functions on sequences say what each operation
 means; the methods walk and relink heap nodes.
 */
module UpdateNodes {

  // ----- the meaning on sequences -----

  /** A listed node: its bus address and the last (step, offset) it acknowledged. */
  datatype NodeVal = NodeVal(addr: nat, step: nat, offset: nat) {
    predicate At(step: nat, offset: nat) {
      this.step == step && this.offset == offset
    }
  }

  function SetProcess(nodes: seq<NodeVal>, addr: nat, step: nat, offset: nat): (r: seq<NodeVal>)
    ensures |r| == |nodes|
  {
    if nodes == [] then []
    else if nodes[0].addr == addr then [NodeVal(addr, step, offset)] + nodes[1..]
    else [nodes[0]] + SetProcess(nodes[1..], addr, step, offset)
  }

  predicate AllAt(nodes: seq<NodeVal>, step: nat, offset: nat) {
    forall n | n in nodes :: n.At(step, offset)
  }

  function KeepAt(nodes: seq<NodeVal>, step: nat, offset: nat): seq<NodeVal> {
    if nodes == [] then []
    else KeepAt(nodes[..|nodes| - 1], step, offset)
         + if nodes[|nodes| - 1].At(step, offset) then [nodes[|nodes| - 1]] else []
  }

  predicate Listed(nodes: seq<NodeVal>, addr: nat) {
    exists n | n in nodes :: n.addr == addr
  }

  function RemoveFirst(nodes: seq<NodeVal>, addr: nat): seq<NodeVal> {
    if nodes == [] then []
    else if nodes[0].addr == addr then nodes[1..]
    else [nodes[0]] + RemoveFirst(nodes[1..], addr)
  }

  /** The list of a new session: one node per address, with no progress. */
  function StartNodes(addrs: seq<nat>): (nodes: seq<NodeVal>)
    ensures |nodes| == |addrs|
    ensures forall i | 0 <= i < |nodes| :: nodes[i] == NodeVal(addrs[i], 0, 0)
  {
    seq(|addrs|, i requires 0 <= i < |addrs| => NodeVal(addrs[i], 0, 0))
  }

  ghost predicate DistinctAddrs(nodes: seq<NodeVal>) {
    forall i, j | 0 <= i < j < |nodes| :: nodes[i].addr != nodes[j].addr
  }

  lemma {:induction false} KeepDistinct(nodes: seq<NodeVal>, step: nat, offset: nat)
    requires DistinctAddrs(nodes)
    ensures DistinctAddrs(KeepAt(nodes, step, offset))
  {
    if nodes != [] {
      var n := |nodes| - 1;
      KeepDistinct(nodes[..n], step, offset);
      var front := KeepAt(nodes[..n], step, offset);
      forall i | 0 <= i < |front| ensures front[i].addr != nodes[n].addr {
        KeepAtIsFilter(nodes[..n], step, offset, front[i]);
        var j :| 0 <= j < n && nodes[j] == front[i];
      }
    }
  }

  lemma KeepOneMore(nodes: seq<NodeVal>, i: nat, step: nat, offset: nat)
    requires i < |nodes|
    ensures KeepAt(nodes[..i + 1], step, offset)
            == KeepAt(nodes[..i], step, offset) + if nodes[i].At(step, offset) then [nodes[i]] else []
  {
    assert nodes[..i + 1][..i] == nodes[..i];
  }

  /** Only the first node with the address changes. */
  lemma {:induction false} SetProcessAt(nodes: seq<NodeVal>, addr: nat, step: nat, offset: nat, i: nat)
    requires i < |nodes|
    ensures SetProcess(nodes, addr, step, offset)[i]
            == if nodes[i].addr == addr && (forall j | 0 <= j < i :: nodes[j].addr != addr)
               then NodeVal(addr, step, offset) else nodes[i]
  {
    if i > 0 {
      if nodes[0].addr != addr {
        SetProcessAt(nodes[1..], addr, step, offset, i - 1);
        assert forall j | 0 <= j < i - 1 :: nodes[1..][j] == nodes[j + 1];
        if forall j | 0 <= j < i - 1 :: nodes[1..][j].addr != addr {
          forall j | 0 <= j < i ensures nodes[j].addr != addr {
            if j > 0 { assert nodes[1..][j - 1].addr != addr; }
          }
        }
      }
    }
  }

  /** `KeepAt` is exactly the filter: a value survives as often as it occurs if it matches, and not at all otherwise. */
  lemma {:induction false} KeepAtIsFilter(nodes: seq<NodeVal>, step: nat, offset: nat, v: NodeVal)
    ensures multiset(KeepAt(nodes, step, offset))[v] == if v.At(step, offset) then multiset(nodes)[v] else 0
    ensures v in KeepAt(nodes, step, offset) <==> v in nodes && v.At(step, offset)
  {
    if nodes != [] {
      var n := |nodes| - 1;
      assert nodes == nodes[..n] + [nodes[n]];
      KeepAtIsFilter(nodes[..n], step, offset, v);
    }
  }

  lemma {:induction false} KeepAtAll(nodes: seq<NodeVal>, step: nat, offset: nat)
    ensures KeepAt(nodes, step, offset) == nodes <==> AllAt(nodes, step, offset)
    ensures |KeepAt(nodes, step, offset)| <= |nodes|
    ensures |KeepAt(nodes, step, offset)| == |nodes| ==> KeepAt(nodes, step, offset) == nodes
  {
    if nodes != [] {
      var n := |nodes| - 1;
      KeepAtAll(nodes[..n], step, offset);
      assert nodes == nodes[..n] + [nodes[n]];
    }
  }

  // ----- the heap list -----

  class Node {
    var next: Node?
    var addr: nat
    var step: nat
    var offset: nat

    constructor (addr: nat)
      ensures this.addr == addr && step == 0 && offset == 0 && next == null
    {
      this.addr, step, offset, next := addr, 0, 0, null;
    }

    ghost function Val(): NodeVal
      reads this
    {
      NodeVal(addr, step, offset)
    }
  }

  class NodeList {
    /** The list head: only its `next` is used. */
    const root: Node
    /** The head followed by the listed nodes. */
    ghost var chain: seq<Node>
    /** The values of the listed nodes. */
    ghost var contents: seq<NodeVal>

    ghost predicate Valid()
      reads this, chain
    {
      && |chain| >= 1 && chain[0] == root
      && Distinct(chain)
      && (forall i {:trigger chain[i].next} | 0 <= i < |chain| :: chain[i].next == NodeAt(chain, i + 1))
      && |contents| == |chain| - 1
      && (forall i | 0 <= i < |contents| :: contents[i] == chain[i + 1].Val())
    }

    constructor ()
      ensures Valid() && contents == [] && fresh(chain)
    {
      root := new Node(0);
      contents := [];
      new;
      chain := [root];
    }

    method IsEmpty() returns (empty: bool)
      requires Valid()
      ensures empty == (contents == [])
    {
      assert chain[0].next == NodeAt(chain, 1);
      empty := root.next == null;
    }

    /** The walk of `rt_slist_append`: the last node of the chain. */
    method Tail() returns (node: Node)
      requires Valid()
      ensures node == chain[|chain| - 1]
    {
      node := root;
      ghost var k := 0;
      while node.next != null
        invariant 0 <= k < |chain| && chain[k] == node
        decreases |chain| - k
      {
        node := node.next;
        k := k + 1;
      }
      assert chain[k].next == NodeAt(chain, k + 1);
    }

    /** `rt_slist_append` */
    method Append(n: Node)
      requires Valid() && n !in chain
      modifies this, chain, n
      ensures Valid() && chain == old(chain) + [n]
      ensures contents == old(contents) + [old(n.Val())]
    {
      var node := Tail();
      node.next := n;
      n.next := null;
      chain := chain + [n];
      contents := contents + [n.Val()];
    }

    /** The walk of `rt_slist_remove`: the node whose successor is `n`. */
    method Predecessor(n: Node, ghost k: nat) returns (node: Node)
      requires Valid() && 1 <= k < |chain| && chain[k] == n
      ensures node == chain[k - 1]
    {
      node := root;
      ghost var j := 0;
      while node.next != null && node.next != n
        invariant 0 <= j < k && chain[j] == node
        decreases |chain| - j
      {
        node := node.next;
        j := j + 1;
      }
      assert chain[j].next == NodeAt(chain, j + 1);
    }

    /** `rt_slist_remove`: unlink the listed node `n`. */
    method Remove(n: Node, ghost k: nat)
      requires Valid() && 1 <= k < |chain| && chain[k] == n
      modifies this, chain
      ensures Valid() && chain == old(chain[..k] + chain[k + 1..])
      ensures contents == old(contents[..k - 1] + contents[k..])
    {
      var node := Predecessor(n, k);
      ghost var was, vals := chain, contents;
      assert was[k - 1].next == NodeAt(was, k) && was[k].next == NodeAt(was, k + 1);
      if node.next != null {
        node.next := node.next.next;
      }
      forall i | 0 <= i < |was| && i != k - 1 ensures was[i].next == NodeAt(was, i + 1) {
        assert was[i] != was[k - 1];
      }
      chain := was[..k] + was[k + 1..];
      contents := vals[..k - 1] + vals[k..];
      Unlinked(was, k);
      ValuesWithout(was, vals, k);
    }

    method Clear()
      requires Valid()
      modifies this, root
      ensures Valid() && contents == [] && chain == [root]
    {
      root.next := null;
      chain := [root];
      contents := [];
    }

    method AddNode(addr: nat)
      requires Valid()
      modifies this, chain
      ensures Valid() && |chain| == |old(chain)| + 1 && chain[..|chain| - 1] == old(chain) && fresh(chain[|chain| - 1])
      ensures contents == old(contents) + [NodeVal(addr, 0, 0)]
    {
      var n := new Node(addr);
      Append(n);
    }

    /** Clear the list and append one node per address, as both masters do at a start. */
    method ListAll(addrs: seq<nat>)
      requires Valid()
      modifies this, chain
      ensures Valid() && contents == StartNodes(addrs)
      ensures forall j | 0 <= j < |chain| :: chain[j] in old(chain) || fresh(chain[j])
    {
      Clear();
      for i := 0 to |addrs|
        invariant Valid() && contents == StartNodes(addrs[..i])
        invariant forall j | 0 <= j < |chain| :: chain[j] in old(chain) || fresh(chain[j])
      {
        AddNode(addrs[i]);
        assert StartNodes(addrs[..i + 1]) == StartNodes(addrs[..i]) + [NodeVal(addrs[i], 0, 0)];
      }
      assert addrs[..|addrs|] == addrs;
    }

    /** The search shared by the operations on one address: the first listed node that has it. */
    method FindFirst(addr: nat) returns (node: Node?, ghost k: nat)
      requires Valid()
      ensures 1 <= k <= |chain| && node == NodeAt(chain, k)
      ensures forall j | 0 <= j < k - 1 :: contents[j].addr != addr
      ensures node != null ==> contents[k - 1].addr == addr
      ensures node != null <==> Listed(contents, addr)
    {
      assert chain[0].next == NodeAt(chain, 1);
      node := root.next;
      k := 1;
      while node != null
        invariant 1 <= k <= |chain| && node == NodeAt(chain, k)
        invariant forall j | 0 <= j < k - 1 :: contents[j].addr != addr
        decreases |chain| - k
      {
        assert contents[k - 1] == chain[k].Val() && chain[k].next == NodeAt(chain, k + 1);
        if node.addr == addr {
          assert contents[k - 1] in contents;
          return;
        }
        node := node.next;
        k := k + 1;
      }
    }

    /** `set_update_node_process` */
    method SetNodeProcess(srcAddr: nat, step: nat, offset: nat) returns (ghost found: bool)
      requires Valid()
      modifies this, chain
      ensures Valid() && chain == old(chain)
      ensures contents == SetProcess(old(contents), srcAddr, step, offset)
      ensures found == Listed(old(contents), srcAddr)
    {
      var node, k := FindFirst(srcAddr);
      found := node != null;
      if node != null {
        SetFirst(contents, k - 1, srcAddr, step, offset);
        node.step := step;
        node.offset := offset;
        contents := contents[k - 1 := NodeVal(srcAddr, step, offset)];
        forall i | 0 <= i < |contents| ensures contents[i] == chain[i + 1].Val() {
          if i != k - 1 { assert chain[i + 1] != chain[k]; }
        }
      } else {
        SetNone(contents, srcAddr, step, offset);
      }
    }

    /** `judge_update_node_is_same` */
    method IsSame(step: nat, offset: nat) returns (same: bool)
      requires Valid()
      ensures same == AllAt(contents, step, offset)
    {
      assert chain[0].next == NodeAt(chain, 1);
      var node := root.next;
      ghost var k := 1;
      while node != null
        invariant 1 <= k <= |chain| && node == NodeAt(chain, k)
        invariant forall j | 0 <= j < k - 1 :: contents[j].At(step, offset)
        decreases |chain| - k
      {
        assert contents[k - 1] == chain[k].Val() && chain[k].next == NodeAt(chain, k + 1);
        if node.step != step || node.offset != offset {
          assert contents[k - 1] in contents;
          return false;
        }
        node := node.next;
        k := k + 1;
      }
      same := true;
    }

    /** `update_node_is_exist` */
    method Exists(addr: nat) returns (found: bool)
      requires Valid()
      ensures found == Listed(contents, addr)
    {
      var node, _ := FindFirst(addr);
      found := node != null;
    }

    /** `remove_update_node_diff`: one pass that unlinks, by a fresh walk from the head each time, every node
        whose progress differs. */
    method RemoveDiff(step: nat, offset: nat)
      requires Valid()
      modifies this, chain
      ensures Valid() && contents == KeepAt(old(contents), step, offset)
      ensures forall n | n in chain :: n in old(chain)
    {
      assert chain[0].next == NodeAt(chain, 1);
      var node := root.next;
      ghost var before, vals := chain, contents;
      ghost var i := 1;
      ScanStarts(step, offset);
      hide Scanned;
      while node != null
        invariant Scanned(before, vals, i, step, offset) && node == NodeAt(before, i)
        invariant forall j | 0 <= j < |chain| :: chain[j] in before
        decreases |before| - i
      {
        ScannedNext(before, vals, i, step, offset);
        var next := node.next;
        Visit(node, before, vals, i, step, offset);
        node := next;
        i := i + 1;
      }
      ScanEnds(before, vals, i, step, offset);
    }

    lemma ScanStarts(step: nat, offset: nat)
      requires Valid()
      ensures Scanned(chain, contents, 1, step, offset)
    {
      assert contents[..0] == [] && chain[1..] == chain[|chain| - (|chain| - 1)..];
    }

    lemma ScannedNext(before: seq<Node>, vals: seq<NodeVal>, i: nat, step: nat, offset: nat)
      requires Scanned(before, vals, i, step, offset) && i < |before|
      ensures before[i].next == NodeAt(before, i + 1) && forall j | 0 <= j < |chain| :: chain[j] in before
    {
      hide KeepAt;
      NextOf(before, i);
    }

    lemma ScanEnds(before: seq<Node>, vals: seq<NodeVal>, i: nat, step: nat, offset: nat)
      requires Scanned(before, vals, i, step, offset) && NodeAt(before, i) == null
      ensures Valid() && contents == KeepAt(vals, step, offset) && forall j | 0 <= j < |chain| :: chain[j] in before
    {
      hide KeepAt;
      assert i == |before| && vals[..i - 1] == vals;
    }

    /** The scan has passed the first `i` nodes of `before`: what it kept of them is followed by the rest. */
    ghost predicate Scanned(before: seq<Node>, vals: seq<NodeVal>, i: nat, step: nat, offset: nat)
      reads this, chain
    {
      && Valid() && 1 <= i <= |before| && |vals| == |before| - 1
      && |before| - i < |chain|
      && chain[|chain| - (|before| - i)..] == before[i..]
      && (forall j | 0 <= j < |chain| :: chain[j] in before)
      && contents == KeepAt(vals[..i - 1], step, offset) + vals[i - 1..]
    }

    /** The body of the scan: keep or unlink one node. */
    method Visit(node: Node, ghost before: seq<Node>, ghost vals: seq<NodeVal>, ghost i: nat, step: nat, offset: nat)
      requires Scanned(before, vals, i, step, offset) && i < |before| && node == before[i]
      modifies this, chain
      ensures Scanned(before, vals, i + 1, step, offset)
    {
      hide KeepAt;
      ghost var k := |chain| - (|before| - i);
      ghost var was := chain;
      KeepOneMore(vals, i - 1, step, offset);
      assert chain[k..][0] == node && before[i..][1..] == before[i + 1..];
      assert vals[i - 1..] == [vals[i - 1]] + vals[i..];
      assert contents[k - 1] == vals[i - 1];
      if node.step != step || node.offset != offset {
        Remove(node, k);
        assert chain[k..] == was[k + 1..];
      } else {
        assert chain[k + 1..] == chain[k..][1..];
      }
    }

    lemma NextOf(before: seq<Node>, i: nat)
      requires Valid() && i < |before| && |before| - i < |chain| && chain[|chain| - (|before| - i)..] == before[i..]
      ensures before[i].next == NodeAt(before, i + 1)
    {
      var k := |chain| - (|before| - i);
      assert chain[k] == before[i..][0] && chain[k].next == NodeAt(chain, k + 1);
      if i + 1 < |before| {
        assert chain[k + 1] == before[i..][1];
      }
    }

    /** `remove_update_node`: unlink the first node with the address. */
    method RemoveNode(addr: nat)
      requires Valid()
      modifies this, chain
      ensures Valid() && contents == RemoveFirst(old(contents), addr)
      ensures forall n | n in chain :: n in old(chain)
    {
      var node, k := FindFirst(addr);
      if node != null {
        RemoveAt(contents, k - 1, addr);
        Remove(node, k);
      } else {
        RemoveNone(contents, addr);
      }
    }
  }

  ghost predicate Distinct(nodes: seq<Node>) {
    forall i, j | 0 <= i < j < |nodes| :: nodes[i] != nodes[j]
  }

  lemma DistinctWithout(nodes: seq<Node>, k: nat)
    requires k < |nodes| && Distinct(nodes)
    ensures Distinct(nodes[..k] + nodes[k + 1..])
  {
    var r := nodes[..k] + nodes[k + 1..];
    forall i, j | 0 <= i < j < |r| ensures r[i] != r[j] {
      assert r[i] == nodes[if i < k then i else i + 1] && r[j] == nodes[if j < k then j else j + 1];
    }
  }

  lemma ValuesWithout(was: seq<Node>, vals: seq<NodeVal>, k: nat)
    requires 1 <= k < |was| && |vals| == |was| - 1 && forall i | 0 <= i < |vals| :: vals[i] == was[i + 1].Val()
    ensures var c, v := was[..k] + was[k + 1..], vals[..k - 1] + vals[k..];
            |v| == |c| - 1 && forall i | 0 <= i < |v| :: v[i] == c[i + 1].Val()
  {
    var c, v := was[..k] + was[k + 1..], vals[..k - 1] + vals[k..];
    forall i | 0 <= i < |v| ensures v[i] == c[i + 1].Val() {
      var w := if i < k - 1 then i else i + 1;
      assert v[i] == vals[w] && c[i + 1] == was[w + 1];
    }
  }

  /** With the link before it led past node `k`, the rest is a chain. */
  lemma Unlinked(was: seq<Node>, k: nat)
    requires 1 <= k < |was| && Distinct(was)
    requires forall i {:trigger was[i].next} | 0 <= i < |was| ::
               was[i].next == NodeAt(was, if i == k - 1 then k + 1 else i + 1)
    ensures var c := was[..k] + was[k + 1..];
            Distinct(c) && forall i {:trigger c[i].next} | 0 <= i < |c| :: c[i].next == NodeAt(c, i + 1)
  {
    var c := was[..k] + was[k + 1..];
    DistinctWithout(was, k);
    forall i | 0 <= i < |c| ensures c[i].next == NodeAt(c, i + 1) {
      var w := if i < k then i else i + 1;
      assert c[i] == was[w] && was[w].next == NodeAt(was, if w == k - 1 then k + 1 else w + 1);
    }
  }

  /** The node at a position, or null just past the end. */
  ghost function NodeAt(chain: seq<Node>, i: nat): (n: Node?) {
    if i < |chain| then chain[i] else null
  }

  lemma {:induction false} SetFirst(nodes: seq<NodeVal>, k: nat, addr: nat, step: nat, offset: nat)
    requires k < |nodes| && nodes[k].addr == addr && forall j | 0 <= j < k :: nodes[j].addr != addr
    ensures SetProcess(nodes, addr, step, offset) == nodes[k := NodeVal(addr, step, offset)]
  {
    if k > 0 {
      SetFirst(nodes[1..], k - 1, addr, step, offset);
    }
  }

  lemma {:induction false} SetNone(nodes: seq<NodeVal>, addr: nat, step: nat, offset: nat)
    requires forall j | 0 <= j < |nodes| :: nodes[j].addr != addr
    ensures SetProcess(nodes, addr, step, offset) == nodes && !Listed(nodes, addr)
  {
    if nodes != [] {
      SetNone(nodes[1..], addr, step, offset);
    }
  }

  lemma {:induction false} RemoveAt(nodes: seq<NodeVal>, k: nat, addr: nat)
    requires k < |nodes| && nodes[k].addr == addr && forall j | 0 <= j < k :: nodes[j].addr != addr
    ensures RemoveFirst(nodes, addr) == nodes[..k] + nodes[k + 1..]
  {
    if k > 0 {
      RemoveAt(nodes[1..], k - 1, addr);
    }
  }

  lemma {:induction false} RemoveNone(nodes: seq<NodeVal>, addr: nat)
    requires forall j | 0 <= j < |nodes| :: nodes[j].addr != addr
    ensures RemoveFirst(nodes, addr) == nodes
  {
    if nodes != [] {
      RemoveNone(nodes[1..], addr);
    }
  }
}
