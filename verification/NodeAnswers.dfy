/**
 Which of the listed nodes have answered, and what one more answer changes about it.
 */
module NodeAnswers {
  import opened UpdateNodes

  /** The addresses not recorded with the given step and offset. */
  ghost function OwingOf(nodes: seq<NodeVal>, step: nat, offset: nat): set<nat> {
    set n | n in nodes && !n.At(step, offset) :: n.addr
  }

  lemma OwingNobody(nodes: seq<NodeVal>, step: nat, offset: nat)
    ensures OwingOf(nodes, step, offset) == {} <==> AllAt(nodes, step, offset)
  {
    if OwingOf(nodes, step, offset) == {} {
      forall n | n in nodes ensures n.At(step, offset) {
        assert n.At(step, offset) || n.addr in OwingOf(nodes, step, offset);
      }
    }
  }

  lemma MarkSettles(nodes: seq<NodeVal>, src: nat, step: nat, offset: nat)
    requires DistinctAddrs(nodes)
    ensures var t := SetProcess(nodes, src, step, offset);
            DistinctAddrs(t) && OwingOf(t, step, offset) == OwingOf(nodes, step, offset) - {src}
  {
    hide SetProcess;
    var t := SetProcess(nodes, src, step, offset);
    forall i | 0 <= i < |nodes|
      ensures t[i] == if nodes[i].addr == src then NodeVal(src, step, offset) else nodes[i]
    {
      SetProcessAt(nodes, src, step, offset, i);
    }
    forall a | a in OwingOf(nodes, step, offset) && a != src ensures a in OwingOf(t, step, offset) {
      var i :| 0 <= i < |nodes| && !nodes[i].At(step, offset) && nodes[i].addr == a;
      assert t[i] in t;
    }
    forall a | a in OwingOf(t, step, offset) ensures a in OwingOf(nodes, step, offset) && a != src {
      var i :| 0 <= i < |t| && !t[i].At(step, offset) && t[i].addr == a;
      assert nodes[i] in nodes;
    }
  }
}
