/**
 Renumbering the edges of a loaded graph gives the graph that the renumbered edge list would have
 been loaded into.
 */
module RenumberedEdges {
  import opened RoadGraph
  import opened EdgeNormalisation
  import opened Permutations

  /** The new number of `v`; numbers that no node has stay. */
  function At(perm: seq<nat>, v: nat): nat {
    if v < |perm| then perm[v] else v
  }

  lemma ThereAndBack(perm: seq<nat>, order: seq<nat>, v: nat)
    requires Inverse(perm, order)
    ensures At(order, At(perm, v)) == v && At(perm, At(order, v)) == v
  {
  }

  function Renamed(e: Edge, perm: seq<nat>): Edge {
    Edge(At(perm, e.source), At(perm, e.target), e.data)
  }

  function AllRenamed(edges: seq<Edge>, perm: seq<nat>): (r: seq<Edge>)
    ensures |r| == |edges| && forall i :: 0 <= i < |r| ==> r[i] == Renamed(edges[i], perm)
  {
    seq(|edges|, i requires 0 <= i < |edges| => Renamed(edges[i], perm))
  }

  lemma RenamedBack(e: Edge, perm: seq<nat>, order: seq<nat>)
    requires Inverse(perm, order)
    ensures Renamed(Renamed(e, perm), order) == e && Renamed(Renamed(e, order), perm) == e
  {
    ThereAndBack(perm, order, e.source);
    ThereAndBack(perm, order, e.target);
  }

  lemma RenamedMember(edges: seq<Edge>, perm: seq<nat>, order: seq<nat>, e: Edge)
    requires Inverse(perm, order)
    ensures e in AllRenamed(edges, perm) <==> Renamed(e, order) in edges
  {
    RenamedBack(e, perm, order);
    if e in AllRenamed(edges, perm) {
      var i :| 0 <= i < |edges| && AllRenamed(edges, perm)[i] == e;
      RenamedBack(edges[i], perm, order);
    }
    if Renamed(e, order) in edges {
      var i :| 0 <= i < |edges| && edges[i] == Renamed(e, order);
      assert AllRenamed(edges, perm)[i] == e;
    }
  }

  // ---------- the same weights between the same nodes ----------

  lemma RenamedTwice(edges: seq<Edge>, perm: seq<nat>, order: seq<nat>)
    requires Inverse(perm, order)
    ensures AllRenamed(AllRenamed(edges, perm), order) == edges
  {
    forall i | 0 <= i < |edges| ensures AllRenamed(AllRenamed(edges, perm), order)[i] == edges[i] {
      RenamedBack(edges[i], perm, order);
    }
  }

  lemma HasRenamed(edges: seq<Edge>, perm: seq<nat>, s: nat, t: nat, w: int)
    ensures HasForward(edges, s, t, w) ==> HasForward(AllRenamed(edges, perm), At(perm, s), At(perm, t), w)
    ensures HasBackward(edges, s, t, w) ==> HasBackward(AllRenamed(edges, perm), At(perm, s), At(perm, t), w)
  {
    forall e | e in edges ensures Renamed(e, perm) in AllRenamed(edges, perm) {
      var i :| 0 <= i < |edges| && edges[i] == e;
      assert AllRenamed(edges, perm)[i] == Renamed(e, perm);
    }
    hide AllRenamed, At;
    if e :| e in edges && e.source == s && e.target == t && e.data.forward && e.data.weight == w {
      assert Renamed(e, perm) in AllRenamed(edges, perm);
    }
    if e :| e in edges && e.source == s && e.target == t && e.data.backward && e.data.weight == w {
      assert Renamed(e, perm) in AllRenamed(edges, perm);
    }
  }

  lemma RenamedHas(edges: seq<Edge>, perm: seq<nat>, order: seq<nat>, s: nat, t: nat, w: int)
    requires Inverse(perm, order)
    ensures HasForward(AllRenamed(edges, perm), s, t, w) <==> HasForward(edges, At(order, s), At(order, t), w)
    ensures HasBackward(AllRenamed(edges, perm), s, t, w) <==> HasBackward(edges, At(order, s), At(order, t), w)
  {
    hide HasForward, HasBackward, AllRenamed;
    ThereAndBack(perm, order, s);
    ThereAndBack(perm, order, t);
    HasRenamed(edges, perm, At(order, s), At(order, t), w);
    HasRenamed(AllRenamed(edges, perm), order, s, t, w);
    RenamedTwice(edges, perm, order);
  }

  lemma RenamedLeast(edges: seq<Edge>, perm: seq<nat>, order: seq<nat>, s: nat, t: nat, w: int)
    requires Inverse(perm, order)
    ensures LeastForward(AllRenamed(edges, perm), s, t, w) <==> LeastForward(edges, At(order, s), At(order, t), w)
    ensures LeastBackward(AllRenamed(edges, perm), s, t, w) <==> LeastBackward(edges, At(order, s), At(order, t), w)
  {
    hide HasForward, HasBackward;
    forall v: int
      ensures HasForward(AllRenamed(edges, perm), s, t, v) <==> HasForward(edges, At(order, s), At(order, t), v)
      ensures HasBackward(AllRenamed(edges, perm), s, t, v) <==> HasBackward(edges, At(order, s), At(order, t), v)
    {
      RenamedHas(edges, perm, order, s, t, v);
    }
  }

  lemma RenamedOffers(edges: seq<Edge>, perm: seq<nat>, order: seq<nat>, s: nat, t: nat, w: int)
    requires Inverse(perm, order)
    ensures Offers(AllRenamed(edges, perm), At(perm, s), At(perm, t), w) <==> Offers(edges, s, t, w)
  {
    var list := AllRenamed(edges, perm);
    ThereAndBack(perm, order, s);
    ThereAndBack(perm, order, t);
    if Offers(edges, s, t, w) {
      var e :| e in edges && OffersBy(e, s, t, w);
      RenamedBack(e, perm, order);
      RenamedMember(edges, perm, order, Renamed(e, perm));
      assert OffersBy(Renamed(e, perm), At(perm, s), At(perm, t), w);
    }
    if Offers(list, At(perm, s), At(perm, t), w) {
      var e :| e in list && OffersBy(e, At(perm, s), At(perm, t), w);
      RenamedMember(edges, perm, order, e);
      assert OffersBy(Renamed(e, order), s, t, w);
    }
  }

  // ---------- renumbering commutes with loading ----------

  lemma RenamedSplitOf(e: Edge, d: Edge, perm: seq<nat>)
    requires SplitOf(e, d)
    ensures SplitOf(Renamed(e, perm), Renamed(d, perm))
  {
  }

  lemma RenamedIsSplit(directed: seq<Edge>, edges: seq<Edge>, perm: seq<nat>, order: seq<nat>)
    requires Inverse(perm, order) && IsSplitOf(directed, edges)
    ensures IsSplitOf(AllRenamed(directed, perm), AllRenamed(edges, perm))
  {
    hide AllRenamed, SplitOf, Renamed;
    forall d ensures d in AllRenamed(directed, perm) <==> FromSplit(AllRenamed(edges, perm), d) {
      var back := Renamed(d, order);
      RenamedBack(d, perm, order);
      RenamedMember(directed, perm, order, d);
      if FromSplit(edges, back) {
        var e :| e in edges && SplitOf(e, back);
        RenamedBack(e, perm, order);
        RenamedMember(edges, perm, order, Renamed(e, perm));
        RenamedSplitOf(e, back, perm);
      }
      if FromSplit(AllRenamed(edges, perm), d) {
        var e :| e in AllRenamed(edges, perm) && SplitOf(e, d);
        RenamedMember(edges, perm, order, e);
        RenamedSplitOf(e, d, order);
      }
    }
  }

  lemma RenamedKeepsLeast(output: seq<Edge>, input: seq<Edge>, perm: seq<nat>, order: seq<nat>)
    requires Inverse(perm, order) && KeepsLeast(output, input)
    ensures KeepsLeast(AllRenamed(output, perm), AllRenamed(input, perm))
  {
    hide HasForward, HasBackward, LeastForward, LeastBackward, AllRenamed;
    forall s: nat, t: nat, w: int
      ensures HasForward(AllRenamed(output, perm), s, t, w)
         <==> s != t && LeastForward(AllRenamed(input, perm), s, t, w)
      ensures HasBackward(AllRenamed(output, perm), s, t, w)
         <==> s != t && LeastBackward(AllRenamed(input, perm), s, t, w)
    {
      ThereAndBack(perm, order, s);
      ThereAndBack(perm, order, t);
      RenamedHas(output, perm, order, s, t, w);
      RenamedLeast(input, perm, order, s, t, w);
    }
  }

  lemma RenamedKeepsData(output: seq<Edge>, input: seq<Edge>, perm: seq<nat>, order: seq<nat>)
    requires Inverse(perm, order) && KeepsData(output, input)
    ensures KeepsData(AllRenamed(output, perm), AllRenamed(input, perm))
  {
    forall i | 0 <= i < |output| ensures HasOrigin(AllRenamed(input, perm), AllRenamed(output, perm)[i]) {
      assert HasOrigin(input, output[i]);
      var d :| d in input && IsOrigin(d, output[i]);
      RenamedBack(d, perm, order);
      RenamedMember(input, perm, order, Renamed(d, perm));
    }
  }

  lemma RenamedStaysSeparate(output: seq<Edge>, perm: seq<nat>, order: seq<nat>)
    requires Inverse(perm, order) && ParallelFree(output) && Flagged(output)
    ensures ParallelFree(AllRenamed(output, perm)) && Flagged(AllRenamed(output, perm))
  {
    var list := AllRenamed(output, perm);
    forall i | 0 <= i < |output|
      ensures At(order, list[i].source) == output[i].source && At(order, list[i].target) == output[i].target
    {
      ThereAndBack(perm, order, output[i].source);
      ThereAndBack(perm, order, output[i].target);
    }
    hide At;
    forall i, j | 0 <= i < j < |list| && list[i].source == list[j].source && list[i].target == list[j].target
      ensures Separate(list[i].data, list[j].data)
    {
      assert Separate(output[i].data, output[j].data);
    }
  }

  lemma RenamedInput(edges: seq<Edge>, perm: seq<nat>, order: seq<nat>)
    requires Inverse(perm, order)
    ensures Exclusive(edges) ==> Exclusive(AllRenamed(edges, perm))
    ensures DistinctTurns(edges) ==> DistinctTurns(AllRenamed(edges, perm))
  {
  }

  /** A renumbered loaded graph is a loaded graph: that of the renumbered edges. */
  lemma RenamedIsLoaded(output: seq<Edge>, directed: seq<Edge>, edges: seq<Edge>, perm: seq<nat>, order: seq<nat>)
    requires Inverse(perm, order) && IsSplitOf(directed, edges) && Normal(output, directed)
    ensures IsSplitOf(AllRenamed(directed, perm), AllRenamed(edges, perm))
    ensures Normal(AllRenamed(output, perm), AllRenamed(directed, perm))
  {
    hide AllRenamed, IsSplitOf, KeepsLeast, KeepsData, ParallelFree, Flagged;
    RenamedIsSplit(directed, edges, perm, order);
    RenamedKeepsLeast(output, directed, perm, order);
    RenamedKeepsData(output, directed, perm, order);
    RenamedStaysSeparate(output, perm, order);
  }

  /** `renumber` of the graph: every end gets its new number. */
  method RenumberEdges(edges: seq<Edge>, perm: seq<nat>) returns (renumbered: seq<Edge>)
    requires forall e :: e in edges ==> e.source < |perm| && e.target < |perm|
    ensures renumbered == AllRenamed(edges, perm)
  {
    renumbered := [];
    for i := 0 to |edges|
      invariant |renumbered| == i && forall j :: 0 <= j < i ==> renumbered[j] == Renamed(edges[j], perm)
    {
      var e := edges[i];
      renumbered := renumbered + [e.(source := perm[e.source], target := perm[e.target])];
    }
  }
}
