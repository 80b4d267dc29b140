/**
 The search that fills one row of a cell matrix, on values: labels, relaxation and the
 invariant that makes every settled label the exact cost inside the cell.
 */
module OverlaySearch {
  import opened RoadGraph
  import opened OverlayNetwork
  import NestedCells

  datatype Label = Label(cost: Cost, fromClique: bool)

  datatype Arc = Arc(to: nat, cost: Cost)

  /** The matrices one level below: the slot from `x` to `y`, if both share a sub-cell,
      `x` is one of its sources, `y` one of its destinations and the slot is valid. */
  type Clique = (nat, nat) -> Option<Cost>

  // ---------- relaxation ----------

  function RelaxArc(labels: map<nat, Label>, to: nat, cost: Cost, fromClique: bool): map<nat, Label> {
    if to !in labels || Less(cost, labels[to].cost) then labels[to := Label(cost, fromClique)] else labels
  }

  function RelaxArcs(labels: map<nat, Label>, base: Cost, arcs: seq<Arc>, fromClique: bool): map<nat, Label>
    decreases |arcs|
  {
    if arcs == [] then labels
    else
      var k := |arcs| - 1;
      RelaxArc(RelaxArcs(labels, base, arcs[..k], fromClique), arcs[k].to, Plus(base, arcs[k].cost), fromClique)
  }

  /** What relaxing a list of arcs promises, without saying in which order it happened. */
  ghost predicate Relaxed(before: map<nat, Label>, after: map<nat, Label>, base: Cost, arcs: seq<Arc>, fromClique: bool)
  {
    && before.Keys <= after.Keys
    && (forall y :: y in before ==> AtMost(after[y].cost, before[y].cost))
    && (forall k :: 0 <= k < |arcs| ==>
                      arcs[k].to in after && AtMost(after[arcs[k].to].cost, Plus(base, arcs[k].cost)))
    && (forall y :: y in after ==>
                      || (y in before && after[y] == before[y])
                      || Improved(before, after, base, arcs, fromClique, y))
  }

  ghost predicate Improved(before: map<nat, Label>, after: map<nat, Label>, base: Cost, arcs: seq<Arc>,
                           fromClique: bool, y: nat)
    requires y in after
  {
    && (y in before ==> Less(after[y].cost, before[y].cost))
    && exists k :: 0 <= k < |arcs| && arcs[k].to == y
                   && after[y] == Label(Plus(base, arcs[k].cost), fromClique)
  }

  lemma RelaxedExtends(before: map<nat, Label>, mid: map<nat, Label>, base: Cost, arcs: seq<Arc>, arc: Arc,
                       fromClique: bool)
    requires Relaxed(before, mid, base, arcs, fromClique)
    ensures Relaxed(before, RelaxArc(mid, arc.to, Plus(base, arc.cost), fromClique), base, arcs + [arc], fromClique)
  {
    var after, all := RelaxArc(mid, arc.to, Plus(base, arc.cost), fromClique), arcs + [arc];
    forall y | y in after
      ensures (y in before && after[y] == before[y]) || Improved(before, after, base, all, fromClique, y)
    {
      if y in mid && after[y] == mid[y] {
        if !(y in before && after[y] == before[y]) {
          var j :| 0 <= j < |arcs| && arcs[j].to == y && mid[y] == Label(Plus(base, arcs[j].cost), fromClique);
          assert all[j] == arcs[j];
        }
      } else {
        assert all[|arcs|] == arc;
      }
    }
    forall k | 0 <= k < |all|
      ensures all[k].to in after && AtMost(after[all[k].to].cost, Plus(base, all[k].cost))
    {
    }
  }

  lemma {:induction false} RelaxArcsIsRelaxed(labels: map<nat, Label>, base: Cost, arcs: seq<Arc>, fromClique: bool)
    ensures Relaxed(labels, RelaxArcs(labels, base, arcs, fromClique), base, arcs, fromClique)
    decreases |arcs|
  {
    if arcs != [] {
      var k := |arcs| - 1;
      RelaxArcsIsRelaxed(labels, base, arcs[..k], fromClique);
      hide Relaxed;
      RelaxedExtends(labels, RelaxArcs(labels, base, arcs[..k], fromClique), base, arcs[..k], arcs[k], fromClique);
      assert arcs == arcs[..k] + [arcs[k]];
    }
  }

  /** Arcs that cannot improve anything change nothing. */
  lemma {:induction false} RelaxingUselessArcs(labels: map<nat, Label>, base: Cost, arcs: seq<Arc>, fromClique: bool)
    requires forall k :: 0 <= k < |arcs| ==>
                           arcs[k].to in labels && AtMost(labels[arcs[k].to].cost, Plus(base, arcs[k].cost))
    ensures RelaxArcs(labels, base, arcs, fromClique) == labels
    decreases |arcs|
  {
    if arcs != [] {
      var k := |arcs| - 1;
      forall j | 0 <= j < k
        ensures arcs[..k][j].to in labels
        ensures AtMost(labels[arcs[..k][j].to].cost, Plus(base, arcs[..k][j].cost))
      {
        assert arcs[..k][j] == arcs[j];
      }
      RelaxingUselessArcs(labels, base, arcs[..k], fromClique);
    }
  }

  // ---------- what one level below has to offer ----------

  ghost predicate CliqueShaped(net: Network, level: nat, clique: Clique)
    requires net.WellFormed() && level <= |net.cells|
  {
    forall x: nat, y: nat :: clique(x, y).Some? ==>
      && x < net.numNodes && y < net.numNodes && net.Cell(level, x) == net.Cell(level, y)
      && net.IsSource(level, x) && net.IsDestination(level, y)
  }

  /** Every slot between a source and a destination of one cell is exact. */
  ghost predicate CliqueExact(net: Network, level: nat, clique: Clique)
    requires net.WellFormed() && level <= |net.cells|
  {
    forall x: nat, y: nat ::
      && x < net.numNodes && y < net.numNodes && net.Cell(level, x) == net.Cell(level, y)
      && net.IsSource(level, x) && net.IsDestination(level, y)
      ==> Exact(net.edges, net.RegionOf(level, x), x, y, clique(x, y))
  }

  ghost predicate GoodClique(net: Network, level: nat, clique: Clique)
    requires net.WellFormed() && level <= |net.cells|
  {
    CliqueShaped(net, level, clique) && CliqueExact(net, level, clique)
  }

  // ---------- the search invariant ----------

  datatype Query = Query(net: Network, level: nat, source: nat)
  {
    /** The search on `level` starts at an allowed node of the cell's border. */
    ghost predicate Valid() {
      && net.WellFormed() && 1 <= level <= |net.cells|
      && source < net.numNodes && net.allowed[source] && net.Boundary(level, source)
    }

    ghost function Region(): set<nat>
      requires Valid()
    {
      net.RegionOf(level, source)
    }

    ghost predicate Attains(v: nat, c: Cost)
      requires Valid()
    {
      Attained(net.edges, Region(), source, v, c)
    }
  }

  ghost predicate Usable(q: Query, e: Edge)
    requires q.Valid()
  {
    e in q.net.edges && e.data.forward && e.target in q.Region() && q.net.Crosses(q.level - 1, e)
  }

  /** No arc out of `x` can improve a label any more. */
  ghost predicate Closed(q: Query, clique: Clique, labels: map<nat, Label>, x: nat)
    requires q.Valid() && x in labels
  {
    EdgesClosed(q, labels, x) && CliqueClosed(clique, labels, x)
  }

  ghost predicate EdgesClosed(q: Query, labels: map<nat, Label>, x: nat)
    requires q.Valid() && x in labels
  {
    forall e :: Usable(q, e) && e.source == x ==>
      e.target in labels && AtMost(labels[e.target].cost, Plus(labels[x].cost, EdgeCost(e)))
  }

  ghost predicate CliqueClosed(clique: Clique, labels: map<nat, Label>, x: nat)
    requires x in labels
  {
    forall y: nat :: clique(x, y).Some? ==>
      y in labels && AtMost(labels[y].cost, Plus(labels[x].cost, clique(x, y).value))
  }

  /** `y` owes its label to the clique arc from the settled node `p`. */
  ghost predicate CliqueParent(clique: Clique, labels: map<nat, Label>, settled: set<nat>, p: nat, y: nat)
    requires y in labels
  {
    p in settled && p in labels && clique(p, y).Some? && labels[y].cost == Plus(labels[p].cost, clique(p, y).value)
  }

  ghost predicate Ordered(labels: map<nat, Label>, settled: set<nat>) {
    forall x, y :: x in settled && x in labels && y in labels && y !in settled ==>
      labels[x].cost.weight <= labels[y].cost.weight
  }

  ghost predicate Parented(clique: Clique, labels: map<nat, Label>, settled: set<nat>) {
    forall y :: y in labels && labels[y].fromClique ==> exists p :: CliqueParent(clique, labels, settled, p, y)
  }

  ghost predicate SearchInvariant(q: Query, clique: Clique, labels: map<nat, Label>, settled: set<nat>)
    requires q.Valid()
  {
    && settled <= labels.Keys <= q.Region()
    && q.source in labels && labels[q.source].cost == ZERO
    && (forall y :: y in labels ==> q.Attains(y, labels[y].cost))
    && Ordered(labels, settled)
    && (forall x :: x in settled ==> Closed(q, clique, labels, x))
    && Parented(clique, labels, settled)
  }

  ghost predicate IsMinimum(labels: map<nat, Label>, settled: set<nat>, x: nat) {
    && x in labels && x !in settled
    && forall y :: y in labels && y !in settled ==> labels[x].cost.weight <= labels[y].cost.weight
  }

  lemma SearchStarts(q: Query, clique: Clique)
    requires q.Valid()
    ensures SearchInvariant(q, clique, FirstLabels(q.source), {})
  {
    assert WalkOfCost(q.net.edges, q.Region(), q.source, q.source, [], ZERO);
  }

  // ---------- settling one node ----------

  ghost predicate ListsClique(clique: Clique, x: nat, arcs: seq<Arc>) {
    && (forall k :: 0 <= k < |arcs| ==> clique(x, arcs[k].to) == Some(arcs[k].cost))
    && (forall y: nat :: clique(x, y).Some? ==> Arc(y, clique(x, y).value) in arcs)
  }

  ghost predicate EdgeArc(q: Query, x: nat, arc: Arc)
    requires q.Valid()
  {
    exists e :: Usable(q, e) && e.source == x && arc == Arc(e.target, EdgeCost(e))
  }

  ghost predicate ListsEdges(q: Query, x: nat, arcs: seq<Arc>)
    requires q.Valid()
  {
    && (forall k :: 0 <= k < |arcs| ==> EdgeArc(q, x, arcs[k]))
    && (forall e :: Usable(q, e) && e.source == x ==> Arc(e.target, EdgeCost(e)) in arcs)
  }

  /** Every arc out of `x` leads elsewhere and costs something, except the free arc from `x` to itself. */
  ghost predicate Increasing(x: nat, arcs: seq<Arc>) {
    forall k :: 0 <= k < |arcs| ==> if arcs[k].to == x then arcs[k].cost == ZERO else arcs[k].cost.weight >= 1
  }

  ghost predicate Leads(q: Query, x: nat, arcs: seq<Arc>)
    requires q.Valid()
  {
    forall k :: 0 <= k < |arcs| ==>
      arcs[k].to in q.Region() && Attained(q.net.edges, q.Region(), x, arcs[k].to, arcs[k].cost)
  }

  lemma CliqueArcFacts(net: Network, level: nat, clique: Clique, x: nat, y: nat)
    requires net.WellFormed() && level <= |net.cells| && GoodClique(net, level, clique)
    requires clique(x, y).Some?
    ensures x < net.numNodes && y in net.RegionOf(level, x)
    ensures Attained(net.edges, net.RegionOf(level, x), x, y, clique(x, y).value)
    ensures if x == y then clique(x, y).value == ZERO else clique(x, y).value.weight >= 1
  {
    var region := net.RegionOf(level, x);
    var c := clique(x, y).value;
    assert Exact(net.edges, region, x, y, clique(x, y));
    var p :| WalkOfCost(net.edges, region, x, y, p, c);
    WalkWeight(net.edges, region, x, y, p);
    if x == y {
      assert Walk(net.edges, region, x, y, []);
      assert AtMost(c, PathCost([]));
    }
  }

  lemma AttainedInLargerRegion(edges: seq<Edge>, small: set<nat>, large: set<nat>, u: nat, v: nat, c: Cost)
    requires Attained(edges, small, u, v, c) && small <= large
    ensures Attained(edges, large, u, v, c)
  {
    var p :| WalkOfCost(edges, small, u, v, p, c);
    WalkInLargerRegion(edges, small, large, u, v, p);
    assert WalkOfCost(edges, large, u, v, p, c);
  }

  lemma CliqueArcLeads(q: Query, clique: Clique, x: nat, y: nat)
    requires q.Valid() && GoodClique(q.net, q.level - 1, clique)
    requires x in q.Region() && clique(x, y).Some?
    ensures y in q.Region() && Attained(q.net.edges, q.Region(), x, y, clique(x, y).value)
  {
    hide GoodClique, Attained, Network.Mirrored, NestedCells.Nested, Network.Boundary, PositiveWeights;
    CliqueArcFacts(q.net, q.level - 1, clique, x, y);
    SubRegion(q.net, q.level - 1, x);
    AttainedInLargerRegion(q.net.edges, q.net.RegionOf(q.level - 1, x), q.Region(), x, y, clique(x, y).value);
  }

  lemma CliqueArcsLead(q: Query, clique: Clique, x: nat, arcs: seq<Arc>)
    requires q.Valid() && GoodClique(q.net, q.level - 1, clique)
    requires x in q.Region() && ListsClique(clique, x, arcs)
    ensures Leads(q, x, arcs) && Increasing(x, arcs)
  {
    hide GoodClique, Attained, Network.Mirrored, NestedCells.Nested, Network.Boundary, PositiveWeights;
    forall k | 0 <= k < |arcs|
      ensures arcs[k].to in q.Region() && Attained(q.net.edges, q.Region(), x, arcs[k].to, arcs[k].cost)
      ensures if arcs[k].to == x then arcs[k].cost == ZERO else arcs[k].cost.weight >= 1
    {
      CliqueArcLeads(q, clique, x, arcs[k].to);
      CliqueArcFacts(q.net, q.level - 1, clique, x, arcs[k].to);
    }
  }

  lemma EdgeArcsLead(q: Query, x: nat, arcs: seq<Arc>)
    requires q.Valid() && x in q.Region() && ListsEdges(q, x, arcs)
    ensures Leads(q, x, arcs) && Increasing(x, arcs)
  {
    forall k | 0 <= k < |arcs|
      ensures arcs[k].to in q.Region() && Attained(q.net.edges, q.Region(), x, arcs[k].to, arcs[k].cost)
      ensures arcs[k].to != x && arcs[k].cost.weight >= 1
    {
      assert EdgeArc(q, x, arcs[k]);
      var e :| Usable(q, e) && e.source == x && arcs[k] == Arc(e.target, EdgeCost(e));
      SingleEdgeWalk(q.net.edges, q.Region(), e);
    }
  }

  lemma SingleEdgeWalk(edges: seq<Edge>, region: set<nat>, e: Edge)
    requires e in edges && e.data.forward && e.source in region && e.target in region
    ensures Attained(edges, region, e.source, e.target, EdgeCost(e))
  {
    assert [e][..0] == [];
    assert Walk(edges, region, e.source, e.source, [e][..0]);
    assert Walk(edges, region, e.source, e.target, [e]);
    assert PathCost([e]) == EdgeCost(e);
    assert WalkOfCost(edges, region, e.source, e.target, [e], EdgeCost(e));
  }

  /** Labels on `fixed` survive: all of them are at most as heavy as `x`, and arcs out of `x` only make it heavier. */
  lemma SettledLabelsAreFinal(before: map<nat, Label>, after: map<nat, Label>, x: nat, arcs: seq<Arc>, fromClique: bool,
                              fixed: set<nat>)
    requires x in before && Relaxed(before, after, before[x].cost, arcs, fromClique) && Increasing(x, arcs)
    requires forall d :: d in fixed ==> d in before && before[d].cost.weight <= before[x].cost.weight
    ensures forall d :: d in fixed ==> d in after && after[d] == before[d]
    ensures after[x] == before[x]
  {
    forall d | d in fixed + {x} ensures d in after && after[d] == before[d] {
    }
  }

  lemma RelaxedStaysAttained(q: Query, before: map<nat, Label>, after: map<nat, Label>, x: nat, arcs: seq<Arc>,
                             fromClique: bool)
    requires q.Valid() && x in before && Relaxed(before, after, before[x].cost, arcs, fromClique)
    requires before.Keys <= q.Region() && Leads(q, x, arcs)
    requires forall y :: y in before ==> q.Attains(y, before[y].cost)
    ensures after.Keys <= q.Region()
    ensures forall y :: y in after ==> q.Attains(y, after[y].cost)
  {
    forall y | y in after ensures y in q.Region() && q.Attains(y, after[y].cost) {
      if !(y in before && after[y] == before[y]) {
        assert Improved(before, after, before[x].cost, arcs, fromClique, y);
        var k :| 0 <= k < |arcs| && arcs[k].to == y
                 && after[y] == Label(Plus(before[x].cost, arcs[k].cost), fromClique);
        AttainedComposes(q.net.edges, q.Region(), q.source, x, y, before[x].cost, arcs[k].cost);
      }
    }
  }

  /** The triangle inequality behind clique pruning: at a node whose label came over a clique
      arc, every clique arc is already satisfied. */
  lemma PrunedNodeIsClosed(q: Query, clique: Clique, labels: map<nat, Label>, settled: set<nat>, y: nat)
    requires q.Valid() && GoodClique(q.net, q.level - 1, clique)
    requires SearchInvariant(q, clique, labels, settled)
    requires y in labels && labels[y].fromClique
    ensures CliqueClosed(clique, labels, y)
  {
    hide GoodClique, Network.Mirrored, NestedCells.Nested, Network.Boundary, PositiveWeights, Ordered, Usable;
    hide Query.Attains;
    var p :| CliqueParent(clique, labels, settled, p, y);
    forall z: nat | clique(y, z).Some?
      ensures z in labels && AtMost(labels[z].cost, Plus(labels[y].cost, clique(y, z).value))
    {
      assert Closed(q, clique, labels, p);
      CliqueTriangle(q.net, q.level - 1, clique, p, y, z);
    }
  }

  lemma CliqueTriangle(net: Network, level: nat, clique: Clique, p: nat, y: nat, z: nat)
    requires net.WellFormed() && level <= |net.cells| && GoodClique(net, level, clique)
    requires clique(p, y).Some? && clique(y, z).Some?
    ensures clique(p, z).Some? && AtMost(clique(p, z).value, Plus(clique(p, y).value, clique(y, z).value))
  {
    hide Network.IsSource, Network.IsDestination, Network.Mirrored, NestedCells.Nested, PositiveWeights;
    var region := net.RegionOf(level, p);
    assert net.RegionOf(level, y) == region;
    assert Exact(net.edges, region, p, y, clique(p, y));
    assert Exact(net.edges, region, y, z, clique(y, z));
    assert Exact(net.edges, region, p, z, clique(p, z));
    hide Exact, CliqueExact, CliqueShaped;
    ExactTriangle(net.edges, region, p, y, z, clique(p, y), clique(y, z), clique(p, z));
  }

  /** The labels after `RelaxNode`: clique arcs first, unless pruned, then the edges between sub-cells. */
  function RelaxNodeLabels(labels: map<nat, Label>, x: nat, cliqueArcs: seq<Arc>, edgeArcs: seq<Arc>): map<nat, Label>
    requires x in labels
  {
    var base := labels[x].cost;
    var mid := if labels[x].fromClique then labels else RelaxArcs(labels, base, cliqueArcs, true);
    RelaxArcs(mid, base, edgeArcs, false)
  }

  // ---------- the rounds of a search ----------

  /** One round: the labels and the removed nodes before, the node it removes, and what it relaxes. */
  datatype Round = Round(labels: map<nat, Label>, removed: set<nat>, node: nat, cliqueArcs: seq<Arc>,
                         edgeArcs: seq<Arc>)

  ghost predicate IsRound(q: Query, clique: Clique, r: Round)
    requires q.Valid()
  {
    && IsMinimum(r.labels, r.removed, r.node)
    && ListsClique(clique, r.node, r.cliqueArcs) && ListsEdges(q, r.node, r.edgeArcs)
  }

  function FirstLabels(source: nat): map<nat, Label> {
    map[source := Label(ZERO, false)]
  }

  /** The rounds lead from the source alone to these labels and removed nodes. */
  ghost predicate SearchedBy(q: Query, clique: Clique, rounds: seq<Round>, labels: map<nat, Label>, removed: set<nat>)
    requires q.Valid()
    decreases |rounds|
  {
    if rounds == [] then labels == FirstLabels(q.source) && removed == {}
    else
      var r := rounds[|rounds| - 1];
      && IsRound(q, clique, r) && removed == r.removed + {r.node}
      && labels == RelaxNodeLabels(r.labels, r.node, r.cliqueArcs, r.edgeArcs)
      && SearchedBy(q, clique, rounds[..|rounds| - 1], r.labels, r.removed)
  }

  lemma RoundFollows(q: Query, clique: Clique, rounds: seq<Round>, r: Round)
    requires q.Valid() && SearchedBy(q, clique, rounds, r.labels, r.removed) && IsRound(q, clique, r)
    ensures SearchedBy(q, clique, rounds + [r], RelaxNodeLabels(r.labels, r.node, r.cliqueArcs, r.edgeArcs),
                       r.removed + {r.node})
  {
    hide IsRound, RelaxNodeLabels;
    assert (rounds + [r])[..|rounds + [r]| - 1] == rounds;
  }

  /** Skipping the clique arcs of a pruned node changes no label at all. */
  lemma PruningChangesNothing(q: Query, clique: Clique, labels: map<nat, Label>, settled: set<nat>, x: nat,
                              cliqueArcs: seq<Arc>)
    requires q.Valid() && GoodClique(q.net, q.level - 1, clique)
    requires SearchInvariant(q, clique, labels, settled)
    requires x in labels && labels[x].fromClique && ListsClique(clique, x, cliqueArcs)
    ensures RelaxArcs(labels, labels[x].cost, cliqueArcs, true) == labels
  {
    hide GoodClique;
    PrunedNodeIsClosed(q, clique, labels, settled, x);
    hide SearchInvariant;
    RelaxingUselessArcs(labels, labels[x].cost, cliqueArcs, true);
  }

  /** Two rounds of relaxation out of the same node. */
  ghost predicate Step(before: map<nat, Label>, mid: map<nat, Label>, after: map<nat, Label>, x: nat,
                       cliqueArcs: seq<Arc>, edgeArcs: seq<Arc>)
  {
    && x in before && x in mid && mid[x] == before[x]
    && Relaxed(before, mid, before[x].cost, cliqueArcs, true)
    && Relaxed(mid, after, before[x].cost, edgeArcs, false)
    && Increasing(x, cliqueArcs) && Increasing(x, edgeArcs)
  }

  ghost predicate Frozen(before: map<nat, Label>, after: map<nat, Label>, fixed: set<nat>) {
    forall d :: d in fixed ==> d in before && d in after && after[d] == before[d]
  }

  ghost predicate Lower(before: map<nat, Label>, after: map<nat, Label>) {
    before.Keys <= after.Keys && forall y :: y in before ==> AtMost(after[y].cost, before[y].cost)
  }

  lemma ClosedStaysClosed(q: Query, clique: Clique, before: map<nat, Label>, after: map<nat, Label>, x: nat)
    requires q.Valid() && x in before && Closed(q, clique, before, x)
    requires Lower(before, after) && after[x] == before[x]
    ensures Closed(q, clique, after, x)
  {
    hide Usable;
  }

  lemma OrderedAfterStep(before: map<nat, Label>, mid: map<nat, Label>, after: map<nat, Label>, settled: set<nat>,
                         x: nat, cliqueArcs: seq<Arc>, edgeArcs: seq<Arc>)
    requires Step(before, mid, after, x, cliqueArcs, edgeArcs)
    requires settled <= before.Keys && Ordered(before, settled) && IsMinimum(before, settled, x)
    ensures Frozen(before, mid, settled + {x}) && Frozen(before, after, settled + {x})
    ensures Lower(before, mid) && Lower(mid, after) && Lower(before, after)
    ensures Ordered(after, settled + {x})
  {
    SettledLabelsAreFinal(before, mid, x, cliqueArcs, true, settled);
    SettledLabelsAreFinal(mid, after, x, edgeArcs, false, settled);
    forall u, y | u in settled + {x} && y in after && y !in settled + {x}
      ensures after[u].cost.weight <= after[y].cost.weight
    {
    }
  }

  lemma ParentedAfterStep(clique: Clique, before: map<nat, Label>, mid: map<nat, Label>, after: map<nat, Label>,
                          settled: set<nat>, x: nat, cliqueArcs: seq<Arc>, edgeArcs: seq<Arc>)
    requires Step(before, mid, after, x, cliqueArcs, edgeArcs)
    requires Parented(clique, before, settled) && Frozen(before, after, settled + {x})
    requires forall k :: 0 <= k < |cliqueArcs| ==> clique(x, cliqueArcs[k].to) == Some(cliqueArcs[k].cost)
    ensures Parented(clique, after, settled + {x})
  {
    forall y | y in after && after[y].fromClique
      ensures exists p :: CliqueParent(clique, after, settled + {x}, p, y)
    {
      if y in before && after[y] == before[y] {
        var p :| CliqueParent(clique, before, settled, p, y);
        assert CliqueParent(clique, after, settled + {x}, p, y);
      } else {
        assert after[y] == mid[y];
        assert Improved(before, mid, before[x].cost, cliqueArcs, true, y);
        assert CliqueParent(clique, after, settled + {x}, x, y);
      }
    }
  }

  lemma CliqueClosedByRelaxing(clique: Clique, before: map<nat, Label>, mid: map<nat, Label>, x: nat, arcs: seq<Arc>)
    requires x in before && x in mid && mid[x] == before[x]
    requires Relaxed(before, mid, before[x].cost, arcs, true) && ListsClique(clique, x, arcs)
    ensures CliqueClosed(clique, mid, x)
  {
    forall y: nat | clique(x, y).Some?
      ensures y in mid && AtMost(mid[y].cost, Plus(mid[x].cost, clique(x, y).value))
    {
      var k :| 0 <= k < |arcs| && arcs[k] == Arc(y, clique(x, y).value);
    }
  }

  lemma EdgesClosedByRelaxing(q: Query, mid: map<nat, Label>, after: map<nat, Label>, x: nat, arcs: seq<Arc>)
    requires q.Valid() && x in mid && x in after && after[x] == mid[x]
    requires Relaxed(mid, after, mid[x].cost, arcs, false) && ListsEdges(q, x, arcs)
    ensures EdgesClosed(q, after, x)
  {
    hide Usable, Improved, Network.WellFormed;
    forall e | Usable(q, e) && e.source == x
      ensures e.target in after && AtMost(after[e.target].cost, Plus(after[x].cost, EdgeCost(e)))
    {
      var k :| 0 <= k < |arcs| && arcs[k] == Arc(e.target, EdgeCost(e));
    }
  }

  lemma ClosedAfterStep(q: Query, clique: Clique, before: map<nat, Label>, mid: map<nat, Label>, after: map<nat, Label>,
                        x: nat, cliqueArcs: seq<Arc>, edgeArcs: seq<Arc>)
    requires q.Valid() && Step(before, mid, after, x, cliqueArcs, edgeArcs) && Frozen(before, after, {x})
    requires Lower(mid, after)
    requires ListsClique(clique, x, cliqueArcs) && ListsEdges(q, x, edgeArcs)
    ensures Closed(q, clique, after, x)
  {
    hide ListsClique, ListsEdges, Relaxed, Query.Valid, EdgesClosed;
    CliqueClosedByRelaxing(clique, before, mid, x, cliqueArcs);
    EdgesClosedByRelaxing(q, mid, after, x, edgeArcs);
  }

  lemma SourceStaysFree(q: Query, c: Cost)
    requires q.Valid() && q.Attains(q.source, c) && AtMost(c, ZERO)
    ensures c == ZERO
  {
    var p :| WalkOfCost(q.net.edges, q.Region(), q.source, q.source, p, c);
    WalkWeight(q.net.edges, q.Region(), q.source, q.source, p);
  }

  lemma StepKeepsInvariant(q: Query, clique: Clique, labels: map<nat, Label>, mid: map<nat, Label>,
                           after: map<nat, Label>, settled: set<nat>, x: nat, cliqueArcs: seq<Arc>, edgeArcs: seq<Arc>)
    requires q.Valid() && SearchInvariant(q, clique, labels, settled) && IsMinimum(labels, settled, x)
    requires Step(labels, mid, after, x, cliqueArcs, edgeArcs)
    requires Leads(q, x, cliqueArcs) && Leads(q, x, edgeArcs)
    requires ListsClique(clique, x, cliqueArcs) && ListsEdges(q, x, edgeArcs)
    ensures SearchInvariant(q, clique, after, settled + {x})
    ensures Frozen(labels, after, settled + {x})
  {
    hide Relaxed, Increasing, Leads, ListsEdges, Ordered, Parented, IsMinimum, Closed;
    hide Query.Valid, Query.Region, Query.Attains;
    OrderedAfterStep(labels, mid, after, settled, x, cliqueArcs, edgeArcs);
    ParentedAfterStep(clique, labels, mid, after, settled, x, cliqueArcs, edgeArcs);
    ClosedAfterStep(q, clique, labels, mid, after, x, cliqueArcs, edgeArcs);
    RelaxedStaysAttained(q, labels, mid, x, cliqueArcs, true);
    RelaxedStaysAttained(q, mid, after, x, edgeArcs, false);
    assert q.source in after && AtMost(after[q.source].cost, ZERO);
    SourceStaysFree(q, after[q.source].cost);
    forall d | d in settled + {x} ensures d in after && Closed(q, clique, after, d) {
      if d != x {
        ClosedStaysClosed(q, clique, labels, after, d);
      }
    }
  }

  /** Settling the lightest queued node keeps the invariant and touches no settled label. */
  lemma SettleNode(q: Query, clique: Clique, labels: map<nat, Label>, settled: set<nat>, x: nat, cliqueArcs: seq<Arc>,
                   edgeArcs: seq<Arc>)
    requires q.Valid() && GoodClique(q.net, q.level - 1, clique)
    requires SearchInvariant(q, clique, labels, settled) && IsMinimum(labels, settled, x)
    requires ListsClique(clique, x, cliqueArcs) && ListsEdges(q, x, edgeArcs)
    ensures var after := RelaxNodeLabels(labels, x, cliqueArcs, edgeArcs);
            && SearchInvariant(q, clique, after, settled + {x})
            && Frozen(labels, after, settled + {x})
  {
    var base := labels[x].cost;
    var mid := RelaxArcs(labels, base, cliqueArcs, true);
    var after := RelaxArcs(mid, base, edgeArcs, false);
    assert x in q.Region();
    hide GoodClique, RelaxArcs, SearchInvariant, ListsEdges, ListsClique, Leads, Query.Valid, Query.Region;
    if labels[x].fromClique {
      PruningChangesNothing(q, clique, labels, settled, x, cliqueArcs);
    }
    CliqueArcsLead(q, clique, x, cliqueArcs);
    EdgeArcsLead(q, x, edgeArcs);
    RelaxArcsIsRelaxed(labels, base, cliqueArcs, true);
    RelaxArcsIsRelaxed(mid, base, edgeArcs, false);
    SettledLabelsAreFinal(labels, mid, x, cliqueArcs, true, {});
    StepKeepsInvariant(q, clique, labels, mid, after, settled, x, cliqueArcs, edgeArcs);
  }
}
