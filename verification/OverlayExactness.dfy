/**
 Completeness of the overlay search: every walk inside the cell splits into sub-cell
 segments and border edges, so no walk beats the label of a settled node.
 */
module OverlayExactness {
  import opened RoadGraph
  import opened OverlayNetwork
  import NestedCells
  import opened OverlaySearch

  /** `p == head + segment`: the segment stays in the sub-cell of `t` and `head` is empty or
      has just entered that sub-cell at `x`. */
  ghost predicate Decomposes(q: Query, t: nat, p: seq<Edge>, head: seq<Edge>, segment: seq<Edge>, x: nat)
    requires q.Valid() && t < q.net.numNodes
  {
    && p == head + segment
    && x < q.net.numNodes
    && Walk(q.net.edges, q.Region(), q.source, x, head)
    && Walk(q.net.edges, q.net.RegionOf(q.level - 1, t), x, t, segment)
    && (head == [] || Enters(q, head[|head| - 1]))
  }

  ghost predicate Enters(q: Query, e: Edge)
    requires q.Valid()
  {
    e in q.net.edges && q.net.Crosses(q.level - 1, e)
  }

  lemma {:induction false} LastSegment(q: Query, t: nat, p: seq<Edge>)
    returns (head: seq<Edge>, segment: seq<Edge>, x: nat)
    requires q.Valid() && Walk(q.net.edges, q.Region(), q.source, t, p)
    ensures t in q.Region() && Decomposes(q, t, p, head, segment, x)
    decreases |p|
  {
    hide Network.Mirrored, Network.OnLinks, NestedCells.Nested, Network.Boundary, PositiveWeights;
    var net, level := q.net, q.level - 1;
    if p == [] || Enters(q, p[|p| - 1]) {
      head, segment, x := p, [], t;
      assert p == p + [];
    } else {
      var k := |p| - 1;
      var e := p[k];
      head, segment, x := LastSegment(q, e.source, p[..k]);
      assert net.RegionOf(level, e.source) == net.RegionOf(level, t);
      ExtendWalk(net.edges, net.RegionOf(level, t), x, segment, e);
      assert p == head + (segment + [e]);
      segment := segment + [e];
    }
  }

  lemma ExtendWalk(edges: seq<Edge>, region: set<nat>, u: nat, p: seq<Edge>, e: Edge)
    requires Walk(edges, region, u, e.source, p)
    requires e in edges && e.data.forward && e.target in region
    ensures Walk(edges, region, u, e.target, p + [e])
    ensures PathCost(p + [e]) == Plus(PathCost(p), EdgeCost(e))
  {
    assert (p + [e])[..|p + [e]| - 1] == p;
  }

  /** Either `t` already has a label no worse than `c`, or a lighter node is still queued. */
  ghost predicate Dominated(labels: map<nat, Label>, settled: set<nat>, t: nat, c: Cost) {
    || (t in labels && AtMost(labels[t].cost, c))
    || exists w :: w in labels && w !in settled && labels[w].cost.weight < c.weight
  }

  /** Following one more arc keeps the alternative, provided the arc is satisfied once its tail is settled. */
  lemma DominatedStep(labels: map<nat, Label>, settled: set<nat>, x: nat, c: Cost, t: nat, arc: Cost)
    requires Dominated(labels, settled, x, c) && arc.weight >= 1
    requires x in labels && x in settled ==> t in labels && AtMost(labels[t].cost, Plus(labels[x].cost, arc))
    ensures Dominated(labels, settled, t, Plus(c, arc))
  {
    if x in labels && AtMost(labels[x].cost, c) && x !in settled {
      assert labels[x].cost.weight < Plus(c, arc).weight;
    }
  }

  lemma DominatedMonotone(labels: map<nat, Label>, settled: set<nat>, t: nat, c: Cost, d: Cost)
    requires Dominated(labels, settled, t, c) && AtMost(c, d)
    ensures Dominated(labels, settled, t, d)
  {
  }

  /** A node on the border of its sub-cell with an outgoing segment is a source of the sub-cell,
      and the end of the segment, if on the border, is a destination. */
  lemma SegmentEnds(net: Network, level: nat, x: nat, t: nat, segment: seq<Edge>)
    requires net.WellFormed() && level <= |net.cells|
    requires x < net.numNodes && t < net.numNodes && net.Boundary(level, x) && net.Boundary(level, t)
    requires segment != [] && Walk(net.edges, net.RegionOf(level, t), x, t, segment)
    ensures net.IsSource(level, x) && net.IsDestination(level, t)
    ensures net.Cell(level, x) == net.Cell(level, t)
  {
    hide Network.Mirrored, Network.OnLinks, NestedCells.Nested, Network.Boundary, PositiveWeights;
    var region := net.RegionOf(level, t);
    WalkStart(net.edges, region, x, t, segment);
    assert !net.Crosses(level, segment[0]);
    InnerEdge(net, level, segment[0]);
    var e := segment[|segment| - 1];
    assert Walk(net.edges, region, x, e.source, segment[..|segment| - 1]);
    assert !net.Crosses(level, e);
    InnerEdge(net, level, e);
  }

  /** The clique arc of a segment is at most as expensive. */
  lemma SegmentIsCliqueArc(net: Network, level: nat, clique: Clique, x: nat, t: nat, segment: seq<Edge>)
    requires net.WellFormed() && level <= |net.cells| && GoodClique(net, level, clique)
    requires x < net.numNodes && t < net.numNodes && net.Boundary(level, x) && net.Boundary(level, t)
    requires segment != [] && Walk(net.edges, net.RegionOf(level, t), x, t, segment)
    ensures clique(x, t).Some? && AtMost(clique(x, t).value, PathCost(segment))
  {
    hide Network.Mirrored, Network.OnLinks, NestedCells.Nested, Network.Boundary, PositiveWeights, Network.IsSource;
    hide Network.IsDestination;
    hide Walk, CliqueShaped;
    SegmentEnds(net, level, x, t, segment);
    var region := net.RegionOf(level, t);
    assert net.RegionOf(level, x) == region;
    assert Exact(net.edges, region, x, t, clique(x, t));
    hide CliqueExact;
    assert WalkOfCost(net.edges, region, x, t, segment, PathCost(segment));
    ExactBoundsAttained(net.edges, region, x, t, clique(x, t), PathCost(segment));
  }

  lemma SourceIsBoundaryBelow(q: Query)
    requires q.Valid()
    ensures q.net.Boundary(q.level - 1, q.source)
  {
    hide Network.Mirrored, Network.OnLinks, NestedCells.Nested, Network.Boundary, PositiveWeights;
    BoundaryBelow(q.net, q.level - 1, q.source);
  }

  /** A last edge between sub-cells. */
  lemma CoveredByEdge(q: Query, clique: Clique, labels: map<nat, Label>, settled: set<nat>, p: seq<Edge>, e: Edge)
    requires q.Valid() && SearchInvariant(q, clique, labels, settled)
    requires Usable(q, e)
    requires Dominated(labels, settled, e.source, PathCost(p))
    ensures Dominated(labels, settled, e.target, Plus(PathCost(p), EdgeCost(e)))
  {
    if e.source in labels && e.source in settled {
      assert Closed(q, clique, labels, e.source);
    }
    DominatedStep(labels, settled, e.source, PathCost(p), e.target, EdgeCost(e));
  }

  /** A last segment inside a sub-cell. */
  lemma CoveredBySegment(q: Query, clique: Clique, labels: map<nat, Label>, settled: set<nat>, c: Cost, x: nat, t: nat,
                         segment: seq<Edge>)
    requires q.Valid() && GoodClique(q.net, q.level - 1, clique) && SearchInvariant(q, clique, labels, settled)
    requires x < q.net.numNodes && t < q.net.numNodes && x != t
    requires q.net.Boundary(q.level - 1, x) && q.net.Boundary(q.level - 1, t)
    requires segment != [] && Walk(q.net.edges, q.net.RegionOf(q.level - 1, t), x, t, segment)
    requires Dominated(labels, settled, x, c)
    ensures Dominated(labels, settled, t, Plus(c, PathCost(segment)))
  {
    hide GoodClique, Network.Mirrored, NestedCells.Nested, Network.Boundary, PositiveWeights, Walk, Usable, Dominated;
    SegmentIsCliqueArc(q.net, q.level - 1, clique, x, t, segment);
    CliqueArcFacts(q.net, q.level - 1, clique, x, t);
    var arc := clique(x, t).value;
    if x in labels && x in settled {
      assert Closed(q, clique, labels, x);
    }
    DominatedStep(labels, settled, x, c, t, arc);
    DominatedMonotone(labels, settled, t, Plus(c, arc), Plus(c, PathCost(segment)));
  }

  /** The last edge of the head enters the segment's sub-cell, so the segment starts on its border. */
  lemma SegmentStartsOnBorder(q: Query, t: nat, p: seq<Edge>, head: seq<Edge>, segment: seq<Edge>, x: nat)
    requires q.Valid() && t < q.net.numNodes && Decomposes(q, t, p, head, segment, x)
    ensures q.net.Boundary(q.level - 1, x)
  {
    hide Network.Mirrored, Network.OnLinks, NestedCells.Nested, Network.Boundary, PositiveWeights;
    if head == [] {
      SourceIsBoundaryBelow(q);
    } else {
      CrossingEndsOnBorder(q.net, q.level - 1, head[|head| - 1]);
    }
  }

  lemma SourceIsCovered(q: Query, clique: Clique, labels: map<nat, Label>, settled: set<nat>)
    requires q.Valid() && SearchInvariant(q, clique, labels, settled)
    ensures Dominated(labels, settled, q.source, PathCost([]))
  {
  }

  lemma RegionBelow(q: Query, t: nat)
    requires q.Valid() && t in q.Region()
    ensures q.net.RegionOf(q.level - 1, t) <= q.Region()
  {
    hide Network.Mirrored, Network.OnLinks, NestedCells.Nested, Network.Boundary, PositiveWeights;
    SubRegion(q.net, q.level - 1, t);
  }

  /** No walk in the cell escapes the labels. */
  lemma {:induction false} EveryWalkIsCovered(q: Query, clique: Clique, labels: map<nat, Label>, settled: set<nat>,
                                              t: nat, p: seq<Edge>)
    requires q.Valid() && GoodClique(q.net, q.level - 1, clique) && SearchInvariant(q, clique, labels, settled)
    requires Walk(q.net.edges, q.Region(), q.source, t, p)
    requires q.net.Boundary(q.level - 1, t)
    ensures Dominated(labels, settled, t, PathCost(p))
    decreases |p|
  {
    hide GoodClique, SearchInvariant, Network.Mirrored, NestedCells.Nested, Network.Boundary, PositiveWeights;
    hide Dominated;
    var head, segment, x := LastSegment(q, t, p);
    if segment == [] {
      assert p == head;
      if p == [] {
        SourceIsCovered(q, clique, labels, settled);
      } else {
        var k := |p| - 1;
        var e := p[k];
        assert Usable(q, e);
        CrossingEndsOnBorder(q.net, q.level - 1, e);
        EveryWalkIsCovered(q, clique, labels, settled, e.source, p[..k]);
        CoveredByEdge(q, clique, labels, settled, p[..k], e);
      }
    } else {
      SegmentStartsOnBorder(q, t, p, head, segment, x);
      EveryWalkIsCovered(q, clique, labels, settled, x, head);
      RegionBelow(q, t);
      WalkInLargerRegion(q.net.edges, q.net.RegionOf(q.level - 1, t), q.Region(), x, t, segment);
      WalkConcat(q.net.edges, q.Region(), q.source, x, t, head, segment);
      if x == t {
        WalkWeight(q.net.edges, q.Region(), x, t, segment);
        DominatedMonotone(labels, settled, t, PathCost(head), PathCost(p));
      } else {
        CoveredBySegment(q, clique, labels, settled, PathCost(head), x, t, segment);
      }
    }
  }

  /** When the search stops, the label of a border node is exact if the node is settled or nothing is queued. */
  lemma SearchIsExact(q: Query, clique: Clique, labels: map<nat, Label>, settled: set<nat>, t: nat)
    requires q.Valid() && GoodClique(q.net, q.level - 1, clique) && SearchInvariant(q, clique, labels, settled)
    requires t < q.net.numNodes && q.net.Boundary(q.level, t)
    requires t in settled || labels.Keys == settled
    ensures Exact(q.net.edges, q.Region(), q.source, t, if t in labels then Some(labels[t].cost) else None)
  {
    hide GoodClique, Network.Mirrored, NestedCells.Nested, Network.Boundary, PositiveWeights, Walk, Closed, Parented;
    BoundaryBelow(q.net, q.level - 1, t);
    forall p | Walk(q.net.edges, q.Region(), q.source, t, p)
      ensures t in labels && AtMost(labels[t].cost, PathCost(p))
    {
      EveryWalkIsCovered(q, clique, labels, settled, t, p);
      assert Ordered(labels, settled);
    }
  }
}
