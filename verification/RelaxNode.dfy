/**
 Relaxing one settled node: the clique arcs of its sub-cell, read from the matrices one level
 below, and the edges that leave the sub-cell but stay in the cell.
 */
module NodeRelaxation {
  import opened RoadGraph
  import opened OverlayNetwork
  import opened OverlaySearch
  import opened QueryHeaps
  import opened LevelLayout
  import opened MultiLevelPartitions
  import opened MultiLevelGraphs
  import opened CellBoundaries
  import NestedCells

  // ---------- one relaxation ----------

  /** Insert, decrease or ignore; a removed node must not improve. */
  method Relax(heap: QueryHeap, to: nat, cost: Cost, fromClique: bool)
    requires heap.Valid() && to < |heap.nodeIndex|
    requires to in heap.removed && to in heap.labels ==> AtMost(heap.labels[to].cost, cost)
    modifies heap
    ensures heap.Valid() && heap.removed == old(heap.removed) && |heap.nodeIndex| == old(|heap.nodeIndex|)
    ensures heap.labels == RelaxArc(old(heap.labels), to, cost, fromClique)
  {
    hide QueryHeaps.Represents;
    var data := HeapData(fromClique, cost.duration, cost.distance);
    if !heap.WasInserted(to) {
      heap.Insert(to, cost.weight, data);
    } else {
      var known := heap.GetData(to);
      if Less(cost, Cost(heap.GetKey(to), known.duration, known.distance)) {
        heap.DecreaseKey(to, cost.weight);
        heap.SetData(to, data);
      }
    }
  }

  // ---------- clique arcs ----------

  /** One row of a matrix with the node labels of its columns. */
  datatype Row = Row(weights: seq<Option<int>>, durations: seq<int>, distances: seq<real>, destinations: seq<nat>)
  {
    predicate Valid() {
      |weights| == |durations| == |distances| == |destinations|
    }
  }

  /** The arcs found and the position of the destination iterator after `k` weights. A valid weight
      whose destination is not allowed leaves the other iterators behind. */
  ghost function Scan(row: Row, allowed: seq<bool>, k: nat): (r: (seq<Arc>, nat))
    requires row.Valid() && k <= |row.weights|
             && forall i :: 0 <= i < |row.destinations| ==> row.destinations[i] < |allowed|
    ensures r.1 <= k
  {
    if k == 0 then ([], 0)
    else
      var (arcs, d) := Scan(row, allowed, k - 1);
      match row.weights[k - 1]
      case None => (arcs, d + 1)
      case Some(w) =>
        var to := row.destinations[d];
        if !allowed[to] then (arcs, d)
        else (arcs + [Arc(to, Cost(w, row.durations[d], row.distances[d]))], d + 1)
  }

  ghost predicate OnlyAllowed(row: Row, allowed: seq<bool>, k: nat)
    requires row.Valid() && k <= |row.weights|
             && forall i :: 0 <= i < |row.destinations| ==> row.destinations[i] < |allowed|
  {
    forall i :: 0 <= i < k && row.weights[i].Some? ==> allowed[row.destinations[i]]
  }

  /** The iterators stay in step exactly if no valid weight belongs to a destination that is not allowed. */
  lemma {:induction false} IteratorsStayInStep(row: Row, allowed: seq<bool>, k: nat)
    requires row.Valid() && k <= |row.weights|
             && forall i :: 0 <= i < |row.destinations| ==> row.destinations[i] < |allowed|
    ensures Scan(row, allowed, k).1 == k <==> OnlyAllowed(row, allowed, k)
    decreases k
  {
    if k > 0 {
      IteratorsStayInStep(row, allowed, k - 1);
      if OnlyAllowed(row, allowed, k - 1) && row.weights[k - 1].Some? {
        assert Scan(row, allowed, k - 1).1 == k - 1;
      }
    }
  }

  /** In step, the scan finds each valid weight with its own destination, duration and distance. */
  ghost predicate FindsValidSlots(row: Row, k: nat, arcs: seq<Arc>)
    requires row.Valid() && k <= |row.weights|
  {
    && (forall a :: 0 <= a < |arcs| ==> FromRow(row, k, arcs[a]))
    && (forall i: nat :: i < k && row.weights[i].Some? ==> Arc(row.destinations[i], RowCost(row, i)) in arcs)
  }

  ghost function RowCost(row: Row, i: nat): Cost
    requires row.Valid() && i < |row.weights| && row.weights[i].Some?
  {
    Cost(row.weights[i].value, row.durations[i], row.distances[i])
  }

  ghost predicate SlotArc(row: Row, i: nat, arc: Arc)
    requires row.Valid() && i < |row.weights|
  {
    row.weights[i].Some? && arc == Arc(row.destinations[i], RowCost(row, i))
  }

  ghost predicate FromRow(row: Row, k: nat, arc: Arc)
    requires row.Valid() && k <= |row.weights|
  {
    exists i: nat :: i < k && SlotArc(row, i, arc)
  }

  lemma {:induction false} ScanFindsValidSlots(row: Row, allowed: seq<bool>, k: nat)
    requires row.Valid() && k <= |row.weights|
             && forall i :: 0 <= i < |row.destinations| ==> row.destinations[i] < |allowed|
    requires OnlyAllowed(row, allowed, k)
    ensures FindsValidSlots(row, k, Scan(row, allowed, k).0)
    decreases k
  {
    if k > 0 {
      IteratorsStayInStep(row, allowed, k - 1);
      ScanFindsValidSlots(row, allowed, k - 1);
      var before, after := Scan(row, allowed, k - 1).0, Scan(row, allowed, k).0;
      hide FindsValidSlots;
      if row.weights[k - 1].Some? {
        assert after == before + [Arc(row.destinations[k - 1], RowCost(row, k - 1))];
        ValidSlotAdded(row, k - 1, before);
      } else {
        assert after == before;
        InvalidSlotSkipped(row, k - 1, before);
      }
    }
  }

  lemma ValidSlotAdded(row: Row, k: nat, arcs: seq<Arc>)
    requires row.Valid() && k < |row.weights| && FindsValidSlots(row, k, arcs) && row.weights[k].Some?
    ensures FindsValidSlots(row, k + 1, arcs + [Arc(row.destinations[k], RowCost(row, k))])
  {
    var all := arcs + [Arc(row.destinations[k], RowCost(row, k))];
    forall a | 0 <= a < |all| ensures FromRow(row, k + 1, all[a]) {
      if a < |arcs| {
        assert FromRow(row, k, arcs[a]);
      } else {
        assert SlotArc(row, k, all[a]);
      }
    }
  }

  lemma InvalidSlotSkipped(row: Row, k: nat, arcs: seq<Arc>)
    requires row.Valid() && k < |row.weights| && FindsValidSlots(row, k, arcs) && row.weights[k].None?
    ensures FindsValidSlots(row, k + 1, arcs)
  {
    forall a | 0 <= a < |arcs| ensures FromRow(row, k + 1, arcs[a]) {
      assert FromRow(row, k, arcs[a]);
    }
  }

  /** Relaxing these arcs improves no removed node. */
  ghost predicate Legal(labels: map<nat, Label>, removed: set<nat>, capacity: nat, base: Cost, arcs: seq<Arc>) {
    && removed <= labels.Keys
    && forall a :: 0 <= a < |arcs| ==>
         arcs[a].to < capacity && (arcs[a].to in removed ==> AtMost(labels[arcs[a].to].cost, Plus(base, arcs[a].cost)))
  }

  lemma {:induction false} LegalArcsKeepRemoved(labels: map<nat, Label>, removed: set<nat>, base: Cost, arcs: seq<Arc>,
                                                fromClique: bool)
    requires removed <= labels.Keys
    requires forall a ::
               0 <= a < |arcs| && arcs[a].to in removed ==> AtMost(labels[arcs[a].to].cost, Plus(base, arcs[a].cost))
    ensures removed <= RelaxArcs(labels, base, arcs, fromClique).Keys
    ensures forall d :: d in removed ==> RelaxArcs(labels, base, arcs, fromClique)[d] == labels[d]
    decreases |arcs|
  {
    if arcs != [] {
      LegalArcsKeepRemoved(labels, removed, base, arcs[..|arcs| - 1], fromClique);
    }
  }

  lemma {:induction false} ScanPrefix(row: Row, allowed: seq<bool>, k: nat, m: nat)
    requires row.Valid() && k <= m <= |row.weights|
             && forall i :: 0 <= i < |row.destinations| ==> row.destinations[i] < |allowed|
    ensures Scan(row, allowed, k).0 <= Scan(row, allowed, m).0
    decreases m
  {
    if k < m {
      ScanPrefix(row, allowed, k, m - 1);
    }
  }

  lemma ScanStep(row: Row, allowed: seq<bool>, k: nat)
    requires row.Valid() && k < |row.weights|
             && forall i :: 0 <= i < |row.destinations| ==> row.destinations[i] < |allowed|
    ensures var (arcs, d) := Scan(row, allowed, k);
            var next := Scan(row, allowed, k + 1);
            if row.weights[k].None? then next == (arcs, d + 1)
            else if !allowed[row.destinations[d]] then next == (arcs, d)
            else
              var cost := Cost(row.weights[k].value, row.durations[d], row.distances[d]);
              next == (arcs + [Arc(row.destinations[d], cost)], d + 1)
  {
  }

  /** After any part of the arcs, the next one is still legal. */
  lemma NextIsLegal(labels: map<nat, Label>, removed: set<nat>, capacity: nat, base: Cost, all: seq<Arc>,
                    done: seq<Arc>, next: Arc)
    requires Legal(labels, removed, capacity, base, all) && done + [next] <= all
    ensures next.to < capacity
    ensures var now := RelaxArcs(labels, base, done, true);
            && (next.to in removed && next.to in now ==> AtMost(now[next.to].cost, Plus(base, next.cost)))
            && RelaxArcs(labels, base, done + [next], true) == RelaxArc(now, next.to, Plus(base, next.cost), true)
  {
    assert all[|done|] == next;
    forall a | 0 <= a < |done| && done[a].to in removed
      ensures AtMost(labels[done[a].to].cost, Plus(base, done[a].cost))
    {
      assert all[a] == done[a];
    }
    LegalArcsKeepRemoved(labels, removed, base, done, true);
    assert (done + [next])[..|done|] == done;
  }

  /** The loop over the sub-cell's row, with its four iterators. */
  method RelaxCliqueArcs(heap: QueryHeap, row: Row, allowed: seq<bool>, base: Cost)
    requires heap.Valid() && row.Valid()
    requires forall i :: 0 <= i < |row.destinations| ==> row.destinations[i] < |allowed|
    requires Legal(heap.labels, heap.removed, |heap.nodeIndex|, base, Scan(row, allowed, |row.weights|).0)
    modifies heap
    ensures heap.Valid() && heap.removed == old(heap.removed) && |heap.nodeIndex| == old(|heap.nodeIndex|)
    ensures heap.labels == RelaxArcs(old(heap.labels), base, Scan(row, allowed, |row.weights|).0, true)
  {
    ghost var all := Scan(row, allowed, |row.weights|).0;
    ghost var arcs: seq<Arc>, labels, removed := [], heap.labels, heap.removed;
    assert Scan(row, allowed, 0) == ([], 0);
    hide QueryHeaps.Represents, Scan, Legal, RelaxArc;
    var destination := 0;
    var weight := 0;
    while weight < |row.weights|
      invariant weight <= |row.weights| && Scan(row, allowed, weight) == (arcs, destination)
      invariant heap.Valid() && heap.removed == removed && |heap.nodeIndex| == old(|heap.nodeIndex|)
      invariant heap.labels == RelaxArcs(labels, base, arcs, true)
    {
      ScanStep(row, allowed, weight);
      if row.weights[weight].Some? {
        var to := row.destinations[destination];
        if !allowed[to] {
          weight := weight + 1;
          continue;
        }
        var arc := Arc(to, Cost(row.weights[weight].value, row.durations[destination], row.distances[destination]));
        ScanPrefix(row, allowed, weight + 1, |row.weights|);
        NextIsLegal(labels, removed, |heap.nodeIndex|, base, all, arcs, arc);
        Relax(heap, to, Plus(base, arc.cost), true);
        arcs := arcs + [arc];
      }
      weight := weight + 1;
      destination := destination + 1;
    }
  }

  // ---------- edges between sub-cells ----------

  /** The internal range of a node on a level, as `GetInternalEdgeRange` returns it, holds exactly the
      edges that stay in the node's cell. */
  ghost predicate InternalRangeExact(mlp: MultiLevelPartition, g: MultiLevelGraph, net: Network, level: nat, node: nat)
    requires Describes(mlp, g, net) && mlp.levelData.IsLevel(level) && node < net.numNodes
  {
    && level < g.GetNumberOfLevels()
    && g.BeginEdges(node) <= g.BeginBorderEdges(level, node) <= g.EndEdges(node)
    && forall i: nat :: Adjacent(g, node, i) ==>
         (i < g.BeginBorderEdges(level, node)
          <==> mlp.GetCell(level, node) == mlp.GetCell(level, g.edgeArray[i].target))
  }

  /** The customizer relaxes the edge: target allowed, forward, and between sub-cells unless on the first level. */
  predicate Taken(mlp: MultiLevelPartition, g: MultiLevelGraph, allowed: seq<bool>, level: nat, node: nat, i: nat)
    requires mlp.Valid() && mlp.levelData.IsLevel(level) && node < |mlp.partition| && i < |g.edgeArray|
    requires g.edgeArray[i].target < |allowed| && g.edgeArray[i].target < |mlp.partition|
  {
    var to, data := g.edgeArray[i].target, g.edgeArray[i].data;
    allowed[to] && data.forward && (level == 1 || mlp.GetCell(level - 1, node) != mlp.GetCell(level - 1, to))
  }

  lemma TakenIsUsable(q: Query, mlp: MultiLevelPartition, g: MultiLevelGraph, node: nat, i: nat)
    requires q.Valid() && Describes(mlp, g, q.net) && mlp.levelData.IsLevel(q.level)
    requires node in q.Region() && InternalRangeExact(mlp, g, q.net, q.level, node) && Adjacent(g, node, i)
    ensures g.edgeArray[i].target < q.net.numNodes
    ensures Usable(q, EdgeAt(g, node, i)) <==>
      i < g.BeginBorderEdges(q.level, node) && Taken(mlp, g, q.net.allowed, q.level, node, i)
  {
    hide Network.Mirrored, Network.OnLinks, NestedCells.Nested, Network.Boundary, PositiveWeights, LevelData.Valid;
    var to := g.edgeArray[i].target;
    assert EdgeAt(g, node, i) in q.net.edges;
    assert CellAgrees(mlp, q.net, q.level, node) && CellAgrees(mlp, q.net, q.level, to);
    if q.level > 1 {
      assert mlp.levelData.IsLevel(q.level - 1);
      assert CellAgrees(mlp, q.net, q.level - 1, node) && CellAgrees(mlp, q.net, q.level - 1, to);
    }
  }

  ghost predicate EdgeArcsUpTo(q: Query, g: MultiLevelGraph, node: nat, bound: nat, arcs: seq<Arc>)
    requires q.Valid() && g.Shaped() && node < g.NumNodes()
  {
    && (forall a :: 0 <= a < |arcs| ==> EdgeArc(q, node, arcs[a]))
    && (forall i: nat :: Adjacent(g, node, i) && i < bound && Usable(q, EdgeAt(g, node, i)) ==>
          Arc(g.edgeArray[i].target, EdgeCost(EdgeAt(g, node, i))) in arcs)
  }

  lemma AllEdgesListed(q: Query, mlp: MultiLevelPartition, g: MultiLevelGraph, node: nat, arcs: seq<Arc>)
    requires q.Valid() && Describes(mlp, g, q.net) && mlp.levelData.IsLevel(q.level)
    requires node in q.Region() && InternalRangeExact(mlp, g, q.net, q.level, node)
    requires EdgeArcsUpTo(q, g, node, g.BeginBorderEdges(q.level, node), arcs)
    ensures ListsEdges(q, node, arcs)
  {
    hide Network.Mirrored, Network.OnLinks, NestedCells.Nested, Network.Boundary, PositiveWeights, LevelData.Valid;
    hide InternalRangeExact;
    hide Taken, Usable;
    forall e | Usable(q, e) && e.source == node ensures Arc(e.target, EdgeCost(e)) in arcs {
      assert e in q.net.edges by { UsableIsEdge(q, e); }
      var i: nat :| Adjacent(g, e.source, i) && EdgeAt(g, e.source, i) == e;
      TakenIsUsable(q, mlp, g, node, i);
    }
  }

  lemma UsableIsEdge(q: Query, e: Edge)
    requires q.Valid() && Usable(q, e)
    ensures e in q.net.edges
  {
  }

  lemma EdgeRangeFacts(q: Query, mlp: MultiLevelPartition, g: MultiLevelGraph, level: nat, node: nat)
    requires q.Valid() && q.level == level && Describes(mlp, g, q.net) && mlp.levelData.IsLevel(level)
    requires node in q.Region() && InternalRangeExact(mlp, g, q.net, level, node)
    ensures g.Shaped() && |q.net.allowed| == q.net.numNodes == g.NumNodes() && node < |q.net.allowed|
    ensures mlp.Valid() && |mlp.partition| == |q.net.allowed| + 1 && level < g.GetNumberOfLevels()
    ensures g.BeginEdges(node) <= g.BeginBorderEdges(level, node) <= g.EndEdges(node) <= |g.edgeArray|
    ensures EdgeArcsUpTo(q, g, node, g.BeginEdges(node), [])
  {
    hide Network.Mirrored, Network.OnLinks, NestedCells.Nested, Network.Boundary, PositiveWeights, LevelData.Valid;
  }

  /** No removed node is heavier than `w`. */
  ghost predicate RemovedUpTo(labels: map<nat, Label>, removed: set<nat>, w: int) {
    forall d :: d in removed ==> d in labels && labels[d].cost.weight <= w
  }

  lemma HeavyArcKeepsRemoved(labels: map<nat, Label>, removed: set<nat>, w: int, to: nat, cost: Cost, fromClique: bool)
    requires RemovedUpTo(labels, removed, w) && cost.weight > w
    ensures to in removed ==> AtMost(labels[to].cost, cost)
    ensures RemovedUpTo(RelaxArc(labels, to, cost, fromClique), removed, w)
  {
  }

  lemma TakenArc(q: Query, mlp: MultiLevelPartition, g: MultiLevelGraph, node: nat, i: nat, arcs: seq<Arc>)
    requires q.Valid() && Describes(mlp, g, q.net) && mlp.levelData.IsLevel(q.level)
    requires node in q.Region() && InternalRangeExact(mlp, g, q.net, q.level, node) && Adjacent(g, node, i)
    requires i < g.BeginBorderEdges(q.level, node) && EdgeArcsUpTo(q, g, node, i, arcs)
    ensures g.edgeArray[i].target < q.net.numNodes
    ensures if Taken(mlp, g, q.net.allowed, q.level, node, i)
            then EdgeCost(EdgeAt(g, node, i)).weight >= 1
                 && EdgeArcsUpTo(q, g, node, i + 1, arcs + [Arc(g.edgeArray[i].target, EdgeCost(EdgeAt(g, node, i)))])
            else EdgeArcsUpTo(q, g, node, i + 1, arcs)
  {
    hide Network.Mirrored, Network.OnLinks, NestedCells.Nested, Network.Boundary, LevelData.Valid, InternalRangeExact;
    TakenIsUsable(q, mlp, g, node, i);
    var e := EdgeAt(g, node, i);
    if Taken(mlp, g, q.net.allowed, q.level, node, i) {
      assert e.data.weight >= 1;
      var all := arcs + [Arc(e.target, EdgeCost(e))];
      hide Usable, Taken;
      forall a | 0 <= a < |all| ensures EdgeArc(q, node, all[a]) {
        if a < |arcs| {
          assert EdgeArc(q, node, arcs[a]);
        }
      }
    }
  }

  /** The loop over the internal edges. */
  method RelaxEdges(mlp: MultiLevelPartition, g: MultiLevelGraph, allowed: seq<bool>, heap: QueryHeap, level: nat,
                    node: nat, base: Cost, ghost q: Query)
    returns (ghost arcs: seq<Arc>)
    requires q.Valid() && q.level == level && q.net.allowed == allowed
    requires Describes(mlp, g, q.net) && mlp.levelData.IsLevel(level)
    requires node in q.Region() && InternalRangeExact(mlp, g, q.net, level, node)
    requires heap.Valid() && |heap.nodeIndex| == q.net.numNodes && RemovedUpTo(heap.labels, heap.removed, base.weight)
    modifies heap
    ensures heap.Valid() && heap.removed == old(heap.removed) && |heap.nodeIndex| == old(|heap.nodeIndex|)
    ensures ListsEdges(q, node, arcs)
    ensures heap.labels == RelaxArcs(old(heap.labels), base, arcs, false)
  {
    hide QueryHeaps.Represents, Query.Valid, Query.Region, Describes, InternalRangeExact, MultiLevelPartition.Valid;
    hide EdgeArcsUpTo, MultiLevelGraph.Shaped, ReadCell, MultiLevelGraph.BeginBorderEdges;
    ghost var labels, removed := heap.labels, heap.removed;
    EdgeRangeFacts(q, mlp, g, level, node);
    var begin, end := g.BeginEdges(node), g.BeginBorderEdges(level, node);
    arcs := [];
    for i := begin to end
      invariant heap.Valid() && heap.removed == removed && |heap.nodeIndex| == q.net.numNodes
      invariant RemovedUpTo(heap.labels, removed, base.weight)
      invariant EdgeArcsUpTo(q, g, node, i, arcs)
      invariant heap.labels == RelaxArcs(labels, base, arcs, false)
    {
      assert Adjacent(g, node, i);
      TakenArc(q, mlp, g, node, i, arcs);
      var to, data := g.edgeArray[i].target, g.edgeArray[i].data;
      if allowed[to] && data.forward && (level == 1 || mlp.GetCell(level - 1, node) != mlp.GetCell(level - 1, to)) {
        assert Taken(mlp, g, allowed, level, node, i);
        var arc := Arc(to, Cost(data.weight, data.duration, data.distance));
        HeavyArcKeepsRemoved(heap.labels, removed, base.weight, to, Plus(base, arc.cost), false);
        Relax(heap, to, Plus(base, arc.cost), false);
        assert (arcs + [arc])[..|arcs|] == arcs;
        arcs := arcs + [arc];
      }
    }
    AllEdgesListed(q, mlp, g, node, arcs);
  }
}
