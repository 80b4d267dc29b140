/**
 Customizing a cell, a level and the whole hierarchy.
 */
module Customization {
  import opened RoadGraph
  import opened Routes
  import opened OverlayNetwork
  import opened OverlaySearch
  import opened OverlayExactness
  import opened QueryHeaps
  import opened LevelLayout
  import opened MultiLevelPartitions
  import opened MultiLevelGraphs
  import opened CellBoundaries
  import opened CellStorages
  import opened CellMetrics
  import opened NodeRelaxation
  import opened CellCustomizers
  import NestedCells

  // ---------- one row ----------

  lemma OtherRowUntouched(columns: nat, i: nat, j: nat, row: nat)
    requires j < columns && i != row
    ensures !(row * columns <= i * columns + j < row * columns + columns)
  {
    assert i < row ==> (i + 1) * columns <= row * columns;
    assert row < i ==> (row + 1) * columns <= i * columns;
  }

  /** Row `row` of the cell was overwritten. */
  ghost predicate RowWritten(storage: CellStorage, a: MetricValues, b: MetricValues, level: nat, c: nat, row: nat)
    requires storage.Valid() && storage.HasCell(level, c)
  {
    SameOutside(a, b, CellSlot(storage, level, c, row, 0),
                CellSlot(storage, level, c, row, 0) + |storage.GetDestinationNodes(level, c)|)
  }

  lemma OtherSlotKept(storage: CellStorage, a: MetricValues, b: MetricValues, level: nat, c: nat, row: nat, i: nat,
                      j: nat)
    requires storage.Valid() && storage.HasCell(level, c) && RowWritten(storage, a, b, level, c, row) && i != row
    requires j < |storage.GetDestinationNodes(level, c)| && CellSlot(storage, level, c, i, j) < |a.weights|
    ensures SameAt(a, b, CellSlot(storage, level, c, i, j))
  {
    OtherRowUntouched(|storage.GetDestinationNodes(level, c)|, i, j, row);
  }

  lemma RowWriteStaysInCell(storage: CellStorage, a: MetricValues, b: MetricValues, level: nat, c: nat, row: nat)
    requires storage.Valid() && storage.HasCell(level, c) && row < |storage.GetSourceNodes(level, c)|
    requires RowWritten(storage, a, b, level, c, row)
    ensures SameOutsideCell(storage, a, b, level, c)
  {
    var cell := storage.cells[storage.CellIndex(level, c)];
    if |storage.GetDestinationNodes(level, c)| > 0 {
      RowInBlock(cell.source.count, cell.destination.count, row);
    }
    var begin := CellSlot(storage, level, c, row, 0);
    forall k: nat | k < |a.weights| && !InBlock(storage, level, c, k) ensures SameAt(a, b, k) {
      assert !(begin <= k < begin + |storage.GetDestinationNodes(level, c)|);
    }
  }

  /** The label of a destination, allowed or not, is exact once the search is done. */
  lemma LabelIsExact(q: Query, clique: Clique, labels: map<nat, Label>, removed: set<nat>, destinations: seq<nat>,
                     j: nat)
    requires q.Valid() && GoodClique(q.net, q.level - 1, clique) && SearchInvariant(q, clique, labels, removed)
    requires SearchDone(labels, removed, q.net.allowed, destinations) && j < |destinations|
    requires destinations[j] < q.net.numNodes && q.net.Boundary(q.level, destinations[j])
    ensures Exact(q.net.edges, q.Region(), q.source, destinations[j], LabelSlot(labels, destinations[j]))
  {
    var t := destinations[j];
    assert labels.Keys <= q.Region() && |q.net.allowed| == q.net.numNodes;
    if q.net.allowed[t] {
      assert t in removed || labels.Keys == removed;
      hide GoodClique, SearchInvariant, Query.Valid, Query.Region, Exact, SearchDone, Network.Boundary;
      SearchIsExact(q, clique, labels, removed, t);
    } else {
      hide GoodClique, SearchInvariant, Exact, SearchDone, Network.Boundary;
      assert t !in q.Region();
      OutsideRegionIsDisconnected(q.net.edges, q.Region(), q.source, t);
      assert LabelSlot(labels, t) == None;
      DisconnectedIsExact(q.net.edges, q.Region(), q.source, t);
    }
  }

  lemma DisconnectedIsExact(edges: seq<Edge>, region: set<nat>, u: nat, v: nat)
    requires Disconnected(edges, region, u, v)
    ensures Exact(edges, region, u, v, None)
  {
  }

  /** The nodes that label rows and columns are border nodes of the cell. */
  lemma ListedFacts(storage: CellStorage, net: Network, level: nat, c: nat)
    requires net.WellFormed() && LaidOut(storage, net) && storage.HasCell(level, c) && 1 <= level <= |net.cells|
    ensures forall i: nat ::
              i < |storage.GetSourceNodes(level, c)| ==> BorderNode(net, level, c, storage.GetSourceNodes(level, c)[i])
    ensures forall j: nat ::
              j < |storage.GetDestinationNodes(level, c)| ==>
                BorderNode(net, level, c, storage.GetDestinationNodes(level, c)[j])
  {
    hide Network.Mirrored, Network.OnLinks, NestedCells.Nested, Network.Boundary, PositiveWeights;
    hide Network.HasInnerForward;
    hide Network.HasInnerBackward;
    ListedNodes(storage, net, level, c);
    hide LaidOut;
    var sources, destinations := storage.GetSourceNodes(level, c), storage.GetDestinationNodes(level, c);
    forall i: nat | i < |sources| ensures BorderNode(net, level, c, sources[i]) {
      assert sources[i] in sources;
      assert SourceMember(net, level, (c, sources[i]));
    }
    forall j: nat | j < |destinations| ensures BorderNode(net, level, c, destinations[j]) {
      assert destinations[j] in destinations;
      assert DestinationMember(net, level, (c, destinations[j]));
    }
  }

  ghost predicate BorderNode(net: Network, level: nat, c: nat, v: nat)
    requires net.Shaped() && net.EdgesInRange() && level <= |net.cells|
  {
    v < net.numNodes && net.Cell(level, v) == c && net.Boundary(level, v)
  }

  /** Slots after a search: every label went to its place. */
  ghost predicate RowHolds(storage: CellStorage, vals: MetricValues, level: nat, c: nat, row: nat,
                           labels: map<nat, Label>)
    requires storage.Valid() && storage.HasCell(level, c)
  {
    && vals.Sized(|vals.weights|)
    && forall j: nat ::
      j < |storage.GetDestinationNodes(level, c)| ==> SlotHolds(storage, vals, level, c, row, j, labels)
  }

  ghost predicate SlotHolds(storage: CellStorage, vals: MetricValues, level: nat, c: nat, row: nat, j: nat,
                            labels: map<nat, Label>)
    requires storage.Valid() && storage.HasCell(level, c) && vals.Sized(|vals.weights|)
             && j < |storage.GetDestinationNodes(level, c)|
  {
    var k := CellSlot(storage, level, c, row, j);
    k < |vals.weights| && Holds(vals, k, LabelSlot(labels, storage.GetDestinationNodes(level, c)[j]))
  }

  lemma SearchedRowIsExact(storage: CellStorage, q: Query, clique: Clique, labels: map<nat, Label>, removed: set<nat>,
                           vals: MetricValues, c: nat, row: nat)
    requires q.Valid() && GoodClique(q.net, q.level - 1, clique) && SearchInvariant(q, clique, labels, removed)
    requires LaidOut(storage, q.net) && storage.HasCell(q.level, c) && row < |storage.GetSourceNodes(q.level, c)|
    requires storage.GetSourceNodes(q.level, c)[row] == q.source && q.net.Cell(q.level, q.source) == c
    requires SearchDone(labels, removed, q.net.allowed, storage.GetDestinationNodes(q.level, c))
    requires RowHolds(storage, vals, q.level, c, row, labels)
    ensures forall j: nat ::
              j < |storage.GetDestinationNodes(q.level, c)| ==> SlotExact(storage, q.net, vals, q.level, c, row, j)
  {
    QueryFacts(q);
    ListedFacts(storage, q.net, q.level, c);
    assert q.Region() == q.net.Region(q.level, c);
    hide GoodClique, SearchInvariant, Query.Valid, LaidOut, SearchDone, Exact, Network.Boundary, Query.Region;
    hide Network.WellFormed;
    var destinations := storage.GetDestinationNodes(q.level, c);
    forall j: nat | j < |destinations| ensures SlotExact(storage, q.net, vals, q.level, c, row, j) {
      assert BorderNode(q.net, q.level, c, destinations[j]);
      assert SlotHolds(storage, vals, q.level, c, row, j, labels);
      LabelIsExact(q, clique, labels, removed, destinations, j);
    }
  }

  // ---------- one cell ----------

  ghost predicate CellProgress(storage: CellStorage, net: Network, start: MetricValues, vals: MetricValues, level: nat,
                               c: nat, rows: nat)
  {
    && storage.Valid() && storage.HasCell(level, c) && net.Shaped() && level <= |net.cells|
    && SameOutsideCell(storage, start, vals, level, c)
    && RowsExact(storage, net, vals, level, c, rows)
    && ExcludedRowsInvalid(storage, net, vals, level, c, rows)
    && BelowExact(storage, net, vals, level)
  }

  lemma SameOutsideCellTransitive(storage: CellStorage, a: MetricValues, b: MetricValues, d: MetricValues, level: nat,
                                  c: nat)
    requires storage.Valid() && storage.HasCell(level, c)
    requires SameOutsideCell(storage, a, b, level, c) && SameOutsideCell(storage, b, d, level, c)
    ensures SameOutsideCell(storage, a, d, level, c)
  {
    forall k: nat | k < |a.weights| && !InBlock(storage, level, c, k) ensures SameAt(a, d, k) {
      assert SameAt(a, b, k) && SameAt(b, d, k);
    }
  }

  lemma BelowStaysExact(storage: CellStorage, net: Network, a: MetricValues, b: MetricValues, level: nat, c: nat)
    requires storage.Consecutive() && storage.ProductsFit() && BelowExact(storage, net, a, level)
    requires storage.HasCell(level, c) && SameOutsideCell(storage, a, b, level, c)
    ensures BelowExact(storage, net, b, level)
  {
    hide LevelExact, CellStorage.ProductsFit, CellStorage.Consecutive;
    if level > 1 {
      LevelStaysExact(storage, net, a, b, level - 1, level, c);
    }
  }

  /** A source that is not allowed keeps its invalid row, which is exact: no walk starts there. */
  lemma ExcludedRowIsExact(storage: CellStorage, net: Network, start: MetricValues, vals: MetricValues, level: nat,
                           c: nat, row: nat)
    requires CellProgress(storage, net, start, vals, level, c, row) && row < |storage.GetSourceNodes(level, c)|
    requires storage.GetSourceNodes(level, c)[row] < net.numNodes && !net.allowed[storage.GetSourceNodes(level, c)[row]]
    ensures CellProgress(storage, net, start, vals, level, c, row + 1)
  {
    hide Exact, SameOutsideCell, BelowExact;
    var source := storage.GetSourceNodes(level, c)[row];
    forall i: nat, j: nat | i < row + 1 && j < |storage.GetDestinationNodes(level, c)|
      ensures SlotExact(storage, net, vals, level, c, i, j)
    {
      if i == row {
        assert ExcludedSlotInvalid(storage, net, vals, level, c, i, j);
        OutsideRegionIsDisconnected(net.edges, net.Region(level, c), source, storage.GetDestinationNodes(level, c)[j]);
        DisconnectedIsExact(net.edges, net.Region(level, c), source, storage.GetDestinationNodes(level, c)[j]);
      }
    }
  }

  /** An allowed source: its row is exact now and all other rows are as before. */
  lemma WrittenRowProgresses(storage: CellStorage, net: Network, start: MetricValues, before: MetricValues,
                             after: MetricValues, level: nat, c: nat, row: nat)
    requires storage.Consecutive() && storage.ProductsFit()
    requires CellProgress(storage, net, start, before, level, c, row) && row < |storage.GetSourceNodes(level, c)|
    requires RowWritten(storage, before, after, level, c, row)
    requires forall j: nat ::
               j < |storage.GetDestinationNodes(level, c)| ==> SlotExact(storage, net, after, level, c, row, j)
    ensures CellProgress(storage, net, start, after, level, c, row + 1)
  {
    RowWriteStaysInCell(storage, before, after, level, c, row);
    SameOutsideCellTransitive(storage, start, before, after, level, c);
    hide Exact, InBlock, CellStorage.ProductsFit, CellStorage.Consecutive, SameOutsideCell;
    BelowStaysExact(storage, net, before, after, level, c);
    hide BelowExact;
    forall i: nat, j: nat | i < row + 1 && j < |storage.GetDestinationNodes(level, c)|
      ensures SlotExact(storage, net, after, level, c, i, j)
    {
      if i < row {
        assert SlotExact(storage, net, before, level, c, i, j);
        OtherSlotKept(storage, before, after, level, c, row, i, j);
      }
    }
    forall i: nat, j: nat | row + 1 <= i < |storage.GetSourceNodes(level, c)|
      && j < |storage.GetDestinationNodes(level, c)|
      ensures ExcludedSlotInvalid(storage, net, after, level, c, i, j)
    {
      assert ExcludedSlotInvalid(storage, net, before, level, c, i, j);
      if CellSlot(storage, level, c, i, j) < |before.weights| {
        OtherSlotKept(storage, before, after, level, c, row, i, j);
      }
    }
  }

  // ---------- what a worker has done ----------

  /** One row: the values before and after, and the labels its search ended with. */
  datatype RowTrace = RowTrace(before: MetricValues, after: MetricValues, rounds: seq<Round>,
                               labels: map<nat, Label>, removed: set<nat>)

  /** The row of an allowed source was searched and stored; the row of an excluded one was left alone. */
  ghost predicate RowTraced(storage: CellStorage, net: Network, level: nat, c: nat, row: nat, t: RowTrace)
    requires storage.Valid() && storage.HasCell(level, c) && row < |storage.GetSourceNodes(level, c)|
  {
    var source := storage.GetSourceNodes(level, c)[row];
    if source < |net.allowed| && net.allowed[source] then RowSearched(storage, net, level, c, row, t)
    else t.after == t.before
  }

  ghost predicate RowSearched(storage: CellStorage, net: Network, level: nat, c: nat, row: nat, t: RowTrace)
    requires storage.Valid() && storage.HasCell(level, c) && row < |storage.GetSourceNodes(level, c)|
  {
    var q := Query(net, level, storage.GetSourceNodes(level, c)[row]);
    && q.Valid() && SearchedBy(q, CliqueBelow(storage, net, t.before, level), t.rounds, t.labels, t.removed)
    && SearchDone(t.labels, t.removed, net.allowed, storage.GetDestinationNodes(level, c))
    && RowWritten(storage, t.before, t.after, level, c, row) && RowHolds(storage, t.after, level, c, row, t.labels)
  }

  /** The rows of a cell one after the other, from `start` to `vals`. */
  ghost predicate Traced(storage: CellStorage, net: Network, level: nat, c: nat, trace: seq<RowTrace>,
                         start: MetricValues, vals: MetricValues)
    requires storage.Valid() && storage.HasCell(level, c)
  {
    && |trace| <= |storage.GetSourceNodes(level, c)|
    && (trace == [] ==> start == vals)
    && (trace != [] ==> trace[0].before == start && trace[|trace| - 1].after == vals)
    && (forall i :: 0 < i < |trace| ==> trace[i].before == trace[i - 1].after)
    && (forall i: nat :: i < |trace| ==> RowTraced(storage, net, level, c, i, trace[i]))
  }

  lemma TraceGrows(storage: CellStorage, net: Network, level: nat, c: nat, trace: seq<RowTrace>, start: MetricValues,
                   t: RowTrace)
    requires storage.Valid() && storage.HasCell(level, c) && |trace| < |storage.GetSourceNodes(level, c)|
    requires Traced(storage, net, level, c, trace, start, t.before) && RowTraced(storage, net, level, c, |trace|, t)
    ensures Traced(storage, net, level, c, trace + [t], start, t.after)
  {
    hide RowTraced;
  }

  lemma NothingTraced(storage: CellStorage, net: Network, level: nat, c: nat, start: MetricValues)
    requires storage.Valid() && storage.HasCell(level, c)
    ensures Traced(storage, net, level, c, [], start, start)
  {
  }

  /** Search from one allowed source and store the result. */
  method CustomizeRow(mlp: MultiLevelPartition, g: MultiLevelGraph, storage: CellStorage, allowed: seq<bool>,
                      metric: CellMetric, heap: QueryHeap, level: nat, id: nat, row: nat, ghost net: Network,
                      ghost start: MetricValues)
    returns (ghost trace: RowTrace)
    requires Setup(mlp, g, storage, net) && net.allowed == allowed && |heap.nodeIndex| == net.numNodes
    requires CellProgress(storage, net, start, metric.Values(), level, id, row)
             && row < |storage.GetSourceNodes(level, id)|
    requires storage.GetSourceNodes(level, id)[row] < net.numNodes && allowed[storage.GetSourceNodes(level, id)[row]]
    modifies heap, metric
    ensures |heap.nodeIndex| == net.numNodes
    ensures CellProgress(storage, net, start, metric.Values(), level, id, row + 1)
    ensures trace.before == old(metric.Values()) && trace.after == metric.Values()
    ensures storage.Valid() && storage.HasCell(level, id) && RowSearched(storage, net, level, id, row, trace)
  {
    hide Setup, CellProgress, Query.Valid, SearchInvariant, GoodClique, QueryHeaps.Represents, CliqueOf, Exact;
    hide SearchDone, SearchedBy;
    hide RowHolds, RowWritten, BelowExact, LevelExact, LaidOut, SlotExact, Holds;
    hide CellStorage.Consecutive, CellStorage.ProductsFit, CellStorage.Valid, SameOutside, GetOutRange;
    ghost var before := metric.Values();
    ghost var q, clique := RowStarts(mlp, g, storage, net, start, before, level, id, row);
    var source, destinations := storage.GetSourceNodes(level, id)[row], storage.GetDestinationNodes(level, id);
    ghost var rounds := Search(mlp, g, storage, allowed, metric, heap, level, source, destinations, q);
    var range := GetOutRange(storage, level, id, source);
    WriteRow(metric, heap, range.begin, destinations);
    RowIsWritten(storage, before, metric.Values(), level, id, row, heap.labels);
    SearchedRowIsExact(storage, q, clique, heap.labels, heap.removed, metric.Values(), id, row);
    WrittenRowProgresses(storage, net, start, before, metric.Values(), level, id, row);
    trace := RowTrace(before, metric.Values(), rounds, heap.labels, heap.removed);
  }

  lemma RowStarts(mlp: MultiLevelPartition, g: MultiLevelGraph, storage: CellStorage, net: Network, start: MetricValues,
                  vals: MetricValues, level: nat, id: nat, row: nat)
    returns (q: Query, clique: Clique)
    requires Setup(mlp, g, storage, net) && CellProgress(storage, net, start, vals, level, id, row)
    requires row < |storage.GetSourceNodes(level, id)|
    requires storage.GetSourceNodes(level, id)[row] < net.numNodes
             && net.allowed[storage.GetSourceNodes(level, id)[row]]
    ensures storage.Valid() && storage.HasCell(level, id) && |net.allowed| == net.numNodes
    ensures q == Query(net, level, storage.GetSourceNodes(level, id)[row]) && q.Valid()
            && net.Cell(level, q.source) == id
    ensures clique == CliqueBelow(storage, net, vals, level) && GoodClique(net, level - 1, clique)
    ensures BelowExact(storage, net, vals, level)
    ensures LaidOut(storage, net) && storage.Consecutive() && storage.ProductsFit() && vals.Sized(|vals.weights|)
    ensures forall k ::
              0 <= k < |storage.GetDestinationNodes(level, id)| ==>
                storage.GetDestinationNodes(level, id)[k] < |net.allowed|
    ensures var range := GetOutRange(storage, level, id, q.source);
            range.begin == CellSlot(storage, level, id, row, 0)
            && range.begin + |storage.GetDestinationNodes(level, id)| <= |vals.weights|
  {
    q, clique := Query(net, level, storage.GetSourceNodes(level, id)[row]), CliqueBelow(storage, net, vals, level);
    assert net.WellFormed() && LaidOut(storage, net) && storage.ProductsFit() && 1 <= level <= |net.cells|
           && |net.allowed| == net.numNodes;
    assert BelowExact(storage, net, vals, level);
    hide Setup, CellProgress, GoodClique, CliqueOf, LevelExact;
    BelowIsGood(mlp, g, storage, net, vals, level);
    ListedFacts(storage, net, level, id);
    assert BorderNode(net, level, id, q.source);
    hide Network.WellFormed, Network.Boundary;
    LaidOutIsValid(storage, net);
    OutRangeFacts(storage, net, |vals.weights|, level, id, q.source);
    ListedNodes(storage, net, level, id);
    FindInAscending(storage.GetSourceNodes(level, id), row);
    RowInBlock(row + 1, |storage.GetDestinationNodes(level, id)|, row);
  }

  lemma RowIsWritten(storage: CellStorage, before: MetricValues, after: MetricValues, level: nat, c: nat, row: nat,
                     labels: map<nat, Label>)
    requires storage.Valid() && storage.HasCell(level, c)
    requires var destinations, begin := storage.GetDestinationNodes(level, c), CellSlot(storage, level, c, row, 0);
             && SameOutside(before, after, begin, begin + |destinations|)
             && begin + |destinations| <= |before.weights|
             && (forall j: nat :: j < |destinations| ==> Holds(after, begin + j, LabelSlot(labels, destinations[j])))
    ensures RowWritten(storage, before, after, level, c, row) && RowHolds(storage, after, level, c, row, labels)
  {
    var begin := CellSlot(storage, level, c, row, 0);
    forall j: nat | j < |storage.GetDestinationNodes(level, c)|
      ensures SlotHolds(storage, after, level, c, row, j, labels)
    {
      assert CellSlot(storage, level, c, row, j) == begin + j;
    }
  }

  /** One source: skipped when it is excluded. */
  method CustomizeSource(mlp: MultiLevelPartition, g: MultiLevelGraph, storage: CellStorage, allowed: seq<bool>,
                         metric: CellMetric, heap: QueryHeap, level: nat, id: nat, row: nat, ghost net: Network,
                         ghost start: MetricValues)
    returns (ghost trace: RowTrace)
    requires Setup(mlp, g, storage, net) && net.allowed == allowed && |heap.nodeIndex| == net.numNodes == |allowed|
    requires CellProgress(storage, net, start, metric.Values(), level, id, row)
             && row < |storage.GetSourceNodes(level, id)|
    requires storage.Valid() && storage.HasCell(level, id) && storage.GetSourceNodes(level, id)[row] < net.numNodes
    modifies heap, metric
    ensures |heap.nodeIndex| == net.numNodes
    ensures CellProgress(storage, net, start, metric.Values(), level, id, row + 1)
    ensures trace.before == old(metric.Values()) && trace.after == metric.Values()
    ensures RowTraced(storage, net, level, id, row, trace)
  {
    hide Setup, CellProgress, RowSearched, CellStorage.Valid;
    if !allowed[storage.GetSourceNodes(level, id)[row]] {
      ExcludedRowIsExact(storage, net, start, metric.Values(), level, id, row);
      trace := RowTrace(metric.Values(), metric.Values(), [], map[], {});
    } else {
      trace := CustomizeRow(mlp, g, storage, allowed, metric, heap, level, id, row, net, start);
    }
  }

  /** `Customize` for one cell: fills its matrix, touches no other slot. */
  method CustomizeCell(mlp: MultiLevelPartition, g: MultiLevelGraph, storage: CellStorage, allowed: seq<bool>,
                       metric: CellMetric, heap: QueryHeap, level: nat, id: nat, ghost net: Network)
    returns (ghost trace: seq<RowTrace>)
    requires Setup(mlp, g, storage, net) && net.allowed == allowed && |heap.nodeIndex| == net.numNodes
    requires storage.HasCell(level, id) && BelowExact(storage, net, metric.Values(), level)
    requires ExcludedRowsInvalid(storage, net, metric.Values(), level, id, 0)
    modifies heap, metric
    ensures |heap.nodeIndex| == net.numNodes
    ensures SameOutsideCell(storage, old(metric.Values()), metric.Values(), level, id)
    ensures CellExact(storage, net, metric.Values(), level, id) && BelowExact(storage, net, metric.Values(), level)
    ensures |trace| == |storage.GetSourceNodes(level, id)|
    ensures Traced(storage, net, level, id, trace, old(metric.Values()), metric.Values())
  {
    hide Setup, CellProgress, BelowExact, CellExact, SameOutsideCell, ExcludedRowsInvalid;
    hide CellStorage.Valid, Network.Shaped, Traced;
    ghost var start := metric.Values();
    CellStarts(mlp, g, storage, net, start, level, id);
    trace := [];
    NothingTraced(storage, net, level, id, start);
    for row := 0 to |storage.GetSourceNodes(level, id)|
      invariant |heap.nodeIndex| == net.numNodes
      invariant CellProgress(storage, net, start, metric.Values(), level, id, row)
      invariant |trace| == row && Traced(storage, net, level, id, trace, start, metric.Values())
    {
      ghost var done := CustomizeSource(mlp, g, storage, allowed, metric, heap, level, id, row, net, start);
      TraceGrows(storage, net, level, id, trace, start, done);
      trace := trace + [done];
    }
    CellFinished(storage, net, start, metric.Values(), level, id);
  }

  lemma CellStarts(mlp: MultiLevelPartition, g: MultiLevelGraph, storage: CellStorage, net: Network, vals: MetricValues,
                   level: nat, id: nat)
    requires Setup(mlp, g, storage, net) && storage.HasCell(level, id) && BelowExact(storage, net, vals, level)
    requires ExcludedRowsInvalid(storage, net, vals, level, id, 0)
    ensures CellProgress(storage, net, vals, vals, level, id, 0)
    ensures storage.Valid() && |net.allowed| == net.numNodes
    ensures forall row ::
              0 <= row < |storage.GetSourceNodes(level, id)| ==> storage.GetSourceNodes(level, id)[row] < net.numNodes
  {
    assert net.WellFormed() && LaidOut(storage, net) && |net.allowed| == net.numNodes && net.EdgesInRange();
    hide Setup, ExcludedRowsInvalid, LevelExact, Network.Boundary, LaidOut;
    ListedFacts(storage, net, level, id);
    hide Network.WellFormed;
    assert SameOutsideCell(storage, vals, vals, level, id);
    forall row | 0 <= row < |storage.GetSourceNodes(level, id)|
      ensures storage.GetSourceNodes(level, id)[row] < net.numNodes
    {
      assert BorderNode(net, level, id, storage.GetSourceNodes(level, id)[row]);
    }
  }

  lemma CellFinished(storage: CellStorage, net: Network, start: MetricValues, vals: MetricValues, level: nat, c: nat)
    requires storage.Valid() && storage.HasCell(level, c)
    requires CellProgress(storage, net, start, vals, level, c, |storage.GetSourceNodes(level, c)|)
    ensures net.Shaped() && level <= |net.cells|
    ensures SameOutsideCell(storage, start, vals, level, c) && CellExact(storage, net, vals, level, c)
            && BelowExact(storage, net, vals, level)
  {
    hide SlotExact, SameOutsideCell, BelowExact, ExcludedRowsInvalid;
  }

  // ---------- all cells ----------

  /** Levels below `level` are exact, and on `level` every cell outside `todo` is. Everything not customized yet is
      invalid. */
  ghost predicate Progress(storage: CellStorage, net: Network, vals: MetricValues, level: nat, todo: set<nat>) {
    && storage.Valid() && net.Shaped() && 1 <= level <= |net.cells| + 1
    && vals.Sized(|vals.weights|) && storage.TotalSize() <= |vals.weights|
    && (forall l: nat :: 1 <= l < level ==> LevelExact(storage, net, vals, l))
    && (forall l: nat, c: nat :: level <= l <= |net.cells| && storage.HasCell(l, c) ==>
          if l == level && c !in todo then CellExact(storage, net, vals, l, c) else CellUntouched(storage, vals, l, c))
  }

  ghost predicate CellUntouched(storage: CellStorage, vals: MetricValues, level: nat, c: nat)
    requires storage.Valid() && storage.HasCell(level, c)
  {
    && vals.Sized(|vals.weights|)
    && forall k: nat :: k < |vals.weights| && InBlock(storage, level, c, k) ==> InvalidAt(vals, k)
  }

  lemma BlockNotInOther(storage: CellStorage, level: nat, c: nat, level': nat, c': nat, k: nat)
    requires storage.Valid() && storage.Consecutive() && storage.ProductsFit()
    requires storage.HasCell(level, c) && storage.HasCell(level', c') && (level != level' || c != c')
    requires InBlock(storage, level, c, k)
    ensures !InBlock(storage, level', c', k)
  {
    var a, b := storage.CellIndex(level, c), storage.CellIndex(level', c');
    if a < b {
      BlocksAreDisjoint(storage, a, b);
    } else if b < a {
      BlocksAreDisjoint(storage, b, a);
    } else {
      CellIndexInjective(storage, level, c, level', c');
    }
  }

  lemma UntouchedStays(storage: CellStorage, a: MetricValues, b: MetricValues, level: nat, c: nat, level': nat, c': nat)
    requires storage.Valid() && storage.Consecutive() && storage.ProductsFit()
    requires storage.HasCell(level, c) && storage.HasCell(level', c') && (level != level' || c != c')
    requires CellUntouched(storage, a, level, c) && SameOutsideCell(storage, a, b, level', c')
    ensures CellUntouched(storage, b, level, c)
  {
    hide CellStorage.Consecutive, CellStorage.ProductsFit;
    forall k: nat | k < |b.weights| && InBlock(storage, level, c, k) ensures InvalidAt(b, k) {
      BlockNotInOther(storage, level, c, level', c', k);
      assert SameAt(a, b, k);
    }
  }

  lemma UntouchedRowsInvalid(storage: CellStorage, net: Network, vals: MetricValues, level: nat, c: nat)
    requires storage.Valid() && storage.Consecutive() && storage.ProductsFit() && storage.HasCell(level, c)
    requires vals.Sized(|vals.weights|) && storage.TotalSize() <= |vals.weights|
             && CellUntouched(storage, vals, level, c)
    ensures ExcludedRowsInvalid(storage, net, vals, level, c, 0)
  {
    var k := storage.CellIndex(level, c);
    BlocksAreDisjoint(storage, k, k);
    hide CellStorage.Consecutive, CellStorage.ProductsFit, InvalidAt;
    forall i: nat, j: nat | i < |storage.GetSourceNodes(level, c)| && j < |storage.GetDestinationNodes(level, c)|
      ensures ExcludedSlotInvalid(storage, net, vals, level, c, i, j)
    {
      SlotInOwnBlock(storage, level, c, i, j);
    }
  }

  /** After one more cell of the level. */
  lemma CellAdvances(storage: CellStorage, net: Network, a: MetricValues, b: MetricValues, level: nat, todo: set<nat>,
                     id: nat)
    requires storage.Consecutive() && storage.ProductsFit() && Progress(storage, net, a, level, todo)
    requires id in todo && storage.HasCell(level, id) && level <= |net.cells|
    requires SameOutsideCell(storage, a, b, level, id) && CellExact(storage, net, b, level, id)
    ensures Progress(storage, net, b, level, todo - {id})
  {
    hide CellExact, CellUntouched, SameOutsideCell, CellStorage.Consecutive, CellStorage.ProductsFit, LevelExact;
    SizesKept(storage, a, b, level, id);
    forall l: nat | 1 <= l < level ensures LevelExact(storage, net, b, l) {
      LevelStaysExact(storage, net, a, b, l, level, id);
    }
    forall l: nat, c: nat | level <= l <= |net.cells| && storage.HasCell(l, c)
      ensures if l == level && c !in todo - {id} then CellExact(storage, net, b, l, c)
              else CellUntouched(storage, b, l, c)
    {
      if l == level && c == id {
      } else if l == level && c !in todo {
        CellStaysExact(storage, net, a, b, l, c, level, id);
      } else {
        UntouchedStays(storage, a, b, l, c, level, id);
      }
    }
  }

  lemma SizesKept(storage: CellStorage, a: MetricValues, b: MetricValues, level: nat, c: nat)
    requires storage.Valid() && storage.HasCell(level, c) && SameOutsideCell(storage, a, b, level, c)
    ensures a.Sized(|a.weights|) && b.Sized(|a.weights|)
  {
  }

  /** The next level starts with all its cells to do. */
  lemma LevelAdvances(storage: CellStorage, net: Network, vals: MetricValues, level: nat, todo: set<nat>)
    requires Progress(storage, net, vals, level, {}) && level <= |net.cells|
    requires forall c: nat :: storage.HasCell(level + 1, c) ==> c in todo
    ensures Progress(storage, net, vals, level + 1, todo)
  {
    hide CellExact, CellUntouched;
    assert LevelExact(storage, net, vals, level);
  }

  lemma ProgressIsBelowExact(storage: CellStorage, net: Network, vals: MetricValues, level: nat, todo: set<nat>)
    requires Progress(storage, net, vals, level, todo) && level <= |net.cells|
    ensures BelowExact(storage, net, vals, level)
  {
  }

  lemma MadeMetricStarts(storage: CellStorage, net: Network, vals: MetricValues, todo: set<nat>)
    requires storage.Valid() && net.Shaped() && AllInvalid(vals) && storage.TotalSize() <= |vals.weights|
    requires forall c: nat :: storage.HasCell(1, c) ==> c in todo
    ensures Progress(storage, net, vals, 1, todo)
  {
  }

  // ---------- what the values promise ----------

  /** Row `i` and column `j` of a cell hold the values of the cheapest route inside it, or the marks of no route. */
  ghost predicate SlotCheapest(storage: CellStorage, net: Network, vals: MetricValues, level: nat, c: nat, i: nat,
                               j: nat)
    requires storage.Valid() && storage.HasCell(level, c) && net.Shaped() && level <= |net.cells|
  {
    var cell := storage.cells[storage.levelToCellOffset[level - 1] + c];
    i < cell.source.count && j < cell.destination.count ==>
      var k := cell.valueOffset + i * cell.destination.count + j;
      var u := storage.sourceBoundary[cell.source.offset + i];
      var v := storage.destinationBoundary[cell.destination.offset + j];
      && k < |vals.weights| == |vals.durations| == |vals.distances|
      && Cheapest(net.edges, net.cells[level - 1], net.allowed, c, u, v, vals.weights[k], vals.durations[k],
                  vals.distances[k])
      && (vals.weights[k].None? ==>
            vals.durations[k] == 0x7FFF_FFFF && vals.distances[k] == 340282346638528859811704183484516925440.0)
  }

  ghost predicate LevelCheapest(storage: CellStorage, net: Network, vals: MetricValues, level: nat)
    requires storage.Valid() && net.Shaped() && level <= |net.cells|
  {
    forall c: nat, i: nat, j: nat :: storage.HasCell(level, c) ==> SlotCheapest(storage, net, vals, level, c, i, j)
  }

  lemma SlotExactIsCheapest(storage: CellStorage, net: Network, vals: MetricValues, level: nat, c: nat, i: nat, j: nat)
    requires storage.Valid() && storage.HasCell(level, c) && net.Shaped() && level <= |net.cells|
    requires i < |storage.GetSourceNodes(level, c)| && j < |storage.GetDestinationNodes(level, c)|
    ensures SlotExact(storage, net, vals, level, c, i, j) <==> SlotCheapest(storage, net, vals, level, c, i, j)
  {
    hide Cheapest, Exact, Network.Shaped, Network.Region;
    var k, cell := CellSlot(storage, level, c, i, j), storage.cells[storage.CellIndex(level, c)];
    assert |storage.GetSourceNodes(level, c)| == cell.source.count;
    assert |storage.GetDestinationNodes(level, c)| == cell.destination.count;
    assert storage.GetSourceNodes(level, c)[i] == storage.sourceBoundary[cell.source.offset + i];
    assert storage.GetDestinationNodes(level, c)[j] == storage.destinationBoundary[cell.destination.offset + j];
    if vals.Sized(|vals.weights|) && k < |vals.weights| {
      ExactIsCheapest(net, level, c, storage.GetSourceNodes(level, c)[i], storage.GetDestinationNodes(level, c)[j],
                      CostAt(vals, k), vals.weights[k], vals.durations[k], vals.distances[k]);
    }
  }

  /** An exact level is one whose every slot holds the values of the cheapest route. */
  lemma LevelExactIsCheapest(storage: CellStorage, net: Network, vals: MetricValues, level: nat)
    requires storage.Valid() && net.Shaped() && level <= |net.cells|
    ensures LevelExact(storage, net, vals, level) <==> LevelCheapest(storage, net, vals, level)
  {
    hide SlotExact, Cheapest, Network.Shaped;
    forall c: nat, i: nat, j: nat |
      && storage.HasCell(level, c) && i < |storage.GetSourceNodes(level, c)|
      && j < |storage.GetDestinationNodes(level, c)|
      ensures SlotExact(storage, net, vals, level, c, i, j) <==> SlotCheapest(storage, net, vals, level, c, i, j)
    {
      SlotExactIsCheapest(storage, net, vals, level, c, i, j);
    }
    LevelBySlots(storage, net, vals, level);
  }

  lemma LevelBySlots(storage: CellStorage, net: Network, vals: MetricValues, level: nat)
    requires storage.Valid() && net.Shaped() && level <= |net.cells|
    requires forall c: nat, i: nat, j: nat ::
               && storage.HasCell(level, c) && i < |storage.GetSourceNodes(level, c)|
               && j < |storage.GetDestinationNodes(level, c)| ==>
                 (SlotExact(storage, net, vals, level, c, i, j) <==> SlotCheapest(storage, net, vals, level, c, i, j))
    ensures LevelExact(storage, net, vals, level) <==> LevelCheapest(storage, net, vals, level)
  {
    hide SlotExact, Cheapest, Network.Shaped;
    if LevelExact(storage, net, vals, level) {
      forall c: nat, i: nat, j: nat | storage.HasCell(level, c)
        ensures SlotCheapest(storage, net, vals, level, c, i, j)
      {
        assert CellExact(storage, net, vals, level, c);
      }
    }
    if LevelCheapest(storage, net, vals, level) {
      forall c: nat | storage.HasCell(level, c) ensures CellExact(storage, net, vals, level, c) {
        forall i: nat, j: nat | i < |storage.GetSourceNodes(level, c)| && j < |storage.GetDestinationNodes(level, c)|
          ensures SlotExact(storage, net, vals, level, c, i, j)
        {
          assert SlotCheapest(storage, net, vals, level, c, i, j);
        }
      }
    }
  }

  /** `Customize` for all cells: level by level, the cells of a level in any order. */
  method Customize(mlp: MultiLevelPartition, g: MultiLevelGraph, storage: CellStorage, allowed: seq<bool>,
                   metric: CellMetric, ghost net: Network)
    requires Setup(mlp, g, storage, net) && net.allowed == allowed
    requires AllInvalid(metric.Values()) && storage.TotalSize() <= |metric.weights|
    modifies metric
    ensures storage.Valid() && net.Shaped()
    ensures forall level: nat :: 1 <= level <= |net.cells| ==>
              LevelExact(storage, net, metric.Values(), level) && LevelCheapest(storage, net, metric.Values(), level)
  {
    SetupFacts(mlp, g, storage, net);
    hide Setup, Progress, AllInvalid, CellStorage.Consecutive, CellStorage.ProductsFit, LevelExact, BelowExact;
    hide CellExact, LevelCheapest, SameOutsideCell, ExcludedRowsInvalid;
    hide CellStorage.Valid, Network.Shaped, CellUntouched;
    var heap := new QueryHeap(|allowed|);
    var level := 1;
    var todo := CellsOf(mlp, g, storage, level, net);
    MadeMetricStarts(storage, net, metric.Values(), todo);
    while level < mlp.GetNumberOfLevels()
      invariant 1 <= level <= |net.cells| + 1 && |heap.nodeIndex| == net.numNodes
      invariant level <= |net.cells| ==> forall c: nat :: c in todo ==> storage.HasCell(level, c)
      invariant Progress(storage, net, metric.Values(), level, todo)
    {
      while todo != {}
        invariant |heap.nodeIndex| == net.numNodes
        invariant forall c: nat :: c in todo ==> storage.HasCell(level, c)
        invariant Progress(storage, net, metric.Values(), level, todo)
        decreases todo
      {
        var id :| id in todo;
        ghost var before := metric.Values();
        ProgressIsBelowExact(storage, net, before, level, todo);
        TodoIsUntouched(storage, net, before, level, todo, id);
        ghost var trace := CustomizeCell(mlp, g, storage, allowed, metric, heap, level, id, net);
        CellAdvances(storage, net, before, metric.Values(), level, todo, id);
        todo := todo - {id};
      }
      todo := CellsOf(mlp, g, storage, level + 1, net);
      LevelAdvances(storage, net, metric.Values(), level, todo);
      level := level + 1;
    }
    AllLevelsExact(storage, net, metric.Values(), level, todo);
    forall l: nat | 1 <= l <= |net.cells| ensures LevelCheapest(storage, net, metric.Values(), l) {
      LevelExactIsCheapest(storage, net, metric.Values(), l);
    }
  }

  lemma SetupFacts(mlp: MultiLevelPartition, g: MultiLevelGraph, storage: CellStorage, net: Network)
    requires Setup(mlp, g, storage, net)
    ensures storage.Valid() && storage.Consecutive() && storage.ProductsFit() && net.Shaped()
    ensures |net.allowed| == net.numNodes && mlp.GetNumberOfLevels() == |net.cells| + 1
  {
    hide Network.Mirrored, Network.OnLinks, NestedCells.Nested, PositiveWeights, Stores, InternalRangeExact;
  }

  lemma TodoIsUntouched(storage: CellStorage, net: Network, vals: MetricValues, level: nat, todo: set<nat>, id: nat)
    requires Progress(storage, net, vals, level, todo) && level <= |net.cells| && id in todo
             && storage.HasCell(level, id)
    requires storage.Consecutive() && storage.ProductsFit()
    ensures ExcludedRowsInvalid(storage, net, vals, level, id, 0)
  {
    hide CellUntouched, LevelExact, CellExact, CellStorage.Consecutive, CellStorage.ProductsFit;
    assert CellUntouched(storage, vals, level, id);
    UntouchedRowsInvalid(storage, net, vals, level, id);
  }

  lemma AllLevelsExact(storage: CellStorage, net: Network, vals: MetricValues, level: nat, todo: set<nat>)
    requires Progress(storage, net, vals, level, todo) && level == |net.cells| + 1
    ensures storage.Valid() && net.Shaped()
    ensures forall l: nat :: 1 <= l <= |net.cells| ==> LevelExact(storage, net, vals, l)
  {
    hide LevelExact;
  }

  function Below(n: nat): (ids: set<nat>)
    ensures forall c: nat :: c in ids <==> c < n
  {
    if n == 0 then {} else Below(n - 1) + {n - 1}
  }

  /** The ids of the cells of a level; none beyond the last level. */
  method CellsOf(mlp: MultiLevelPartition, g: MultiLevelGraph, storage: CellStorage, level: nat, ghost net: Network)
    returns (ids: set<nat>)
    requires Setup(mlp, g, storage, net) && level >= 1
    ensures forall c: nat :: storage.HasCell(level, c) ==> c in ids
    ensures level <= |net.cells| ==> forall c: nat :: c in ids ==> storage.HasCell(level, c)
  {
    hide Network.WellFormed, InternalRangeExact, Stores, CellListed, LevelData.Valid;
    if level < mlp.GetNumberOfLevels() {
      ids := Below(mlp.GetNumberOfCells(level));
    } else {
      ids := {};
    }
  }
}
