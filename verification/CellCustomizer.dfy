/**
 Filling the cell matrices bottom-up, one search per source of a cell.
 */
module CellCustomizers {
  import opened RoadGraph
  import opened OverlayNetwork
  import opened OverlaySearch
  import opened OverlayExactness
  import opened QueryHeaps
  import opened LevelLayout
  import opened MultiLevelPartitions
  import opened MultiLevelGraphs
  import opened CellBoundaries
  import opened CellStorages
  import opened CellMetrics
  import opened NodeRelaxation
  import NestedCells

  // ---------- the inputs fit together ----------

  /** Partition, adjacency array and cell layout describe one well-formed network. */
  ghost predicate Setup(mlp: MultiLevelPartition, g: MultiLevelGraph, storage: CellStorage, net: Network) {
    && net.WellFormed() && Describes(mlp, g, net) && LaidOut(storage, net)
    && CountsCells(storage, mlp) && IdsInRange(mlp) && storage.ProductsFit()
    && forall level: nat, v: nat ::
      mlp.levelData.IsLevel(level) && v < net.numNodes ==> InternalRangeExact(mlp, g, net, level, v)
  }

  // ---------- exactness of the stored values ----------

  function CellSlot(storage: CellStorage, level: nat, c: nat, i: nat, j: nat): nat
    requires storage.Valid() && storage.HasCell(level, c)
  {
    SlotOf(storage.cells[storage.CellIndex(level, c)], i, j)
  }

  ghost predicate SlotExact(storage: CellStorage, net: Network, vals: MetricValues, level: nat, c: nat, i: nat, j: nat)
    requires storage.Valid() && storage.HasCell(level, c) && net.Shaped() && level <= |net.cells|
    requires i < |storage.GetSourceNodes(level, c)| && j < |storage.GetDestinationNodes(level, c)|
  {
    var k := CellSlot(storage, level, c, i, j);
    && vals.Sized(|vals.weights|) && k < |vals.weights|
    && Holds(vals, k, CostAt(vals, k))
    && Exact(net.edges, net.Region(level, c), storage.GetSourceNodes(level, c)[i],
             storage.GetDestinationNodes(level, c)[j],
             CostAt(vals, k))
  }

  ghost predicate CellExact(storage: CellStorage, net: Network, vals: MetricValues, level: nat, c: nat)
    requires storage.Valid() && storage.HasCell(level, c) && net.Shaped() && level <= |net.cells|
  {
    forall i: nat, j: nat :: i < |storage.GetSourceNodes(level, c)| && j < |storage.GetDestinationNodes(level, c)| ==>
      SlotExact(storage, net, vals, level, c, i, j)
  }

  /** Every slot of every cell of the level is the least cost of a walk inside the cell. */
  ghost predicate LevelExact(storage: CellStorage, net: Network, vals: MetricValues, level: nat)
    requires storage.Valid() && net.Shaped() && level <= |net.cells|
  {
    forall c: nat :: storage.HasCell(level, c) ==> CellExact(storage, net, vals, level, c)
  }

  // ---------- the level below as a clique ----------

  ghost predicate HasSlot(storage: CellStorage, net: Network, level: nat, x: nat, y: nat) {
    && storage.Valid() && net.Shaped() && 1 <= level <= |net.cells| && x < net.numNodes && y < net.numNodes
    && net.Cell(level, x) == net.Cell(level, y) && storage.HasCell(level, net.Cell(level, x))
    && x in storage.GetSourceNodes(level, net.Cell(level, x))
    && y in storage.GetDestinationNodes(level, net.Cell(level, x))
  }

  ghost function SlotIndex(storage: CellStorage, net: Network, level: nat, x: nat, y: nat): nat
    requires HasSlot(storage, net, level, x, y)
  {
    var c := net.Cell(level, x);
    CellSlot(storage, level, c, Find(storage.GetSourceNodes(level, c), x),
             Find(storage.GetDestinationNodes(level, c), y))
  }

  ghost function CliqueSlot(storage: CellStorage, net: Network, vals: MetricValues, level: nat, x: nat,
                            y: nat): Option<Cost> {
    if HasSlot(storage, net, level, x, y) && vals.Sized(|vals.weights|)
       && SlotIndex(storage, net, level, x, y) < |vals.weights|
    then CostAt(vals, SlotIndex(storage, net, level, x, y))
    else None
  }

  ghost function CliqueOf(storage: CellStorage, net: Network, vals: MetricValues, level: nat): Clique {
    (x: nat, y: nat) => CliqueSlot(storage, net, vals, level, x, y)
  }

  lemma ListedNodes(storage: CellStorage, net: Network, level: nat, c: nat)
    requires LaidOut(storage, net) && storage.HasCell(level, c)
    ensures Ascending(storage.GetSourceNodes(level, c)) && Ascending(storage.GetDestinationNodes(level, c))
    ensures forall v: nat :: v in storage.GetSourceNodes(level, c) <==> SourceMember(net, level, (c, v))
    ensures forall v: nat :: v in storage.GetDestinationNodes(level, c) <==> DestinationMember(net, level, (c, v))
  {
    hide SourceMember, DestinationMember;
    assert CellListed(storage, net, level, c);
  }

  /** On an exact level, the slot between two listed nodes is exact. */
  lemma CliqueSlotIsExact(storage: CellStorage, net: Network, vals: MetricValues, level: nat, x: nat, y: nat)
    requires LaidOut(storage, net) && HasSlot(storage, net, level, x, y) && LevelExact(storage, net, vals, level)
    ensures vals.Sized(|vals.weights|) && SlotIndex(storage, net, level, x, y) < |vals.weights|
    ensures Exact(net.edges, net.RegionOf(level, x), x, y, CliqueSlot(storage, net, vals, level, x, y))
  {
    hide Exact;
    var c := net.Cell(level, x);
    var i, j := Find(storage.GetSourceNodes(level, c), x), Find(storage.GetDestinationNodes(level, c), y);
    assert CellExact(storage, net, vals, level, c);
    assert SlotExact(storage, net, vals, level, c, i, j);
  }

  /** An unconnected node receives no walk from a source of its cell. */
  lemma ReachedIsDestination(net: Network, level: nat, x: nat, y: nat, c: Cost)
    requires net.WellFormed() && 1 <= level <= |net.cells| && x < net.numNodes && y < net.numNodes
    requires net.Cell(level, x) == net.Cell(level, y) && net.IsSource(level, x)
    requires net.IsDestination(level, y) || Unconnected(net, level, y)
    requires Attained(net.edges, net.RegionOf(level, x), x, y, c)
    ensures net.IsDestination(level, y)
  {
    hide Network.Mirrored, Network.OnLinks, NestedCells.Nested, Network.Boundary, PositiveWeights;
    var p :| WalkOfCost(net.edges, net.RegionOf(level, x), x, y, p, c);
    if p != [] {
      assert net.RegionOf(level, x) == net.RegionOf(level, y);
      SegmentEnds(net, level, x, y, p);
    }
  }

  lemma HasSlotMeans(storage: CellStorage, net: Network, level: nat, x: nat, y: nat)
    requires LaidOut(storage, net) && net.WellFormed() && 1 <= level <= |net.cells|
    requires forall v: nat :: v < net.numNodes ==> storage.HasCell(level, net.Cell(level, v))
    requires x < net.numNodes && y < net.numNodes
    ensures HasSlot(storage, net, level, x, y) <==>
      && net.Cell(level, x) == net.Cell(level, y) && net.IsSource(level, x)
      && (net.IsDestination(level, y) || Unconnected(net, level, y))
  {
    hide Network.Mirrored, Network.OnLinks, NestedCells.Nested, Network.Boundary, PositiveWeights;
    hide Network.HasInnerForward;
    hide Network.HasInnerBackward, CellListed;
    var c := net.Cell(level, x);
    ListedNodes(storage, net, level, c);
    hide LaidOut, Ascending;
    assert x in storage.GetSourceNodes(level, c) <==> SourceMember(net, level, (c, x));
    assert y in storage.GetDestinationNodes(level, c) <==> DestinationMember(net, level, (c, y));
  }

  /** An exact level is what the search on the next level needs. */
  lemma ExactLevelIsGoodClique(storage: CellStorage, net: Network, vals: MetricValues, level: nat)
    requires net.WellFormed() && LaidOut(storage, net) && 1 <= level <= |net.cells|
    requires forall v: nat :: v < net.numNodes ==> storage.HasCell(level, net.Cell(level, v))
    requires LevelExact(storage, net, vals, level)
    ensures GoodClique(net, level, CliqueOf(storage, net, vals, level))
  {
    assert net.Shaped() && net.EdgesInRange();
    hide LaidOut, LevelExact, Network.WellFormed, Network.IsSource, Network.IsDestination, Unconnected, HasSlot, Exact;
    var clique := CliqueOf(storage, net, vals, level);
    forall x: nat, y: nat | clique(x, y).Some?
      ensures x < net.numNodes && y < net.numNodes && net.Cell(level, x) == net.Cell(level, y)
      ensures net.IsSource(level, x) && net.IsDestination(level, y)
    {
      SlotNodes(storage, net, level, x, y);
      HasSlotMeans(storage, net, level, x, y);
      CliqueSlotIsExact(storage, net, vals, level, x, y);
      ExactIsAttained(net.edges, net.RegionOf(level, x), x, y, clique(x, y));
      ReachedIsDestination(net, level, x, y, clique(x, y).value);
    }
    forall x: nat, y: nat | x < net.numNodes && y < net.numNodes && net.Cell(level, x) == net.Cell(level, y)
                            && net.IsSource(level, x) && net.IsDestination(level, y)
      ensures Exact(net.edges, net.RegionOf(level, x), x, y, clique(x, y))
    {
      HasSlotMeans(storage, net, level, x, y);
      CliqueSlotIsExact(storage, net, vals, level, x, y);
    }
  }

  lemma SlotNodes(storage: CellStorage, net: Network, level: nat, x: nat, y: nat)
    requires HasSlot(storage, net, level, x, y)
    ensures x < net.numNodes && y < net.numNodes && net.Cell(level, x) == net.Cell(level, y)
  {
  }

  lemma ExactIsAttained(edges: seq<Edge>, region: set<nat>, u: nat, v: nat, slot: Option<Cost>)
    requires Exact(edges, region, u, v, slot) && slot.Some?
    ensures Attained(edges, region, u, v, slot.value)
  {
  }

  /** On the first level there is no clique: the cells below are single nodes. */
  lemma NoCliqueBelowFirstLevel(storage: CellStorage, net: Network, vals: MetricValues)
    requires net.WellFormed()
    ensures GoodClique(net, 0, CliqueOf(storage, net, vals, 0))
  {
  }

  // ---------- reading a row of the level below ----------

  /** The row of `node` in its sub-cell, or an empty row if the node is no source there. */
  function ReadRow(storage: CellStorage, vals: MetricValues, level: nat, id: nat, node: nat): (row: Row)
    requires storage.Valid() && storage.HasCell(level, id) && vals.Sized(|vals.weights|)
    requires GetOutRange(storage, level, id, node).begin <= GetOutRange(storage, level, id, node).end <= |vals.weights|
    requires GetOutRange(storage, level, id, node).end > GetOutRange(storage, level, id, node).begin ==>
      GetOutRange(storage, level, id, node).end - GetOutRange(storage, level, id, node).begin
        == |storage.GetDestinationNodes(level, id)|
    ensures row.Valid()
  {
    var range := GetOutRange(storage, level, id, node);
    if range.begin == range.end then Row([], [], [], [])
    else Row(vals.weights[range.begin..range.end], vals.durations[range.begin..range.end],
             vals.distances[range.begin..range.end], storage.GetDestinationNodes(level, id))
  }

  /** The range of a source is its row, which lies inside the arrays; the range of any other node is empty. */
  lemma OutRangeFacts(storage: CellStorage, net: Network, size: nat, level: nat, c: nat, node: nat)
    requires LaidOut(storage, net) && storage.ProductsFit() && storage.HasCell(level, c) && storage.TotalSize() <= size
    ensures var range, sources := GetOutRange(storage, level, c, node), storage.GetSourceNodes(level, c);
            var destinations := storage.GetDestinationNodes(level, c);
            && range.begin <= range.end <= size
            && (node !in sources ==> range.begin == range.end)
            && (node in sources ==>
                  && range.end - range.begin == |destinations|
                  && forall j ::
                    0 <= j < |destinations| ==> range.begin + j == CellSlot(storage, level, c, Find(sources, node), j))
  {
    assert storage.Valid() && storage.Consecutive();
    hide LaidOut, CellStorage.ProductsFit, CellStorage.Consecutive;
    var k := storage.CellIndex(level, c);
    BlocksAreDisjoint(storage, k, k);
    if node in storage.GetSourceNodes(level, c) {
      RowInBlock(storage.cells[k].source.count, storage.cells[k].destination.count,
                 Find(storage.GetSourceNodes(level, c), node));
    }
  }

  lemma RowInBlock(rows: nat, columns: nat, row: nat)
    requires row < rows
    ensures columns * row == row * columns && row * columns + columns <= rows * columns
  {
    assert (row + 1) * columns <= rows * columns;
  }

  /** What scanning the row finds: exactly the clique arcs of the node. */
  lemma RowListsClique(storage: CellStorage, net: Network, vals: MetricValues, level: nat, node: nat)
    requires net.WellFormed() && LaidOut(storage, net) && storage.ProductsFit() && 1 <= level <= |net.cells|
    requires node < net.numNodes && storage.HasCell(level, net.Cell(level, node))
    requires vals.Sized(|vals.weights|) && storage.TotalSize() <= |vals.weights|
             && LevelExact(storage, net, vals, level)
    ensures var c := net.Cell(level, node);
            var range := GetOutRange(storage, level, c, node);
            && range.begin <= range.end <= |vals.weights|
            && (range.end > range.begin ==> range.end - range.begin == |storage.GetDestinationNodes(level, c)|)
            && var row := ReadRow(storage, vals, level, c, node);
               && (forall i :: 0 <= i < |row.destinations| ==> row.destinations[i] < |net.allowed|)
               && OnlyAllowed(row, net.allowed, |row.weights|)
               && ListsClique(CliqueOf(storage, net, vals, level), node, Scan(row, net.allowed, |row.weights|).0)
  {
    hide Network.Mirrored, Network.OnLinks, NestedCells.Nested, PositiveWeights, LevelExact, LaidOut, Exact, Scan;
    assert storage.Valid() by { LaidOutIsValid(storage, net); }
    var c := net.Cell(level, node);
    OutRangeFacts(storage, net, |vals.weights|, level, c, node);
    RowDestinations(storage, net, vals, level, node);
    var row := ReadRow(storage, vals, level, c, node);
    ScanFindsValidSlots(row, net.allowed, |row.weights|);
    RowMatchesClique(storage, net, vals, level, node, Scan(row, net.allowed, |row.weights|).0);
  }

  lemma LaidOutIsValid(storage: CellStorage, net: Network)
    requires LaidOut(storage, net)
    ensures storage.Valid() && storage.Consecutive()
  {
  }

  ghost predicate RowReadable(storage: CellStorage, net: Network, vals: MetricValues, level: nat, node: nat) {
    && net.WellFormed() && LaidOut(storage, net) && storage.ProductsFit() && 1 <= level <= |net.cells|
    && node < net.numNodes && storage.HasCell(level, net.Cell(level, node))
    && vals.Sized(|vals.weights|) && storage.TotalSize() <= |vals.weights| && LevelExact(storage, net, vals, level)
    && var range := GetOutRange(storage, level, net.Cell(level, node), node);
       && range.begin <= range.end <= |vals.weights|
       && (range.end > range.begin ==>
             range.end - range.begin == |storage.GetDestinationNodes(level, net.Cell(level, node))|)
  }

  /** Column `i` of the row is the slot towards the `i`-th destination, and its weight is the clique's. */
  lemma RowReads(storage: CellStorage, vals: MetricValues, level: nat, c: nat, node: nat, row: Row, i: nat)
    requires storage.Valid() && storage.HasCell(level, c) && vals.Sized(|vals.weights|)
    requires var range := GetOutRange(storage, level, c, node);
             && range.begin <= range.end <= |vals.weights|
             && (range.end > range.begin ==> range.end - range.begin == |storage.GetDestinationNodes(level, c)|)
    requires row == ReadRow(storage, vals, level, c, node) && i < |row.weights|
    ensures row.Valid() && row.destinations == storage.GetDestinationNodes(level, c)
    ensures GetOutRange(storage, level, c, node).end > GetOutRange(storage, level, c, node).begin
    ensures var k := GetOutRange(storage, level, c, node).begin + i;
            && k < |vals.weights|
            && row.weights[i] == vals.weights[k] && row.durations[i] == vals.durations[k]
            && row.distances[i] == vals.distances[k]
  {
    hide GetOutRange, CellStorage.Valid, CellStorage.GetDestinationNodes;
  }

  /** The `i`-th destination of the cell has a slot in the row of `node`, `i` places from its start. */
  lemma RowHasSlot(storage: CellStorage, net: Network, level: nat, node: nat, i: nat)
    requires net.Shaped() && LaidOut(storage, net) && storage.ProductsFit() && 1 <= level <= |net.cells|
    requires node < net.numNodes && storage.Valid() && storage.HasCell(level, net.Cell(level, node))
    requires GetOutRange(storage, level, net.Cell(level, node), node).end
               > GetOutRange(storage, level, net.Cell(level, node), node).begin
    requires i < |storage.GetDestinationNodes(level, net.Cell(level, node))|
    ensures var v := storage.GetDestinationNodes(level, net.Cell(level, node))[i];
            && v < net.numNodes && HasSlot(storage, net, level, node, v)
            && SlotIndex(storage, net, level, node, v)
              == GetOutRange(storage, level, net.Cell(level, node), node).begin + i
  {
    var c := net.Cell(level, node);
    var destinations := storage.GetDestinationNodes(level, c);
    OutRangeFacts(storage, net, storage.TotalSize(), level, c, node);
    ListedNodes(storage, net, level, c);
    hide LaidOut, GetOutRange, CellSlot, CellStorage.ProductsFit, CellStorage.TotalSize, CellStorage.Valid, Find;
    hide Ascending;
    hide Network.IsDestination, Network.IsSource, Unconnected;
    assert destinations[i] in destinations;
    assert DestinationMember(net, level, (c, destinations[i]));
    FindInAscending(destinations, i);
  }

  /** Entry `i` of a row is the content of the slot of its destination. */
  lemma RowEntryHasSlot(storage: CellStorage, net: Network, vals: MetricValues, level: nat, node: nat, row: Row, i: nat)
    requires RowReadable(storage, net, vals, level, node)
    requires row == ReadRow(storage, vals, level, net.Cell(level, node), node) && i < |row.weights|
    ensures row.Valid() && row.destinations[i] < net.numNodes && HasSlot(storage, net, level, node, row.destinations[i])
    ensures var k := SlotIndex(storage, net, level, node, row.destinations[i]);
            && k < |vals.weights| && vals.Sized(|vals.weights|)
            && row.weights[i] == vals.weights[k] && row.durations[i] == vals.durations[k]
            && row.distances[i] == vals.distances[k]
  {
    hide RowReadable, LaidOut, GetOutRange, CellStorage.ProductsFit, CellStorage.Valid, LevelExact;
    hide HasSlot, SlotIndex, CellStorage.GetDestinationNodes;
    RowReadableFacts(storage, net, vals, level, node);
    RowReads(storage, vals, level, net.Cell(level, node), node, row, i);
    hide ReadRow;
    RowHasSlot(storage, net, level, node, i);
  }

  lemma RowReadableFacts(storage: CellStorage, net: Network, vals: MetricValues, level: nat, node: nat)
    requires RowReadable(storage, net, vals, level, node)
    ensures LaidOut(storage, net) && storage.Valid() && storage.ProductsFit() && net.Shaped()
            && 1 <= level <= |net.cells|
    ensures node < net.numNodes && storage.HasCell(level, net.Cell(level, node)) && vals.Sized(|vals.weights|)
    ensures LevelExact(storage, net, vals, level)
    ensures var range := GetOutRange(storage, level, net.Cell(level, node), node);
            && range.begin <= range.end <= |vals.weights|
            && (range.end > range.begin ==>
                  range.end - range.begin == |storage.GetDestinationNodes(level, net.Cell(level, node))|)
  {
    hide LevelExact, GetOutRange, Network.Mirrored, NestedCells.Nested, PositiveWeights, CellStorage.ProductsFit;
  }

  lemma RowEntryIsSlot(storage: CellStorage, net: Network, vals: MetricValues, level: nat, node: nat, row: Row, i: nat)
    requires RowReadable(storage, net, vals, level, node)
    requires row == ReadRow(storage, vals, level, net.Cell(level, node), node) && i < |row.weights|
    ensures row.Valid() && row.destinations[i] < net.numNodes && row.destinations[i] < |net.allowed|
    ensures HasSlot(storage, net, level, node, row.destinations[i])
    ensures CliqueSlot(storage, net, vals, level, node, row.destinations[i])
            == (if row.weights[i].Some? then Some(RowCost(row, i)) else None)
    ensures row.weights[i].Some? ==> net.allowed[row.destinations[i]]
  {
    RowReadableFacts(storage, net, vals, level, node);
    RowEntryHasSlot(storage, net, vals, level, node, row, i);
    hide RowReadable, ReadRow, LevelExact, Exact, HasSlot, SlotIndex, LaidOut, CellStorage.Valid;
    var v := row.destinations[i];
    CliqueSlotIsExact(storage, net, vals, level, node, v);
    if row.weights[i].Some? {
      ExactIsAttained(net.edges, net.RegionOf(level, node), node, v, CliqueSlot(storage, net, vals, level, node, v));
      AttainedEndsInside(net.edges, net.RegionOf(level, node), node, v, RowCost(row, i));
    }
  }

  lemma AttainedEndsInside(edges: seq<Edge>, region: set<nat>, u: nat, v: nat, c: Cost)
    requires Attained(edges, region, u, v, c)
    ensures v in region
  {
    var p :| WalkOfCost(edges, region, u, v, p, c);
  }

  lemma RowDestinations(storage: CellStorage, net: Network, vals: MetricValues, level: nat, node: nat)
    requires RowReadable(storage, net, vals, level, node)
    ensures var row := ReadRow(storage, vals, level, net.Cell(level, node), node);
            && (forall i :: 0 <= i < |row.destinations| ==> row.destinations[i] < |net.allowed|)
            && OnlyAllowed(row, net.allowed, |row.weights|)
  {
    var row := ReadRow(storage, vals, level, net.Cell(level, node), node);
    assert |net.allowed| == net.numNodes;
    hide RowReadable, ReadRow;
    forall i | 0 <= i < |row.weights|
      ensures row.destinations[i] < |net.allowed| && (row.weights[i].Some? ==> net.allowed[row.destinations[i]])
    {
      RowEntryIsSlot(storage, net, vals, level, node, row, i);
    }
  }

  lemma RowMatchesClique(storage: CellStorage, net: Network, vals: MetricValues, level: nat, node: nat, arcs: seq<Arc>)
    requires RowReadable(storage, net, vals, level, node)
    requires var row := ReadRow(storage, vals, level, net.Cell(level, node), node);
             FindsValidSlots(row, |row.weights|, arcs)
    ensures ListsClique(CliqueOf(storage, net, vals, level), node, arcs)
  {
    var row := ReadRow(storage, vals, level, net.Cell(level, node), node);
    var clique := CliqueOf(storage, net, vals, level);
    hide RowReadable, ReadRow, CliqueSlot, HasSlot;
    forall a | 0 <= a < |arcs| ensures clique(node, arcs[a].to) == Some(arcs[a].cost) {
      assert FromRow(row, |row.weights|, arcs[a]);
      var i: nat :| i < |row.weights| && SlotArc(row, i, arcs[a]);
      RowEntryIsSlot(storage, net, vals, level, node, row, i);
    }
    forall y: nat | clique(node, y).Some? ensures Arc(y, clique(node, y).value) in arcs {
      var i := SlotColumn(storage, net, vals, level, node, y);
      RowEntryIsSlot(storage, net, vals, level, node, row, i);
    }
  }

  lemma SlotColumn(storage: CellStorage, net: Network, vals: MetricValues, level: nat, node: nat, y: nat)
    returns (i: nat)
    requires RowReadable(storage, net, vals, level, node) && CliqueSlot(storage, net, vals, level, node, y).Some?
    ensures var row := ReadRow(storage, vals, level, net.Cell(level, node), node);
            i < |row.weights| && row.destinations[i] == y
  {
    hide Network.Mirrored, Network.OnLinks, NestedCells.Nested, PositiveWeights, LevelExact;
    var c := net.Cell(level, node);
    OutRangeFacts(storage, net, |vals.weights|, level, c, node);
    i := Find(storage.GetDestinationNodes(level, c), y);
  }

  // ---------- settling a node ----------

  /** The labels a search step starts from: `node` has just been removed as the minimum. */
  ghost predicate JustRemoved(q: Query, clique: Clique, heap: QueryHeap, node: nat)
    reads heap
    requires q.Valid()
  {
    && heap.Valid() && |heap.nodeIndex| == q.net.numNodes
    && node in heap.removed && node in heap.labels
    && SearchInvariant(q, clique, heap.labels, heap.removed - {node})
    && IsMinimum(heap.labels, heap.removed - {node}, node)
  }

  lemma JustRemovedFacts(q: Query, clique: Clique, labels: map<nat, Label>, removed: set<nat>, node: nat)
    requires q.Valid() && node in removed && node in labels
    requires SearchInvariant(q, clique, labels, removed - {node}) && IsMinimum(labels, removed - {node}, node)
    ensures node in q.Region() && node < q.net.numNodes && removed <= labels.Keys
    ensures RemovedUpTo(labels, removed, labels[node].cost.weight)
  {
    hide Closed, Parented, Query.Attains;
  }

  lemma ArcsAreLegal(q: Query, labels: map<nat, Label>, removed: set<nat>, node: nat, arcs: seq<Arc>)
    requires q.Valid() && node in labels && removed <= labels.Keys
             && RemovedUpTo(labels, removed, labels[node].cost.weight)
    requires Increasing(node, arcs) && Leads(q, node, arcs)
    ensures Legal(labels, removed, q.net.numNodes, labels[node].cost, arcs)
  {
    hide Attained, Network.WellFormed;
  }

  /** Which clique a search on `level` uses. */
  ghost function CliqueBelow(storage: CellStorage, net: Network, vals: MetricValues, level: nat): Clique {
    CliqueOf(storage, net, vals, if level == 0 then 0 else level - 1)
  }

  /** The arrays have room for all slots and the level below `level` is exact. */
  ghost predicate BelowExact(storage: CellStorage, net: Network, vals: MetricValues, level: nat) {
    && storage.Valid() && net.Shaped() && 1 <= level <= |net.cells|
    && vals.Sized(|vals.weights|) && storage.TotalSize() <= |vals.weights|
    && (level > 1 ==> LevelExact(storage, net, vals, level - 1))
  }

  lemma CellsExist(mlp: MultiLevelPartition, g: MultiLevelGraph, storage: CellStorage, net: Network, level: nat, v: nat)
    requires Setup(mlp, g, storage, net) && 1 <= level <= |net.cells| && v < net.numNodes
    ensures mlp.levelData.IsLevel(level) && mlp.GetCell(level, v) == net.Cell(level, v)
    ensures storage.HasCell(level, net.Cell(level, v))
  {
    hide Network.WellFormed, LaidOut, InternalRangeExact, Stores, LevelData.Valid;
    assert CellAgrees(mlp, net, level, v);
  }

  lemma BelowIsGood(mlp: MultiLevelPartition, g: MultiLevelGraph, storage: CellStorage, net: Network,
                    vals: MetricValues, level: nat)
    requires Setup(mlp, g, storage, net) && 1 <= level <= |net.cells| && BelowExact(storage, net, vals, level)
    ensures GoodClique(net, level - 1, CliqueBelow(storage, net, vals, level))
  {
    if level == 1 {
      hide Setup;
      NoCliqueBelowFirstLevel(storage, net, vals);
    } else {
      assert net.WellFormed() && LaidOut(storage, net);
      hide Setup;
      var below := level - 1;
      forall v: nat | v < net.numNodes ensures storage.HasCell(below, net.Cell(below, v)) {
        CellsExist(mlp, g, storage, net, below, v);
      }
      hide LaidOut, Network.WellFormed, LevelExact, GoodClique;
      ExactLevelIsGoodClique(storage, net, vals, level - 1);
    }
  }

  /** The row that the clique scan reads, together with what it finds. */
  method ReadSubcell(mlp: MultiLevelPartition, storage: CellStorage, metric: CellMetric, level: nat, node: nat,
                     ghost g: MultiLevelGraph, ghost net: Network)
    returns (row: Row)
    requires Setup(mlp, g, storage, net) && 1 < level <= |net.cells| && node < net.numNodes
    requires BelowExact(storage, net, metric.Values(), level)
    ensures row.Valid() && forall i :: 0 <= i < |row.destinations| ==> row.destinations[i] < |net.allowed|
    ensures ListsClique(CliqueBelow(storage, net, metric.Values(), level), node,
                        Scan(row, net.allowed, |row.weights|).0)
  {
    assert net.WellFormed() && LaidOut(storage, net) && storage.ProductsFit() && mlp.Valid() && node < |mlp.partition|;
    CellsExist(mlp, g, storage, net, level - 1, node);
    hide Setup, Network.WellFormed, MultiLevelPartition.Valid, LevelExact, Scan, ListsClique, CellStorage.ProductsFit;
    RowListsClique(storage, net, metric.Values(), level - 1, node);
    hide LaidOut, OnlyAllowed;
    var subcell := mlp.GetCell(level - 1, node);
    var range := GetOutRange(storage, level - 1, subcell, node);
    if range.begin == range.end {
      row := Row([], [], [], []);
    } else {
      row := Row(metric.weights[range.begin..range.end], metric.durations[range.begin..range.end],
                 metric.distances[range.begin..range.end], storage.GetDestinationNodes(level - 1, subcell));
    }
    assert row == ReadRow(storage, metric.Values(), level - 1, subcell, node);
  }

  lemma RelaxStarts(mlp: MultiLevelPartition, g: MultiLevelGraph, storage: CellStorage, vals: MetricValues, q: Query,
                    clique: Clique, labels: map<nat, Label>, removed: set<nat>, node: nat)
    requires q.Valid() && Setup(mlp, g, storage, q.net) && BelowExact(storage, q.net, vals, q.level)
    requires clique == CliqueBelow(storage, q.net, vals, q.level)
    requires node in removed && node in labels
    requires SearchInvariant(q, clique, labels, removed - {node}) && IsMinimum(labels, removed - {node}, node)
    ensures 1 <= q.level <= |q.net.cells| && |q.net.allowed| == q.net.numNodes
    ensures GoodClique(q.net, q.level - 1, clique)
    ensures node in q.Region() && node < q.net.numNodes && removed <= labels.Keys
    ensures RemovedUpTo(labels, removed, labels[node].cost.weight)
    ensures mlp.levelData.IsLevel(q.level) && Describes(mlp, g, q.net)
            && InternalRangeExact(mlp, g, q.net, q.level, node)
  {
    hide SearchInvariant, IsMinimum, BelowExact, GoodClique, Query.Region, Query.Valid, CliqueOf, Setup;
    QueryFacts(q);
    JustRemovedFacts(q, clique, labels, removed, node);
    CellsExist(mlp, g, storage, q.net, q.level, node);
    BelowIsGood(mlp, g, storage, q.net, vals, q.level);
    SetupRanges(mlp, g, storage, q.net, q.level, node);
  }

  lemma QueryFacts(q: Query)
    requires q.Valid()
    ensures 1 <= q.level <= |q.net.cells| && q.net.WellFormed() && |q.net.allowed| == q.net.numNodes
  {
    hide Network.Mirrored, Network.OnLinks, NestedCells.Nested, Network.Boundary, PositiveWeights;
  }

  lemma SetupRanges(mlp: MultiLevelPartition, g: MultiLevelGraph, storage: CellStorage, net: Network, level: nat,
                    v: nat)
    requires Setup(mlp, g, storage, net) && mlp.levelData.IsLevel(level) && v < net.numNodes
    ensures Describes(mlp, g, net) && InternalRangeExact(mlp, g, net, level, v)
  {
    hide InternalRangeExact, Network.WellFormed, LaidOut, Stores, CellAgrees;
  }

  /** Relaxes the node that was just removed and thereby settles it. */
  method RelaxNode(mlp: MultiLevelPartition, g: MultiLevelGraph, storage: CellStorage, allowed: seq<bool>,
                   metric: CellMetric, heap: QueryHeap, level: nat, node: nat, ghost q: Query)
    returns (ghost round: Round)
    requires q.Valid() && q.level == level && q.net.allowed == allowed && Setup(mlp, g, storage, q.net)
    requires BelowExact(storage, q.net, metric.Values(), level)
    requires JustRemoved(q, CliqueBelow(storage, q.net, metric.Values(), level), heap, node)
    modifies heap
    ensures heap.Valid() && |heap.nodeIndex| == q.net.numNodes && heap.removed == old(heap.removed)
    ensures SearchInvariant(q, CliqueBelow(storage, q.net, metric.Values(), level), heap.labels, heap.removed)
    ensures round.labels == old(heap.labels) && round.removed == old(heap.removed) - {node} && round.node == node
    ensures IsRound(q, CliqueBelow(storage, q.net, metric.Values(), level), round)
    ensures heap.labels == RelaxNodeLabels(round.labels, node, round.cliqueArcs, round.edgeArcs)
  {
    hide Setup, Query.Valid, Query.Region, SearchInvariant, IsMinimum, GoodClique, BelowExact, QueryHeaps.Represents;
    hide CliqueOf;
    hide ListsClique, ListsEdges, Increasing, Leads, RemovedUpTo, Legal, Scan, RelaxArcs, InternalRangeExact, Describes;
    ghost var clique := CliqueBelow(storage, q.net, metric.Values(), level);
    ghost var labels, removed := heap.labels, heap.removed;
    RelaxStarts(mlp, g, storage, metric.Values(), q, clique, labels, removed, node);
    var data := heap.GetData(node);
    var base := Cost(heap.GetKey(node), data.duration, data.distance);
    ghost var cliqueArcs: seq<Arc> := [];
    if level > 1 {
      var row := ReadSubcell(mlp, storage, metric, level, node, g, q.net);
      cliqueArcs := Scan(row, allowed, |row.weights|).0;
      CliqueArcsLead(q, clique, node, cliqueArcs);
      ArcsAreLegal(q, labels, removed, node, cliqueArcs);
      if !data.fromClique {
        RelaxCliqueArcs(heap, row, allowed, base);
      }
    } else {
      FirstLevelHasNoArcs(storage, q.net, metric.Values(), node, labels, base);
    }
    RelaxedStillUpTo(q, clique, labels, removed, node, cliqueArcs, heap.labels);
    ghost var edgeArcs := RelaxEdges(mlp, g, allowed, heap, level, node, base, q);
    assert heap.labels == RelaxNodeLabels(labels, node, cliqueArcs, edgeArcs);
    SettleNode(q, clique, labels, removed - {node}, node, cliqueArcs, edgeArcs);
    assert removed - {node} + {node} == removed;
    round := Round(labels, removed - {node}, node, cliqueArcs, edgeArcs);
  }

  lemma FirstLevelHasNoArcs(storage: CellStorage, net: Network, vals: MetricValues, node: nat, labels: map<nat, Label>,
                            base: Cost)
    ensures ListsClique(CliqueOf(storage, net, vals, 0), node, [])
    ensures RelaxArcs(labels, base, [], true) == labels
  {
  }

  lemma RelaxedStillUpTo(q: Query, clique: Clique, labels: map<nat, Label>, removed: set<nat>, node: nat,
                         arcs: seq<Arc>, after: map<nat, Label>)
    requires q.Valid() && GoodClique(q.net, q.level - 1, clique) && node in labels && node in q.Region()
    requires removed <= labels.Keys && RemovedUpTo(labels, removed, labels[node].cost.weight)
             && ListsClique(clique, node, arcs)
    requires after == labels || after == RelaxArcs(labels, labels[node].cost, arcs, true)
    ensures RemovedUpTo(after, removed, labels[node].cost.weight)
  {
    CliqueArcsLead(q, clique, node, arcs);
    RelaxArcsIsRelaxed(labels, labels[node].cost, arcs, true);
    hide GoodClique, Leads, ListsClique, RelaxArcs, Query.Valid;
    if after != labels {
      SettledLabelsAreFinal(labels, after, node, arcs, true, removed);
    }
  }

  // ---------- one search ----------

  ghost predicate SearchDone(labels: map<nat, Label>, removed: set<nat>, allowed: seq<bool>, destinations: seq<nat>) {
    || labels.Keys == removed
    || forall k ::
      0 <= k < |destinations| && destinations[k] < |allowed| && allowed[destinations[k]] ==> destinations[k] in removed
  }

  /** Dijkstra's search from one source of the cell; it stops early once all allowed destinations are settled. */
  method Search(mlp: MultiLevelPartition, g: MultiLevelGraph, storage: CellStorage, allowed: seq<bool>,
                metric: CellMetric, heap: QueryHeap, level: nat, source: nat, destinations: seq<nat>, ghost q: Query)
    returns (ghost rounds: seq<Round>)
    requires q.Valid() && q.level == level && q.source == source && q.net.allowed == allowed
             && Setup(mlp, g, storage, q.net)
    requires BelowExact(storage, q.net, metric.Values(), level)
    requires |heap.nodeIndex| == q.net.numNodes && forall k :: 0 <= k < |destinations| ==> destinations[k] < |allowed|
    modifies heap
    ensures heap.Valid() && |heap.nodeIndex| == q.net.numNodes
    ensures SearchInvariant(q, CliqueBelow(storage, q.net, metric.Values(), level), heap.labels, heap.removed)
    ensures SearchDone(heap.labels, heap.removed, allowed, destinations)
    ensures SearchedBy(q, CliqueBelow(storage, q.net, metric.Values(), level), rounds, heap.labels, heap.removed)
  {
    hide Setup, Query.Valid, Query.Region, SearchInvariant, BelowExact, QueryHeaps.Represents, CliqueOf, IsRound;
    hide RelaxNodeLabels;
    SourceInGraph(q);
    ghost var clique := CliqueBelow(storage, q.net, metric.Values(), level);
    var destinationsSet := set k | 0 <= k < |destinations| && allowed[destinations[k]] :: destinations[k];
    heap.Clear();
    heap.Insert(source, 0, HeapData(false, 0, 0.0));
    SearchStarts(q, clique);
    assert heap.labels == FirstLabels(q.source);
    rounds := [];
    while !heap.Empty() && destinationsSet != {}
      invariant heap.Valid() && |heap.nodeIndex| == q.net.numNodes
      invariant SearchInvariant(q, clique, heap.labels, heap.removed)
      invariant SearchedBy(q, clique, rounds, heap.labels, heap.removed)
      invariant forall k :: 0 <= k < |destinations| && allowed[destinations[k]] ==>
        destinations[k] in destinationsSet || destinations[k] in heap.removed
      decreases q.Region() - heap.removed
    {
      ghost var settled := heap.removed;
      var node := heap.DeleteMin();
      assert heap.removed - {node} == settled;
      SettledStaysInRegion(q, clique, heap.labels, settled, node);
      ghost var round := RelaxNode(mlp, g, storage, allowed, metric, heap, level, node, q);
      RoundFollows(q, clique, rounds, round);
      rounds := rounds + [round];
      assert settled + {node} == heap.removed;
      destinationsSet := destinationsSet - {node};
    }
  }

  lemma SourceInGraph(q: Query)
    requires q.Valid()
    ensures q.source < q.net.numNodes
  {
  }

  lemma SettledStaysInRegion(q: Query, clique: Clique, labels: map<nat, Label>, settled: set<nat>, node: nat)
    requires q.Valid() && SearchInvariant(q, clique, labels, settled) && node in labels && node !in settled
    ensures node in q.Region() && q.Region() - (settled + {node}) < q.Region() - settled
  {
    hide Query.Valid, Query.Region, Query.Attains, Closed, Ordered, Parented;
    assert node in q.Region() - settled;
  }

  // ---------- writing a row ----------

  ghost predicate SameAt(a: MetricValues, b: MetricValues, k: nat)
    requires a.Sized(|a.weights|) && b.Sized(|a.weights|) && k < |a.weights|
  {
    a.weights[k] == b.weights[k] && a.durations[k] == b.durations[k] && a.distances[k] == b.distances[k]
  }

  /** Nothing changed outside the given stretch. */
  ghost predicate SameOutside(a: MetricValues, b: MetricValues, lo: nat, hi: nat) {
    && a.Sized(|a.weights|) && b.Sized(|a.weights|)
    && forall k: nat :: k < |a.weights| && !(lo <= k < hi) ==> SameAt(a, b, k)
  }

  ghost function LabelSlot(labels: map<nat, Label>, v: nat): Option<Cost> {
    if v in labels then Some(labels[v].cost) else None
  }

  /** Copies the labels of the destinations into the row. */
  method WriteRow(metric: CellMetric, heap: QueryHeap, begin: nat, destinations: seq<nat>)
    requires heap.Valid() && metric.Values().Sized(|metric.weights|) && begin + |destinations| <= |metric.weights|
    requires forall k :: 0 <= k < |destinations| ==> destinations[k] < |heap.nodeIndex|
    modifies metric
    ensures SameOutside(old(metric.Values()), metric.Values(), begin, begin + |destinations|)
    ensures forall j: nat ::
              j < |destinations| ==> Holds(metric.Values(), begin + j, LabelSlot(heap.labels, destinations[j]))
  {
    hide QueryHeaps.Represents;
    ghost var start := metric.Values();
    var next := begin;
    for j := 0 to |destinations|
      invariant next == begin + j && metric.Values().Sized(|start.weights|)
      invariant SameOutside(start, metric.Values(), begin, next)
      invariant forall i: nat :: i < j ==> Holds(metric.Values(), begin + i, LabelSlot(heap.labels, destinations[i]))
    {
      ghost var before := metric.Values();
      var destination := destinations[j];
      if heap.WasInserted(destination) {
        var data := heap.GetData(destination);
        metric.weights := metric.weights[next := Some(heap.GetKey(destination))];
        metric.durations := metric.durations[next := data.duration];
        metric.distances := metric.distances[next := data.distance];
      } else {
        metric.weights := metric.weights[next := None];
        metric.durations := metric.durations[next := MAXIMAL_EDGE_DURATION];
        metric.distances := metric.distances[next := INVALID_EDGE_DISTANCE];
      }
      next := next + 1;
      forall k: nat | k < |start.weights| && !(begin <= k < next) ensures SameAt(start, metric.Values(), k) {
        assert SameAt(start, before, k);
      }
    }
  }

  // ---------- one cell ----------

  ghost predicate InBlock(storage: CellStorage, level: nat, c: nat, k: nat)
    requires storage.Valid() && storage.HasCell(level, c)
  {
    var cell := storage.cells[storage.CellIndex(level, c)];
    cell.valueOffset <= k < cell.valueOffset + cell.source.count * cell.destination.count
  }

  /** Only slots of this cell changed. */
  ghost predicate SameOutsideCell(storage: CellStorage, a: MetricValues, b: MetricValues, level: nat, c: nat)
    requires storage.Valid() && storage.HasCell(level, c)
  {
    && a.Sized(|a.weights|) && b.Sized(|a.weights|)
    && forall k: nat :: k < |a.weights| && !InBlock(storage, level, c, k) ==> SameAt(a, b, k)
  }

  lemma CellIndexInjective(storage: CellStorage, level: nat, c: nat, level': nat, c': nat)
    requires storage.Valid() && storage.HasCell(level, c) && storage.HasCell(level', c')
    requires storage.CellIndex(level, c) == storage.CellIndex(level', c')
    ensures level == level' && c == c'
  {
  }

  lemma SlotInOwnBlock(storage: CellStorage, level: nat, c: nat, i: nat, j: nat)
    requires storage.Valid() && storage.HasCell(level, c)
    requires i < |storage.GetSourceNodes(level, c)| && j < |storage.GetDestinationNodes(level, c)|
    ensures InBlock(storage, level, c, CellSlot(storage, level, c, i, j))
  {
    SlotInBlock(|storage.GetSourceNodes(level, c)|, |storage.GetDestinationNodes(level, c)|, i, j);
  }

  lemma SlotNotInOtherBlock(storage: CellStorage, level: nat, c: nat, i: nat, j: nat, level': nat, c': nat)
    requires storage.Valid() && storage.Consecutive() && storage.ProductsFit()
    requires storage.HasCell(level, c) && storage.HasCell(level', c') && (level != level' || c != c')
    requires i < |storage.GetSourceNodes(level, c)| && j < |storage.GetDestinationNodes(level, c)|
    ensures !InBlock(storage, level', c', CellSlot(storage, level, c, i, j))
  {
    SlotInOwnBlock(storage, level, c, i, j);
    var k, m := storage.CellIndex(level, c), storage.CellIndex(level', c');
    if k < m {
      BlocksAreDisjoint(storage, k, m);
    } else if m < k {
      BlocksAreDisjoint(storage, m, k);
    } else {
      CellIndexInjective(storage, level, c, level', c');
    }
  }

  /** Writing one cell leaves every other cell exact. */
  lemma CellStaysExact(storage: CellStorage, net: Network, a: MetricValues, b: MetricValues, level: nat, c: nat,
                       level': nat, c': nat)
    requires storage.Valid() && storage.Consecutive() && storage.ProductsFit() && net.Shaped()
    requires storage.HasCell(level, c) && storage.HasCell(level', c') && (level != level' || c != c')
    requires level <= |net.cells| && CellExact(storage, net, a, level, c) && SameOutsideCell(storage, a, b, level', c')
    ensures CellExact(storage, net, b, level, c)
  {
    hide Exact, CellStorage.Consecutive, CellStorage.ProductsFit, InBlock;
    forall i: nat, j: nat | i < |storage.GetSourceNodes(level, c)| && j < |storage.GetDestinationNodes(level, c)|
      ensures SlotExact(storage, net, b, level, c, i, j)
    {
      assert SlotExact(storage, net, a, level, c, i, j);
      SlotNotInOtherBlock(storage, level, c, i, j, level', c');
      assert SameAt(a, b, CellSlot(storage, level, c, i, j));
    }
  }

  lemma LevelStaysExact(storage: CellStorage, net: Network, a: MetricValues, b: MetricValues, level: nat, level': nat,
                        c': nat)
    requires storage.Valid() && storage.Consecutive() && storage.ProductsFit() && net.Shaped()
    requires storage.HasCell(level', c') && level != level' && level <= |net.cells|
    requires LevelExact(storage, net, a, level) && SameOutsideCell(storage, a, b, level', c')
    ensures LevelExact(storage, net, b, level)
  {
    hide CellExact, SameOutsideCell, CellStorage.Consecutive, CellStorage.ProductsFit;
    forall c: nat | storage.HasCell(level, c) ensures CellExact(storage, net, b, level, c) {
      CellStaysExact(storage, net, a, b, level, c, level', c');
    }
  }

  /** The slots of sources that are not allowed are still as `MakeMetric` left them. */
  ghost predicate ExcludedRowsInvalid(storage: CellStorage, net: Network, vals: MetricValues, level: nat, c: nat,
                                      from: nat)
    requires storage.Valid() && storage.HasCell(level, c)
  {
    && vals.Sized(|vals.weights|)
    && forall i: nat, j: nat ::
      from <= i < |storage.GetSourceNodes(level, c)| && j < |storage.GetDestinationNodes(level, c)| ==>
         ExcludedSlotInvalid(storage, net, vals, level, c, i, j)
  }

  ghost predicate ExcludedSlotInvalid(storage: CellStorage, net: Network, vals: MetricValues, level: nat, c: nat,
                                      i: nat, j: nat)
    requires storage.Valid() && storage.HasCell(level, c) && vals.Sized(|vals.weights|)
    requires i < |storage.GetSourceNodes(level, c)| && j < |storage.GetDestinationNodes(level, c)|
  {
    var source, k := storage.GetSourceNodes(level, c)[i], CellSlot(storage, level, c, i, j);
    source < |net.allowed| && !net.allowed[source] ==> k < |vals.weights| && InvalidAt(vals, k)
  }

  ghost predicate RowsExact(storage: CellStorage, net: Network, vals: MetricValues, level: nat, c: nat, upTo: nat)
    requires storage.Valid() && storage.HasCell(level, c) && net.Shaped() && level <= |net.cells|
  {
    forall i: nat, j: nat ::
      i < upTo && i < |storage.GetSourceNodes(level, c)| && j < |storage.GetDestinationNodes(level, c)| ==>
        SlotExact(storage, net, vals, level, c, i, j)
  }

  lemma OutsideRegionIsDisconnected(edges: seq<Edge>, region: set<nat>, u: nat, v: nat)
    requires u !in region || v !in region
    ensures Disconnected(edges, region, u, v)
  {
    forall p ensures !Walk(edges, region, u, v, p) {
      if Walk(edges, region, u, v, p) {
        WalkStart(edges, region, u, v, p);
      }
    }
  }
}
