/**
 The layout of all cell matrices in flat arrays: which nodes label the rows and columns of a
 cell and where its values start.
 */
module CellStorages {
  import opened RoadGraph
  import opened OverlayNetwork
  import opened LevelLayout
  import opened MultiLevelPartitions
  import opened MultiLevelGraphs
  import opened CellBoundaries

  datatype CellData = CellData(valueOffset: nat, source: Span, destination: Span)

  const UINT32_RANGE: nat := 0x1_0000_0000

  /** Number of values of a cell, as the 32-bit product computes it. */
  function ValueCount(cell: CellData): nat {
    (cell.source.count * cell.destination.count) % UINT32_RANGE
  }

  datatype CellStorage = CellStorage(sourceBoundary: seq<nat>, destinationBoundary: seq<nat>, cells: seq<CellData>,
                                     levelToCellOffset: seq<nat>)
  {
    ghost predicate Valid() {
      && |levelToCellOffset| >= 1 && levelToCellOffset[0] == 0
      && levelToCellOffset[|levelToCellOffset| - 1] == |cells|
      && (forall a, b :: 0 <= a <= b < |levelToCellOffset| ==> levelToCellOffset[a] <= levelToCellOffset[b])
      && (forall k :: 0 <= k < |cells| ==>
            SpanFits(sourceBoundary, cells[k].source) && SpanFits(destinationBoundary, cells[k].destination))
    }

    predicate HasCell(level: nat, id: nat) {
      1 <= level < |levelToCellOffset| && levelToCellOffset[level - 1] + id < levelToCellOffset[level]
    }

    function CellIndex(level: nat, id: nat): (k: nat)
      requires Valid() && HasCell(level, id)
      ensures k < |cells|
    {
      levelToCellOffset[level - 1] + id
    }

    function GetSourceNodes(level: nat, id: nat): seq<nat>
      requires Valid() && HasCell(level, id)
    {
      Slice(sourceBoundary, cells[CellIndex(level, id)].source)
    }

    function GetDestinationNodes(level: nat, id: nat): seq<nat>
      requires Valid() && HasCell(level, id)
    {
      Slice(destinationBoundary, cells[CellIndex(level, id)].destination)
    }

    /** Number of values of the `k`-th cell. */
    function BlockSize(k: nat): nat
      requires k < |cells|
    {
      cells[k].source.count * cells[k].destination.count
    }

    /** No product of boundary sizes wraps around in 32 bits. */
    predicate ProductsFit() {
      forall k :: 0 <= k < |cells| ==> BlockSize(k) < UINT32_RANGE
    }

    /** Value offsets are the running sum of the (32-bit) products. */
    ghost predicate Consecutive() {
      && (|cells| > 0 ==> cells[0].valueOffset == 0)
      && forall k :: 0 <= k < |cells| - 1 ==>
           cells[k + 1].valueOffset == cells[k].valueOffset + ValueCount(cells[k])
    }

    /** The number of values of all cells. */
    function TotalSize(): nat {
      if cells == [] then 0
      else
        var last := |cells| - 1;
        cells[last].valueOffset + ValueCount(cells[last])
    }
  }

  // ---------- what the constructor establishes ----------

  ghost predicate CellListed(storage: CellStorage, net: Network, level: nat, c: nat)
    requires storage.Valid() && storage.HasCell(level, c)
  {
    && ListsExactly(storage.GetSourceNodes(level, c), c, x => SourceMember(net, level, x))
    && ListsExactly(storage.GetDestinationNodes(level, c), c, x => DestinationMember(net, level, x))
  }

  ghost predicate LaidOut(storage: CellStorage, net: Network) {
    && storage.Valid() && storage.Consecutive() && |storage.levelToCellOffset| == |net.cells| + 1
    && forall level: nat, c: nat :: storage.HasCell(level, c) ==> CellListed(storage, net, level, c)
  }

  /** An edge of `v` leads out of its cell. */
  ghost predicate LeadsOut(edges: seq<Edge>, cells: seq<nat>, v: nat) {
    exists e :: e in edges && e.source == v && v < |cells| && e.target < |cells| && cells[e.target] != cells[v]
  }

  /** An edge of `v` can be travelled forward within its cell. */
  ghost predicate LeadsOn(edges: seq<Edge>, cells: seq<nat>, v: nat) {
    exists e :: && e in edges && e.source == v && v < |cells| && e.target < |cells| && cells[e.target] == cells[v]
                && e.data.forward
  }

  /** An edge of `v` can be travelled backward within its cell. */
  ghost predicate LeadsBack(edges: seq<Edge>, cells: seq<nat>, v: nat) {
    exists e :: && e in edges && e.source == v && v < |cells| && e.target < |cells| && cells[e.target] == cells[v]
                && e.data.backward
  }

  lemma RolesMean(net: Network, level: nat, v: nat)
    requires net.Shaped() && net.EdgesInRange() && 1 <= level <= |net.cells| && v < net.numNodes
    ensures net.Boundary(level, v) <==> LeadsOut(net.links, net.cells[level - 1], v)
    ensures net.HasInnerForward(level, v) <==> LeadsOn(net.links, net.cells[level - 1], v)
    ensures net.HasInnerBackward(level, v) <==> LeadsBack(net.links, net.cells[level - 1], v)
  {
    forall e | e in net.links && e.source == v
      ensures e.target < net.numNodes
      ensures net.Crosses(level, e) <==> net.cells[level - 1][e.target] != net.cells[level - 1][v]
    {
    }
  }

  /** Rows are the nodes with an edge out of the cell and a forward one inside, columns those with an edge out and a
      backward one inside, and those with an edge out and none inside. */
  lemma RowsAndColumns(storage: CellStorage, net: Network, level: nat, c: nat, v: nat)
    requires LaidOut(storage, net) && storage.HasCell(level, c)
    requires net.Shaped() && net.EdgesInRange() && 1 <= level <= |net.cells|
    ensures var links, cells := net.links, net.cells[level - 1];
            && (v in storage.GetSourceNodes(level, c)
                <==> v < |cells| && cells[v] == c && LeadsOut(links, cells, v) && LeadsOn(links, cells, v))
            && (v in storage.GetDestinationNodes(level, c)
                <==> v < |cells| && cells[v] == c && LeadsOut(links, cells, v)
                     && (LeadsBack(links, cells, v) || !LeadsOn(links, cells, v)))
  {
    assert CellListed(storage, net, level, c);
    hide LeadsOut, LeadsOn, LeadsBack, Network.Boundary, Network.HasInnerForward, Network.HasInnerBackward;
    if v < net.numNodes {
      RolesMean(net, level, v);
    }
  }

  /** Which cells exist on a level. */
  ghost predicate CountsCells(storage: CellStorage, mlp: MultiLevelPartition)
    requires mlp.Valid()
  {
    forall level: nat, c: nat :: mlp.levelData.IsLevel(level) ==>
      (storage.HasCell(level, c) <==> c < mlp.GetNumberOfCells(level))
  }

  ghost predicate IdsInRange(mlp: MultiLevelPartition)
    requires mlp.Valid()
  {
    forall level: nat, v: nat :: mlp.levelData.IsLevel(level) && v < mlp.NumNodes() ==>
      mlp.GetCell(level, v) < mlp.GetNumberOfCells(level)
  }

  // ---------- construction ----------

  /** Running totals of the cells of the finer levels. */
  ghost predicate CellOffsets(offsets: seq<nat>, mlp: MultiLevelPartition)
    requires mlp.Valid()
  {
    && 1 <= |offsets| <= mlp.GetNumberOfLevels() && offsets[0] == 0
    && forall l: nat :: 1 <= l < |offsets| ==> offsets[l] == offsets[l - 1] + mlp.GetNumberOfCells(l)
  }

  lemma CellOffsetsGrow(offsets: seq<nat>, mlp: MultiLevelPartition)
    requires mlp.Valid() && CellOffsets(offsets, mlp) && |offsets| < mlp.GetNumberOfLevels()
    ensures CellOffsets(offsets + [offsets[|offsets| - 1] + mlp.GetNumberOfCells(|offsets|)], mlp)
  {
    hide LevelData.Valid, MultiLevelPartition.GetNumberOfCells;
  }

  lemma {:induction false} CellOffsetsAscend(offsets: seq<nat>, mlp: MultiLevelPartition, a: nat, b: nat)
    requires mlp.Valid() && CellOffsets(offsets, mlp) && a <= b < |offsets|
    ensures offsets[a] <= offsets[b]
    decreases b - a
  {
    hide LevelData.Valid, MultiLevelPartition.GetNumberOfCells;
    if a < b {
      CellOffsetsAscend(offsets, mlp, a, b - 1);
    }
  }

  method CountCells(mlp: MultiLevelPartition) returns (offsets: seq<nat>)
    requires mlp.Valid()
    ensures |offsets| == mlp.GetNumberOfLevels() && offsets[0] == 0
    ensures forall level: nat :: mlp.levelData.IsLevel(level) ==>
      offsets[level] == offsets[level - 1] + mlp.GetNumberOfCells(level)
    ensures forall a, b :: 0 <= a <= b < |offsets| ==> offsets[a] <= offsets[b]
  {
    offsets := [];
    var numberOfCells: nat := 0;
    assert 1 <= mlp.GetNumberOfLevels() && CellOffsets([0], mlp) && offsets + [numberOfCells] == [0];
    hide LevelData.Valid, MultiLevelPartition.GetNumberOfCells, CellOffsets;
    for level := 1 to mlp.GetNumberOfLevels()
      invariant |offsets| == level - 1 && CellOffsets(offsets + [numberOfCells], mlp)
    {
      CellOffsetsGrow(offsets + [numberOfCells], mlp);
      offsets := offsets + [numberOfCells];
      numberOfCells := numberOfCells + mlp.GetNumberOfCells(level);
    }
    offsets := offsets + [numberOfCells];
    CellOffsetsFacts(offsets, mlp);
  }

  lemma CellOffsetsFacts(offsets: seq<nat>, mlp: MultiLevelPartition)
    requires mlp.Valid() && CellOffsets(offsets, mlp) && |offsets| == mlp.GetNumberOfLevels()
    ensures offsets[0] == 0
    ensures forall level: nat :: mlp.levelData.IsLevel(level) ==>
      offsets[level] == offsets[level - 1] + mlp.GetNumberOfCells(level)
    ensures forall a, b :: 0 <= a <= b < |offsets| ==> offsets[a] <= offsets[b]
  {
    hide LevelData.Valid, MultiLevelPartition.GetNumberOfCells;
    forall a, b | 0 <= a <= b < |offsets| ensures offsets[a] <= offsets[b] {
      CellOffsetsAscend(offsets, mlp, a, b);
    }
  }

  /** Value offsets, with the product taken in 32 bits. */
  method SetValueOffsets(sourceSpans: seq<Span>, destinationSpans: seq<Span>) returns (cells: seq<CellData>)
    requires |sourceSpans| == |destinationSpans|
    ensures |cells| == |sourceSpans|
    ensures forall k ::
              0 <= k < |cells| ==> cells[k].source == sourceSpans[k] && cells[k].destination == destinationSpans[k]
    ensures |cells| > 0 ==> cells[0].valueOffset == 0
    ensures forall k :: 0 <= k < |cells| - 1 ==> cells[k + 1].valueOffset == cells[k].valueOffset + ValueCount(cells[k])
  {
    cells := [];
    var valueOffset := 0;
    for k := 0 to |sourceSpans|
      invariant |cells| == k
      invariant forall j ::
                  0 <= j < k ==> cells[j].source == sourceSpans[j] && cells[j].destination == destinationSpans[j]
      invariant k == 0 ==> valueOffset == 0
      invariant k > 0 ==> cells[0].valueOffset == 0
      invariant k > 0 ==> valueOffset == cells[k - 1].valueOffset + ValueCount(cells[k - 1])
      invariant forall j :: 0 <= j < k - 1 ==> cells[j + 1].valueOffset == cells[j].valueOffset + ValueCount(cells[j])
    {
      var cell := CellData(valueOffset, sourceSpans[k], destinationSpans[k]);
      cells := cells + [cell];
      valueOffset := valueOffset + ValueCount(cell);
    }
  }

  /** Both lists of every level below `bound` are complete. */
  ghost predicate LevelsListed(sources: seq<nat>, sourceSpans: seq<Span>, destinations: seq<nat>,
                               destinationSpans: seq<Span>, offsets: seq<nat>, net: Network, bound: nat)
  {
    forall level: nat :: 1 <= level < bound && level < |offsets| ==>
      && offsets[level - 1] <= offsets[level]
      && LevelListed(sources, sourceSpans, offsets[level - 1], offsets[level] - offsets[level - 1],
                     x => SourceMember(net, level, x))
      && LevelListed(destinations, destinationSpans, offsets[level - 1], offsets[level] - offsets[level - 1],
                     x => DestinationMember(net, level, x))
  }

  ghost predicate FreeFrom(spans: seq<Span>, from: nat) {
    forall k :: from <= k < |spans| ==> spans[k] == NO_SPAN
  }

  /** The border lists of all levels; also counts the unconnected border nodes. */
  method BuildBoundaries(mlp: MultiLevelPartition, g: MultiLevelGraph, offsets: seq<nat>, ghost net: Network)
    returns (sources: seq<nat>, sourceSpans: seq<Span>, destinations: seq<nat>, destinationSpans: seq<Span>,
             unconnected: nat)
    requires Describes(mlp, g, net) && net.links == net.edges && IdsInRange(mlp)
    requires |offsets| == mlp.GetNumberOfLevels() && offsets[0] == 0
    requires forall level: nat ::
               mlp.levelData.IsLevel(level) ==> offsets[level] == offsets[level - 1] + mlp.GetNumberOfCells(level)
    requires forall a, b :: 0 <= a <= b < |offsets| ==> offsets[a] <= offsets[b]
    ensures |sourceSpans| == |destinationSpans| == offsets[|offsets| - 1]
    ensures LevelsListed(sources, sourceSpans, destinations, destinationSpans, offsets, net, |offsets|)
    ensures unconnected == 0
       <==> forall level: nat, v: nat ::
              mlp.levelData.IsLevel(level) && v < net.numNodes ==> !Unconnected(net, level, v)
  {
    hide LevelListed, LevelData.Valid, ListsUpTo, Unconnected, LevelsListed, IdsInRange, SourceMember;
    hide DestinationMember;
    var total := offsets[|offsets| - 1];
    sources, destinations, unconnected := [], [], 0;
    sourceSpans, destinationSpans := seq(total, _ => NO_SPAN), seq(total, _ => NO_SPAN);
    NoLevelsListed(sources, sourceSpans, destinations, destinationSpans, offsets, net);
    for level := 1 to mlp.GetNumberOfLevels()
      invariant |sourceSpans| == |destinationSpans| == total
      invariant FreeFrom(sourceSpans, offsets[level - 1]) && FreeFrom(destinationSpans, offsets[level - 1])
      invariant LevelsListed(sources, sourceSpans, destinations, destinationSpans, offsets, net, level)
      invariant unconnected == 0
           <==> forall l: nat, v: nat :: 1 <= l < level && v < net.numNodes ==> !Unconnected(net, l, v)
    {
      ghost var s, ss, d, ds := sources, sourceSpans, destinations, destinationSpans;
      var lo, num := offsets[level - 1], offsets[level] - offsets[level - 1];
      var collectedSources, collectedDestinations, warnings := CollectLevel(mlp, g, level, net);
      MembersInRange(mlp, g, net, level);
      sources, sourceSpans := InsertLevel(collectedSources, sources, sourceSpans, lo, num,
                                          net.numNodes, x => SourceMember(net, level, x));
      destinations, destinationSpans := InsertLevel(collectedDestinations, destinations, destinationSpans, lo, num,
                                                    net.numNodes, x => DestinationMember(net, level, x));
      unconnected := unconnected + warnings;
      LevelsGrow(s, ss, d, ds, sources, sourceSpans, destinations, destinationSpans, offsets, net, level);
    }
  }

  lemma NoLevelsListed(sources: seq<nat>, sourceSpans: seq<Span>, destinations: seq<nat>, destinationSpans: seq<Span>,
                       offsets: seq<nat>, net: Network)
    ensures LevelsListed(sources, sourceSpans, destinations, destinationSpans, offsets, net, 1)
  {
  }

  /** One more level is listed, and the finer ones stay so. */
  lemma LevelsGrow(s: seq<nat>, ss: seq<Span>, d: seq<nat>, ds: seq<Span>, sources: seq<nat>, sourceSpans: seq<Span>,
                   destinations: seq<nat>, destinationSpans: seq<Span>, offsets: seq<nat>, net: Network, level: nat)
    requires 1 <= level < |offsets| && LevelsListed(s, ss, d, ds, offsets, net, level)
    requires forall a, b :: 0 <= a <= b < |offsets| ==> offsets[a] <= offsets[b]
    requires s <= sources && OtherSpansKept(ss, sourceSpans, offsets[level - 1], offsets[level] - offsets[level - 1])
    requires d <= destinations
             && OtherSpansKept(ds, destinationSpans, offsets[level - 1], offsets[level] - offsets[level - 1])
    requires LevelListed(sources, sourceSpans, offsets[level - 1], offsets[level] - offsets[level - 1],
                         x => SourceMember(net, level, x))
    requires LevelListed(destinations, destinationSpans, offsets[level - 1], offsets[level] - offsets[level - 1],
                         x => DestinationMember(net, level, x))
    ensures LevelsListed(sources, sourceSpans, destinations, destinationSpans, offsets, net, level + 1)
  {
    hide LevelListed, OtherSpansKept, SourceMember, DestinationMember;
    var lo, num := offsets[level - 1], offsets[level] - offsets[level - 1];
    forall l: nat | 1 <= l < level
      ensures LevelListed(sources, sourceSpans, offsets[l - 1], offsets[l] - offsets[l - 1],
                          x => SourceMember(net, l, x))
      ensures LevelListed(destinations, destinationSpans, offsets[l - 1], offsets[l] - offsets[l - 1],
                          x => DestinationMember(net, l, x))
    {
      LevelStaysListed(s, sources, ss, sourceSpans, offsets[l - 1], offsets[l] - offsets[l - 1], lo, num,
                       x => SourceMember(net, l, x));
      LevelStaysListed(d, destinations, ds, destinationSpans, offsets[l - 1], offsets[l] - offsets[l - 1], lo, num,
                       x => DestinationMember(net, l, x));
    }
  }

  lemma MembersInRange(mlp: MultiLevelPartition, g: MultiLevelGraph, net: Network, level: nat)
    requires Describes(mlp, g, net) && IdsInRange(mlp) && mlp.levelData.IsLevel(level)
    ensures forall x: CellNode ::
              SourceMember(net, level, x) ==> x.1 < net.numNodes && x.0 < mlp.GetNumberOfCells(level)
    ensures forall x: CellNode ::
              DestinationMember(net, level, x) ==> x.1 < net.numNodes && x.0 < mlp.GetNumberOfCells(level)
  {
    hide LevelData.Valid, Network.IsSource, Network.IsDestination, Unconnected, Stores;
    forall x: CellNode | x.1 < net.numNodes && net.Cell(level, x.1) == x.0 ensures x.0 < mlp.GetNumberOfCells(level) {
      assert CellAgrees(mlp, net, level, x.1);
    }
  }

  /** The constructor. */
  method Build(mlp: MultiLevelPartition, g: MultiLevelGraph, ghost net: Network)
    returns (storage: CellStorage, unconnected: nat)
    requires Describes(mlp, g, net) && net.links == net.edges && IdsInRange(mlp)
    ensures LaidOut(storage, net) && CountsCells(storage, mlp)
    ensures unconnected == 0
       <==> forall level: nat, v: nat ::
              mlp.levelData.IsLevel(level) && v < net.numNodes ==> !Unconnected(net, level, v)
  {
    hide LevelData.Valid, Unconnected, LevelsListed;
    var offsets := CountCells(mlp);
    var sources, sourceSpans, destinations, destinationSpans, warnings := BuildBoundaries(mlp, g, offsets, net);
    var cells := SetValueOffsets(sourceSpans, destinationSpans);
    storage := CellStorage(sources, destinations, cells, offsets);
    unconnected := warnings;
    AllCellsListed(storage, sourceSpans, destinationSpans, net);
  }

  lemma LevelOfCell(offsets: seq<nat>, k: nat, bound: nat) returns (level: nat)
    requires 1 <= bound <= |offsets| && offsets[0] == 0 && k < offsets[bound - 1]
    ensures 1 <= level < bound && offsets[level - 1] <= k < offsets[level]
    decreases bound
  {
    if offsets[bound - 2] <= k {
      level := bound - 1;
    } else {
      level := LevelOfCell(offsets, k, bound - 1);
    }
  }

  lemma AllCellsListed(storage: CellStorage, sourceSpans: seq<Span>, destinationSpans: seq<Span>, net: Network)
    requires |storage.levelToCellOffset| == |net.cells| + 1 && storage.levelToCellOffset[0] == 0
    requires |sourceSpans| == |destinationSpans| == |storage.cells| == storage.levelToCellOffset[|net.cells|]
    requires forall a, b ::
               0 <= a <= b < |storage.levelToCellOffset| ==>
                 storage.levelToCellOffset[a] <= storage.levelToCellOffset[b]
    requires forall k :: 0 <= k < |storage.cells| ==>
      storage.cells[k].source == sourceSpans[k] && storage.cells[k].destination == destinationSpans[k]
    requires LevelsListed(storage.sourceBoundary, sourceSpans, storage.destinationBoundary, destinationSpans,
                          storage.levelToCellOffset, net, |storage.levelToCellOffset|)
    requires storage.Consecutive()
    ensures LaidOut(storage, net)
  {
    hide ListsExactly;
    var offsets := storage.levelToCellOffset;
    forall k | 0 <= k < |storage.cells|
      ensures SpanFits(storage.sourceBoundary, storage.cells[k].source)
      ensures SpanFits(storage.destinationBoundary, storage.cells[k].destination)
    {
      var level := LevelOfCell(offsets, k, |offsets|);
      var c := k - offsets[level - 1];
      assert ListedCell(storage.sourceBoundary, sourceSpans, offsets[level - 1], c, x => SourceMember(net, level, x));
      assert ListedCell(storage.destinationBoundary, destinationSpans, offsets[level - 1], c,
                        x => DestinationMember(net, level, x));
    }
    forall level: nat, c: nat | storage.HasCell(level, c) ensures CellListed(storage, net, level, c) {
      assert ListedCell(storage.sourceBoundary, sourceSpans, offsets[level - 1], c, x => SourceMember(net, level, x));
      assert ListedCell(storage.destinationBoundary, destinationSpans, offsets[level - 1], c,
                        x => DestinationMember(net, level, x));
    }
  }
}
