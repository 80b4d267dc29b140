/**
 The whole preprocessing: load edges, repair and pack the partition, lay out the cells and
 customize them for every exclusion filter.
 */
module MldPipeline {
  import opened RoadGraph
  import opened OverlayNetwork
  import opened OverlaySearch
  import opened Words
  import opened LevelLayout
  import opened MultiLevelPartitions
  import opened MultiLevelGraphs
  import opened CellBoundaries
  import opened CellStorages
  import opened CellMetrics
  import opened NodeRelaxation
  import opened CellCustomizers
  import opened Customization
  import NestedCells

  datatype Hierarchy = Hierarchy(mlp: MultiLevelPartition, graph: MultiLevelGraph, storage: CellStorage)

  // ---------- networks that only name their cells differently ----------

  /** Both networks put `u` and `v` together on `level`, or both keep them apart. */
  ghost predicate SameSplit(a: Network, b: Network, level: nat, u: nat, v: nat)
    requires a.Shaped() && b.Shaped() && level <= |a.cells| && level <= |b.cells|
    requires u < a.numNodes && v < a.numNodes && a.numNodes == b.numNodes
  {
    a.Cell(level, u) == a.Cell(level, v) <==> b.Cell(level, u) == b.Cell(level, v)
  }

  ghost predicate SameCells(a: Network, b: Network) {
    && a.Shaped() && b.Shaped() && a.EdgesInRange()
    && a.numNodes == b.numNodes && a.edges == b.edges && a.links == b.links && |a.cells| == |b.cells|
    && forall level: nat, u: nat, v: nat ::
      level <= |a.cells| && u < a.numNodes && v < a.numNodes ==> SameSplit(a, b, level, u, v)
  }

  lemma SameRoles(a: Network, b: Network, level: nat, v: nat)
    requires SameCells(a, b) && level <= |a.cells|
    ensures b.EdgesInRange()
    ensures a.Boundary(level, v) == b.Boundary(level, v)
    ensures a.HasInnerForward(level, v) == b.HasInnerForward(level, v)
    ensures a.HasInnerBackward(level, v) == b.HasInnerBackward(level, v)
  {
    assert forall e :: e in a.links ==> a.Crosses(level, e) == b.Crosses(level, e) by {
      forall e | e in a.links ensures a.Crosses(level, e) == b.Crosses(level, e) {
        assert SameSplit(a, b, level, e.source, e.target);
      }
    }
  }

  lemma SameRegions(a: Network, b: Network, level: nat, v: nat)
    requires SameCells(a, b) && a.allowed == b.allowed && level <= |a.cells| && v < a.numNodes
    ensures a.RegionOf(level, v) == b.RegionOf(level, v)
  {
    forall u: nat | u < a.numNodes ensures u in a.RegionOf(level, v) <==> u in b.RegionOf(level, v) {
      assert SameSplit(a, b, level, u, v);
    }
  }

  lemma SameNesting(a: Network, b: Network)
    requires SameCells(a, b) && a.WellFormed()
    ensures b.WellFormed()
  {
    hide PositiveWeights;
    forall l: nat, u: nat, v: nat | l + 1 < |b.cells| && u < b.numNodes && v < b.numNodes
      ensures NestedCells.NestedAt(b.cells, b.numNodes, l, u, v)
    {
      assert NestedCells.NestedAt(a.cells, a.numNodes, l, u, v);
      assert SameSplit(a, b, l + 1, u, v) && SameSplit(a, b, l + 2, u, v);
    }
    LinksCarryOver(a, b);
  }

  /** What is stored where does not depend on cells and filters. */
  lemma LinksCarryOver(a: Network, b: Network)
    requires a.Mirrored() && a.OnLinks() && a.edges == b.edges && a.links == b.links
    ensures b.Mirrored() && b.OnLinks()
  {
    forall e | e in b.links ensures b.HasMirror(e) {
      assert a.HasMirror(e);
    }
    forall e | e in b.edges ensures b.HasLink(e, false) && (e.data.forward ==> b.HasLink(e, true)) {
      assert a.HasLink(e, false) && (e.data.forward ==> a.HasLink(e, true));
    }
  }

  /** Exact distances do not depend on how the cells are named. */
  lemma SameClique(a: Network, b: Network, level: nat, clique: Clique)
    requires SameCells(a, b) && a.allowed == b.allowed && a.WellFormed() && b.WellFormed() && level <= |a.cells|
    requires GoodClique(b, level, clique)
    ensures GoodClique(a, level, clique)
  {
    hide Exact, Network.Boundary, Network.HasInnerForward, Network.HasInnerBackward, Network.RegionOf;
    hide Network.WellFormed;
    forall x: nat, y: nat | clique(x, y).Some?
      ensures x < a.numNodes && y < a.numNodes && a.Cell(level, x) == a.Cell(level, y)
      ensures a.IsSource(level, x) && a.IsDestination(level, y)
    {
      assert x < b.numNodes && y < b.numNodes && b.Cell(level, x) == b.Cell(level, y);
      SameRoles(a, b, level, x);
      SameRoles(a, b, level, y);
      assert SameSplit(a, b, level, x, y);
    }
    forall x: nat, y: nat |
      && x < a.numNodes && y < a.numNodes && a.Cell(level, x) == a.Cell(level, y)
      && a.IsSource(level, x) && a.IsDestination(level, y)
      ensures Exact(a.edges, a.RegionOf(level, x), x, y, clique(x, y))
    {
      SameRoles(a, b, level, x);
      SameRoles(a, b, level, y);
      SameRegions(a, b, level, x);
      assert SameSplit(a, b, level, x, y);
    }
  }

  // ---------- the network behind a packed partition ----------

  ghost function PackedCells(mlp: MultiLevelPartition): (r: seq<seq<nat>>)
    requires mlp.Valid()
    ensures |r| == mlp.levelData.numLevel - 1 && NestedCells.Shaped(r, mlp.NumNodes())
    ensures forall l :: 0 <= l < |r| ==> r[l] == PackedLevel(mlp, l + 1)
  {
    seq(mlp.levelData.numLevel - 1, l requires 0 <= l < mlp.levelData.numLevel - 1 => PackedLevel(mlp, l + 1))
  }

  ghost function PackedLevel(mlp: MultiLevelPartition, level: nat): (r: seq<nat>)
    requires mlp.Valid() && mlp.levelData.IsLevel(level)
    ensures |r| == mlp.NumNodes() && forall v :: 0 <= v < |r| ==> r[v] == mlp.GetCell(level, v)
  {
    seq(mlp.NumNodes(), v requires 0 <= v < mlp.NumNodes() => mlp.GetCell(level, v))
  }

  /** The network with the packed cell numbers. */
  ghost function PackedNetwork(mlp: MultiLevelPartition, edges: seq<Edge>, links: seq<Edge>,
                               allowed: seq<bool>): Network
    requires mlp.Valid()
  {
    Network(mlp.NumNodes(), edges, links, PackedCells(mlp), allowed)
  }

  /** Packing renames cells and does nothing else. */
  lemma PackingRenamesCells(mlp: MultiLevelPartition, cells: seq<seq<nat>>, order: seq<nat>, edges: seq<Edge>,
                            links: seq<Edge>, allowed: seq<bool>)
    requires Packed(mlp, cells, order) && Network(|order|, edges, links, cells, allowed).WellFormed()
    ensures |order| == mlp.NumNodes()
            && SameCells(Network(|order|, edges, links, cells, allowed), PackedNetwork(mlp, edges, links, allowed))
  {
    var a, b := Network(|order|, edges, links, cells, allowed), PackedNetwork(mlp, edges, links, allowed);
    hide LevelData.Valid, Numbered, ChildrenListed, Network.WellFormed;
    assert a.Shaped() && a.EdgesInRange();
    forall level: nat, u: nat, v: nat | level <= |a.cells| && u < a.numNodes && v < a.numNodes
      ensures SameSplit(a, b, level, u, v)
    {
      if level > 0 {
        assert b.cells[level - 1] == PackedLevel(mlp, level);
        PackingIsFaithful(mlp, cells, order, level, u, v);
      }
    }
  }

  lemma NetworkIsDescribed(mlp: MultiLevelPartition, g: MultiLevelGraph, edges: seq<Edge>, links: seq<Edge>,
                           allowed: seq<bool>)
    requires mlp.Valid() && Stores(g, edges) && g.NumNodes() == mlp.NumNodes()
    requires PackedNetwork(mlp, edges, links, allowed).WellFormed()
    ensures Describes(mlp, g, PackedNetwork(mlp, edges, links, allowed))
  {
    var net := PackedNetwork(mlp, edges, links, allowed);
    hide LevelData.Valid, Stores;
    forall l: nat, v: nat | mlp.levelData.IsLevel(l) && v < net.numNodes ensures CellAgrees(mlp, net, l, v) {
      assert net.cells[l - 1] == PackedLevel(mlp, l);
    }
  }

  lemma IdsFit(mlp: MultiLevelPartition, cells: seq<seq<nat>>, order: seq<nat>)
    requires Packed(mlp, cells, order)
    ensures IdsInRange(mlp)
  {
    assert mlp.Valid();
    hide Packed, LevelData.Valid;
    forall level: nat, v: nat | mlp.levelData.IsLevel(level) && v < mlp.NumNodes()
      ensures mlp.GetCell(level, v) < mlp.GetNumberOfCells(level)
    {
      IdsAreDense(mlp, cells, order, level);
    }
  }

  // ---------- the layout serves every filter ----------

  /** Which nodes label rows and columns is the same for every filter. */
  lemma LayoutServesEveryFilter(storage: CellStorage, net: Network, allowed: seq<bool>)
    requires LaidOut(storage, net) && net.Shaped() && net.EdgesInRange() && |allowed| == net.numNodes
    ensures LaidOut(storage, net.(allowed := allowed))
  {
    var other := net.(allowed := allowed);
    hide Network.Boundary, Network.HasInnerForward, Network.HasInnerBackward;
    assert SameCells(net, other);
    forall level: nat, c: nat | storage.HasCell(level, c) ensures CellListed(storage, other, level, c) {
      ListedNodes(storage, net, level, c);
      forall v: nat
        ensures SourceMember(net, level, (c, v)) <==> SourceMember(other, level, (c, v))
        ensures DestinationMember(net, level, (c, v)) <==> DestinationMember(other, level, (c, v))
      {
        if level <= |net.cells| {
          SameRoles(net, other, level, v);
        }
      }
    }
  }

  // ---------- internal edges come first ----------

  /** The exact split of the edge range, read off the stored graph. */
  lemma SplitIsInternalRange(g: MultiLevelGraph, mlp: MultiLevelPartition, sorted: seq<LeveledEdge>, maxBorder: nat,
                             net: Network, level: nat, node: nat)
    requires Describes(mlp, g, net) && mlp.levelData.IsLevel(level) && node < net.numNodes
    requires Represents(g, sorted, mlp.GetNumberOfLevels(), maxBorder) && level < g.GetNumberOfLevels()
    requires SplitsExactly(g, mlp, sorted, level, node)
    ensures InternalRangeExact(mlp, g, net, level, node)
  {
    StoredTargets(g, sorted, mlp.GetNumberOfLevels(), maxBorder);
    assert mlp.Valid() && g.Shaped() && g.NumNodes() == mlp.NumNodes();
    hide Describes, Represents, LevelData.Valid, MultiLevelGraph.BeginBorderEdges, MultiLevelPartition.GetCell;
  }

  lemma StoredTargets(g: MultiLevelGraph, sorted: seq<LeveledEdge>, numLevels: nat, maxBorder: nat)
    requires Represents(g, sorted, numLevels, maxBorder)
    ensures |g.edgeArray| == |sorted|
            && forall i :: 0 <= i < |sorted| ==> g.edgeArray[i].target == sorted[i].edge.target
  {
    hide SortedEdges, Cut, OffsetsStored;
  }

  /** Fewer than 256 edges at a node always fit the 8-bit offsets. */
  lemma FewEdgesFit(g: MultiLevelGraph, sorted: seq<LeveledEdge>, numLevels: nat, maxBorder: nat, level: nat, node: nat)
    requires Represents(g, sorted, numLevels, maxBorder) && node < g.NumNodes()
    requires g.EndEdges(node) - g.BeginEdges(node) < OFFSET_RANGE
    ensures OffsetFits(g, sorted, maxBorder, level, node)
  {
    var begin, end := g.nodeArray[node], g.nodeArray[node + 1];
    assert Cut(sorted, node, 0, begin) && Cut(sorted, node + 1, 0, end);
    hide Represents, Cut;
    forall p: nat, q: nat | Cut(sorted, node, 0, p) && Cut(sorted, node, level, q) ensures q - p < OFFSET_RANGE {
      CutIsUnique(sorted, node, 0, p, begin);
      CutsAreOrdered(sorted, node, level, q, node + 1, 0, end);
    }
  }

  // ---------- the built hierarchy ----------

  /** The network as the caller sees it: input edges, input cells and a filter. */
  ghost function InputNetwork(cells: seq<seq<nat>>, edges: seq<Edge>, links: seq<Edge>, allowed: seq<bool>): Network {
    Network(|allowed|, edges, links, cells, allowed)
  }

  function NoFilter(n: nat): (r: seq<bool>)
    ensures |r| == n
  {
    seq(n, _ => true)
  }

  /** What each constructor has established. */
  ghost predicate Built(h: Hierarchy, cells: seq<seq<nat>>, edges: seq<Edge>, links: seq<Edge>, order: seq<nat>,
                        sorted: seq<LeveledEdge>, maxBorder: nat) {
    && Packed(h.mlp, cells, order) && |order| == h.mlp.NumNodes()
    && InputNetwork(cells, edges, links, NoFilter(|order|)).WellFormed()
    && EdgesInRange(edges, |order|) && SortedFrom(sorted, edges, h.mlp)
    && Represents(h.graph, sorted, h.mlp.GetNumberOfLevels(), maxBorder) && h.graph.NumNodes() == |order|
    && Stores(h.graph, edges)
    && LaidOut(h.storage, PackedNetwork(h.mlp, edges, links, NoFilter(|order|))) && CountsCells(h.storage, h.mlp)
  }

  /** No 8-bit edge offset and no 32-bit cell size wraps around. */
  ghost predicate Fitting(h: Hierarchy, sorted: seq<LeveledEdge>, maxBorder: nat) {
    && h.storage.ProductsFit() && h.graph.Shaped()
    && forall level: nat, node: nat :: h.mlp.levelData.IsLevel(level) && node < h.graph.NumNodes() ==>
         OffsetFits(h.graph, sorted, maxBorder, level, node)
  }

  /** Fewer than 256 edges at every node and matrices of fewer than 2^32 entries are enough. */
  lemma SmallGraphsFit(h: Hierarchy, cells: seq<seq<nat>>, edges: seq<Edge>, links: seq<Edge>, order: seq<nat>,
                       sorted: seq<LeveledEdge>, maxBorder: nat)
    requires Built(h, cells, edges, links, order, sorted, maxBorder) && h.storage.ProductsFit()
    requires h.graph.Shaped()
             && forall node: nat ::
               node < h.graph.NumNodes() ==> h.graph.EndEdges(node) - h.graph.BeginEdges(node) < OFFSET_RANGE
    ensures Fitting(h, sorted, maxBorder)
  {
    assert Represents(h.graph, sorted, h.mlp.GetNumberOfLevels(), maxBorder);
    hide Built, Represents, OffsetFits, CellStorage.ProductsFit, LevelData.Valid;
    forall level: nat, node: nat | h.mlp.levelData.IsLevel(level) && node < h.graph.NumNodes()
      ensures OffsetFits(h.graph, sorted, maxBorder, level, node)
    {
      FewEdgesFit(h.graph, sorted, h.mlp.GetNumberOfLevels(), maxBorder, level, node);
    }
  }

  lemma AnyFilterIsWellFormed(cells: seq<seq<nat>>, edges: seq<Edge>, links: seq<Edge>, allowed: seq<bool>,
                              other: seq<bool>)
    requires InputNetwork(cells, edges, links, allowed).WellFormed() && |other| == |allowed|
    ensures InputNetwork(cells, edges, links, other).WellFormed()
  {
    LinksCarryOver(InputNetwork(cells, edges, links, allowed), InputNetwork(cells, edges, links, other));
    hide Network.Mirrored, Network.OnLinks;
  }

  lemma RangesAreExact(h: Hierarchy, cells: seq<seq<nat>>, edges: seq<Edge>, links: seq<Edge>, order: seq<nat>,
                       sorted: seq<LeveledEdge>, maxBorder: nat, net: Network, level: nat, node: nat)
    requires Built(h, cells, edges, links, order, sorted, maxBorder) && Fitting(h, sorted, maxBorder)
    requires Describes(h.mlp, h.graph, net) && h.mlp.levelData.IsLevel(level) && node < net.numNodes
    ensures InternalRangeExact(h.mlp, h.graph, net, level, node)
  {
    assert Packed(h.mlp, cells, order) && EdgesInRange(edges, h.mlp.NumNodes()) && SortedFrom(sorted, edges, h.mlp);
    assert Represents(h.graph, sorted, h.mlp.GetNumberOfLevels(), maxBorder) && h.graph.NumNodes() == h.mlp.NumNodes();
    assert h.graph.NumNodes() == net.numNodes && h.graph.GetNumberOfLevels() == h.mlp.levelData.numLevel;
    assert OffsetFits(h.graph, sorted, maxBorder, level, node);
    hide Built, Fitting, Packed, SortedFrom, OffsetFits, SplitsExactly, InternalRangeExact, Describes, LevelData.Valid;
    RangeSplitIsExact(h.graph, h.mlp, cells, order, edges, sorted, maxBorder, level, node);
    SplitIsInternalRange(h.graph, h.mlp, sorted, maxBorder, net, level, node);
  }

  /** A fitting hierarchy is ready for the customizer, whatever the filter. */
  lemma ReadyForEveryFilter(h: Hierarchy, cells: seq<seq<nat>>, edges: seq<Edge>, links: seq<Edge>, order: seq<nat>,
                            sorted: seq<LeveledEdge>, maxBorder: nat, allowed: seq<bool>)
    requires Built(h, cells, edges, links, order, sorted, maxBorder) && Fitting(h, sorted, maxBorder)
             && |allowed| == |order|
    ensures InputNetwork(cells, edges, links, allowed).WellFormed() && h.mlp.Valid()
    ensures SameCells(InputNetwork(cells, edges, links, allowed), PackedNetwork(h.mlp, edges, links, allowed))
    ensures Setup(h.mlp, h.graph, h.storage, PackedNetwork(h.mlp, edges, links, allowed))
  {
    var net := PackedNetwork(h.mlp, edges, links, allowed);
    var plain := PackedNetwork(h.mlp, edges, links, NoFilter(|order|));
    assert Packed(h.mlp, cells, order) && Stores(h.graph, edges) && LaidOut(h.storage, plain)
           && h.storage.ProductsFit();
    assert net == plain.(allowed := allowed);
    hide Packed, Stores, LaidOut, CountsCells, IdsInRange, Describes, InternalRangeExact, Network.WellFormed, SameCells;
    hide CellStorage.ProductsFit, LevelData.Valid, SortedFrom, Represents;
    AnyFilterIsWellFormed(cells, edges, links, NoFilter(|order|), allowed);
    PackingRenamesCells(h.mlp, cells, order, edges, links, allowed);
    SameNesting(InputNetwork(cells, edges, links, allowed), net);
    NetworkIsDescribed(h.mlp, h.graph, edges, links, allowed);
    IdsFit(h.mlp, cells, order);
    PackingRenamesCells(h.mlp, cells, order, edges, links, NoFilter(|order|));
    SameNesting(InputNetwork(cells, edges, links, NoFilter(|order|)), plain);
    assert plain.Shaped() && plain.EdgesInRange() by { PlainFacts(plain); }
    LayoutServesEveryFilter(h.storage, plain, allowed);
    hide Built, Fitting;
    forall level: nat, v: nat | h.mlp.levelData.IsLevel(level) && v < net.numNodes
      ensures InternalRangeExact(h.mlp, h.graph, net, level, v)
    {
      RangesAreExact(h, cells, edges, links, order, sorted, maxBorder, net, level, v);
    }
  }

  lemma PlainFacts(net: Network)
    requires net.WellFormed()
    ensures net.Shaped() && net.EdgesInRange()
  {
  }

  lemma UnconnectedMeansUnconnected(a: Network, b: Network, mlp: MultiLevelPartition)
    requires SameCells(a, b) && a.EdgesInRange() && b.EdgesInRange() && mlp.levelData.numLevel == |a.cells| + 1
    ensures (forall level: nat, v: nat :: mlp.levelData.IsLevel(level) && v < b.numNodes ==> !Unconnected(b, level, v))
       <==> (forall level: nat, v: nat :: 1 <= level <= |a.cells| && v < a.numNodes ==> !Unconnected(a, level, v))
  {
    forall level: nat, v: nat | level <= |a.cells| ensures Unconnected(a, level, v) == Unconnected(b, level, v) {
      SameRoles(a, b, level, v);
    }
    hide Unconnected;
  }

  /** The renamed network of a packed partition, before any filter. */
  lemma RenamedIsDescribed(mlp: MultiLevelPartition, g: MultiLevelGraph, cells: seq<seq<nat>>, order: seq<nat>,
                           edges: seq<Edge>, links: seq<Edge>)
    requires Packed(mlp, cells, order) && Stores(g, edges) && g.NumNodes() == |order|
    requires InputNetwork(cells, edges, links, NoFilter(|order|)).WellFormed()
    ensures mlp.Valid() && |order| == mlp.NumNodes()
    ensures Describes(mlp, g, PackedNetwork(mlp, edges, links, NoFilter(|order|))) && IdsInRange(mlp)
    ensures SameCells(InputNetwork(cells, edges, links, NoFilter(|order|)),
                      PackedNetwork(mlp, edges, links, NoFilter(|order|)))
  {
    PackedFacts(mlp, cells, order);
    hide Packed, MultiLevelPartition.Valid, Stores, SameCells, Network.WellFormed, Describes, IdsInRange;
    PackingRenamesCells(mlp, cells, order, edges, links, NoFilter(|order|));
    SameNesting(InputNetwork(cells, edges, links, NoFilter(|order|)),
                PackedNetwork(mlp, edges, links, NoFilter(|order|)));
    NetworkIsDescribed(mlp, g, edges, links, NoFilter(|order|));
    IdsFit(mlp, cells, order);
  }

  /** No node of the input network is unconnected on any level. */
  ghost predicate AllConnected(cells: seq<seq<nat>>, edges: seq<Edge>, n: nat)
    requires InputNetwork(cells, edges, edges, NoFilter(n)).WellFormed()
  {
    forall level: nat, v: nat ::
      1 <= level <= |cells| && v < n ==> !Unconnected(InputNetwork(cells, edges, edges, NoFilter(n)), level, v)
  }

  /** Multi-level graph and cell layout on top of a packed partition. */
  method BuildOverlay(mlp: MultiLevelPartition, n: nat, edges: seq<Edge>, ghost cells: seq<seq<nat>>,
                      ghost order: seq<nat>)
    returns (h: Hierarchy, unconnected: nat, ghost sorted: seq<LeveledEdge>, ghost maxBorder: nat)
    requires Packed(mlp, cells, order) && n == |order| && InputNetwork(cells, edges, edges, NoFilter(n)).WellFormed()
    ensures h.mlp == mlp && Built(h, cells, edges, edges, order, sorted, maxBorder)
    ensures unconnected == 0 <==> AllConnected(cells, edges, |order|)
  {
    hide Packed, MultiLevelPartition.Valid, Represents, SortedFrom, Stores, LaidOut, CountsCells, IdsInRange;
    hide SameCells, Unconnected, Network.WellFormed, Describes, Built;
    PackedFacts(mlp, cells, order);
    ghost var net := InputNetwork(cells, edges, edges, NoFilter(|order|));
    ghost var renamed := PackedNetwork(mlp, edges, edges, NoFilter(|order|));
    PlainFacts(net);
    var g;
    g, sorted, maxBorder := MultiLevelGraphs.Build(mlp, n, edges);
    GraphStoresEdges(g, mlp, edges, sorted, maxBorder);
    RenamedIsDescribed(mlp, g, cells, order, edges, edges);
    var storage;
    storage, unconnected := CellStorages.Build(mlp, g, renamed);
    DescribedFacts(mlp, g, renamed);
    UnconnectedMeansUnconnected(net, renamed, mlp);
    h := Hierarchy(mlp, g, storage);
    IsBuilt(h, cells, edges, edges, order, sorted, maxBorder);
  }

  lemma IsBuilt(h: Hierarchy, cells: seq<seq<nat>>, edges: seq<Edge>, links: seq<Edge>, order: seq<nat>,
                sorted: seq<LeveledEdge>, maxBorder: nat)
    requires Packed(h.mlp, cells, order) && |order| == h.mlp.NumNodes()
             && InputNetwork(cells, edges, links, NoFilter(|order|)).WellFormed()
    requires EdgesInRange(edges, |order|) && SortedFrom(sorted, edges, h.mlp)
    requires Represents(h.graph, sorted, h.mlp.GetNumberOfLevels(), maxBorder) && h.graph.NumNodes() == |order|
    requires Stores(h.graph, edges)
    requires LaidOut(h.storage, PackedNetwork(h.mlp, edges, links, NoFilter(|order|))) && CountsCells(h.storage, h.mlp)
    ensures Built(h, cells, edges, links, order, sorted, maxBorder)
  {
    hide Packed, SortedFrom, Represents, Stores, LaidOut, CountsCells, Network.WellFormed, MultiLevelPartition.Valid;
  }

  lemma DescribedFacts(mlp: MultiLevelPartition, g: MultiLevelGraph, net: Network)
    requires Describes(mlp, g, net)
    ensures net.Shaped() && net.EdgesInRange()
  {
  }

  /**
   Packed partition, multi-level graph and cell layout of one partitioned graph. It fails
   exactly when the cell numbers of all levels together need more than 64 bits.
   */
  method BuildHierarchy(cells: seq<seq<nat>>, numCells: seq<nat>, edges: seq<Edge>)
    returns (r: Option<Hierarchy>, unconnected: nat, ghost order: seq<nat>, ghost sorted: seq<LeveledEdge>,
             ghost maxBorder: nat)
    requires 1 <= |cells| && 1 <= |cells[0]| && CountsFit(cells, numCells)
    requires InputNetwork(cells, edges, edges, NoFilter(|cells[0]|)).WellFormed()
    ensures r.Some? <==> BitsUsed(numCells, |numCells|) <= WORD_BITS
    ensures r.Some? ==> |order| == |cells[0]| && Built(r.value, cells, edges, edges, order, sorted, maxBorder)
    ensures r.Some? ==> (unconnected == 0 <==> AllConnected(cells, edges, |cells[0]|))
  {
    hide BitsUsed, Words.Pow2, Words.BitLength, LevelData.Valid, CountsFit, Built, AllConnected;
    unconnected, sorted, maxBorder, r := 0, [], 0, None;
    NestingFacts(InputNetwork(cells, edges, edges, NoFilter(|cells[0]|)));
    hide Network.WellFormed;
    var packed: Option<MultiLevelPartition>;
    packed, order := MultiLevelPartitions.Build(cells, numCells);
    if packed.Some? {
      PackedFacts(packed.value, cells, order);
      hide Packed;
      var h;
      h, unconnected, sorted, maxBorder := BuildOverlay(packed.value, |cells[0]|, edges, cells, order);
      r := Some(h);
    }
  }

  lemma NestingFacts(net: Network)
    requires net.WellFormed()
    ensures NestedCells.Shaped(net.cells, net.numNodes) && NestedCells.Nested(net.cells, net.numNodes)
  {
  }

  // ---------- every filter ----------

  /**
   Read through the packed cell numbers, the metric answers for every source and destination
   of every input cell with the least cost of a walk that stays in the cell and passes the filter.
   */
  ghost predicate Answers(h: Hierarchy, cells: seq<seq<nat>>, edges: seq<Edge>, links: seq<Edge>, allowed: seq<bool>,
                          vals: MetricValues, level: nat)
    requires h.mlp.Valid() && InputNetwork(cells, edges, links, allowed).WellFormed() && level <= |cells|
  {
    GoodClique(InputNetwork(cells, edges, links, allowed), level,
               CliqueOf(h.storage, PackedNetwork(h.mlp, edges, links, allowed), vals, level))
  }

  lemma ExactLevelAnswers(h: Hierarchy, cells: seq<seq<nat>>, edges: seq<Edge>, links: seq<Edge>, allowed: seq<bool>,
                          vals: MetricValues, level: nat)
    requires h.mlp.Valid() && 1 <= level <= |cells| && InputNetwork(cells, edges, links, allowed).WellFormed()
    requires SameCells(InputNetwork(cells, edges, links, allowed), PackedNetwork(h.mlp, edges, links, allowed))
    requires Setup(h.mlp, h.graph, h.storage, PackedNetwork(h.mlp, edges, links, allowed))
    requires LevelExact(h.storage, PackedNetwork(h.mlp, edges, links, allowed), vals, level)
    ensures Answers(h, cells, edges, links, allowed, vals, level)
  {
    var a, b := InputNetwork(cells, edges, links, allowed), PackedNetwork(h.mlp, edges, links, allowed);
    hide LevelExact, LevelData.Valid, GoodClique, Network.WellFormed, NestedCells.Nested, LaidOut;
    hide CellStorage.ProductsFit;
    assert forall v: nat :: v < b.numNodes ==> h.storage.HasCell(level, b.Cell(level, v)) by {
      forall v: nat | v < b.numNodes ensures h.storage.HasCell(level, b.Cell(level, v)) {
        assert h.mlp.levelData.IsLevel(level) && CellAgrees(h.mlp, b, level, v);
      }
    }
    hide Setup;
    ExactLevelIsGoodClique(h.storage, b, vals, level);
    SameClique(a, b, level, CliqueOf(h.storage, b, vals, level));
  }

  ghost predicate AnswersOnAllLevels(h: Hierarchy, cells: seq<seq<nat>>, edges: seq<Edge>, links: seq<Edge>,
                                     allowed: seq<bool>, vals: MetricValues) {
    && h.mlp.Valid() && InputNetwork(cells, edges, links, allowed).WellFormed()
    && forall level: nat :: 1 <= level <= |cells| ==> Answers(h, cells, edges, links, allowed, vals, level)
  }

  /** A fresh metric, customized for one filter. */
  method CustomizeFilter(h: Hierarchy, allowed: seq<bool>, ghost cells: seq<seq<nat>>, ghost edges: seq<Edge>,
                         ghost links: seq<Edge>)
    returns (metric: CellMetric)
    requires h.mlp.Valid() && InputNetwork(cells, edges, links, allowed).WellFormed()
    requires SameCells(InputNetwork(cells, edges, links, allowed), PackedNetwork(h.mlp, edges, links, allowed))
    requires Setup(h.mlp, h.graph, h.storage, PackedNetwork(h.mlp, edges, links, allowed))
    ensures fresh(metric) && AnswersOnAllLevels(h, cells, edges, links, allowed, metric.Values())
  {
    ghost var net := PackedNetwork(h.mlp, edges, links, allowed);
    assert |net.cells| == |cells|;
    hide Setup, SameCells, Network.WellFormed, MultiLevelPartition.Valid, Answers, AllInvalid, LevelExact;
    metric := new CellMetric(h.storage);
    Customize(h.mlp, h.graph, h.storage, allowed, metric, net);
    forall level: nat | 1 <= level <= |cells| ensures Answers(h, cells, edges, links, allowed, metric.Values(), level) {
      ExactLevelAnswers(h, cells, edges, links, allowed, metric.Values(), level);
    }
  }

  /** `customizeFilteredMetrics`: one metric for each filter, each exact on all levels. */
  method CustomizeFilteredMetrics(h: Hierarchy, filters: seq<seq<bool>>, ghost cells: seq<seq<nat>>,
                                  ghost edges: seq<Edge>, ghost links: seq<Edge>, ghost order: seq<nat>,
                                  ghost sorted: seq<LeveledEdge>, ghost maxBorder: nat)
    returns (metrics: seq<CellMetric>)
    requires Built(h, cells, edges, links, order, sorted, maxBorder) && Fitting(h, sorted, maxBorder)
    requires forall k :: 0 <= k < |filters| ==> |filters[k]| == |order|
    ensures |metrics| == |filters|
    ensures forall k ::
              0 <= k < |filters| ==> AnswersOnAllLevels(h, cells, edges, links, filters[k], metrics[k].Values())
  {
    hide Built, Fitting, Setup, SameCells, Network.WellFormed, MultiLevelPartition.Valid, AnswersOnAllLevels;
    metrics := [];
    for i := 0 to |filters|
      invariant |metrics| == i
      invariant forall k :: 0 <= k < i ==> AnswersOnAllLevels(h, cells, edges, links, filters[k], metrics[k].Values())
    {
      ReadyForEveryFilter(h, cells, edges, links, order, sorted, maxBorder, filters[i]);
      var metric := CustomizeFilter(h, filters[i], cells, edges, links);
      metrics := metrics + [metric];
    }
  }
}
