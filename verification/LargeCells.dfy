/**
 Inputs on which counters wrap around: the edges on file of a cell whose first node is joined to
 all others and whose nodes all have roads out of the cell.
 */
module LargeCells {
  import opened RoadGraph
  import opened OverlayNetwork
  import opened LevelLayout
  import opened MultiLevelPartitions
  import opened MultiLevelGraphs
  import opened CellBoundaries
  import opened CellStorages
  import opened CellMetrics
  import opened EdgeOffsets
  import opened MldPipeline
  import opened EdgeNormalisation
  import opened CorrespondingNetworks
  import opened Preparation
  import opened Preprocessing
  import Customization
  import NestedCells
  import Runs

  // ---------- the input ----------

  /** Nodes 0 to n - 1 in one cell and node n in another. */
  function TwoCells(n: nat): seq<seq<nat>> {
    [seq(n + 1, i => if i < n then 0 else 1)]
  }

  function Road(s: nat, t: nat, turnId: nat): Edge {
    Edge(s, t, EdgeData(turnId, 1, 1, 1.0, true, false))
  }

  /** Node 0 is joined to all others. */
  function Neighbour(i: nat): nat {
    if i == 0 then 1 else 0
  }

  /** Roads both ways between every node of the cell, its neighbour and the outside. */
  function Roads(n: nat): seq<Edge> {
    seq(n, i requires 0 <= i => Road(i, n, 4 * i)) + seq(n, i requires 0 <= i => Road(n, i, 4 * i + 1))
    + seq(n, i requires 0 <= i => Road(i, Neighbour(i), 4 * i + 2))
    + seq(n, i requires 0 <= i => Road(Neighbour(i), i, 4 * i + 3))
  }

  lemma RoadIsOffered(edges: seq<Edge>, k: nat, s: nat, t: nat)
    requires k < |edges| && edges[k] == Road(s, t, edges[k].data.turnId)
    ensures Offered(edges, s, t)
  {
    assert edges[k] in edges && OffersBy(edges[k], s, t, 1);
    assert Offers(edges, s, t, 1);
  }

  lemma RoadsOffer(n: nat, i: nat)
    requires i < n
    ensures Offered(Roads(n), i, n) && Offered(Roads(n), n, i)
    ensures Offered(Roads(n), i, Neighbour(i)) && Offered(Roads(n), Neighbour(i), i)
  {
    hide Offered;
    RoadIsOffered(Roads(n), i, i, n);
    RoadIsOffered(Roads(n), n + i, n, i);
    RoadIsOffered(Roads(n), 2 * n + i, i, Neighbour(i));
    RoadIsOffered(Roads(n), 3 * n + i, Neighbour(i), i);
  }

  lemma RoadAt(n: nat, k: nat)
    requires n >= 2 && k < |Roads(n)|
    ensures Roads(n)[k].data.forward && !Roads(n)[k].data.backward
    ensures Roads(n)[k].source <= n && Roads(n)[k].target <= n
  {
  }

  lemma RoadsAreFit(n: nat)
    requires n >= 2
    ensures Exclusive(Roads(n)) && EndsBelow(Roads(n), n + 1)
  {
    hide Roads;
    forall k | 0 <= k < |Roads(n)|
      ensures Roads(n)[k].data.forward != Roads(n)[k].data.backward
      ensures Roads(n)[k].source < n + 1 && Roads(n)[k].target < n + 1
    {
      RoadAt(n, k);
    }
  }

  lemma TwoCellsAreCounted(n: nat)
    ensures NestedCells.Shaped(TwoCells(n), n + 1) && NestedCells.Nested(TwoCells(n), n + 1)
    ensures CountsFit(TwoCells(n), [2]) && BitsUsed([2], 1) <= 64
  {
    assert Runs.Values(TwoCells(n)[0]) <= {0, 1};
    SubsetCardinality(Runs.Values(TwoCells(n)[0]), {0, 1});
  }

  // ---------- every node of the cell is a source and a destination ----------

  ghost function Input(edges: seq<Edge>, n: nat): Network {
    InputNetwork(TwoCells(n), edges, edges, NoFilter(n + 1))
  }

  lemma InputCells(edges: seq<Edge>, n: nat)
    ensures Input(edges, n).Shaped() && |Input(edges, n).cells| == 1
    ensures forall v: nat :: v <= n ==> Input(edges, n).Cell(1, v) == if v < n then 0 else 1
  {
  }

  lemma CellNodesAreBorder(output: seq<Edge>, directed: seq<Edge>, n: nat, v: nat)
    requires n >= 2 && v < n && IsSplitOf(directed, Roads(n)) && Normal(output, directed)
    requires Input(output, n).Shaped() && Input(output, n).EdgesInRange()
    ensures Input(output, n).IsSource(1, v) && Input(output, n).IsDestination(1, v)
  {
    hide IsSplitOf, Normal, Offered, LinkedForward, LinkedBackward, Roads, Linked, Network.Shaped;
    hide Network.Boundary, Network.HasInnerForward, Network.HasInnerBackward, Network.EdgesInRange, Network.Cell;
    var net := Input(output, n);
    InputCells(output, n);
    RoadsOffer(n, v);
    LoadedLinks(output, directed, Roads(n), v, n);
    LoadedLinks(output, directed, Roads(n), v, Neighbour(v));
    LoadedLinks(output, directed, Roads(n), Neighbour(v), v);
    ForwardIsLink(output, v, n);
    RolesByLinks(net, 1, v);
    assert net.numNodes == n + 1 && net.links == output;
    assert BorderTo(net, 1, v, n) && ForwardTo(net, 1, v, Neighbour(v)) && BackwardTo(net, 1, v, Neighbour(v));
  }

  lemma ForwardIsLink(edges: seq<Edge>, s: nat, t: nat)
    requires LinkedForward(edges, s, t)
    ensures Linked(edges, s, t)
  {
  }

  lemma FirstIsMember(nodes: seq<nat>)
    ensures nodes != [] ==> nodes[0] in nodes
  {
  }

  lemma {:induction false} AscendingRange(nodes: seq<nat>, n: nat)
    requires Ascending(nodes) && forall v: nat :: v in nodes <==> v < n
    ensures |nodes| == n
    decreases n
  {
    if n == 0 {
      FirstIsMember(nodes);
    } else {
      assert n - 1 in nodes;
      var last, rest := |nodes| - 1, nodes[..|nodes| - 1];
      var k :| 0 <= k < |nodes| && nodes[k] == n - 1;
      assert nodes[last] in nodes;
      assert k == last;
      forall v: nat ensures v in rest <==> v < n - 1 {
        assert v in rest ==> v in nodes && v < nodes[last];
        assert v in nodes && v != nodes[last] ==> v in rest;
      }
      AscendingRange(rest, n - 1);
    }
  }

  lemma ExactlyTheRange(nodes: seq<nat>, c: nat, member: CellNode -> bool, n: nat)
    requires ListsExactly(nodes, c, member) && forall v: nat :: member((c, v)) <==> v < n
    ensures |nodes| == n
  {
    forall v: nat ensures v in nodes <==> v < n {
      assert v in nodes <==> member((c, v));
    }
    AscendingRange(nodes, n);
  }

  /** In the packed network the nodes 0 to n - 1 are still one cell, and all are sources and destinations. */
  lemma PackedRoles(net: Network, output: seq<Edge>, directed: seq<Edge>, n: nat, v: nat)
    requires n >= 2 && IsSplitOf(directed, Roads(n)) && Normal(output, directed)
    requires SameCells(Input(output, n), net)
    ensures net.EdgesInRange()
    ensures SourceMember(net, 1, (net.Cell(1, 0), v)) <==> v < n
    ensures DestinationMember(net, 1, (net.Cell(1, 0), v)) <==> v < n
  {
    hide IsSplitOf, Normal, Roads, Network.Boundary, Network.HasInnerForward;
    hide Network.HasInnerBackward, Unconnected;
    var input := Input(output, n);
    InputCells(output, n);
    assert v <= n ==> SameSplit(input, net, 1, v, 0);
    SameRoles(input, net, 1, v);
    if v < n {
      CellNodesAreBorder(output, directed, n, v);
    }
  }

  lemma BuiltFacts(h: Hierarchy, output: seq<Edge>, n: nat, order: seq<nat>, sorted: seq<LeveledEdge>, maxBorder: nat)
    returns (net: Network, c: nat)
    requires |order| == n + 1 && Built(h, TwoCells(n), output, output, order, sorted, maxBorder)
    ensures SameCells(Input(output, n), net) && c == net.Cell(1, 0)
    ensures h.storage.Valid() && h.storage.Consecutive() && h.storage.HasCell(1, c) && CellListed(h.storage, net, 1, c)
  {
    hide Packed, SortedFrom, Represents, Stores, LevelData.Valid, Network.WellFormed, CellListed, EdgesInRange;
    PackedFacts(h.mlp, TwoCells(n), order);
    net := PackedNetwork(h.mlp, output, output, NoFilter(n + 1));
    PackingRenamesCells(h.mlp, TwoCells(n), order, output, output, NoFilter(n + 1));
    IdsFit(h.mlp, TwoCells(n), order);
    c := net.Cell(1, 0);
  }

  /** The rows and the columns of the packed cell are the nodes 0 to n - 1. */
  lemma CellIsListed(h: Hierarchy, output: seq<Edge>, directed: seq<Edge>, n: nat, order: seq<nat>,
                     sorted: seq<LeveledEdge>, maxBorder: nat)
    returns (c: nat)
    requires n >= 2 && IsSplitOf(directed, Roads(n)) && Normal(output, directed) && |order| == n + 1
    requires Built(h, TwoCells(n), output, output, order, sorted, maxBorder)
    ensures h.storage.Valid() && h.storage.Consecutive() && h.storage.HasCell(1, c)
    ensures |h.storage.GetSourceNodes(1, c)| == n && |h.storage.GetDestinationNodes(1, c)| == n
  {
    hide Built, IsSplitOf, Normal, Roads, SameCells, SourceMember, DestinationMember, ListsExactly, Network.Cell;
    hide CellStorage.Valid, CellStorage.Consecutive;
    var net;
    net, c := BuiltFacts(h, output, n, order, sorted, maxBorder);
    forall v: nat
      ensures SourceMember(net, 1, (c, v)) <==> v < n
      ensures DestinationMember(net, 1, (c, v)) <==> v < n
    {
      PackedRoles(net, output, directed, n, v);
    }
    ExactlyTheRange(h.storage.GetSourceNodes(1, c), c, x => SourceMember(net, 1, x), n);
    ExactlyTheRange(h.storage.GetDestinationNodes(1, c), c, x => DestinationMember(net, 1, x), n);
  }

  // ---------- the first node has many edges within the cell ----------

  /** Edges to different targets are different. */
  lemma {:induction false} CountCoversTargets(edges: seq<Edge>, f: Edge -> bool, targets: set<nat>)
    requires forall t :: t in targets ==> exists e :: e in edges && f(e) && e.target == t
    ensures |targets| <= Count(edges, f)
    decreases |edges|
  {
    if edges != [] {
      var rest := if f(edges[0]) then targets - {edges[0].target} else targets;
      forall t | t in rest ensures exists e :: e in edges[1..] && f(e) && e.target == t {
        var e :| e in edges && f(e) && e.target == t;
        assert e in edges[1..];
      }
      CountCoversTargets(edges[1..], f, rest);
    } else if t :| t in targets {
      assert false;
    }
  }

  lemma {:induction false} BelowCardinality(n: nat)
    ensures |Customization.Below(n)| == n
  {
    if n > 0 {
      BelowCardinality(n - 1);
      var rest := Customization.Below(n - 1);
      assert n - 1 !in rest && Customization.Below(n) == rest + {n - 1};
    }
  }

  lemma FirstNodeOverflows(output: seq<Edge>, directed: seq<Edge>, n: nat)
    requires n > 256 && IsSplitOf(directed, Roads(n)) && Normal(output, directed)
    ensures Covered(TwoCells(n), output, 0) && InnerDegree(TwoCells(n), output, 1, 0) >= OFFSET_RANGE
  {
    hide IsSplitOf, Normal, Offered, LinkedBackward, Roads;
    var f := (e: Edge) => StaysInside(TwoCells(n), 1, 0, e);
    var targets := Customization.Below(n) - {0};
    forall t | t in targets ensures exists e :: e in output && f(e) && e.target == t {
      RoadsOffer(n, t);
      LoadedLinks(output, directed, Roads(n), 0, t);
      var e :| e in output && e.source == 0 && e.target == t && e.data.forward;
    }
    CountCoversTargets(output, f, targets);
    BelowCardinality(n);
    assert 0 in Customization.Below(n);
  }

  // ---------- the program on this input ----------

  /** Loading and laying out such a graph: with 257 nodes the edge offsets of the first node wrap around, with 65536
      nodes the size of the matrix does. */
  method BuildLargeCell(n: nat)
    returns (h: Hierarchy, edges: seq<Edge>, ghost directed: seq<Edge>, ghost order: seq<nat>,
             ghost sorted: seq<LeveledEdge>, ghost maxBorder: nat, ghost c: nat)
    requires n >= 2
    ensures IsSplitOf(directed, Roads(n)) && Normal(edges, directed)
    ensures Built(h, TwoCells(n), edges, edges, order, sorted, maxBorder)
    ensures h.storage.Valid() && h.storage.Consecutive() && h.storage.HasCell(1, c)
    ensures h.storage.BlockSize(h.storage.CellIndex(1, c)) == n * n
    ensures n >= 65536 ==> !SlotsSeparate(h.storage)
    ensures n == 65536 ==> ValueCount(h.storage.cells[h.storage.CellIndex(1, c)]) == 0
    ensures h.graph.Shaped() && h.mlp.Valid() && h.mlp.levelData.IsLevel(1) && 1 < h.graph.GetNumberOfLevels()
    ensures h.graph.NumNodes() == h.mlp.NumNodes() == n + 1
    ensures n > 256 ==> !SplitsExactly(h.graph, h.mlp, sorted, 1, 0)
  {
    hide Built, LevelData.Valid, CountsFit, BitsUsed, NestedCells.Nested, Network.WellFormed, IsSplitOf, Normal, Roads;
    hide Exclusive, EndsBelow, HasForward, HasBackward, LeastOffer, AllConnected;
    RoadsAreFit(n);
    edges, directed := LoadEdges(Roads(n));
    TwoCellsAreCounted(n);
    LoadedGraphIsWellFormed(edges, directed, Roads(n), TwoCells(n), n + 1);
    var r, unconnected;
    r, unconnected, order, sorted, maxBorder := BuildHierarchy(TwoCells(n), [2], edges);
    h := r.value;
    c := CellIsListed(h, edges, directed, n, order, sorted, maxBorder);
    LargeBlock(h.storage, c, n);
    LargeDegree(h, edges, directed, n, order, sorted, maxBorder);
  }

  lemma LargeBlock(storage: CellStorage, c: nat, n: nat)
    requires storage.Valid() && storage.Consecutive() && storage.HasCell(1, c)
    requires |storage.GetSourceNodes(1, c)| == n && |storage.GetDestinationNodes(1, c)| == n
    ensures storage.BlockSize(storage.CellIndex(1, c)) == n * n
    ensures n >= 65536 ==> !SlotsSeparate(storage)
    ensures n == 65536 ==> ValueCount(storage.cells[storage.CellIndex(1, c)]) == 0
  {
    hide CellStorage.Consecutive, SlotsSeparate;
    SlotsAreSeparateIff(storage);
    if n >= 65536 {
      assert n * n >= 65536 * 65536;
    }
  }

  lemma LargeDegree(h: Hierarchy, output: seq<Edge>, directed: seq<Edge>, n: nat, order: seq<nat>,
                    sorted: seq<LeveledEdge>, maxBorder: nat)
    requires n >= 2 && IsSplitOf(directed, Roads(n)) && Normal(output, directed) && |order| == n + 1
    requires Built(h, TwoCells(n), output, output, order, sorted, maxBorder)
    ensures h.graph.Shaped() && h.mlp.Valid() && h.mlp.levelData.IsLevel(1) && 1 < h.graph.GetNumberOfLevels()
    ensures h.graph.NumNodes() == h.mlp.NumNodes() == n + 1
    ensures n > 256 ==> !SplitsExactly(h.graph, h.mlp, sorted, 1, 0)
  {
    assert Packed(h.mlp, TwoCells(n), order) && |order| == h.mlp.NumNodes() && h.mlp.levelData.numLevel == 2;
    assert EdgesInRange(output, |order|) && SortedFrom(sorted, output, h.mlp) && h.graph.NumNodes() == |order|;
    assert Represents(h.graph, sorted, h.mlp.GetNumberOfLevels(), maxBorder);
    hide Built, Packed, SortedFrom, Represents, Covered, InnerDegree, SplitsExactly, IsSplitOf, Normal, LevelData.Valid;
    hide Network.WellFormed;
    SplitsExactlyIff(h.graph, h.mlp, TwoCells(n), order, output, sorted, maxBorder, 1, 0);
    if n > 256 {
      FirstNodeOverflows(output, directed, n);
    }
  }
}
