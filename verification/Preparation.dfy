/**
 From the edges on file and a nested partition to a hierarchy: the partitioner's and the
 customizer's steps in a row.
 */
module Preparation {
  import opened RoadGraph
  import opened OverlayNetwork
  import opened LevelLayout
  import opened MultiLevelPartitions
  import opened MultiLevelGraphs
  import opened MldPipeline
  import opened EdgeNormalisation
  import opened PartitionRepair
  import opened Permutations
  import opened Renumbering
  import opened RenumberedEdges
  import opened CorrespondingNetworks
  import CellBoundaries
  import NestedCells
  import Runs
  import Words

  // ---------- the loaded graph ----------

  ghost predicate EndsBelow(edges: seq<Edge>, n: nat) {
    forall e :: e in edges ==> e.source < n && e.target < n
  }

  lemma LoadedEdgeIsOffered(output: seq<Edge>, directed: seq<Edge>, edges: seq<Edge>, e: Edge)
    requires IsSplitOf(directed, edges) && Normal(output, directed) && e in output
    ensures Offers(edges, e.source, e.target, e.data.weight) || Offers(edges, e.target, e.source, e.data.weight)
  {
    assert e.data.forward || e.data.backward;
    hide Normal, IsSplitOf, LeastOffer;
    if e.data.forward {
      assert HasForward(output, e.source, e.target, e.data.weight);
      LoadingKeepsCosts(output, directed, edges, e.source, e.target, e.data.weight);
      assert Offers(edges, e.source, e.target,
                    e.data.weight) by { OfferIsOffered(edges, e.source, e.target, e.data.weight); }
    } else {
      assert HasBackward(output, e.source, e.target, e.data.weight);
      LoadingKeepsCosts(output, directed, edges, e.target, e.source, e.data.weight);
      assert Offers(edges, e.target, e.source,
                    e.data.weight) by { OfferIsOffered(edges, e.target, e.source, e.data.weight); }
    }
  }

  lemma OfferIsOffered(edges: seq<Edge>, s: nat, t: nat, w: int)
    requires LeastOffer(edges, s, t, w)
    ensures Offers(edges, s, t, w)
  {
  }

  /** Loaded edges satisfy everything the hierarchy needs of them. */
  lemma LoadedGraphIsWellFormed(output: seq<Edge>, directed: seq<Edge>, edges: seq<Edge>, cells: seq<seq<nat>>, n: nat)
    requires IsSplitOf(directed, edges) && Normal(output, directed) && EndsBelow(edges, n)
    requires NestedCells.Shaped(cells, n) && NestedCells.Nested(cells, n)
    ensures InputNetwork(cells, output, output, NoFilter(n)).WellFormed()
  {
    var net := InputNetwork(cells, output, output, NoFilter(n));
    hide IsSplitOf, Normal, NestedCells.Nested;
    forall e | e in output
      ensures e.source < n && e.target < n && e.source != e.target && e.data.weight >= 1 && net.HasMirror(e)
    {
      LoadedGraphIsMirrored(output, directed, edges, e);
      LoadedEdgeIsOffered(output, directed, edges, e);
    }
  }

  // ---------- adjacency ----------

  ghost predicate ListsEdgesOf(list: seq<Edge>, edges: seq<Edge>, v: nat) {
    forall e :: e in list <==> e in edges && e.source == v
  }

  ghost predicate AdjacencyOf(adj: Adjacency, edges: seq<Edge>, n: nat) {
    |adj| == n && forall v: nat :: v < n ==> ListsEdgesOf(adj[v], edges, v)
  }

  /** The dynamic graph: edges grouped by their source. */
  method GroupBySource(edges: seq<Edge>, n: nat) returns (adj: Adjacency)
    requires EndsBelow(edges, n)
    ensures AdjacencyOf(adj, edges, n)
  {
    adj := seq(n, _ => []);
    for i := 0 to |edges|
      invariant AdjacencyOf(adj, edges[..i], n)
    {
      var e := edges[i];
      ghost var before := adj;
      assert e in edges;
      adj := adj[e.source := adj[e.source] + [e]];
      forall v: nat | v < n ensures ListsEdgesOf(adj[v], edges[..i + 1], v) {
        assert ListsEdgesOf(before[v], edges[..i], v);
        assert edges[..i + 1] == edges[..i] + [e];
      }
    }
    assert edges[..|edges|] == edges;
  }

  lemma NeighbourMeansEdge(adj: Adjacency, edges: seq<Edge>, n: nat, v: nat, w: nat)
    requires AdjacencyOf(adj, edges, n) && v < n
    ensures IsNeighbour(adj, v, w) <==> exists e :: e in edges && e.source == v && e.target == w
  {
    assert ListsEdgesOf(adj[v], edges, v);
    if e :| e in edges && e.source == v && e.target == w {
      assert e in adj[v];
    }
  }

  /** The loaded graph is symmetric and every edge has a direction. */
  lemma LoadedAdjacencyIsProper(adj: Adjacency, output: seq<Edge>, directed: seq<Edge>, edges: seq<Edge>, n: nat)
    requires IsSplitOf(directed, edges) && Normal(output, directed) && EndsBelow(output, n)
             && AdjacencyOf(adj, output, n)
    ensures InRange(adj) && Proper(adj)
  {
    hide IsSplitOf, IsNeighbour;
    forall v, i | 0 <= v < |adj| && 0 <= i < |adj[v]|
      ensures adj[v][i].target < |adj| && (adj[v][i].data.forward || adj[v][i].data.backward)
    {
      assert ListsEdgesOf(adj[v], output, v) && adj[v][i] in adj[v];
    }
    hide Normal;
    forall v: nat, w: nat | v < |adj| && w < |adj| && IsNeighbour(adj, v, w) ensures IsNeighbour(adj, w, v) {
      NeighbourMeansEdge(adj, output, n, v, w);
      NeighbourMeansEdge(adj, output, n, w, v);
      var e :| e in output && e.source == v && e.target == w;
      LoadedGraphIsMirrored(output, directed, edges, e);
    }
  }

  // ---------- repair and build ----------

  lemma NoNewCellsFit(before: seq<seq<nat>>, after: seq<seq<nat>>, numCells: seq<nat>)
    requires NoNewCells(before, after) && CountsFit(before, numCells)
    ensures CountsFit(after, numCells)
  {
    forall l | 0 <= l < |after| ensures |Runs.Values(after[l])| <= numCells[l] {
      assert Runs.Values(after[l]) <= Runs.Values(before[l]);
      SubsetCardinality(Runs.Values(after[l]), Runs.Values(before[l]));
    }
  }

  /** A settled level has no border node without an inner edge. */
  lemma SettledMeansConnected(adj: Adjacency, cells: seq<seq<nat>>, output: seq<Edge>, n: nat, level: nat, v: nat)
    requires AdjacencyOf(adj, output, n) && Fits(adj, cells) && Proper(adj) && 1 <= level <= |cells| && v < n
    requires InputNetwork(cells, output, output, NoFilter(n)).WellFormed() && LevelSettled(adj, cells, level - 1)
    ensures !CellBoundaries.Unconnected(InputNetwork(cells, output, output, NoFilter(n)), level, v)
  {
    var net := InputNetwork(cells, output, output, NoFilter(n));
    hide Network.Mirrored, Network.OnLinks, PositiveWeights, NestedCells.Nested, Symmetric, InRange;
    assert ListsEdgesOf(adj[v], output, v) && Settled(adj, cells, level - 1, v);
    if adj[v] != [] {
      var w: nat :| w < |adj| && IsNeighbour(adj, v, w) && cells[level - 1][w] == cells[level - 1][v];
      var i :| 0 <= i < |adj[v]| && adj[v][i].target == w;
      assert adj[v][i] in adj[v] && !net.Crosses(level, adj[v][i]);
    }
  }

  // ---------- renumbering ----------

  lemma RenamedLinks(edges: seq<Edge>, perm: seq<nat>, order: seq<nat>, s: nat, t: nat)
    requires Inverse(perm, order)
    ensures SameLink(edges, AllRenamed(edges, perm), perm, s, t)
  {
    var list := AllRenamed(edges, perm);
    ThereAndBack(perm, order, s);
    ThereAndBack(perm, order, t);
    hide At, AllRenamed;
    LinksRenamed(edges, perm, order, s, t);
    LinksRenamed(list, order, perm, At(perm, s), At(perm, t));
    RenamedTwice(edges, perm, order);
  }

  lemma LinksRenamed(edges: seq<Edge>, perm: seq<nat>, order: seq<nat>, s: nat, t: nat)
    requires Inverse(perm, order)
    ensures Linked(edges, s, t) ==> Linked(AllRenamed(edges, perm), At(perm, s), At(perm, t))
    ensures LinkedForward(edges, s, t) ==> LinkedForward(AllRenamed(edges, perm), At(perm, s), At(perm, t))
    ensures LinkedBackward(edges, s, t) ==> LinkedBackward(AllRenamed(edges, perm), At(perm, s), At(perm, t))
  {
    forall e | e in edges ensures Renamed(e, perm) in AllRenamed(edges, perm) {
      RenamedBack(e, perm, order);
      RenamedMember(edges, perm, order, Renamed(e, perm));
    }
    hide At, AllRenamed;
    if e :| e in edges && e.source == s && e.target == t {
      assert Renamed(e, perm) in AllRenamed(edges, perm);
    }
    if e :| e in edges && e.source == s && e.target == t && e.data.forward {
      assert Renamed(e, perm) in AllRenamed(edges, perm);
    }
    if e :| e in edges && e.source == s && e.target == t && e.data.backward {
      assert Renamed(e, perm) in AllRenamed(edges, perm);
    }
  }

  /** The renumbered network corresponds to the one before. */
  lemma RenumberedCorresponds(a: Network, b: Network, perm: seq<nat>, order: seq<nat>)
    requires a.WellFormed() && b.WellFormed() && a.numNodes == b.numNodes == |perm| && Inverse(perm, order)
    requires b.links == AllRenamed(a.links, perm) && CellsRenumbered(b.cells, a.cells, perm)
    ensures Corresponds(a, b, perm, order)
  {
    PlainFacts(a);
    PlainFacts(b);
    hide Network.WellFormed, Network.EdgesInRange, SameLink, AllRenamed;
    forall s: nat, t: nat ensures SameLink(a.links, b.links, perm, s, t) {
      RenamedLinks(a.links, perm, order, s, t);
    }
    forall level: nat, u: nat, v: nat | level <= |a.cells| && u < |perm| && v < |perm|
      ensures SameSides(a, b, perm, level, u, v)
    {
      if level > 0 {
        assert TableRenumbered(b.cells[level - 1], a.cells[level - 1], perm);
      } else {
        assert order[perm[u]] == u && order[perm[v]] == v;
      }
    }
  }

  lemma RenumberedFit(now: seq<seq<nat>>, before: seq<seq<nat>>, perm: seq<nat>, order: seq<nat>, numCells: seq<nat>)
    requires CellsRenumbered(now, before, perm) && Inverse(perm, order) && CountsFit(before, numCells)
    ensures CountsFit(now, numCells)
  {
    forall l | 0 <= l < |now| ensures Runs.Values(now[l]) == Runs.Values(before[l]) {
      SameValues(now[l], before[l], perm, order);
    }
  }

  lemma SameValues(now: seq<nat>, before: seq<nat>, perm: seq<nat>, order: seq<nat>)
    requires TableRenumbered(now, before, perm) && Inverse(perm, order)
    ensures Runs.Values(now) == Runs.Values(before)
  {
    forall c | c in Runs.Values(now) ensures c in Runs.Values(before) {
      var x :| 0 <= x < |now| && now[x] == c;
      assert perm[order[x]] == x && before[order[x]] == c;
    }
    forall c | c in Runs.Values(before) ensures c in Runs.Values(now) {
      var v :| 0 <= v < |before| && before[v] == c;
      assert now[perm[v]] == c;
    }
  }

  lemma RenamedEnds(edges: seq<Edge>, perm: seq<nat>, order: seq<nat>)
    requires EndsBelow(edges, |perm|) && Inverse(perm, order)
    ensures EndsBelow(AllRenamed(edges, perm), |perm|)
  {
    forall e | e in AllRenamed(edges, perm) ensures e.source < |perm| && e.target < |perm| {
      RenamedMember(edges, perm, order, e);
      RenamedBack(e, perm, order);
      var x := Renamed(e, order);
      assert e == Renamed(x, perm);
    }
  }

  // ---------- the partitioner ----------

  /** The graph and the partition between the steps: as loaded and repaired, and how it was renumbered. */
  datatype Stages = Stages(directed: seq<Edge>, output: seq<Edge>, cells: seq<seq<nat>>, order: seq<nat>,
                           border: seq<nat>)

  /** Loaded from the edges on file, repaired without new cells, and numbered with border nodes first. */
  ghost predicate Staged(edges: seq<Edge>, n: nat, partition: seq<seq<nat>>, st: Stages, perm: seq<nat>) {
    && IsSplitOf(st.directed, edges) && Normal(st.output, st.directed) && |perm| == n && Inverse(perm, st.order)
    && NestedCells.Shaped(st.cells, n) && NestedCells.Nested(st.cells, n) && NoNewCells(partition, st.cells)
    && InputNetwork(st.cells, st.output, st.output, NoFilter(n)).WellFormed()
    && BordersFirst(st.cells, st.border, perm)
    && forall v: nat ::
      v < n ==> IsBorderLevel(InputNetwork(st.cells, st.output, st.output, NoFilter(n)), v, st.border[v])
  }

  /** The highest level at which the node has an edge across a border, or 0. */
  ghost predicate IsBorderLevel(net: Network, v: nat, b: nat)
    requires net.Shaped() && net.EdgesInRange()
  {
    && b <= |net.cells| && (b > 0 ==> net.Boundary(b, v))
    && forall l: nat :: b < l <= |net.cells| ==> !net.Boundary(l, v)
  }

  lemma OnBorderIsBoundary(adj: Adjacency, net: Network, level: nat, v: nat)
    requires net.WellFormed() && AdjacencyOf(adj, net.links, net.numNodes) && PartitionRepair.Fits(adj, net.cells)
    requires 1 <= level <= |net.cells| && v < net.numNodes
    ensures OnBorder(adj, net.cells, level, v) <==> net.Boundary(level, v)
  {
    hide Network.WellFormed, PartitionRepair.InRange;
    PlainFacts(net);
    if OnBorder(adj, net.cells, level, v) {
      var u: nat, i: nat :| CrossesAt(adj, net.cells, level, u, i, v);
      CrossingMakesBoundary(adj, net, level, u, i, v);
    }
    if net.Boundary(level, v) {
      var e :| e in net.links && e.source == v && net.Crosses(level, e);
      assert ListsEdgesOf(adj[v], net.links, v) && e in adj[v];
      var i :| 0 <= i < |adj[v]| && adj[v][i] == e;
      assert CrossesAt(adj, net.cells, level, v, i, v);
    }
  }

  lemma CrossingMakesBoundary(adj: Adjacency, net: Network, level: nat, u: nat, i: nat, v: nat)
    requires net.WellFormed() && AdjacencyOf(adj, net.links, net.numNodes) && PartitionRepair.Fits(adj, net.cells)
    requires 1 <= level <= |net.cells| && CrossesAt(adj, net.cells, level, u, i, v)
    ensures net.Shaped() && net.EdgesInRange() && net.Boundary(level, v)
  {
    hide Network.WellFormed, PartitionRepair.InRange;
    PlainFacts(net);
    var e := adj[u][i];
    assert ListsEdgesOf(adj[u], net.links, u) && e in adj[u];
    assert net.Crosses(level, e);
    if e.target == v {
      CrossingLink(net, level, e);
    }
  }

  lemma HighestIsBorderLevel(adj: Adjacency, net: Network, v: nat, b: nat)
    requires net.WellFormed() && AdjacencyOf(adj, net.links, net.numNodes) && PartitionRepair.Fits(adj, net.cells)
             && v < net.numNodes
    requires IsHighest(adj, net.cells, |net.cells|, v, b)
    ensures net.Shaped() && net.EdgesInRange() && IsBorderLevel(net, v, b)
  {
    PlainFacts(net);
    hide Network.WellFormed, AdjacencyOf, OnBorder, Network.Boundary;
    forall l: nat | 1 <= l <= |net.cells| ensures OnBorder(adj, net.cells, l, v) <==> net.Boundary(l, v) {
      OnBorderIsBoundary(adj, net, l, v);
    }
  }

  /** Load and repair: no border node stays unconnected. */
  method LoadAndRepair(edges: seq<Edge>, n: nat, partition: seq<seq<nat>>)
    returns (output: seq<Edge>, cells: seq<seq<nat>>, adj: Adjacency, couldNotFix: nat, ghost directed: seq<Edge>)
    requires Exclusive(edges) && EndsBelow(edges, n)
    requires NestedCells.Shaped(partition, n) && NestedCells.Nested(partition, n)
    ensures IsSplitOf(directed, edges) && Normal(output, directed) && EndsBelow(output, n)
    ensures NestedCells.Shaped(cells, n) && NestedCells.Nested(cells, n) && NoNewCells(partition, cells)
    ensures |adj| == n && AdjacencyOf(adj, output, n) && PartitionRepair.Fits(adj, cells)
    ensures InputNetwork(cells, output, output, NoFilter(n)).WellFormed() && AllConnected(cells, output, n)
    ensures couldNotFix == 0
  {
    hide IsSplitOf, Normal, Exclusive, NestedCells.Nested, Proper, LevelSettled, NoNewCells, PartitionRepair.InRange;
    output, directed := LoadEdges(edges);
    LoadedGraphIsWellFormed(output, directed, edges, partition, n);
    PlainFacts(InputNetwork(partition, output, output, NoFilter(n)));
    hide Network.WellFormed;
    adj := GroupBySource(output, n);
    LoadedAdjacencyIsProper(adj, output, directed, edges, n);
    var table := new PartitionTable(partition);
    var numUnconnected;
    ghost var visits;
    numUnconnected, couldNotFix, visits := RemoveUnconnectedBoundaryNodes(adj, table);
    cells := table.cells;
    NoNewCellsKeepShape(partition, cells);
    LoadedGraphIsWellFormed(output, directed, edges, cells, n);
    forall level: nat, v: nat | 1 <= level <= |cells| && v < n
      ensures !CellBoundaries.Unconnected(InputNetwork(cells, output, output, NoFilter(n)), level, v)
    {
      SettledMeansConnected(adj, cells, output, n, level, v);
    }
  }

  lemma NoNewCellsKeepShape(before: seq<seq<nat>>, after: seq<seq<nat>>)
    requires NoNewCells(before, after)
    ensures |after| == |before|
  {
  }

  /** The renumbered graph and partition are as good as the ones before. */
  lemma RenumberedIsReady(edges: seq<Edge>, n: nat, st: Stages, perm: seq<nat>, cells: seq<seq<nat>>)
    requires IsSplitOf(st.directed, edges) && Normal(st.output, st.directed) && EndsBelow(edges, n) && |perm| == n
    requires Inverse(perm, st.order) && CellsRenumbered(cells, st.cells, perm)
    requires NestedCells.Shaped(st.cells, n) && NestedCells.Nested(st.cells, n)
    requires InputNetwork(st.cells, st.output, st.output, NoFilter(n)).WellFormed()
    ensures NestedCells.Shaped(cells, n) && NestedCells.Nested(cells, n)
    ensures InputNetwork(cells, AllRenamed(st.output, perm), AllRenamed(st.output, perm), NoFilter(n)).WellFormed()
    ensures AllConnected(st.cells, st.output, n) ==> AllConnected(cells, AllRenamed(st.output, perm), n)
  {
    hide IsSplitOf, Normal, NestedCells.Nested, Network.WellFormed, AllRenamed, EndsBelow, Corresponds;
    hide CellBoundaries.Unconnected;
    RenumberedIsNested(cells, st.cells, perm, st.order);
    RenamedIsLoaded(st.output, st.directed, edges, perm, st.order);
    RenamedEnds(edges, perm, st.order);
    LoadedGraphIsWellFormed(AllRenamed(st.output, perm), AllRenamed(st.directed, perm), AllRenamed(edges, perm), cells,
                            n);
    var a, b := InputNetwork(st.cells, st.output, st.output, NoFilter(n)), InputNetwork(cells,
                                                                                        AllRenamed(st.output, perm),
                                                                                        AllRenamed(st.output, perm),
                                                                                        NoFilter(n));
    RenumberedCorresponds(a, b, perm, st.order);
    PlainFacts(a);
    PlainFacts(b);
    hide Network.Shaped, Network.EdgesInRange;
    if AllConnected(st.cells, st.output, n) {
      forall level: nat, x: nat | 1 <= level <= |cells| && x < n ensures !CellBoundaries.Unconnected(b, level, x) {
        assert perm[st.order[x]] == x;
        UnconnectedCorresponds(a, b, perm, st.order, level, st.order[x]);
      }
    }
  }

  /**
   `Partitioner::Run` behind the bisection: load, repair, renumber, pack and lay out. The result
   fails exactly when the cell numbers do not fit a word.
   */
  method Prepare(edges: seq<Edge>, n: nat, partition: seq<seq<nat>>, numCells: seq<nat>)
    returns (r: Option<Hierarchy>, perm: seq<nat>, cells: seq<seq<nat>>, output: seq<Edge>, couldNotFix: nat,
             unconnected: nat, ghost st: Stages, ghost order: seq<nat>, ghost sorted: seq<LeveledEdge>,
             ghost maxBorder: nat)
    requires Exclusive(edges) && EndsBelow(edges, n) && 1 <= n
    requires 1 <= |partition| && NestedCells.Shaped(partition, n) && NestedCells.Nested(partition, n)
             && CountsFit(partition, numCells)
    ensures Staged(edges, n, partition, st, perm)
    ensures CellsRenumbered(cells, st.cells, perm) && output == AllRenamed(st.output, perm)
    ensures couldNotFix == 0 && (r.Some? ==> unconnected == 0)
    ensures r.Some? <==> BitsUsed(numCells, |numCells|) <= Words.WORD_BITS
    ensures r.Some? ==> |order| == n && Built(r.value, cells, output, output, order, sorted, maxBorder)
  {
    hide IsSplitOf, Normal, Exclusive, NestedCells.Nested, BitsUsed, CountsFit, Built, NoNewCells, Words.Pow2;
    hide BordersFirst, AllConnected;
    hide Network.WellFormed, IsBorderLevel, IsHighest, AdjacencyOf;
    var loaded, repaired, adj;
    ghost var directed;
    loaded, repaired, adj, couldNotFix, directed := LoadAndRepair(edges, n, partition);
    NoNewCellsKeepShape(partition, repaired);
    ghost var net := InputNetwork(repaired, loaded, loaded, NoFilter(n));
    ghost var old2new, border;
    perm, old2new, border := MakePermutation(adj, repaired);
    forall v: nat | v < n ensures net.Shaped() && net.EdgesInRange() && IsBorderLevel(net, v, border[v]) {
      HighestIsBorderLevel(adj, net, v, border[v]);
    }
    st := Stages(directed, loaded, repaired, old2new, border);
    output := RenumberEdges(loaded, perm);
    cells := RenumberPartitions(repaired, perm, st.order);
    NoNewCellsFit(partition, repaired, numCells);
    RenumberedFit(cells, repaired, perm, st.order, numCells);
    RenumberedIsReady(edges, n, st, perm, cells);
    r, unconnected, order, sorted, maxBorder := BuildHierarchy(cells, numCells, output);
  }
}
