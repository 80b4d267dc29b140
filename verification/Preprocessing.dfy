/**
 Partitioner and customizer in a row, from the edges on file to the values of every cell: what the
 hierarchy answers is the least weight of a walk over the edges on file.
 */
module Preprocessing {
  import opened RoadGraph
  import opened OverlayNetwork
  import opened OverlaySearch
  import opened LevelLayout
  import opened MultiLevelPartitions
  import opened MultiLevelGraphs
  import opened CellStorages
  import opened CellMetrics
  import opened CellCustomizers
  import opened EdgeOffsets
  import opened MldPipeline
  import opened EdgeNormalisation
  import opened Permutations
  import opened Renumbering
  import opened RenumberedEdges
  import opened CorrespondingNetworks
  import opened FileWalks
  import opened Routes
  import opened Preparation
  import NestedCells
  import NodeOrder
  import PartitionRepair
  import Words

  // ---------- which links a loaded graph has ----------

  ghost predicate Offered(edges: seq<Edge>, s: nat, t: nat) {
    exists w :: Offers(edges, s, t, w)
  }

  /** Wherever the first list offers to travel, the second one does, at whatever weight. */
  ghost predicate OffersWithin(a: seq<Edge>, b: seq<Edge>) {
    forall s: nat, t: nat :: s != t && Offered(a, s, t) ==> Offered(b, s, t)
  }

  lemma LinkHasWeight(edges: seq<Edge>, s: nat, t: nat)
    ensures LinkedForward(edges, s, t) <==> exists w :: HasForward(edges, s, t, w)
    ensures LinkedBackward(edges, s, t) <==> exists w :: HasBackward(edges, s, t, w)
  {
    if e :| e in edges && e.source == s && e.target == t && e.data.forward {
      assert HasForward(edges, s, t, e.data.weight);
    }
    if e :| e in edges && e.source == s && e.target == t && e.data.backward {
      assert HasBackward(edges, s, t, e.data.weight);
    }
  }

  /** A loaded graph has a link exactly where the list offers one, stored at both ends. */
  lemma LoadedLinks(output: seq<Edge>, directed: seq<Edge>, edges: seq<Edge>, s: nat, t: nat)
    requires IsSplitOf(directed, edges) && Normal(output, directed)
    ensures LinkedForward(output, s, t) <==> s != t && Offered(edges, s, t)
    ensures LinkedBackward(output, t, s) <==> s != t && Offered(edges, s, t)
  {
    hide IsSplitOf, Normal, LinkedForward, LinkedBackward, HasForward, HasBackward, LeastOffer, Offers;
    LinkHasWeight(output, s, t);
    LinkHasWeight(output, t, s);
    forall w
      ensures HasForward(output, s, t, w) <==> s != t && LeastOffer(edges, s, t, w)
      ensures HasBackward(output, t, s, w) <==> s != t && LeastOffer(edges, s, t, w)
    {
      LoadingKeepsCosts(output, directed, edges, s, t, w);
    }
    if w :| LeastOffer(edges, s, t, w) {
      LeastIsAnOffer(edges, s, t, w);
    }
    if Offered(edges, s, t) {
      var w :| Offers(edges, s, t, w);
      var least := LeastOfferExists(edges, s, t, w);
    }
  }

  lemma LinkedMeansDirected(output: seq<Edge>, directed: seq<Edge>, s: nat, t: nat)
    requires Normal(output, directed)
    ensures Linked(output, s, t) <==> LinkedForward(output, s, t) || LinkedBackward(output, s, t)
  {
    hide KeepsLeast, ParallelFree, KeepsData;
    if e :| e in output && e.source == s && e.target == t {
      var i :| 0 <= i < |output| && output[i] == e;
      assert e.data.forward || e.data.backward;
    }
  }

  /** If an update offers no direction that was not offered at layout, its graph runs along the links of the layout. */
  lemma UpdateIsOnLinks(output: seq<Edge>, directed: seq<Edge>, updated: seq<Edge>, laid: seq<Edge>,
                        laidDirected: seq<Edge>, laidFrom: seq<Edge>, e: Edge)
    requires IsSplitOf(directed, updated) && Normal(output, directed) && e in output
    requires IsSplitOf(laidDirected, laidFrom) && Normal(laid, laidDirected) && OffersWithin(updated, laidFrom)
    ensures Linked(laid, e.source, e.target) && (e.data.forward ==> LinkedForward(laid, e.source, e.target))
  {
    hide IsSplitOf, Normal, Offered;
    var s, t := e.source, e.target;
    assert Linked(output, s, t) && (e.data.forward ==> LinkedForward(output, s, t));
    hide Linked, LinkedForward, LinkedBackward;
    LoadedLinks(output, directed, updated, s, t);
    LoadedLinks(output, directed, updated, t, s);
    LoadedLinks(laid, laidDirected, laidFrom, s, t);
    LoadedLinks(laid, laidDirected, laidFrom, t, s);
    LinkedMeansDirected(output, directed, s, t);
    LinkedMeansDirected(laid, laidDirected, s, t);
  }

  lemma UpdateIsWellFormed(output: seq<Edge>, directed: seq<Edge>, updated: seq<Edge>, laid: seq<Edge>,
                           laidDirected: seq<Edge>, laidFrom: seq<Edge>, cells: seq<seq<nat>>, n: nat)
    requires IsSplitOf(directed, updated) && Normal(output, directed) && EndsBelow(updated, n)
    requires IsSplitOf(laidDirected, laidFrom) && Normal(laid, laidDirected) && OffersWithin(updated, laidFrom)
    requires NestedCells.Shaped(cells, n) && NestedCells.Nested(cells, n)
    requires InputNetwork(cells, laid, laid, NoFilter(n)).WellFormed()
    ensures InputNetwork(cells, output, laid, NoFilter(n)).WellFormed()
  {
    hide IsSplitOf, Normal, OffersWithin, NestedCells.Nested, EndsBelow, Network.WellFormed;
    LoadedGraphIsWellFormed(output, directed, updated, cells, n);
    hide Linked, LinkedForward;
    forall e | e in output
      ensures Linked(laid, e.source, e.target) && (e.data.forward ==> LinkedForward(laid, e.source, e.target))
    {
      UpdateIsOnLinks(output, directed, updated, laid, laidDirected, laidFrom, e);
    }
    NetworksCombine(cells, output, laid, n);
  }

  /** The edges of one well-formed network along the links of another. */
  lemma NetworksCombine(cells: seq<seq<nat>>, edges: seq<Edge>, links: seq<Edge>, n: nat)
    requires InputNetwork(cells, edges, edges, NoFilter(n)).WellFormed()
    requires InputNetwork(cells, links, links, NoFilter(n)).WellFormed()
    requires forall e :: e in edges ==>
               Linked(links, e.source, e.target) && (e.data.forward ==> LinkedForward(links, e.source, e.target))
    ensures InputNetwork(cells, edges, links, NoFilter(n)).WellFormed()
  {
    hide NestedCells.Nested, PositiveWeights;
    var a, net := InputNetwork(cells, links, links, NoFilter(n)), InputNetwork(cells, edges, links, NoFilter(n));
    forall e | e in links ensures net.HasMirror(e) {
      assert a.HasMirror(e);
    }
    forall e | e in edges ensures net.HasLink(e, false) && (e.data.forward ==> net.HasLink(e, true)) {
      assert Linked(links, e.source, e.target) && (e.data.forward ==> LinkedForward(links, e.source, e.target));
    }
  }

  // ---------- the customizer's graph ----------

  lemma PackedIsReady(mlp: MultiLevelPartition, cells: seq<seq<nat>>, order: seq<nat>, edges: seq<Edge>,
                      links: seq<Edge>)
    requires Packed(mlp, cells, order) && InputNetwork(cells, edges, links, NoFilter(|order|)).WellFormed()
    ensures mlp.Valid() && |order| == mlp.NumNodes()
    ensures PackedNetwork(mlp, edges, links, NoFilter(|order|)).Shaped()
            && PackedNetwork(mlp, edges, links, NoFilter(|order|)).EdgesInRange()
  {
    PackedFacts(mlp, cells, order);
    hide Packed, MultiLevelPartition.Valid, SameCells, Network.WellFormed;
    var net := PackedNetwork(mlp, edges, links, NoFilter(|order|));
    PackingRenamesCells(mlp, cells, order, edges, links, NoFilter(|order|));
    SameNesting(InputNetwork(cells, edges, links, NoFilter(|order|)), net);
    PlainFacts(net);
  }

  /** A layout serves every graph that runs along its links. */
  lemma LayoutIsKept(h: Hierarchy, cells: seq<seq<nat>>, laid: seq<Edge>, order: seq<nat>, sorted: seq<LeveledEdge>,
                     maxBorder: nat, edges: seq<Edge>)
    requires Built(h, cells, laid, laid, order, sorted, maxBorder)
    requires InputNetwork(cells, edges, laid, NoFilter(|order|)).WellFormed()
    ensures h.mlp.Valid() && h.mlp.NumNodes() == |order|
    ensures LaidOut(h.storage, PackedNetwork(h.mlp, edges, laid, NoFilter(|order|))) && CountsCells(h.storage, h.mlp)
  {
    assert Packed(h.mlp, cells, order) && InputNetwork(cells, laid, laid, NoFilter(|order|)).WellFormed();
    assert LaidOut(h.storage, PackedNetwork(h.mlp, laid, laid, NoFilter(|order|))) && CountsCells(h.storage, h.mlp);
    hide Built, Packed, LaidOut, CountsCells, Network.WellFormed, MultiLevelPartition.Valid;
    PackedIsReady(h.mlp, cells, order, laid, laid);
    PackedIsReady(h.mlp, cells, order, edges, laid);
    LayoutServesEveryUpdate(h.storage, PackedNetwork(h.mlp, laid, laid, NoFilter(|order|)), edges);
  }

  /**
   The customizer loads the edges again, after whatever change of their weights and closing of
   roads, and builds the multi-level graph for the partition and the layout on file.
   */
  method LoadForCustomization(h: Hierarchy, updated: seq<Edge>, n: nat, ghost cells: seq<seq<nat>>,
                              ghost laid: seq<Edge>, ghost laidDirected: seq<Edge>, ghost laidFrom: seq<Edge>,
                              ghost order: seq<nat>, ghost sorted: seq<LeveledEdge>, ghost maxBorder: nat)
    returns (r: Hierarchy, output: seq<Edge>, ghost directed: seq<Edge>, ghost newSorted: seq<LeveledEdge>,
             ghost newMaxBorder: nat)
    requires Built(h, cells, laid, laid, order, sorted, maxBorder) && |order| == n
    requires IsSplitOf(laidDirected, laidFrom) && Normal(laid, laidDirected)
    requires Exclusive(updated) && EndsBelow(updated, n) && OffersWithin(updated, laidFrom)
    ensures IsSplitOf(directed, updated) && Normal(output, directed)
    ensures r.mlp == h.mlp && r.storage == h.storage && Built(r, cells, output, laid, order, newSorted, newMaxBorder)
  {
    assert Packed(h.mlp, cells, order) && 1 <= |order| && NestedCells.Shaped(cells, n) && NestedCells.Nested(cells, n);
    assert InputNetwork(cells, laid, laid, NoFilter(n)).WellFormed();
    hide Built, Packed, IsSplitOf, Normal, Exclusive, NestedCells.Nested, OffersWithin, Represents, SortedFrom;
    hide Stores, LaidOut, CountsCells, Network.WellFormed, LevelData.Valid;
    output, directed := LoadEdges(updated);
    UpdateIsWellFormed(output, directed, updated, laid, laidDirected, laidFrom, cells, n);
    LayoutIsKept(h, cells, laid, order, sorted, maxBorder, output);
    PlainFacts(InputNetwork(cells, output, laid, NoFilter(n)));
    var g;
    g, newSorted, newMaxBorder := MultiLevelGraphs.Build(h.mlp, n, output);
    GraphStoresEdges(g, h.mlp, output, newSorted, newMaxBorder);
    r := Hierarchy(h.mlp, g, h.storage);
    IsBuilt(r, cells, output, laid, order, newSorted, newMaxBorder);
  }

  // ---------- sizes ----------

  /** In terms of the input: a hierarchy is free of wrap-around if and only if its sizes fit. */
  lemma FittingIff(h: Hierarchy, cells: seq<seq<nat>>, edges: seq<Edge>, links: seq<Edge>, order: seq<nat>,
                   sorted: seq<LeveledEdge>, maxBorder: nat)
    requires Built(h, cells, edges, links, order, sorted, maxBorder)
    ensures Fitting(h, sorted, maxBorder) <==> h.storage.ProductsFit() && DegreesFit(cells, edges, |order|)
  {
    assert Packed(h.mlp, cells, order) && MultiLevelGraphs.EdgesInRange(edges, h.mlp.NumNodes())
           && SortedFrom(sorted, edges, h.mlp);
    assert Represents(h.graph, sorted, h.mlp.GetNumberOfLevels(), maxBorder) && h.graph.NumNodes() == |order|;
    assert h.graph.Shaped() && h.mlp.levelData.numLevel == |cells| + 1;
    hide Built, Packed, SortedFrom, Represents, OffsetFits, CellStorage.ProductsFit, Covered, InnerDegree;
    hide LevelData.Valid;
    forall level: nat, node: nat | h.mlp.levelData.IsLevel(level) && node < |order|
      ensures OffsetFits(h.graph, sorted, maxBorder, level, node)
         <==> (Covered(cells, edges, node) ==> InnerDegree(cells, edges, level, node) < OFFSET_RANGE)
    {
      OffsetFitsIff(h.graph, h.mlp, cells, order, edges, sorted, maxBorder, level, node);
    }
  }

  // ---------- answers over the edges on file ----------

  /** What the hierarchy answers from `x` to `y` on a level. */
  ghost function Answer(h: Hierarchy, output: seq<Edge>, links: seq<Edge>, allowed: seq<bool>, vals: MetricValues,
                        level: nat, x: nat, y: nat): Option<Cost>
    requires h.mlp.Valid()
  {
    CliqueOf(h.storage, PackedNetwork(h.mlp, output, links, allowed), vals, level)(x, y)
  }

  /** From a source to a destination of one cell, as they were laid out. */
  ghost predicate AcrossCell(net: Network, level: nat, x: nat, y: nat)
    requires net.Shaped() && net.EdgesInRange()
  {
    && 1 <= level <= |net.cells| && x < net.numNodes && y < net.numNodes && net.Cell(level, x) == net.Cell(level, y)
    && net.IsSource(level, x) && net.IsDestination(level, y)
  }

  lemma AnswerIsExact(h: Hierarchy, cells: seq<seq<nat>>, output: seq<Edge>, links: seq<Edge>, allowed: seq<bool>,
                      vals: MetricValues, level: nat, x: nat, y: nat)
    requires AnswersOnAllLevels(h, cells, output, links, allowed, vals)
    requires AcrossCell(InputNetwork(cells, output, links, allowed), level, x, y)
    ensures Exact(output, InputNetwork(cells, output, links, allowed).RegionOf(level, x), x, y,
                  Answer(h, output, links, allowed, vals, level, x, y))
  {
    assert Answers(h, cells, output, links, allowed, vals, level);
    hide Exact, MultiLevelPartition.Valid, CliqueShaped;
  }

  /** Whatever the updated weights are and whatever has been closed, the customized hierarchy answers for a drive of
      least weight over the updated edges. */
  lemma AnswersAreLeast(h: Hierarchy, cells: seq<seq<nat>>, output: seq<Edge>, links: seq<Edge>, directed: seq<Edge>,
                        updated: seq<Edge>, allowed: seq<bool>, vals: MetricValues, level: nat, x: nat, y: nat)
    requires AnswersOnAllLevels(h, cells, output, links, allowed, vals) && IsSplitOf(directed, updated)
             && Normal(output, directed)
    requires AcrossCell(InputNetwork(cells, output, links, allowed), level, x, y)
    ensures LeastDrive(updated, cells[level - 1], allowed, cells[level - 1][x], x, y,
                       Answer(h, output, links, allowed, vals, level, x, y))
    ensures LeastWeight(FileArcs(updated), InputNetwork(cells, output, links, allowed).RegionOf(level, x), x, y,
                        WeightOf(Answer(h, output, links, allowed, vals, level, x, y)))
  {
    hide IsSplitOf, Normal, LeastWeight, Network.WellFormed, Network.Region, Exact, MultiLevelPartition.Valid;
    hide Answers, LeastDrive;
    var net := InputNetwork(cells, output, links, allowed);
    PlainFacts(net);
    AnswerIsExact(h, cells, output, links, allowed, vals, level, x, y);
    LoadedSlotIsLeastDrive(output, directed, updated, net, level, cells[level - 1][x], x, y,
                           Answer(h, output, links, allowed, vals, level, x, y));
    LoadedSlotIsLeastOnFile(output, directed, updated, net.RegionOf(level, x), x, y,
                            Answer(h, output, links, allowed, vals, level, x, y));
  }

  /** On all levels, between all sources and destinations of a cell. */
  ghost predicate LeastOverUpdate(h: Hierarchy, cells: seq<seq<nat>>, output: seq<Edge>, links: seq<Edge>,
                                  updated: seq<Edge>, allowed: seq<bool>, vals: MetricValues) {
    var net := InputNetwork(cells, output, links, allowed);
    && h.mlp.Valid() && net.Shaped() && net.EdgesInRange()
    && forall level: nat, x: nat, y: nat :: AcrossCell(net, level, x, y) ==>
         LeastDrive(updated, cells[level - 1], allowed, cells[level - 1][x], x, y,
                    Answer(h, output, links, allowed, vals, level, x, y))
  }

  lemma CustomizedIsLeast(h: Hierarchy, cells: seq<seq<nat>>, output: seq<Edge>, links: seq<Edge>, directed: seq<Edge>,
                          updated: seq<Edge>, allowed: seq<bool>, vals: MetricValues)
    requires AnswersOnAllLevels(h, cells, output, links, allowed, vals) && IsSplitOf(directed, updated)
             && Normal(output, directed)
    ensures LeastOverUpdate(h, cells, output, links, updated, allowed, vals)
  {
    hide IsSplitOf, Normal, LeastWeight, Network.WellFormed, Network.RegionOf, MultiLevelPartition.Valid, Answers;
    hide Answer, LeastDrive;
    var net := InputNetwork(cells, output, links, allowed);
    PlainFacts(net);
    forall level: nat, x: nat, y: nat | AcrossCell(net, level, x, y)
      ensures LeastDrive(updated, cells[level - 1], allowed, cells[level - 1][x], x, y,
                         Answer(h, output, links, allowed, vals, level, x, y))
    {
      AnswersAreLeast(h, cells, output, links, directed, updated, allowed, vals, level, x, y);
    }
  }

  /**
   `Customizer::Run` on what the partitioner left and on whatever the updater made of the edges. The code does not
   ask whether a size wraps around; the model does, and goes on only if none does. Then the values of every
   filter answer for drives of least weight over the updated edges.
   */
  method RunCustomizer(h: Hierarchy, updated: seq<Edge>, n: nat, cells: seq<seq<nat>>, filters: seq<seq<bool>>,
                       ghost laid: seq<Edge>, ghost laidDirected: seq<Edge>, ghost laidFrom: seq<Edge>,
                       ghost order: seq<nat>, ghost sorted: seq<LeveledEdge>, ghost maxBorder: nat)
    returns (r: Hierarchy, output: seq<Edge>, fits: bool, metrics: seq<CellMetric>, ghost directed: seq<Edge>)
    requires Built(h, cells, laid, laid, order, sorted, maxBorder) && |order| == n
    requires IsSplitOf(laidDirected, laidFrom) && Normal(laid, laidDirected)
    requires Exclusive(updated) && EndsBelow(updated, n) && OffersWithin(updated, laidFrom)
    requires forall k :: 0 <= k < |filters| ==> |filters[k]| == n
    ensures r.mlp == h.mlp && r.storage == h.storage && IsSplitOf(directed, updated) && Normal(output, directed)
    ensures fits <==> r.storage.ProductsFit() && DegreesFit(cells, output, n)
    ensures fits ==> |metrics| == |filters| && forall k :: 0 <= k < |filters| ==>
      && AnswersOnAllLevels(r, cells, output, laid, filters[k], metrics[k].Values())
      && LeastOverUpdate(r, cells, output, laid, updated, filters[k], metrics[k].Values())
  {
    hide IsSplitOf, Normal, Exclusive, Built, EndsBelow, OffersWithin, Fitting, AnswersOnAllLevels, LeastOverUpdate;
    hide CellStorage.ProductsFit, DegreesFit;
    ghost var newSorted, newMaxBorder;
    r, output, directed, newSorted, newMaxBorder :=
      LoadForCustomization(h, updated, n, cells, laid, laidDirected, laidFrom, order, sorted, maxBorder);
    fits := r.storage.ProductsFit() && DegreesFit(cells, output, n);
    FittingIff(r, cells, output, laid, order, newSorted, newMaxBorder);
    metrics := [];
    if fits {
      metrics := CustomizeFilteredMetrics(r, filters, cells, output, laid, order, newSorted, newMaxBorder);
      forall k | 0 <= k < |filters|
        ensures LeastOverUpdate(r, cells, output, laid, updated, filters[k], metrics[k].Values())
      {
        CustomizedIsLeast(r, cells, output, laid, directed, updated, filters[k], metrics[k].Values());
      }
    }
  }

  /** Saving the renumbered graph neither loses nor adds a cheapest offer. */
  lemma SavedIsNoDearer(edges: seq<Edge>, st: Stages, perm: seq<nat>, saved: seq<Edge>, region: set<nat>,
                        other: set<nat>)
    requires Inverse(perm, st.order) && IsSplitOf(st.directed, edges) && Normal(st.output, st.directed)
    requires Exclusive(edges) && DistinctTurns(edges) && SavedFrom(saved, AllRenamed(st.output, perm))
    ensures NoDearer(FileArcs(edges), FileArcs(saved), x => At(perm, x), region)
    ensures NoDearer(FileArcs(saved), FileArcs(edges), x => At(st.order, x), other)
  {
    hide IsSplitOf, Normal, Exclusive, DistinctTurns, SavedFrom, AllRenamed, At, Offers, LeastOffer, HasForward;
    forall s: nat, t: nat, w: int | Offers(edges, s, t, w)
      ensures w >= 0 && (At(perm, s) == At(perm, t) || HasArc(FileArcs(saved), At(perm, s), At(perm, t), w))
    {
      RenamedOffers(edges, perm, st.order, s, t, w);
      var least := LeastOfferExists(AllRenamed(edges, perm), At(perm, s), At(perm, t), w);
      SavedOffersLeast(edges, st, perm, saved, At(perm, s), At(perm, t), least);
      assert At(perm, s) != At(perm, t) ==> FileArcs(saved)(At(perm, s), At(perm, t), least);
    }
    forall x: nat, y: nat, w: int | Offers(saved, x, y, w)
      ensures w >= 0 && HasArc(FileArcs(edges), At(st.order, x), At(st.order, y), w)
    {
      OfferIsPositive(saved, x, y, w);
      SavedOffersLeast(edges, st, perm, saved, x, y, w);
      LeastIsAnOffer(AllRenamed(edges, perm), x, y, w);
      ThereAndBack(perm, st.order, x);
      ThereAndBack(perm, st.order, y);
      RenamedOffers(edges, perm, st.order, At(st.order, x), At(st.order, y), w);
      assert FileArcs(edges)(At(st.order, x), At(st.order, y), w);
    }
  }

  /** The saved list offers exactly the least offers of the renumbered edges on file. */
  lemma SavedOffersLeast(edges: seq<Edge>, st: Stages, perm: seq<nat>, saved: seq<Edge>, x: nat, y: nat, w: int)
    requires Inverse(perm, st.order) && IsSplitOf(st.directed, edges) && Normal(st.output, st.directed)
    requires Exclusive(edges) && DistinctTurns(edges) && SavedFrom(saved, AllRenamed(st.output, perm))
    ensures Offers(saved, x, y, w) <==> x != y && LeastOffer(AllRenamed(edges, perm), x, y, w)
  {
    hide IsSplitOf, Normal, Exclusive, DistinctTurns, SavedFrom, AllRenamed, Offers, LeastOffer, HasForward;
    RenamedIsLoaded(st.output, st.directed, edges, perm, st.order);
    RenamedInput(edges, perm, st.order);
    SavedOffers(saved, AllRenamed(st.output, perm), AllRenamed(st.directed, perm), AllRenamed(edges, perm), x, y, w);
    LoadingKeepsCosts(AllRenamed(st.output, perm), AllRenamed(st.directed, perm), AllRenamed(edges, perm), x, y, w);
  }

  lemma SavedOffersWithin(edges: seq<Edge>, st: Stages, perm: seq<nat>, saved: seq<Edge>)
    requires Inverse(perm, st.order) && IsSplitOf(st.directed, edges) && Normal(st.output, st.directed)
    requires Exclusive(edges) && DistinctTurns(edges) && SavedFrom(saved, AllRenamed(st.output, perm))
    ensures OffersWithin(saved, AllRenamed(edges, perm))
  {
    hide IsSplitOf, Normal, Exclusive, DistinctTurns, SavedFrom, AllRenamed, Offers, LeastOffer, Inverse;
    var renamed := AllRenamed(edges, perm);
    forall s: nat, t: nat | s != t && Offered(saved, s, t) ensures Offered(renamed, s, t) {
      var w :| Offers(saved, s, t, w);
      SavedOffersLeast(edges, st, perm, saved, s, t, w);
      LeastIsAnOffer(renamed, s, t, w);
    }
  }

  lemma SavedEnds(saved: seq<Edge>, output: seq<Edge>, n: nat)
    requires SavedFrom(saved, output) && EndsBelow(output, n) && 1 <= n
    ensures EndsBelow(saved, n)
  {
    forall e | e in saved ensures e.source < n && e.target < n {
      var k: nat :| k < |saved| && saved[k] == e;
      assert SlotSaved(output, k, saved[k]);
    }
  }

  // ---------- the whole of it ----------

  /** The numbers of the nodes and the state of the edges have changed; what lies across a cell has not. */
  lemma AcrossCorresponds(a: Network, b: Network, perm: seq<nat>, order: seq<nat>, level: nat, u: nat, v: nat)
    requires Corresponds(a, b, perm, order) && u < |perm| && v < |perm|
    ensures AcrossCell(a, level, u, v) <==> AcrossCell(b, level, perm[u], perm[v])
  {
    if 1 <= level <= |a.cells| {
      RolesCorrespond(a, b, perm, order, level, u);
      RolesCorrespond(a, b, perm, order, level, v);
      assert SameSides(a, b, perm, level, u, v);
    }
  }

  /** The answer for two nodes given by their old numbers. */
  ghost function AnswerFor(h: Hierarchy, output: seq<Edge>, st: Stages, perm: seq<nat>, allowed: seq<bool>,
                           vals: MetricValues, level: nat, u: nat, v: nat): Option<Cost>
    requires h.mlp.Valid() && u < |perm| && v < |perm|
  {
    Answer(h, output, AllRenamed(st.output, perm), allowed, vals, level, perm[u], perm[v])
  }

  /** For every source and destination of a repaired cell, the hierarchy answers for a drive of least weight over the
      edges on file that stays in the cell and passes the filter. */
  ghost predicate AnswersFromFile(h: Hierarchy, output: seq<Edge>, edges: seq<Edge>, st: Stages, perm: seq<nat>,
                                  allowed: seq<bool>, renumbered: seq<bool>, vals: MetricValues)
  {
    var net := InputNetwork(st.cells, st.output, st.output, allowed);
    && h.mlp.Valid() && net.Shaped() && net.EdgesInRange() && |perm| == |allowed|
    && forall level: nat, u: nat, v: nat :: AcrossCell(net, level, u, v) ==>
         LeastDrive(edges, st.cells[level - 1], allowed, st.cells[level - 1][u], u, v,
                    AnswerFor(h, output, st, perm, renumbered, vals, level, u, v))
  }

  /** The network as repaired corresponds to the one the customizer loads. */
  lemma StagesCorrespond(edges: seq<Edge>, n: nat, partition: seq<seq<nat>>, st: Stages, perm: seq<nat>,
                         cells: seq<seq<nat>>, output: seq<Edge>, allowed: seq<bool>, renumbered: seq<bool>)
    requires Staged(edges, n, partition, st, perm) && CellsRenumbered(cells, st.cells, perm)
    requires InputNetwork(cells, output, AllRenamed(st.output, perm), renumbered).WellFormed()
    requires |allowed| == n && TableRenumbered(renumbered, allowed, perm)
    ensures Corresponds(InputNetwork(st.cells, st.output, st.output, allowed),
                        InputNetwork(cells, output, AllRenamed(st.output, perm), renumbered), perm, st.order)
    ensures SameFilter(InputNetwork(st.cells, st.output, st.output, allowed),
                       InputNetwork(cells, output, AllRenamed(st.output, perm), renumbered), perm)
  {
    hide IsSplitOf, Normal, BordersFirst, IsBorderLevel, NestedCells.Nested, Network.WellFormed, AllRenamed;
    hide Corresponds, PartitionRepair.NoNewCells, Inverse;
    AnyFilterIsWellFormed(st.cells, st.output, st.output, NoFilter(n), allowed);
    RenumberedCorresponds(InputNetwork(st.cells, st.output, st.output, allowed),
                          InputNetwork(cells, output, AllRenamed(st.output, perm), renumbered), perm, st.order);
  }

  /** The region of a cell is the same set of nodes, by their old and their new numbers. */
  lemma RegionsOfStages(a: Network, b: Network, perm: seq<nat>, order: seq<nat>, level: nat, u: nat)
    requires Corresponds(a, b, perm, order) && SameFilter(a, b, perm) && level <= |a.cells| && u < |perm|
    ensures forall x: nat :: x in a.RegionOf(level, u) ==> At(perm, x) in b.RegionOf(level, perm[u])
    ensures forall x: nat :: x in b.RegionOf(level, perm[u]) ==> At(order, x) in a.RegionOf(level, u)
  {
    RegionsCorrespond(a, b, perm, order, level, u);
  }

  /** What a saved edge leads over, the edges on file lead over under the old numbers, with the same values. */
  lemma SavedEdgeIsOnFile(edges: seq<Edge>, st: Stages, perm: seq<nat>, saved: seq<Edge>, e: Edge, s: nat, t: nat)
    requires Inverse(perm, st.order) && IsSplitOf(st.directed, edges) && Normal(st.output, st.directed)
    requires SavedFrom(saved, AllRenamed(st.output, perm)) && e in saved && Passable(e, s, t)
    ensures Counterpart(edges, e, At(st.order, s), At(st.order, t))
  {
    hide IsSplitOf, Normal, AllRenamed, Inverse, SavedFrom, At;
    var k: nat :| k < |saved| && saved[k] == e;
    var x := SlotOrigin(saved, AllRenamed(st.output, perm), k);
    RenamedMember(st.output, perm, st.order, x);
    var o := Renamed(x, st.order);
    StoredIsOnFile(st.output, st.directed, edges, o);
    var f :| f in edges && StandsFor(o, f);
    assert Passable(f, At(st.order, s), At(st.order, t)) && SamePrice(f, e);
  }

  lemma SavedHasCounterparts(edges: seq<Edge>, st: Stages, perm: seq<nat>, saved: seq<Edge>)
    requires Inverse(perm, st.order) && IsSplitOf(st.directed, edges) && Normal(st.output, st.directed)
    requires SavedFrom(saved, AllRenamed(st.output, perm))
    ensures HasCounterparts(saved, edges, y => At(st.order, y))
  {
    hide IsSplitOf, Normal, AllRenamed, SavedFrom, Passable, Counterpart, At;
    forall e, s, t | e in saved && Passable(e, s, t) ensures Counterpart(edges, e, At(st.order, s), At(st.order, t)) {
      SavedEdgeIsOnFile(edges, st, perm, saved, e, s, t);
    }
  }

  /** Without updates the answer under the new numbers is for a drive of least weight over the edges on file under the
      old ones. */
  lemma AnswerFromFile(h: Hierarchy, cells: seq<seq<nat>>, output: seq<Edge>, directed: seq<Edge>, saved: seq<Edge>,
                       edges: seq<Edge>, n: nat, partition: seq<seq<nat>>, st: Stages, perm: seq<nat>,
                       allowed: seq<bool>, renumbered: seq<bool>, vals: MetricValues, level: nat, u: nat, v: nat)
    requires Staged(edges, n, partition, st, perm) && Exclusive(edges) && DistinctTurns(edges)
    requires CellsRenumbered(cells, st.cells, perm) && SavedFrom(saved, AllRenamed(st.output, perm))
    requires IsSplitOf(directed, saved) && Normal(output, directed)
    requires |allowed| == n && TableRenumbered(renumbered, allowed, perm)
    requires AnswersOnAllLevels(h, cells, output, AllRenamed(st.output, perm), renumbered, vals)
    requires InputNetwork(st.cells, st.output, st.output, allowed).Shaped()
             && InputNetwork(st.cells, st.output, st.output, allowed).EdgesInRange()
    requires AcrossCell(InputNetwork(st.cells, st.output, st.output, allowed), level, u, v)
    ensures h.mlp.Valid() && u < |perm| && v < |perm|
    ensures LeastDrive(edges, st.cells[level - 1], allowed, st.cells[level - 1][u], u, v,
                       AnswerFor(h, output, st, perm, renumbered, vals, level, u, v))
  {
    hide IsSplitOf, Normal, BordersFirst, IsBorderLevel, NestedCells.Nested, Network.WellFormed, AllRenamed;
    hide Corresponds, PartitionRepair.NoNewCells, SavedFrom, Exclusive, DistinctTurns, LeastWeight, NoDearer, Answers;
    hide Network.Region, Answer, Network.IsSource, Network.IsDestination, SameFilter, Network.EdgesInRange;
    hide MultiLevelPartition.Valid, LeastDrive;
    var links := AllRenamed(st.output, perm);
    var a, b := InputNetwork(st.cells, st.output, st.output, allowed), InputNetwork(cells, output, links, renumbered);
    StagesCorrespond(edges, n, partition, st, perm, cells, output, allowed, renumbered);
    CorrespondFacts(a, b, perm, st.order);
    AcrossCorresponds(a, b, perm, st.order, level, u, v);
    var answer := Answer(h, output, links, renumbered, vals, level, perm[u], perm[v]);
    AnswersAreLeast(h, cells, output, links, directed, saved, renumbered, vals, level, perm[u], perm[v]);
    RegionsOfStages(a, b, perm, st.order, level, u);
    SavedIsNoDearer(edges, st, perm, saved, a.RegionOf(level, u), b.RegionOf(level, perm[u]));
    ThereAndBack(perm, st.order, u);
    ThereAndBack(perm, st.order, v);
    SameLeastWeight(FileArcs(edges), FileArcs(saved), x => At(perm, x), x => At(st.order, x),
                    a.RegionOf(level, u), b.RegionOf(level, perm[u]), u, v, WeightOf(answer));
    var nodes, path := DriveOnFile(edges, st, perm, saved, a, b, level, u, v, answer);
    DriveIsLeast(edges, a, level, a.Cell(level, u), u, v, answer, nodes, path);
  }

  /** A drive over the saved edges, seen on file. */
  lemma DriveOnFile(edges: seq<Edge>, st: Stages, perm: seq<nat>, saved: seq<Edge>, a: Network, b: Network, level: nat,
                    u: nat, v: nat, answer: Option<Cost>)
    returns (nodes: seq<nat>, path: seq<Edge>)
    requires Inverse(perm, st.order) && IsSplitOf(st.directed, edges) && Normal(st.output, st.directed)
    requires SavedFrom(saved, AllRenamed(st.output, perm)) && u < |perm| && v < |perm|
    requires a.Shaped() && b.Shaped() && 1 <= level <= |a.cells| == |b.cells| && a.numNodes == b.numNodes == |perm|
    requires perm[u] < |perm|
    requires forall x: nat :: x in b.RegionOf(level, perm[u]) ==> At(st.order, x) in a.RegionOf(level, u)
    requires LeastDrive(saved, b.cells[level - 1], b.allowed, b.cells[level - 1][perm[u]], perm[u], perm[v], answer)
    ensures match answer
            case None => true
            case Some(x) =>
              && Drive(edges, u, v, nodes, path) && AllIn(nodes, a.RegionOf(level, u))
              && HasDriveTotals(path, x.weight, x.duration, x.distance)
  {
    hide IsSplitOf, Normal, AllRenamed, SavedFrom, Drive, AllIn, StaysIn, Network.Region, Passable, RaisedTotal;
    hide HasCounterparts;
    nodes, path := [], [];
    if answer.Some? {
      var x := answer.value;
      var ns, p :| DriveIn(saved, b.cells[level - 1], b.allowed, b.cells[level - 1][perm[u]], perm[u], perm[v], ns, p)
                   && HasDriveTotals(p, x.weight, x.duration, x.distance);
      RegionIsCell(b, level, b.cells[level - 1][perm[u]], ns);
      SavedHasCounterparts(edges, st, perm, saved);
      ThereAndBack(perm, st.order, u);
      ThereAndBack(perm, st.order, v);
      nodes, path := DriveTransfers(saved, edges, y => At(st.order, y), b.RegionOf(level, perm[u]),
                                    a.RegionOf(level, u), perm[u], perm[v], ns, p);
    }
  }

  lemma CorrespondFacts(a: Network, b: Network, perm: seq<nat>, order: seq<nat>)
    requires Corresponds(a, b, perm, order)
    ensures a.Shaped() && b.Shaped() && a.EdgesInRange() && b.EdgesInRange() && a.numNodes == b.numNodes == |perm|
    ensures |a.cells| == |b.cells| && forall v :: 0 <= v < |perm| ==> perm[v] < |perm|
  {
  }

  method RenumberFilters(filters: seq<seq<bool>>, perm: seq<nat>, ghost order: seq<nat>)
    returns (renumbered: seq<seq<bool>>)
    requires Inverse(perm, order) && forall k :: 0 <= k < |filters| ==> |filters[k]| == |perm|
    ensures |renumbered| == |filters|
            && forall k :: 0 <= k < |filters| ==> TableRenumbered(renumbered[k], filters[k], perm)
  {
    hide TableRenumbered, Inverse;
    renumbered := [];
    for i := 0 to |filters|
      invariant |renumbered| == i && forall k :: 0 <= k < i ==> TableRenumbered(renumbered[k], filters[k], perm)
    {
      var filter := RenumberTable(filters[i], perm, order);
      renumbered := renumbered + [filter];
    }
  }

  lemma TableLength<T>(now: seq<T>, before: seq<T>, perm: seq<nat>)
    requires TableRenumbered(now, before, perm)
    ensures |now| == |before| == |perm|
  {
  }

  lemma StagedFacts(edges: seq<Edge>, n: nat, partition: seq<seq<nat>>, st: Stages, perm: seq<nat>)
    requires Staged(edges, n, partition, st, perm)
    ensures IsSplitOf(st.directed, edges) && Normal(st.output, st.directed) && |perm| == n && Inverse(perm, st.order)
    ensures InputNetwork(st.cells, st.output, st.output, NoFilter(n)).WellFormed()
  {
  }

  lemma BuiltEnds(h: Hierarchy, cells: seq<seq<nat>>, edges: seq<Edge>, links: seq<Edge>, order: seq<nat>,
                  sorted: seq<LeveledEdge>, maxBorder: nat)
    requires Built(h, cells, edges, links, order, sorted, maxBorder)
    ensures EndsBelow(edges, |order|)
  {
  }

  /**
   `Partitioner::Run` behind the bisection, then `Customizer::Run` without updates. The hierarchy exists if and only
   if the cell numbers fit a word. If no size wraps around, the values of every filter answer for drives of least
   weight over the edges on file.
   */
  method Preprocess(edges: seq<Edge>, n: nat, partition: seq<seq<nat>>, numCells: seq<nat>, filters: seq<seq<bool>>)
    returns (r: Option<Hierarchy>, fits: bool, perm: seq<nat>, metrics: seq<CellMetric>, output: seq<Edge>,
             cells: seq<seq<nat>>, renumbered: seq<seq<bool>>, ghost st: Stages)
    requires Exclusive(edges) && DistinctTurns(edges) && EndsBelow(edges, n) && 1 <= n
    requires 1 <= |partition| && NestedCells.Shaped(partition, n) && NestedCells.Nested(partition, n)
             && CountsFit(partition, numCells)
    requires forall k :: 0 <= k < |filters| ==> |filters[k]| == n
    ensures Staged(edges, n, partition, st, perm)
    ensures r.Some? <==> BitsUsed(numCells, |numCells|) <= Words.WORD_BITS
    ensures r.Some? ==> (fits <==> r.value.storage.ProductsFit() && DegreesFit(cells, output, n))
    ensures r.Some? && fits ==> |metrics| == |filters| == |renumbered| && forall k :: 0 <= k < |filters| ==>
      AnswersFromFile(r.value, output, edges, st, perm, filters[k], renumbered[k], metrics[k].Values())
  {
    hide IsSplitOf, Normal, Exclusive, DistinctTurns, NestedCells.Nested, CountsFit, BitsUsed, Words.Pow2, Built;
    hide Staged, CellsRenumbered, AllRenamed, SavedFrom, EndsBelow, OffersWithin, TableRenumbered, AnswersOnAllLevels;
    hide AnswersFromFile, LeastOverUpdate, Inverse, CellStorage.ProductsFit, DegreesFit, Network.WellFormed;
    r, fits, metrics, renumbered := None, false, [], [];
    var h, laid, couldNotFix, unconnected;
    ghost var order, sorted, maxBorder;
    h, perm, cells, laid, couldNotFix, unconnected, st, order, sorted, maxBorder :=
      Prepare(edges, n, partition, numCells);
    StagedFacts(edges, n, partition, st, perm);
    output := laid;
    if h.Some? {
      BuiltEnds(h.value, cells, laid, laid, order, sorted, maxBorder);
      var saved := GraphToEdges(laid);
      SavedEnds(saved, laid, n);
      SavedIsExclusive(saved, laid);
      SavedOffersWithin(edges, st, perm, saved);
      RenamedIsLoaded(st.output, st.directed, edges, perm, st.order);
      renumbered := RenumberFilters(filters, perm, st.order);
      forall k | 0 <= k < |filters| ensures |renumbered[k]| == n {
        TableLength(renumbered[k], filters[k], perm);
      }
      var loaded;
      ghost var directed;
      ghost var laidDirected, laidFrom := AllRenamed(st.directed, perm), AllRenamed(edges, perm);
      loaded, output, fits, metrics, directed :=
        RunCustomizer(h.value, saved, n, cells, renumbered, laid, laidDirected, laidFrom, order, sorted, maxBorder);
      r := Some(loaded);
      if fits {
        forall k | 0 <= k < |filters|
          ensures AnswersFromFile(loaded, output, edges, st, perm, filters[k], renumbered[k], metrics[k].Values())
        {
          FilterAnswers(loaded, cells, output, directed, saved, edges, n, partition, st, perm, filters[k],
                        renumbered[k], metrics[k].Values());
        }
      }
    }
  }

  lemma FilterAnswers(h: Hierarchy, cells: seq<seq<nat>>, output: seq<Edge>, directed: seq<Edge>, saved: seq<Edge>,
                      edges: seq<Edge>, n: nat, partition: seq<seq<nat>>, st: Stages, perm: seq<nat>,
                      allowed: seq<bool>, renumbered: seq<bool>, vals: MetricValues)
    requires Staged(edges, n, partition, st, perm) && Exclusive(edges) && DistinctTurns(edges)
    requires CellsRenumbered(cells, st.cells, perm) && SavedFrom(saved, AllRenamed(st.output, perm))
    requires IsSplitOf(directed, saved) && Normal(output, directed)
    requires |allowed| == n && TableRenumbered(renumbered, allowed, perm)
    requires AnswersOnAllLevels(h, cells, output, AllRenamed(st.output, perm), renumbered, vals)
    ensures AnswersFromFile(h, output, edges, st, perm, allowed, renumbered, vals)
  {
    hide IsSplitOf, Normal, Exclusive, DistinctTurns, CellsRenumbered, AllRenamed, SavedFrom, EndsBelow;
    hide TableRenumbered, LeastDrive;
    hide Answers, Network.WellFormed, Answer, Network.RegionOf, Staged, MultiLevelPartition.Valid;
    StagedFacts(edges, n, partition, st, perm);
    AnyFilterIsWellFormed(st.cells, st.output, st.output, NoFilter(n), allowed);
    var net := InputNetwork(st.cells, st.output, st.output, allowed);
    PlainFacts(net);
    forall level: nat, u: nat, v: nat | AcrossCell(net, level, u, v)
      ensures LeastDrive(edges, st.cells[level - 1], allowed, st.cells[level - 1][u], u, v,
                         AnswerFor(h, output, st, perm, renumbered, vals, level, u, v))
    {
      AnswerFromFile(h, cells, output, directed, saved, edges, n, partition, st, perm, allowed, renumbered, vals, level,
                     u, v);
    }
  }

  // ---------- border nodes first ----------

  /** A border node of any level has an edge across a border of the lowest one. */
  lemma {:induction false} BoundaryOnLowest(net: Network, level: nat, v: nat)
    requires net.WellFormed() && 1 <= level <= |net.cells| && v < net.numNodes && net.Boundary(level, v)
    ensures net.Boundary(1, v)
    decreases level
  {
    if level > 1 {
      BoundaryBelow(net, level - 1, v);
      BoundaryOnLowest(net, level - 1, v);
    }
  }

  lemma CrossingEdge(st: Stages, net: Network, perm: seq<nat>, cells: seq<seq<nat>>, x: nat, e: Edge)
    requires net.WellFormed() && net.links == st.output && net.cells == st.cells && 1 <= |st.cells|
             && |perm| == net.numNodes
    requires Inverse(perm, st.order) && CellsRenumbered(cells, st.cells, perm) && e in AllRenamed(st.output, perm)
    ensures net.Shaped() && net.EdgesInRange() && Renamed(e, st.order) in net.links && e.source < |perm|
            && e.target < |perm|
    ensures st.order[e.source] == Renamed(e, st.order).source && st.order[e.target] == Renamed(e, st.order).target
    ensures CrossesBehind(cells, x, e) <==> net.Crosses(1, Renamed(e, st.order)) && (x <= e.source || x <= e.target)
  {
    PlainFacts(net);
    hide Network.WellFormed, AllRenamed;
    RenamedMember(st.output, perm, st.order, e);
    RenamedBack(e, perm, st.order);
    var was := Renamed(e, st.order);
    assert e == Renamed(was, perm) && was.source < |perm| && was.target < |perm|;
    CellOf(cells, st.cells, perm, st.order, 0, e.source);
    CellOf(cells, st.cells, perm, st.order, 0, e.target);
  }

  /** Border level 0 means: no edge across any border. */
  lemma BorderLevelTells(edges: seq<Edge>, n: nat, partition: seq<seq<nat>>, st: Stages, perm: seq<nat>, v: nat)
    requires Staged(edges, n, partition, st, perm) && 1 <= |st.cells| && v < n
    ensures InputNetwork(st.cells, st.output, st.output, NoFilter(n)).Shaped()
            && InputNetwork(st.cells, st.output, st.output, NoFilter(n)).EdgesInRange()
    ensures |st.border| == |st.order| == n
            && (st.border[v] > 0 <==> InputNetwork(st.cells, st.output, st.output, NoFilter(n)).Boundary(1, v))
  {
    var net := InputNetwork(st.cells, st.output, st.output, NoFilter(n));
    hide IsSplitOf, Normal, NestedCells.Nested, PartitionRepair.NoNewCells, Network.WellFormed, Network.Boundary;
    hide Earlier;
    PlainFacts(net);
    assert IsBorderLevel(net, v, st.border[v]);
    if st.border[v] > 0 {
      BoundaryOnLowest(net, st.border[v], v);
    }
  }

  lemma NumberedEarlier(edges: seq<Edge>, n: nat, partition: seq<seq<nat>>, st: Stages, perm: seq<nat>, x: nat, y: nat)
    requires Staged(edges, n, partition, st, perm) && x <= y < n
    ensures |st.border| == |st.order| == n && st.order[x] < n && st.order[y] < n
    ensures st.border[st.order[x]] >= st.border[st.order[y]]
  {
    hide IsSplitOf, Normal, NestedCells.Nested, PartitionRepair.NoNewCells, Network.WellFormed, NodeOrder.Before;
    hide IsBorderLevel;
    assert perm[st.order[x]] == x && perm[st.order[y]] == y;
    assert x < y ==> Earlier(st.cells, st.border, st.order[x], st.order[y]);
  }

  lemma BoundaryLink(net: Network, v: nat) returns (e: Edge)
    requires net.Shaped() && net.EdgesInRange() && 1 <= |net.cells| && net.Boundary(1, v)
    ensures e in net.links && e.source == v && e.source < net.numNodes && e.target < net.numNodes && net.Crosses(1, e)
  {
    e :| e in net.links && e.source == v && net.Crosses(1, e);
  }

  lemma CoveredIsBorder(edges: seq<Edge>, n: nat, partition: seq<seq<nat>>, st: Stages, perm: seq<nat>,
                        cells: seq<seq<nat>>, x: nat)
    requires Staged(edges, n, partition, st, perm) && CellsRenumbered(cells, st.cells, perm) && 1 <= |cells|
             && 0 < x < n && Covered(cells, AllRenamed(st.output, perm), x)
    ensures |st.border| == |st.order| == n && st.order[x] < n && st.border[st.order[x]] > 0
  {
    hide Staged, Network.WellFormed, AllRenamed, CrossesBehind, Renamed, Network.EdgesInRange, Network.Boundary;
    var net := InputNetwork(st.cells, st.output, st.output, NoFilter(n));
    StagedFacts(edges, n, partition, st, perm);
    var e :| e in AllRenamed(st.output, perm) && CrossesBehind(cells, x, e);
    CrossingEdge(st, net, perm, cells, x, e);
    var y := if x <= e.source then e.source else e.target;
    EndIsBoundary(net, Renamed(e, st.order));
    BorderLevelTells(edges, n, partition, st, perm, st.order[y]);
    NumberedEarlier(edges, n, partition, st, perm, x, y);
  }

  lemma BorderIsCovered(st: Stages, net: Network, perm: seq<nat>, cells: seq<seq<nat>>, x: nat)
    requires net.WellFormed() && net.links == st.output && net.cells == st.cells && 1 <= |st.cells|
             && |perm| == net.numNodes
    requires Inverse(perm, st.order) && CellsRenumbered(cells, st.cells, perm) && x < |perm|
    requires net.Boundary(1, st.order[x])
    ensures Covered(cells, AllRenamed(st.output, perm), x)
  {
    hide Network.WellFormed, AllRenamed, CrossesBehind, Renamed, Network.EdgesInRange, Network.Boundary;
    PlainFacts(net);
    var e := BoundaryLink(net, st.order[x]);
    RenamedBack(e, perm, st.order);
    RenamedMember(st.output, perm, st.order, Renamed(e, perm));
    CrossingEdge(st, net, perm, cells, x, Renamed(e, perm));
    SourceRenamed(e, perm, st.order, x);
  }

  /** After renumbering, the offset table of the multi-level graph has rows for border nodes only (and for node 0). */
  lemma TableCoversBorderNodes(edges: seq<Edge>, n: nat, partition: seq<seq<nat>>, st: Stages, perm: seq<nat>,
                               cells: seq<seq<nat>>, x: nat)
    requires Staged(edges, n, partition, st, perm) && CellsRenumbered(cells, st.cells, perm) && 1 <= |cells|
             && 0 < x < n
    ensures |st.border| == |st.order| == n && st.order[x] < n
    ensures Covered(cells, AllRenamed(st.output, perm), x) <==> st.border[st.order[x]] > 0
  {
    hide Staged, Network.WellFormed, AllRenamed, Covered, Network.Boundary;
    StagedFacts(edges, n, partition, st, perm);
    assert |st.cells| == |cells|;
    BorderLevelTells(edges, n, partition, st, perm, st.order[x]);
    if Covered(cells, AllRenamed(st.output, perm), x) {
      CoveredIsBorder(edges, n, partition, st, perm, cells, x);
    }
    if st.border[st.order[x]] > 0 {
      BorderIsCovered(st, InputNetwork(st.cells, st.output, st.output, NoFilter(n)), perm, cells, x);
    }
  }

  lemma SourceRenamed(e: Edge, perm: seq<nat>, order: seq<nat>, x: nat)
    requires Inverse(perm, order) && x < |order| && e.source == order[x]
    ensures Renamed(e, perm).source == x
  {
  }

  lemma EndIsBoundary(net: Network, e: Edge)
    requires net.WellFormed() && 1 <= |net.cells| && e in net.links && net.Crosses(1, e)
    ensures net.Boundary(1, e.source) && net.Boundary(1, e.target)
  {
    CrossingLink(net, 1, e);
  }
}
