/**
 When the one-byte offsets of the multi-level graph are exact, in terms of the input: the
 cells and the edges.
 */
module EdgeOffsets {
  import opened RoadGraph
  import opened LevelLayout
  import opened MultiLevelPartitions
  import opened MultiLevelGraphs
  import Sorting

  // ---------- counting ----------

  function Count<T>(s: seq<T>, f: T -> bool): nat {
    if s == [] then 0 else (if f(s[0]) then 1 else 0) + Count(s[1..], f)
  }

  lemma {:induction false} CountSplits<T>(a: seq<T>, b: seq<T>, f: T -> bool)
    ensures Count(a + b, f) == Count(a, f) + Count(b, f)
  {
    if a == [] {
      assert a + b == b;
    } else {
      assert (a + b)[1..] == a[1..] + b;
      CountSplits(a[1..], b, f);
    }
  }

  lemma CountWithout<T>(s: seq<T>, k: nat, f: T -> bool)
    requires k < |s|
    ensures Count(s, f) == Count(s[..k] + s[k + 1..], f) + (if f(s[k]) then 1 else 0)
  {
    assert s == s[..k] + ([s[k]] + s[k + 1..]);
    CountSplits(s[..k], [s[k]] + s[k + 1..], f);
    CountSplits([s[k]], s[k + 1..], f);
    CountSplits(s[..k], s[k + 1..], f);
  }

  /** Rearranging does not change a count. */
  lemma {:induction false} CountIgnoresOrder<T>(a: seq<T>, b: seq<T>, f: T -> bool)
    requires multiset(a) == multiset(b)
    ensures Count(a, f) == Count(b, f)
    decreases |a|
  {
    Sorting.SameLength(a, b);
    if a != [] {
      var k := Sorting.MatchFirst(a, b);
      CountWithout(a, 0, f);
      CountWithout(b, k, f);
      CountIgnoresOrder(a[..0] + a[1..], b[..k] + b[k + 1..], f);
    }
  }

  /** Where exactly one stretch satisfies a test, the count is its length. */
  lemma {:induction false} CountOfStretch<T>(s: seq<T>, f: T -> bool, p: nat, q: nat)
    requires p <= q <= |s| && forall i :: 0 <= i < |s| ==> (f(s[i]) <==> p <= i < q)
    ensures Count(s, f) == q - p
  {
    if s != [] {
      assert forall i :: 0 <= i < |s| - 1 ==> s[1..][i] == s[i + 1];
      CountOfStretch(s[1..], f, if p == 0 then 0 else p - 1, if q == 0 then 0 else q - 1);
    }
  }

  lemma {:induction false} CountOfImage<T, U>(s: seq<T>, h: T -> U, f: U -> bool, g: T -> bool)
    requires forall i :: 0 <= i < |s| ==> (g(s[i]) <==> f(h(s[i])))
    ensures Count(s, g) == Count(Sorting.Mapped(s, h), f)
  {
    if s != [] {
      assert Sorting.Mapped(s, h)[1..] == Sorting.Mapped(s[1..], h);
      CountOfImage(s[1..], h, f, g);
    }
  }

  // ---------- the condition on the input ----------

  /** An edge of `node` that stays in its cell on the level. */
  predicate StaysInside(cells: seq<seq<nat>>, level: nat, node: nat, e: Edge) {
    && e.source == node && 1 <= level <= |cells| && node < |cells[level - 1]| && e.target < |cells[level - 1]|
    && cells[level - 1][node] == cells[level - 1][e.target]
  }

  function InnerDegree(cells: seq<seq<nat>>, edges: seq<Edge>, level: nat, node: nat): nat {
    Count(edges, (e: Edge) => StaysInside(cells, level, node, e))
  }

  /** An edge across a border of the lowest level that reaches `node` or a node behind it. */
  predicate CrossesBehind(cells: seq<seq<nat>>, node: nat, e: Edge) {
    && 1 <= |cells| && e.source < |cells[0]| && e.target < |cells[0]| && cells[0][e.source] != cells[0][e.target]
    && (node <= e.source || node <= e.target)
  }

  /** The offset table has a row for the node. */
  predicate Covered(cells: seq<seq<nat>>, edges: seq<Edge>, node: nat) {
    node == 0 || exists e :: e in edges && CrossesBehind(cells, node, e)
  }

  /** No one-byte offset wraps around. */
  predicate DegreesFit(cells: seq<seq<nat>>, edges: seq<Edge>, n: nat) {
    forall level, node | 1 <= level < |cells| + 1 && 0 <= node < n ::
      Covered(cells, edges, node) ==> InnerDegree(cells, edges, level, node) < 256
  }

  // ---------- the model in these terms ----------

  lemma LevelTellsInputCell(mlp: MultiLevelPartition, cells: seq<seq<nat>>, order: seq<nat>, e: LeveledEdge, level: nat)
    requires Packed(mlp, cells, order) && mlp.levelData.IsLevel(level) && LevelIsHighest(e, mlp)
    ensures level <= |cells| && |cells[level - 1]| == mlp.NumNodes()
    ensures e.level < level <==> cells[level - 1][e.edge.source] == cells[level - 1][e.edge.target]
  {
    assert mlp.levelData.numLevel == |cells| + 1;
    hide Packed, LevelData.Valid, MultiLevelPartition.GetCell, MultiLevelPartition.GetHighestDifferentLevel;
    LevelTellsCell(mlp, cells, order, e, level);
    PackingIsFaithful(mlp, cells, order, level, e.edge.source, e.edge.target);
  }

  lemma ImageHasMember(sorted: seq<LeveledEdge>, edges: seq<Edge>, e: Edge) returns (i: nat)
    requires multiset(Sorting.Mapped(sorted, (e: LeveledEdge) => e.edge)) == multiset(edges) && e in edges
    ensures i < |sorted| && sorted[i].edge == e
  {
    var image := Sorting.Mapped(sorted, (e: LeveledEdge) => e.edge);
    Sorting.SameMembers(image, edges, e);
    i :| 0 <= i < |image| && image[i] == e;
  }

  lemma MemberOfImage(sorted: seq<LeveledEdge>, edges: seq<Edge>, i: nat)
    requires multiset(Sorting.Mapped(sorted, (e: LeveledEdge) => e.edge)) == multiset(edges) && i < |sorted|
    ensures sorted[i].edge in edges
  {
    var image := Sorting.Mapped(sorted, (e: LeveledEdge) => e.edge);
    Sorting.SameMembers(image, edges, image[i]);
  }

  /** The table ends behind the last node that an edge across a border reaches. */
  lemma TableCovers(mlp: MultiLevelPartition, cells: seq<seq<nat>>, order: seq<nat>, edges: seq<Edge>,
                    sorted: seq<LeveledEdge>, maxBorder: nat, node: nat)
    requires Packed(mlp, cells, order) && EdgesInRange(edges, mlp.NumNodes()) && SortedFrom(sorted, edges, mlp)
    requires IsMaxBorder(sorted, maxBorder)
    ensures node <= maxBorder <==> Covered(cells, edges, node)
  {
    hide Packed, LevelData.Valid, Sorting.Mapped, LevelIsHighest;
    PackedFacts(mlp, cells, order);
    if node <= maxBorder && node != 0 {
      var i :| 0 <= i < |sorted| && EndsAcross(sorted[i], maxBorder);
      CrossingOfInput(mlp, cells, order, sorted[i], node);
      MemberOfImage(sorted, edges, i);
    }
    if Covered(cells, edges, node) && node != 0 {
      var e :| e in edges && CrossesBehind(cells, node, e);
      var i := ImageHasMember(sorted, edges, e);
      CrossingOfInput(mlp, cells, order, sorted[i], node);
    }
  }

  lemma CrossingOfInput(mlp: MultiLevelPartition, cells: seq<seq<nat>>, order: seq<nat>, e: LeveledEdge, node: nat)
    requires Packed(mlp, cells, order) && LevelIsHighest(e, mlp)
    ensures CrossesBehind(cells, node, e.edge) <==> e.level > 0 && (node <= e.edge.source || node <= e.edge.target)
  {
    hide Packed, LevelData.Valid, MultiLevelPartition.GetHighestDifferentLevel;
    PackedFacts(mlp, cells, order);
    LevelTellsInputCell(mlp, cells, order, e, 1);
  }

  /** Between the first edge of a node and its first border edge lie exactly the edges that stay inside. */
  lemma CutCountsInnerEdges(mlp: MultiLevelPartition, cells: seq<seq<nat>>, order: seq<nat>, edges: seq<Edge>,
                            sorted: seq<LeveledEdge>, level: nat, node: nat, p: nat, q: nat)
    requires Packed(mlp, cells, order) && EdgesInRange(edges, mlp.NumNodes()) && SortedFrom(sorted, edges, mlp)
    requires mlp.levelData.IsLevel(level) && node < mlp.NumNodes() && p <= q
    requires Cut(sorted, node, 0, p) && Cut(sorted, node, level, q)
    ensures q - p == InnerDegree(cells, edges, level, node)
  {
    hide Packed, LevelData.Valid;
    PackedFacts(mlp, cells, order);
    var inside := (e: Edge) => StaysInside(cells, level, node, e);
    var leveled := (e: LeveledEdge) => e.edge.source == node && e.level < level;
    forall i | 0 <= i < |sorted|
      ensures leveled(sorted[i]) <==> p <= i < q
      ensures leveled(sorted[i]) <==> inside(sorted[i].edge)
    {
      assert i < p <==> KeyLess(sorted[i], node, 0);
      assert i < q <==> KeyLess(sorted[i], node, level);
      assert LevelIsHighest(sorted[i], mlp);
      LevelTellsInputCell(mlp, cells, order, sorted[i], level);
    }
    hide Cut, StaysInside, Count, Sorting.Mapped;
    CountOfStretch(sorted, leveled, p, q);
    CountOfImage(sorted, (e: LeveledEdge) => e.edge, inside, leveled);
    CountIgnoresOrder(Sorting.Mapped(sorted, (e: LeveledEdge) => e.edge), edges, inside);
  }

  lemma OffsetFitsIff(g: MultiLevelGraph, mlp: MultiLevelPartition, cells: seq<seq<nat>>, order: seq<nat>,
                      edges: seq<Edge>, sorted: seq<LeveledEdge>, maxBorder: nat, level: nat, node: nat)
    requires Packed(mlp, cells, order) && EdgesInRange(edges, mlp.NumNodes()) && SortedFrom(sorted, edges, mlp)
    requires Represents(g, sorted, mlp.GetNumberOfLevels(), maxBorder) && g.NumNodes() == mlp.NumNodes()
    requires mlp.levelData.IsLevel(level) && node < g.NumNodes()
    ensures OffsetFits(g, sorted, maxBorder, level, node)
       <==> (Covered(cells, edges, node) ==> InnerDegree(cells, edges, level, node) < OFFSET_RANGE)
  {
    assert IsMaxBorder(sorted, maxBorder);
    assert node <= maxBorder ==> OffsetStored(g.nodeToEdgeOffset, sorted, mlp.GetNumberOfLevels(), node, level);
    hide Represents, Packed, SortedFrom, IsMaxBorder, Cut, InnerDegree, Covered, LevelData.Valid;
    TableCovers(mlp, cells, order, edges, sorted, maxBorder, node);
    if node <= maxBorder {
      var p: nat, q: nat :| Cut(sorted, node, 0, p) && Cut(sorted, node, level, q) && p <= q;
      CutCountsInnerEdges(mlp, cells, order, edges, sorted, level, node, p, q);
      forall p': nat, q': nat | Cut(sorted, node, 0, p') && Cut(sorted, node, level, q') ensures p' == p && q' == q {
        CutIsUnique(sorted, node, 0, p, p');
        CutIsUnique(sorted, node, level, q, q');
      }
    }
  }

  /** The ranges of a node are exact on a level if and only if no edge across a border reaches that far, or
      fewer than 256 of its edges stay in its cell. */
  lemma SplitsExactlyIff(g: MultiLevelGraph, mlp: MultiLevelPartition, cells: seq<seq<nat>>, order: seq<nat>,
                         edges: seq<Edge>, sorted: seq<LeveledEdge>, maxBorder: nat, level: nat, node: nat)
    requires Packed(mlp, cells, order) && EdgesInRange(edges, mlp.NumNodes()) && SortedFrom(sorted, edges, mlp)
    requires Represents(g, sorted, mlp.GetNumberOfLevels(), maxBorder) && g.NumNodes() == mlp.NumNodes()
    requires mlp.levelData.IsLevel(level) && node < g.NumNodes()
    ensures level < g.GetNumberOfLevels()
    ensures SplitsExactly(g, mlp, sorted, level, node)
       <==> (Covered(cells, edges, node) ==> InnerDegree(cells, edges, level, node) < 256)
  {
    hide SplitsExactly, OffsetFits, Packed, SortedFrom, Covered, InnerDegree, SortedEdges, OffsetsStored, IsMaxBorder;
    hide Cut;
    RangeSplitIsExact(g, mlp, cells, order, edges, sorted, maxBorder, level, node);
    OffsetFitsIff(g, mlp, cells, order, edges, sorted, maxBorder, level, node);
  }
}
