/**
 The adjacency array of the multi-level graph: the edges of a node are sorted by the highest
 level whose border they cross, so on every level the internal edges come first.
 */
module MultiLevelGraphs {
  import opened RoadGraph
  import opened LevelLayout
  import opened MultiLevelPartitions
  import opened NodeOrder
  import NestedCells
  import Sorting

  /** What the adjacency array keeps of an edge; the source is implied by the position. */
  datatype EdgeArrayEntry = EdgeArrayEntry(target: nat, data: EdgeData)

  /** An edge together with the highest level whose border it crosses. */
  datatype LeveledEdge = LeveledEdge(edge: Edge, level: nat)

  const OFFSET_RANGE: nat := 256

  datatype MultiLevelGraph = MultiLevelGraph(nodeArray: seq<nat>, edgeArray: seq<EdgeArrayEntry>,
                                             nodeToEdgeOffset: seq<nat>)
  {
    ghost predicate Shaped() {
      && |nodeArray| >= 1 && |nodeToEdgeOffset| >= 1
      && nodeToEdgeOffset[|nodeToEdgeOffset| - 1] >= 1
      && WholeRows(|nodeToEdgeOffset| - 1, nodeToEdgeOffset[|nodeToEdgeOffset| - 1])
    }

    function NumNodes(): nat
      requires Shaped()
    {
      |nodeArray| - 1
    }

    function BeginEdges(node: nat): nat
      requires Shaped() && node < NumNodes()
    {
      nodeArray[node]
    }

    function EndEdges(node: nat): nat
      requires Shaped() && node < NumNodes()
    {
      nodeArray[node + 1]
    }

    /** The number of levels is stored behind the offsets. */
    function GetNumberOfLevels(): nat
      requires Shaped()
    {
      nodeToEdgeOffset[|nodeToEdgeOffset| - 1]
    }

    /** The table covers only the nodes up to the last border node. */
    function BeginBorderEdges(level: nat, node: nat): nat
      requires Shaped() && node < NumNodes() && level < GetNumberOfLevels()
    {
      var index := node * GetNumberOfLevels();
      if index >= |nodeToEdgeOffset| - 1 then
        if level == 0 then BeginEdges(node) else EndEdges(node)
      else
        RowFits(node, GetNumberOfLevels(), |nodeToEdgeOffset| - 1);
        BeginEdges(node) + nodeToEdgeOffset[index + level]
    }
  }

  /** A table of whole rows. */
  ghost predicate WholeRows(size: nat, width: nat) {
    exists rows: nat :: IsTable(rows, width, size)
  }

  ghost predicate IsTable(rows: nat, width: nat, size: nat) {
    rows * width == size
  }

  /** A row that begins inside a table of whole rows also ends inside it. */
  lemma RowFits(row: nat, width: nat, size: nat)
    requires width >= 1 && WholeRows(size, width) && row * width < size
    ensures row * width + width <= size
  {
    var rows: nat :| IsTable(rows, width, size);
    assert row < rows by {
      assert rows <= row ==> rows * width <= row * width;
    }
    assert (row + 1) * width <= rows * width;
  }

  // ---------- sorted edges and where a key starts among them ----------

  predicate EdgeAtMost(a: LeveledEdge, b: LeveledEdge) {
    || a.edge.source < b.edge.source
    || (a.edge.source == b.edge.source && a.level < b.level)
    || (a.edge.source == b.edge.source && a.level == b.level && a.edge.target <= b.edge.target)
  }

  /** The edge sorts before every edge of `node` that crosses a border of `level` or above. */
  predicate KeyLess(e: LeveledEdge, node: nat, level: nat) {
    e.edge.source < node || (e.edge.source == node && e.level < level)
  }

  /** `p` separates the edges that sort before (`node`, `level`) from the rest. */
  ghost predicate Cut(edges: seq<LeveledEdge>, node: nat, level: nat, p: nat) {
    p <= |edges| && forall i :: 0 <= i < |edges| ==> (i < p <==> KeyLess(edges[i], node, level))
  }

  lemma CutIsUnique(edges: seq<LeveledEdge>, node: nat, level: nat, p: nat, q: nat)
    requires Cut(edges, node, level, p) && Cut(edges, node, level, q)
    ensures p == q
  {
    assert p < |edges| ==> !KeyLess(edges[p], node, level);
    assert q < |edges| ==> !KeyLess(edges[q], node, level);
  }

  lemma CutsAreOrdered(edges: seq<LeveledEdge>, node: nat, level: nat, p: nat, node': nat, level': nat, q: nat)
    requires Cut(edges, node, level, p) && Cut(edges, node', level', q)
    requires node < node' || (node == node' && level <= level')
    ensures p <= q
  {
    assert q < |edges| ==> !KeyLess(edges[q], node', level');
  }

  /** Skipping the edges with exactly this key moves the cut to the next level. */
  lemma CutAdvances(edges: seq<LeveledEdge>, node: nat, level: nat, p: nat, q: nat)
    requires Sorting.Sorted(edges, (a, b) => EdgeAtMost(a, b)) && Cut(edges, node, level, p) && p <= q <= |edges|
    requires forall i :: p <= i < q ==> edges[i].edge.source == node && edges[i].level == level
    requires q < |edges| ==> edges[q].edge.source != node || edges[q].level != level
    ensures Cut(edges, node, level + 1, q)
  {
    forall i | 0 <= i < |edges| ensures i < q <==> KeyLess(edges[i], node, level + 1) {
      if q <= i {
        assert !KeyLess(edges[q], node, level);
        assert q < i ==> EdgeAtMost(edges[q], edges[i]);
      }
    }
  }

  lemma CutAtNextNode(edges: seq<LeveledEdge>, node: nat, level: nat, p: nat)
    requires forall i :: 0 <= i < |edges| ==> edges[i].level < level
    ensures Cut(edges, node, level, p) <==> Cut(edges, node + 1, 0, p)
  {
    assert forall i :: 0 <= i < |edges| ==> (KeyLess(edges[i], node, level) <==> KeyLess(edges[i], node + 1, 0));
  }

  // ---------- what the constructor establishes ----------

  ghost predicate SortedEdges(sorted: seq<LeveledEdge>, n: nat, numLevels: nat) {
    && Sorting.Sorted(sorted, (a, b) => EdgeAtMost(a, b))
    && forall i :: 0 <= i < |sorted| ==>
         sorted[i].edge.source < n && sorted[i].edge.target < n && sorted[i].level < numLevels
  }

  /** `v` is an end of an edge across a border. */
  predicate EndsAcross(e: LeveledEdge, v: nat) {
    e.level > 0 && (e.edge.source == v || e.edge.target == v)
  }

  /** The largest end of an edge across a border, or 0. */
  ghost predicate IsMaxBorder(sorted: seq<LeveledEdge>, maxBorder: nat) {
    && (forall i :: 0 <= i < |sorted| && sorted[i].level > 0 ==>
          sorted[i].edge.source <= maxBorder && sorted[i].edge.target <= maxBorder)
    && (maxBorder == 0 || exists i :: 0 <= i < |sorted| && EndsAcross(sorted[i], maxBorder))
  }

  ghost predicate OffsetStored(table: seq<nat>, sorted: seq<LeveledEdge>, numLevels: nat, node: nat, level: nat) {
    && node * numLevels + level < |table|
    && exists p: nat, q: nat :: Cut(sorted, node, 0, p) && Cut(sorted, node, level, q) && p <= q
         && table[node * numLevels + level] == (q - p) % OFFSET_RANGE
  }

  /** Every covered node has, for every level, the count of its edges below that level, kept in one byte. */
  ghost predicate OffsetsStored(table: seq<nat>, sorted: seq<LeveledEdge>, numLevels: nat, nodes: nat) {
    forall node: nat, level: nat ::
      node < nodes && level < numLevels ==> OffsetStored(table, sorted, numLevels, node, level)
  }

  ghost predicate Represents(g: MultiLevelGraph, sorted: seq<LeveledEdge>, numLevels: nat, maxBorder: nat) {
    && g.Shaped() && g.GetNumberOfLevels() == numLevels
    && SortedEdges(sorted, g.NumNodes(), numLevels) && IsMaxBorder(sorted, maxBorder) && maxBorder < g.NumNodes()
    && |g.edgeArray| == |sorted|
    && (forall i :: 0 <= i < |sorted| ==> g.edgeArray[i] == EdgeArrayEntry(sorted[i].edge.target, sorted[i].edge.data))
    && (forall node: nat :: node <= g.NumNodes() ==> Cut(sorted, node, 0, g.nodeArray[node]))
    && |g.nodeToEdgeOffset| == (maxBorder + 1) * numLevels + 1
    && OffsetsStored(g.nodeToEdgeOffset, sorted, numLevels, maxBorder + 1)
  }

  ghost predicate EdgesInRange(edges: seq<Edge>, n: nat) {
    forall i :: 0 <= i < |edges| ==> edges[i].source < n && edges[i].target < n
  }

  // ---------- construction ----------

  /** The cells of the ends differ on `level` and on no level above it. */
  ghost predicate HighestCrossed(mlp: MultiLevelPartition, e: Edge, level: nat)
    requires mlp.Valid() && e.source < mlp.NumNodes() && e.target < mlp.NumNodes()
  {
    && (level > 0 ==> mlp.levelData.IsLevel(level) && mlp.GetCell(level, e.source) != mlp.GetCell(level, e.target))
    && forall l: nat :: mlp.levelData.IsLevel(l) && l > level ==> mlp.GetCell(l, e.source) == mlp.GetCell(l, e.target)
  }

  lemma LevelIsCrossed(mlp: MultiLevelPartition, e: Edge)
    requires mlp.Valid() && e.source < mlp.NumNodes() && e.target < mlp.NumNodes()
    ensures HighestCrossed(mlp, e, mlp.GetHighestDifferentLevel(e.source, e.target))
  {
    hide LevelData.Valid, Field, ReadCell, HighestDifferentLevel, Tidy;
    var a, b := mlp.partition[e.source], mlp.partition[e.target];
    HighestDifferentLevelIsHighest(mlp.levelData, a, b);
    forall l: nat | mlp.levelData.IsLevel(l)
      ensures mlp.GetCell(l, e.source) == Field(mlp.levelData, l, a)
              && mlp.GetCell(l, e.target) == Field(mlp.levelData, l, b)
    {
      ReadCellIsField(mlp.levelData, l, a);
      ReadCellIsField(mlp.levelData, l, b);
    }
  }

  method FindHighestBorderLevels(mlp: MultiLevelPartition, edges: seq<Edge>) returns (leveled: seq<LeveledEdge>)
    requires mlp.Valid() && EdgesInRange(edges, mlp.NumNodes())
    ensures |leveled| == |edges|
    ensures forall i :: 0 <= i < |edges| ==>
      leveled[i] == LeveledEdge(edges[i], mlp.GetHighestDifferentLevel(edges[i].source, edges[i].target))
    ensures forall i :: 0 <= i < |edges| ==> HighestCrossed(mlp, edges[i], leveled[i].level)
  {
    hide HighestCrossed;
    leveled := [];
    for i := 0 to |edges|
      invariant |leveled| == i
      invariant forall j :: 0 <= j < i ==>
        leveled[j] == LeveledEdge(edges[j], mlp.GetHighestDifferentLevel(edges[j].source, edges[j].target))
      invariant forall j :: 0 <= j < i ==> HighestCrossed(mlp, edges[j], leveled[j].level)
    {
      LevelIsCrossed(mlp, edges[i]);
      leveled := leveled + [LeveledEdge(edges[i], mlp.GetHighestDifferentLevel(edges[i].source, edges[i].target))];
    }
  }

  method FindMaxBorderNode(sorted: seq<LeveledEdge>, n: nat, ghost numLevels: nat) returns (maxBorder: nat)
    requires n >= 1 && SortedEdges(sorted, n, numLevels)
    ensures maxBorder < n && IsMaxBorder(sorted, maxBorder)
  {
    maxBorder := 0;
    for i := 0 to |sorted|
      invariant maxBorder < n && IsMaxBorder(sorted[..i], maxBorder)
    {
      if sorted[i].level > 0 {
        var e := sorted[i].edge;
        var m := if e.source < e.target then e.target else e.source;
        assert sorted[..i + 1][i] == sorted[i];
        maxBorder := if maxBorder < m then m else maxBorder;
      }
      assert forall j :: 0 <= j < i ==> sorted[..i + 1][j] == sorted[..i][j];
    }
    assert sorted[..|sorted|] == sorted;
  }

  /** `StaticGraph::InitializeFromSortedEdgeRange` */
  method InitializeNodeArray(sorted: seq<LeveledEdge>, n: nat, numLevels: nat) returns (nodeArray: seq<nat>)
    requires SortedEdges(sorted, n, numLevels)
    ensures |nodeArray| == n + 1
    ensures forall node: nat :: node <= n ==> Cut(sorted, node, 0, nodeArray[node])
  {
    nodeArray := [0];
    var iter := 0;
    for node := 0 to n
      invariant |nodeArray| == node + 1 && iter == nodeArray[node]
      invariant forall v: nat :: v <= node ==> Cut(sorted, v, 0, nodeArray[v])
    {
      ghost var begin := iter;
      while iter < |sorted| && sorted[iter].edge.source == node
        invariant begin <= iter <= |sorted|
        invariant forall i :: begin <= i < iter ==> sorted[i].edge.source == node
      {
        iter := iter + 1;
      }
      forall i | 0 <= i < |sorted| ensures i < iter <==> KeyLess(sorted[i], node + 1, 0) {
        assert i < begin ==> KeyLess(sorted[i], node, 0);
        if iter <= i {
          assert !KeyLess(sorted[iter], node, 0);
          assert iter < i ==> EdgeAtMost(sorted[iter], sorted[i]);
        }
      }
      nodeArray := nodeArray + [iter];
    }
  }

  /** One node's row of the offset table. Offsets are stored modulo 256. */
  method NodeOffsets(sorted: seq<LeveledEdge>, n: nat, numLevels: nat, node: nat, start: nat)
    returns (row: seq<nat>, iter: nat)
    requires SortedEdges(sorted, n, numLevels) && numLevels >= 1 && Cut(sorted, node, 0, start)
    ensures |row| == numLevels && Cut(sorted, node + 1, 0, iter)
    ensures forall level: nat :: level < numLevels ==> RowEntry(row, sorted, node, level, start)
  {
    hide Sorting.Sorted;
    iter := start;
    row := [0];
    assert RowEntry(row, sorted, node, 0, start);
    for level := 0 to numLevels
      invariant |row| == level + 1 && Cut(sorted, node, level, iter)
      invariant forall m: nat :: m <= level ==> RowEntry(row, sorted, node, m, start)
    {
      ghost var begin := iter;
      while iter < |sorted| && sorted[iter].edge.source == node && sorted[iter].level == level
        invariant begin <= iter <= |sorted|
        invariant forall i :: begin <= i < iter ==> sorted[i].edge.source == node && sorted[i].level == level
      {
        iter := iter + 1;
      }
      CutAdvances(sorted, node, level, begin, iter);
      CutsAreOrdered(sorted, node, 0, start, node, level + 1, iter);
      ghost var row' := row;
      row := row + [(iter - start) % OFFSET_RANGE];
      forall m: nat | m <= level + 1 ensures RowEntry(row, sorted, node, m, start) {
        assert m <= level ==> RowEntry(row', sorted, node, m, start);
      }
    }
    CutAtNextNode(sorted, node, numLevels, iter);
    ghost var full := row;
    row := row[..numLevels];
    forall m: nat | m < numLevels ensures RowEntry(row, sorted, node, m, start) {
      assert RowEntry(full, sorted, node, m, start);
    }
  }

  ghost predicate RowEntry(row: seq<nat>, sorted: seq<LeveledEdge>, node: nat, level: nat, start: nat) {
    && level < |row|
    && exists q: nat :: Cut(sorted, node, level, q) && start <= q && row[level] == (q - start) % OFFSET_RANGE
  }

  lemma RowIsStored(table: seq<nat>, row: seq<nat>, sorted: seq<LeveledEdge>, numLevels: nat, node: nat, start: nat)
    requires |row| == numLevels && |table| == node * numLevels && Cut(sorted, node, 0, start)
    requires forall level: nat :: level < numLevels ==> RowEntry(row, sorted, node, level, start)
    requires OffsetsStored(table, sorted, numLevels, node)
    ensures OffsetsStored(table + row, sorted, numLevels, node + 1)
  {
    hide Cut;
    forall v: nat, level: nat | v < node + 1 && level < numLevels
      ensures OffsetStored(table + row, sorted, numLevels, v, level)
    {
      if v == node {
        assert RowEntry(row, sorted, node, level, start);
        assert (table + row)[node * numLevels + level] == row[level];
      } else {
        assert OffsetStored(table, sorted, numLevels, v, level);
      }
    }
  }

  /** `InitializeOffsetsFromSortedEdges`: rows for the nodes up to the last border node, then the number of levels. */
  method InitializeOffsets(sorted: seq<LeveledEdge>, n: nat, numLevels: nat, maxBorder: nat) returns (table: seq<nat>)
    requires SortedEdges(sorted, n, numLevels) && numLevels >= 1 && maxBorder < n
    ensures |table| == (maxBorder + 1) * numLevels + 1 && table[|table| - 1] == numLevels
    ensures WholeRows(|table| - 1, numLevels)
    ensures OffsetsStored(table, sorted, numLevels, maxBorder + 1)
  {
    hide SortedEdges, RowEntry;
    table := [];
    var iter := 0;
    assert Cut(sorted, 0, 0, 0);
    hide Cut;
    for node := 0 to maxBorder + 1
      invariant |table| == node * numLevels && Cut(sorted, node, 0, iter)
      invariant OffsetsStored(table, sorted, numLevels, node)
    {
      var row, next := NodeOffsets(sorted, n, numLevels, node, iter);
      RowIsStored(table, row, sorted, numLevels, node, iter);
      table := table + row;
      iter := next;
    }
    assert IsTable(maxBorder + 1, numLevels, |table|);
    ghost var rows := table;
    table := table + [numLevels];
    forall v: nat, level: nat | v < maxBorder + 1 && level < numLevels
      ensures OffsetStored(table, sorted, numLevels, v, level)
    {
      assert OffsetStored(rows, sorted, numLevels, v, level);
    }
  }

  lemma EdgeOrderIsTotal()
    ensures Sorting.Total((a, b) => EdgeAtMost(a, b))
  {
  }

  /** The constructor; `sorted` is the sorted edge list, kept for the specification. */
  method Build(mlp: MultiLevelPartition, n: nat, edges: seq<Edge>)
    returns (g: MultiLevelGraph, ghost sorted: seq<LeveledEdge>, ghost maxBorder: nat)
    requires mlp.Valid() && n == mlp.NumNodes() && n >= 1 && EdgesInRange(edges, n)
    ensures g.Shaped() && g.NumNodes() == n && Represents(g, sorted, mlp.GetNumberOfLevels(), maxBorder)
    ensures SortedFrom(sorted, edges, mlp) && BySourceLevelTarget(sorted)
  {
    assert mlp.GetNumberOfLevels() >= 1;
    hide LevelData.Valid, SortedFrom, SortedEdges, IsMaxBorder, OffsetsStored, Cut, Sorting.Total, Sorting.Sorted;
    hide HighestCrossed, Represents, MultiLevelGraph.Shaped, WholeRows, BySourceLevelTarget;
    var numLevels := mlp.GetNumberOfLevels();
    var leveled := FindHighestBorderLevels(mlp, edges);
    EdgeOrderIsTotal();
    var s := Sorting.Sort(leveled, (a, b) => EdgeAtMost(a, b));
    SortedEdgesComeFrom(mlp, edges, leveled, s);
    var nodeArray := InitializeNodeArray(s, n, numLevels);
    var border := FindMaxBorderNode(s, n, numLevels);
    var table := InitializeOffsets(s, n, numLevels, border);
    var edgeArray := seq(|s|, i requires 0 <= i < |s| => EdgeArrayEntry(s[i].edge.target, s[i].edge.data));
    g := MultiLevelGraph(nodeArray, edgeArray, table);
    sorted, maxBorder := s, border;
    ArraysRepresent(g, s, n, numLevels, border);
    SortedByFields(s);
  }

  /** The edges come by source, those of one source by the highest level on which they cross, and then by target. */
  ghost predicate BySourceLevelTarget(sorted: seq<LeveledEdge>) {
    forall i, j :: 0 <= i < j < |sorted| ==>
      var a, b := sorted[i], sorted[j];
      && a.edge.source <= b.edge.source
      && (a.edge.source == b.edge.source ==>
            a.level <= b.level && (a.level == b.level ==> a.edge.target <= b.edge.target))
  }

  lemma SortedByFields(sorted: seq<LeveledEdge>)
    requires Sorting.Sorted(sorted, (a, b) => EdgeAtMost(a, b))
    ensures BySourceLevelTarget(sorted)
  {
    forall i, j | 0 <= i < j < |sorted| ensures EdgeAtMost(sorted[i], sorted[j]) {
    }
  }

  lemma ArraysRepresent(g: MultiLevelGraph, sorted: seq<LeveledEdge>, n: nat, numLevels: nat, maxBorder: nat)
    requires numLevels >= 1 && SortedEdges(sorted, n, numLevels) && IsMaxBorder(sorted, maxBorder) && maxBorder < n
    requires |g.nodeArray| == n + 1 && forall node: nat :: node <= n ==> Cut(sorted, node, 0, g.nodeArray[node])
    requires |g.edgeArray| == |sorted|
    requires forall i ::
               0 <= i < |sorted| ==> g.edgeArray[i] == EdgeArrayEntry(sorted[i].edge.target, sorted[i].edge.data)
    requires |g.nodeToEdgeOffset| == (maxBorder + 1) * numLevels + 1
    requires g.nodeToEdgeOffset[|g.nodeToEdgeOffset| - 1] == numLevels
    requires WholeRows(|g.nodeToEdgeOffset| - 1, numLevels)
    requires OffsetsStored(g.nodeToEdgeOffset, sorted, numLevels, maxBorder + 1)
    ensures g.Shaped() && g.NumNodes() == n && Represents(g, sorted, numLevels, maxBorder)
  {
    hide SortedEdges, IsMaxBorder, OffsetsStored, Cut;
  }

  /** The sorted list holds exactly the input edges, each with its highest differing level. */
  ghost predicate SortedFrom(sorted: seq<LeveledEdge>, edges: seq<Edge>, mlp: MultiLevelPartition)
    requires mlp.Valid() && EdgesInRange(edges, mlp.NumNodes())
  {
    && multiset(Sorting.Mapped(sorted, (e: LeveledEdge) => e.edge)) == multiset(edges)
    && forall i :: 0 <= i < |sorted| ==> LevelIsHighest(sorted[i], mlp)
  }

  ghost predicate LevelIsHighest(e: LeveledEdge, mlp: MultiLevelPartition)
    requires mlp.Valid()
  {
    && e.edge.source < mlp.NumNodes() && e.edge.target < mlp.NumNodes()
    && e.level == mlp.GetHighestDifferentLevel(e.edge.source, e.edge.target) < mlp.GetNumberOfLevels()
  }

  lemma SortedEdgesComeFrom(mlp: MultiLevelPartition, edges: seq<Edge>, leveled: seq<LeveledEdge>,
                            sorted: seq<LeveledEdge>)
    requires mlp.Valid() && EdgesInRange(edges, mlp.NumNodes()) && |leveled| == |edges|
    requires forall i :: 0 <= i < |edges| ==>
      leveled[i] == LeveledEdge(edges[i], mlp.GetHighestDifferentLevel(edges[i].source, edges[i].target))
    requires multiset(sorted) == multiset(leveled) && Sorting.Sorted(sorted, (a, b) => EdgeAtMost(a, b))
    ensures SortedFrom(sorted, edges, mlp) && SortedEdges(sorted, mlp.NumNodes(), mlp.GetNumberOfLevels())
  {
    hide Sorting.Sorted;
    var f := (e: LeveledEdge) => e.edge;
    Sorting.MappedPermutation(sorted, leveled, f);
    assert Sorting.Mapped(leveled, f) == edges;
    forall i | 0 <= i < |sorted| ensures LevelIsHighest(sorted[i], mlp) {
      Sorting.SameMembers(sorted, leveled, sorted[i]);
      var k :| 0 <= k < |leveled| && leveled[k] == sorted[i];
      HighestDifferentLevelIsHighest(mlp.levelData, mlp.partition[edges[k].source], mlp.partition[edges[k].target]);
    }
  }

  // ---------- what the ranges contain ----------

  /** The table is exact at (`node`, `level`): the node is not covered, or the count fits into a byte. */
  ghost predicate OffsetFits(g: MultiLevelGraph, sorted: seq<LeveledEdge>, maxBorder: nat, level: nat, node: nat) {
    || node > maxBorder
    || forall p: nat, q: nat :: Cut(sorted, node, 0, p) && Cut(sorted, node, level, q) ==> q - p < OFFSET_RANGE
  }

  lemma BeyondTableIsInternal(sorted: seq<LeveledEdge>, maxBorder: nat, level: nat, node: nat, p: nat)
    requires IsMaxBorder(sorted, maxBorder) && node > maxBorder && level >= 1
    ensures Cut(sorted, node, level, p) <==> Cut(sorted, node + 1, 0, p)
  {
    assert forall i :: 0 <= i < |sorted| ==> (KeyLess(sorted[i], node, level) <==> KeyLess(sorted[i], node + 1, 0));
  }

  lemma RowIndex(node: nat, rows: nat, width: nat)
    requires width >= 1
    ensures node * width < rows * width <==> node < rows
  {
    assert node < rows ==> (node + 1) * width <= rows * width;
    assert rows <= node ==> rows * width <= node * width;
  }

  /** The first border edge is where the sort put it, exactly if the stored offset was not truncated. */
  lemma BorderStartIsCut(g: MultiLevelGraph, sorted: seq<LeveledEdge>, numLevels: nat, maxBorder: nat, level: nat,
                         node: nat)
    requires Represents(g, sorted, numLevels, maxBorder) && node < g.NumNodes() && level < numLevels
    ensures Cut(sorted, node, level, g.BeginBorderEdges(level, node)) <==> OffsetFits(g, sorted, maxBorder, level, node)
  {
    hide SortedEdges;
    RowIndex(node, maxBorder + 1, numLevels);
    assert Cut(sorted, node, 0, g.nodeArray[node]);
    assert Cut(sorted, node + 1, 0, g.nodeArray[node + 1]);
    if node > maxBorder {
      if level > 0 {
        BeyondTableIsInternal(sorted, maxBorder, level, node, g.nodeArray[node + 1]);
      }
    } else {
      assert OffsetStored(g.nodeToEdgeOffset, sorted, numLevels, node, level);
      CoveredBorderStart(g, sorted, numLevels, maxBorder, level, node);
    }
  }

  lemma CoveredBorderStart(g: MultiLevelGraph, sorted: seq<LeveledEdge>, numLevels: nat, maxBorder: nat, level: nat,
                           node: nat)
    requires g.Shaped() && g.GetNumberOfLevels() == numLevels && node < g.NumNodes() && level < numLevels
    requires node <= maxBorder && Cut(sorted, node, 0, g.nodeArray[node])
    requires node * numLevels < |g.nodeToEdgeOffset| - 1
    requires OffsetStored(g.nodeToEdgeOffset, sorted, numLevels, node, level)
    ensures Cut(sorted, node, level, g.BeginBorderEdges(level, node)) <==> OffsetFits(g, sorted, maxBorder, level, node)
  {
    var p: nat, q: nat :| Cut(sorted, node, 0, p) && Cut(sorted, node, level, q) && p <= q
                          && g.nodeToEdgeOffset[node * numLevels + level] == (q - p) % OFFSET_RANGE;
    hide Cut, OffsetFits;
    CutIsUnique(sorted, node, 0, p, g.nodeArray[node]);
    TruncatedStart(g, sorted, maxBorder, level, node, p, q);
  }

  lemma TruncatedStart(g: MultiLevelGraph, sorted: seq<LeveledEdge>, maxBorder: nat, level: nat, node: nat, p: nat,
                       q: nat)
    requires node <= maxBorder && p <= q && Cut(sorted, node, 0, p) && Cut(sorted, node, level, q)
    ensures Cut(sorted, node, level, p + (q - p) % OFFSET_RANGE) <==> OffsetFits(g, sorted, maxBorder, level, node)
  {
    hide Cut;
    forall p': nat, q': nat | Cut(sorted, node, 0, p') && Cut(sorted, node, level, q') ensures p' == p && q' == q {
      CutIsUnique(sorted, node, 0, p, p');
      CutIsUnique(sorted, node, level, q, q');
    }
    if Cut(sorted, node, level, p + (q - p) % OFFSET_RANGE) {
      CutIsUnique(sorted, node, level, q, p + (q - p) % OFFSET_RANGE);
    }
  }

  /** On a level, the internal range of a node holds exactly its edges that stay in its cell and the
      border range exactly the others. */
  ghost predicate SplitsExactly(g: MultiLevelGraph, mlp: MultiLevelPartition, sorted: seq<LeveledEdge>, level: nat,
                                node: nat)
    requires g.Shaped() && mlp.Valid() && mlp.levelData.IsLevel(level) && level < g.GetNumberOfLevels()
             && node < g.NumNodes()
    requires g.NumNodes() == mlp.NumNodes()
  {
    && g.BeginEdges(node) <= g.BeginBorderEdges(level, node) <= g.EndEdges(node) <= |sorted|
    && (forall i ::
          0 <= i < |sorted| ==> (g.BeginEdges(node) <= i < g.EndEdges(node) <==> sorted[i].edge.source == node))
    && (forall i :: g.BeginEdges(node) <= i < g.EndEdges(node) ==>
          sorted[i].edge.target < g.NumNodes()
          && (i < g.BeginBorderEdges(level, node)
              <==> mlp.GetCell(level, node) == mlp.GetCell(level, sorted[i].edge.target)))
  }

  lemma CutsGiveRanges(g: MultiLevelGraph, sorted: seq<LeveledEdge>, level: nat, node: nat, p: nat, b: nat, q: nat)
    requires Cut(sorted, node, 0, p) && Cut(sorted, node, level, b) && Cut(sorted, node + 1, 0, q)
    ensures p <= b <= q <= |sorted|
    ensures forall i :: 0 <= i < |sorted| ==> (p <= i < q <==> sorted[i].edge.source == node)
    ensures forall i :: p <= i < q ==> (i < b <==> sorted[i].level < level)
  {
    CutsAreOrdered(sorted, node, 0, p, node, level, b);
    CutsAreOrdered(sorted, node, level, b, node + 1, 0, q);
  }

  lemma RangesGiveCut(sorted: seq<LeveledEdge>, level: nat, node: nat, p: nat, b: nat, q: nat)
    requires Cut(sorted, node, 0, p) && Cut(sorted, node + 1, 0, q) && p <= b <= q <= |sorted|
    requires forall i :: p <= i < q ==> (i < b <==> sorted[i].level < level)
    ensures Cut(sorted, node, level, b)
  {
    forall i | 0 <= i < |sorted| ensures i < b <==> KeyLess(sorted[i], node, level) {
      assert i < p <==> KeyLess(sorted[i], node, 0);
      assert i < q <==> KeyLess(sorted[i], node + 1, 0);
    }
  }

  lemma LevelTellsCell(mlp: MultiLevelPartition, cells: seq<seq<nat>>, order: seq<nat>, e: LeveledEdge, level: nat)
    requires Packed(mlp, cells, order) && mlp.levelData.IsLevel(level) && LevelIsHighest(e, mlp)
    ensures e.level < level <==> mlp.GetCell(level, e.edge.source) == mlp.GetCell(level, e.edge.target)
  {
    hide LevelData.Valid, Ordered, NestedCells.Nested, Numbered, ChildrenListed, IsPermutation;
    HighestDifferentLevelSplits(mlp, cells, order, level, e.edge.source, e.edge.target);
  }

  /** The level of an edge tells whether it leaves the cell. */
  ghost predicate LevelsTellCells(mlp: MultiLevelPartition, sorted: seq<LeveledEdge>, level: nat, node: nat)
    requires mlp.Valid() && mlp.levelData.IsLevel(level) && node < mlp.NumNodes()
  {
    forall i :: 0 <= i < |sorted| && sorted[i].edge.source == node ==>
      && sorted[i].edge.target < mlp.NumNodes()
      && (sorted[i].level < level <==> mlp.GetCell(level, node) == mlp.GetCell(level, sorted[i].edge.target))
  }

  lemma LevelsTell(mlp: MultiLevelPartition, cells: seq<seq<nat>>, order: seq<nat>, edges: seq<Edge>,
                   sorted: seq<LeveledEdge>, level: nat, node: nat)
    requires Packed(mlp, cells, order) && EdgesInRange(edges, mlp.NumNodes()) && SortedFrom(sorted, edges, mlp)
    requires mlp.levelData.IsLevel(level) && node < mlp.NumNodes()
    ensures LevelsTellCells(mlp, sorted, level, node)
  {
    hide Packed, LevelData.Valid, MultiLevelPartition.GetCell;
    PackedFacts(mlp, cells, order);
    forall i | 0 <= i < |sorted| && sorted[i].edge.source == node
      ensures sorted[i].edge.target < mlp.NumNodes()
      ensures sorted[i].level < level <==> mlp.GetCell(level, node) == mlp.GetCell(level, sorted[i].edge.target)
    {
      assert LevelIsHighest(sorted[i], mlp);
      LevelTellsCell(mlp, cells, order, sorted[i], level);
    }
  }

  /** The ranges are exact exactly when the border range starts where the sort put it. */
  lemma SplitIsCut(g: MultiLevelGraph, mlp: MultiLevelPartition, sorted: seq<LeveledEdge>, level: nat, node: nat)
    requires g.Shaped() && mlp.Valid() && mlp.levelData.IsLevel(level) && level < g.GetNumberOfLevels()
             && node < g.NumNodes()
    requires g.NumNodes() == mlp.NumNodes() && LevelsTellCells(mlp, sorted, level, node)
    requires Cut(sorted, node, 0, g.nodeArray[node]) && Cut(sorted, node + 1, 0, g.nodeArray[node + 1])
    ensures SplitsExactly(g, mlp, sorted, level, node) <==> Cut(sorted, node, level, g.BeginBorderEdges(level, node))
  {
    hide Cut, LevelData.Valid, MultiLevelGraph.Shaped, MultiLevelGraph.BeginBorderEdges, MultiLevelPartition.GetCell;
    var p, b, q := g.BeginEdges(node), g.BeginBorderEdges(level, node), g.EndEdges(node);
    CutsGiveRanges(g, sorted, 0, node, p, p, q);
    if Cut(sorted, node, level, b) {
      CutsGiveRanges(g, sorted, level, node, p, b, q);
    } else if SplitsExactly(g, mlp, sorted, level, node) {
      RangesGiveCut(sorted, level, node, p, b, q);
    }
  }

  lemma NodeCuts(g: MultiLevelGraph, sorted: seq<LeveledEdge>, numLevels: nat, maxBorder: nat, node: nat)
    requires Represents(g, sorted, numLevels, maxBorder) && node < g.NumNodes()
    ensures g.Shaped() && g.GetNumberOfLevels() == numLevels
    ensures Cut(sorted, node, 0, g.nodeArray[node]) && Cut(sorted, node + 1, 0, g.nodeArray[node + 1])
  {
    hide Cut, SortedEdges, IsMaxBorder, OffsetsStored;
  }

  /** The ranges are exact if and only if the node is behind the table or its count fits into a byte. */
  lemma RangeSplitIsExact(g: MultiLevelGraph, mlp: MultiLevelPartition, cells: seq<seq<nat>>, order: seq<nat>,
                          edges: seq<Edge>, sorted: seq<LeveledEdge>, maxBorder: nat, level: nat, node: nat)
    requires Packed(mlp, cells, order) && EdgesInRange(edges, mlp.NumNodes()) && SortedFrom(sorted, edges, mlp)
    requires Represents(g, sorted, mlp.GetNumberOfLevels(), maxBorder) && g.NumNodes() == mlp.NumNodes()
    requires mlp.levelData.IsLevel(level) && node < g.NumNodes()
    ensures SplitsExactly(g, mlp, sorted, level, node) <==> OffsetFits(g, sorted, maxBorder, level, node)
  {
    hide Represents, OffsetFits, SplitsExactly, SortedFrom, LevelsTellCells, LevelData.Valid, MultiLevelGraph.Shaped;
    hide Cut;
    NodeCuts(g, sorted, mlp.GetNumberOfLevels(), maxBorder, node);
    BorderStartIsCut(g, sorted, mlp.GetNumberOfLevels(), maxBorder, level, node);
    LevelsTell(mlp, cells, order, edges, sorted, level, node);
    SplitIsCut(g, mlp, sorted, level, node);
  }

  // ---------- the adjacency array as a set of edges ----------

  function EdgeAt(g: MultiLevelGraph, node: nat, i: nat): Edge
    requires i < |g.edgeArray|
  {
    Edge(node, g.edgeArray[i].target, g.edgeArray[i].data)
  }

  predicate Adjacent(g: MultiLevelGraph, node: nat, i: nat)
    requires g.Shaped() && node < g.NumNodes()
  {
    g.BeginEdges(node) <= i < g.EndEdges(node) && i < |g.edgeArray|
  }

  /** The ranges of the nodes list exactly the given edges. */
  ghost predicate Stores(g: MultiLevelGraph, edges: seq<Edge>) {
    && g.Shaped()
    && (forall node: nat :: node < g.NumNodes() ==> g.BeginEdges(node) <= g.EndEdges(node) <= |g.edgeArray|)
    && (forall node: nat, i: nat :: node < g.NumNodes() && Adjacent(g, node, i) ==>
          EdgeAt(g, node, i) in edges && g.edgeArray[i].target < g.NumNodes())
    && (forall e ::
          e in edges ==>
            e.source < g.NumNodes() && exists i: nat :: Adjacent(g, e.source, i) && EdgeAt(g, e.source, i) == e)
  }

  lemma GraphStoresEdges(g: MultiLevelGraph, mlp: MultiLevelPartition, edges: seq<Edge>, sorted: seq<LeveledEdge>,
                         maxBorder: nat)
    requires mlp.Valid() && EdgesInRange(edges, mlp.NumNodes()) && SortedFrom(sorted, edges, mlp)
    requires Represents(g, sorted, mlp.GetNumberOfLevels(), maxBorder) && g.NumNodes() == mlp.NumNodes()
    ensures Stores(g, edges)
  {
    hide LevelData.Valid, SortedEdges, OffsetsStored, IsMaxBorder, MultiLevelGraph.Shaped;
    hide MultiLevelPartition.GetHighestDifferentLevel;
    var f := (e: LeveledEdge) => e.edge;
    var image := Sorting.Mapped(sorted, f);
    forall node: nat | node < g.NumNodes()
      ensures g.BeginEdges(node) <= g.EndEdges(node) <= |g.edgeArray|
      ensures forall i ::
                0 <= i < |sorted| ==> (g.BeginEdges(node) <= i < g.EndEdges(node) <==> sorted[i].edge.source == node)
    {
      assert Cut(sorted, node, 0, g.nodeArray[node]) && Cut(sorted, node + 1, 0, g.nodeArray[node + 1]);
      CutsGiveRanges(g, sorted, 0, node, g.nodeArray[node], g.nodeArray[node], g.nodeArray[node + 1]);
    }
    forall node: nat, i: nat | node < g.NumNodes() && Adjacent(g, node, i)
      ensures EdgeAt(g, node, i) in edges && g.edgeArray[i].target < g.NumNodes()
    {
      assert EdgeAt(g, node, i) == image[i];
      Sorting.SameMembers(image, edges, image[i]);
      assert LevelIsHighest(sorted[i], mlp);
    }
    forall e | e in edges
      ensures e.source < g.NumNodes() && exists i: nat :: Adjacent(g, e.source, i) && EdgeAt(g, e.source, i) == e
    {
      Sorting.SameMembers(image, edges, e);
      var i :| 0 <= i < |image| && image[i] == e;
      assert LevelIsHighest(sorted[i], mlp);
      assert Adjacent(g, e.source, i) && EdgeAt(g, e.source, i) == e;
    }
  }
}
