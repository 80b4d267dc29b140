/**
 Collecting the border nodes of all cells of a level and appending them, grouped by cell,
 to one flat array.
 */
module CellBoundaries {
  import opened RoadGraph
  import opened OverlayNetwork
  import opened LevelLayout
  import opened MultiLevelPartitions
  import opened MultiLevelGraphs
  import Sorting

  /** A stretch of a boundary array. */
  datatype Span = Span(offset: nat, count: nat)

  const INVALID_BOUNDARY_OFFSET: nat := 0xFFFF_FFFF_FFFF_FFFF

  const NO_SPAN := Span(INVALID_BOUNDARY_OFFSET, 0)

  predicate SpanFits(boundary: seq<nat>, span: Span) {
    span.count == 0 || span.offset + span.count <= |boundary|
  }

  function Slice(boundary: seq<nat>, span: Span): seq<nat>
    requires SpanFits(boundary, span)
  {
    if span.count == 0 then [] else boundary[span.offset..span.offset + span.count]
  }

  /** A cell id and a node, compared as `std::pair`. */
  type CellNode = (nat, nat)

  /** The nodes listed for cell `c`, in list order. */
  ghost function NodesOf(pairs: seq<CellNode>, c: nat): seq<nat> {
    if pairs == [] then []
    else
      var k := |pairs| - 1;
      NodesOf(pairs[..k], c) + (if pairs[k].0 == c then [pairs[k].1] else [])
  }

  lemma {:induction false} NodesOfConcat(a: seq<CellNode>, b: seq<CellNode>, c: nat)
    ensures NodesOf(a + b, c) == NodesOf(a, c) + NodesOf(b, c)
    decreases |b|
  {
    if b == [] {
      assert a + b == a;
    } else {
      var k := |b| - 1;
      NodesOfConcat(a, b[..k], c);
      assert (a + b)[..|a + b| - 1] == a + b[..k];
    }
  }

  lemma {:induction false} NodesOfAbsent(a: seq<CellNode>, c: nat)
    requires forall i :: 0 <= i < |a| ==> a[i].0 != c
    ensures NodesOf(a, c) == []
    decreases |a|
  {
    if a != [] {
      NodesOfAbsent(a[..|a| - 1], c);
    }
  }

  function Seconds(pairs: seq<CellNode>): (r: seq<nat>)
    ensures |r| == |pairs|
  {
    seq(|pairs|, i requires 0 <= i < |pairs| => pairs[i].1)
  }

  lemma {:induction false} NodesOfUniform(a: seq<CellNode>, c: nat)
    requires forall i :: 0 <= i < |a| ==> a[i].0 == c
    ensures NodesOf(a, c) == Seconds(a)
    decreases |a|
  {
    if a != [] {
      var k := |a| - 1;
      NodesOfUniform(a[..k], c);
      assert Seconds(a) == Seconds(a[..k]) + [a[k].1];
    }
  }

  lemma {:induction false} NodesOfMembers(a: seq<CellNode>, c: nat, v: nat)
    ensures v in NodesOf(a, c) <==> (c, v) in a
    decreases |a|
  {
    if a != [] {
      var k := |a| - 1;
      NodesOfMembers(a[..k], c, v);
      assert a == a[..k] + [a[k]];
    }
  }

  ghost predicate Ascending(s: seq<nat>) {
    forall i, j :: 0 <= i < j < |s| ==> s[i] < s[j]
  }

  ghost predicate NoDuplicates(pairs: seq<CellNode>) {
    forall x :: multiset(pairs)[x] <= 1
  }

  lemma NoDuplicatesDiffer(pairs: seq<CellNode>, i: nat, j: nat)
    requires NoDuplicates(pairs) && i < j < |pairs|
    ensures pairs[i] != pairs[j]
  {
    assert pairs == pairs[..j] + [pairs[j]] + pairs[j + 1..];
    assert pairs[..j][i] == pairs[i];
    assert pairs[i] in multiset(pairs[..j]);
    assert multiset(pairs)[pairs[j]] >= multiset(pairs[..j])[pairs[j]] + 1;
  }

  lemma LastNodeIsLargest(a: seq<CellNode>, k: nat, v: nat)
    requires Sorting.Sorted(a, (x, y) => Sorting.PairAtMost(x, y)) && NoDuplicates(a) && k < |a|
    requires v in NodesOf(a[..k], a[k].0)
    ensures v < a[k].1
  {
    NodesOfMembers(a[..k], a[k].0, v);
    var i :| 0 <= i < k && a[..k][i] == (a[k].0, v);
    NoDuplicatesDiffer(a, i, k);
    assert Sorting.PairAtMost(a[i], a[k]);
  }

  lemma AscendingSnoc(s: seq<nat>, v: nat)
    requires Ascending(s) && forall x :: x in s ==> x < v
    ensures Ascending(s + [v])
  {
    forall i, j | 0 <= i < j < |s + [v]| ensures (s + [v])[i] < (s + [v])[j] {
      assert s[i] in s;
    }
  }

  lemma NoDuplicatesPrefix(a: seq<CellNode>, k: nat)
    requires NoDuplicates(a) && k <= |a|
    ensures NoDuplicates(a[..k])
  {
    assert a == a[..k] + a[k..];
    forall x ensures multiset(a[..k])[x] <= 1 {
      assert multiset(a)[x] <= 1;
    }
  }

  lemma {:induction false} NodesOfAscend(a: seq<CellNode>, c: nat)
    requires Sorting.Sorted(a, (x, y) => Sorting.PairAtMost(x, y)) && NoDuplicates(a)
    ensures Ascending(NodesOf(a, c))
    decreases |a|
  {
    if a != [] {
      var k := |a| - 1;
      NoDuplicatesPrefix(a, k);
      NodesOfAscend(a[..k], c);
      if a[k].0 == c {
        forall v | v in NodesOf(a[..k], c) ensures v < a[k].1 {
          LastNodeIsLargest(a, k, v);
        }
        AscendingSnoc(NodesOf(a[..k], c), a[k].1);
      }
    }
  }

  // ---------- appending the groups ----------

  ghost predicate Grouped(boundary: seq<nat>, spans: seq<Span>, levelOffset: nat, numCells: nat, pairs: seq<CellNode>)
    requires levelOffset + numCells <= |spans|
  {
    forall c: nat :: c < numCells ==> ListsGroup(boundary, spans, levelOffset, c, pairs)
  }

  ghost predicate ListsGroup(boundary: seq<nat>, spans: seq<Span>, levelOffset: nat, c: nat, pairs: seq<CellNode>)
    requires levelOffset + c < |spans|
  {
    var span := spans[levelOffset + c];
    SpanFits(boundary, span) && Slice(boundary, span) == NodesOf(pairs, c)
  }

  lemma SliceOfLonger(boundary: seq<nat>, more: seq<nat>, span: Span)
    requires SpanFits(boundary, span)
    ensures SpanFits(boundary + more, span) && Slice(boundary + more, span) == Slice(boundary, span)
  {
    if span.count > 0 {
      assert (boundary + more)[span.offset..span.offset + span.count]
               == boundary[span.offset..span.offset + span.count];
    }
  }

  /** Appending one group of equal cells lists that cell and leaves the others alone. */
  lemma GroupAppended(boundary: seq<nat>, spans: seq<Span>, levelOffset: nat, numCells: nat, done: seq<CellNode>,
                      group: seq<CellNode>, key: nat)
    requires levelOffset + numCells <= |spans| && key < numCells
    requires Grouped(boundary, spans, levelOffset, numCells, done)
    requires group != [] && (forall i :: 0 <= i < |group| ==> group[i].0 == key)
    requires forall i :: 0 <= i < |done| ==> done[i].0 != key
    ensures Grouped(boundary + Seconds(group), spans[levelOffset + key := Span(|boundary|, |group|)],
                    levelOffset, numCells, done + group)
  {
    hide NodesOf, Seconds;
    var boundary', all := boundary + Seconds(group), done + group;
    var spans' := spans[levelOffset + key := Span(|boundary|, |group|)];
    forall c: nat | c < numCells ensures ListsGroup(boundary', spans', levelOffset, c, all) {
      NodesOfConcat(done, group, c);
      if c == key {
        NodesOfAbsent(done, c);
        NodesOfUniform(group, c);
        assert boundary'[|boundary|..] == Seconds(group);
      } else {
        NodesOfAbsent(group, c);
        assert ListsGroup(boundary, spans, levelOffset, c, done);
        SliceOfLonger(boundary, Seconds(group), spans[levelOffset + c]);
      }
    }
  }

  ghost predicate OtherSpansKept(spans: seq<Span>, spans': seq<Span>, levelOffset: nat, numCells: nat) {
    |spans'| == |spans|
    && forall k :: 0 <= k < |spans| && !(levelOffset <= k < levelOffset + numCells) ==> spans'[k] == spans[k]
  }

  /** `for_each_range` over the sorted pairs with `insert_cell_boundary`. */
  method InsertCellBoundaries(pairs: seq<CellNode>, boundary0: seq<nat>, spans0: seq<Span>, levelOffset: nat,
                              numCells: nat)
    returns (boundary: seq<nat>, spans: seq<Span>)
    requires Sorting.Sorted(pairs, (x, y) => Sorting.PairAtMost(x, y))
             && forall k :: 0 <= k < |pairs| ==> pairs[k].0 < numCells
    requires levelOffset + numCells <= |spans0|
    requires forall k :: levelOffset <= k < levelOffset + numCells ==> spans0[k] == NO_SPAN
    ensures boundary0 <= boundary && OtherSpansKept(spans0, spans, levelOffset, numCells)
    ensures Grouped(boundary, spans, levelOffset, numCells, pairs)
  {
    hide NodesOf, Seconds, Slice;
    boundary, spans := boundary0, spans0;
    var iter := 0;
    NothingGrouped(boundary, spans, levelOffset, numCells);
    assert pairs[..0] == [];
    while iter < |pairs|
      invariant iter <= |pairs| && boundary0 <= boundary
      invariant OtherSpansKept(spans0, spans, levelOffset, numCells)
      invariant Grouped(boundary, spans, levelOffset, numCells, pairs[..iter])
      invariant forall i, j :: 0 <= i < iter <= j < |pairs| ==> pairs[i].0 < pairs[j].0
    {
      var key, begin := pairs[iter].0, iter;
      while iter < |pairs| && pairs[iter].0 == key
        invariant begin <= iter <= |pairs|
        invariant iter == begin ==> pairs[begin].0 == key
        invariant forall i :: begin <= i < iter ==> pairs[i].0 == key
      {
        iter := iter + 1;
      }
      var group := pairs[begin..iter];
      GroupAppended(boundary, spans, levelOffset, numCells, pairs[..begin], group, key);
      assert pairs[..iter] == pairs[..begin] + group;
      RangeEnds(pairs, begin, iter, key);
      spans := spans[levelOffset + key := Span(|boundary|, |group|)];
      boundary := boundary + Seconds(group);
    }
    assert pairs[..|pairs|] == pairs;
  }

  lemma NothingGrouped(boundary: seq<nat>, spans: seq<Span>, levelOffset: nat, numCells: nat)
    requires levelOffset + numCells <= |spans|
    requires forall k :: levelOffset <= k < levelOffset + numCells ==> spans[k] == NO_SPAN
    ensures Grouped(boundary, spans, levelOffset, numCells, [])
  {
  }

  lemma RangeEnds(pairs: seq<CellNode>, begin: nat, end: nat, key: nat)
    requires Sorting.Sorted(pairs, (x, y) => Sorting.PairAtMost(x, y)) && begin < end <= |pairs|
    requires forall i, j :: 0 <= i < begin <= j < |pairs| ==> pairs[i].0 < pairs[j].0
    requires forall i :: begin <= i < end ==> pairs[i].0 == key
    requires end < |pairs| ==> pairs[end].0 != key
    ensures forall i, j :: 0 <= i < end <= j < |pairs| ==> pairs[i].0 < pairs[j].0
  {
    forall j | end <= j < |pairs| ensures key < pairs[j].0 {
      assert Sorting.PairAtMost(pairs[begin], pairs[end]);
      assert end < j ==> Sorting.PairAtMost(pairs[end], pairs[j]);
    }
  }

  // ---------- scanning the nodes of a level ----------

  /** The packed partition and the adjacency array describe this network. */
  ghost predicate Describes(mlp: MultiLevelPartition, g: MultiLevelGraph, net: Network) {
    && mlp.Valid() && net.Shaped() && net.EdgesInRange() && Stores(g, net.edges)
    && g.NumNodes() == net.numNodes == mlp.NumNodes() && mlp.levelData.numLevel == |net.cells| + 1
    && forall l: nat, v: nat :: mlp.levelData.IsLevel(l) && v < net.numNodes ==> CellAgrees(mlp, net, l, v)
  }

  ghost predicate CellAgrees(mlp: MultiLevelPartition, net: Network, l: nat, v: nat)
    requires mlp.Valid() && net.Shaped() && mlp.levelData.IsLevel(l) && l <= |net.cells| && v < net.numNodes
             && v < |mlp.partition|
  {
    mlp.GetCell(l, v) == net.Cell(l, v)
  }

  /** The node has edges over the border but none inside the cell. */
  ghost predicate Unconnected(net: Network, level: nat, v: nat)
    requires net.Shaped() && net.EdgesInRange() && level <= |net.cells|
  {
    net.Boundary(level, v) && !net.HasInnerForward(level, v) && !net.HasInnerBackward(level, v)
  }

  /** One node's edges: does one leave the cell, is there one inside that can be travelled from or to the node? */
  method ScanNode(mlp: MultiLevelPartition, g: MultiLevelGraph, level: nat, node: nat, ghost net: Network)
    returns (isBoundary: bool, isSource: bool, isDestination: bool)
    requires Describes(mlp, g, net) && net.links == net.edges && mlp.levelData.IsLevel(level) && node < net.numNodes
    ensures isBoundary == net.Boundary(level, node)
    ensures isSource == net.HasInnerForward(level, node)
    ensures isDestination == net.HasInnerBackward(level, node)
  {
    isBoundary, isSource, isDestination := false, false, false;
    var cellId := mlp.GetCell(level, node);
    assert CellAgrees(mlp, net, level, node);
    for i := g.BeginEdges(node) to g.EndEdges(node)
      invariant isBoundary ==> net.Boundary(level, node)
      invariant isSource ==> net.HasInnerForward(level, node)
      invariant isDestination ==> net.HasInnerBackward(level, node)
      invariant forall j: nat :: g.BeginEdges(node) <= j < i ==>
        Seen(net, level, EdgeAt(g, node, j), isBoundary, isSource, isDestination)
    {
      var other, data := g.edgeArray[i].target, g.edgeArray[i].data;
      assert Adjacent(g, node, i);
      assert CellAgrees(mlp, net, level, other);
      ghost var e := EdgeAt(g, node, i);
      assert net.Crosses(level, e) <==> mlp.GetCell(level, other) != cellId;
      isBoundary := isBoundary || mlp.GetCell(level, other) != cellId;
      isSource := isSource || (mlp.GetCell(level, other) == cellId && data.forward);
      isDestination := isDestination || (mlp.GetCell(level, other) == cellId && data.backward);
    }
    EverythingSeen(g, net, level, node, isBoundary, isSource, isDestination);
  }

  ghost predicate Seen(net: Network, level: nat, e: Edge, isBoundary: bool, isSource: bool, isDestination: bool)
    requires net.Shaped() && net.EdgesInRange() && level <= |net.cells|
  {
    e in net.edges ==>
      && (net.Crosses(level, e) ==> isBoundary)
      && (!net.Crosses(level, e) && e.data.forward ==> isSource)
      && (!net.Crosses(level, e) && e.data.backward ==> isDestination)
  }

  lemma EverythingSeen(g: MultiLevelGraph, net: Network, level: nat, node: nat, isBoundary: bool, isSource: bool,
                       isDestination: bool)
    requires net.Shaped() && net.EdgesInRange() && level <= |net.cells| && net.links == net.edges
    requires Stores(g, net.edges) && node < g.NumNodes()
    requires forall j: nat :: g.BeginEdges(node) <= j < g.EndEdges(node) ==>
      Seen(net, level, EdgeAt(g, node, j), isBoundary, isSource, isDestination)
    ensures net.Boundary(level, node) ==> isBoundary
    ensures net.HasInnerForward(level, node) ==> isSource
    ensures net.HasInnerBackward(level, node) ==> isDestination
  {
    forall e | e in net.edges && e.source == node
      ensures Seen(net, level, e, isBoundary, isSource, isDestination)
    {
      var i: nat :| Adjacent(g, e.source, i) && EdgeAt(g, e.source, i) == e;
    }
  }

  ghost predicate ListedSource(net: Network, level: nat, c: nat, v: nat)
    requires net.Shaped() && net.EdgesInRange() && level <= |net.cells|
  {
    v < net.numNodes && net.Cell(level, v) == c && net.IsSource(level, v)
  }

  /** Unconnected border nodes are kept as destinations and so get an empty column. */
  ghost predicate ListedDestination(net: Network, level: nat, c: nat, v: nat)
    requires net.Shaped() && net.EdgesInRange() && level <= |net.cells|
  {
    v < net.numNodes && net.Cell(level, v) == c && (net.IsDestination(level, v) || Unconnected(net, level, v))
  }

  ghost predicate ListsUpTo(pairs: seq<CellNode>, n: nat, member: CellNode -> bool) {
    && NoDuplicates(pairs)
    && (forall k :: 0 <= k < |pairs| ==> pairs[k].1 < n)
    && forall x: CellNode :: x in pairs <==> x.1 < n && member(x)
  }

  /** Visiting node `n`, which lies in cell `c`, appends it exactly if it belongs to the list. */
  lemma ListGrows(pairs: seq<CellNode>, n: nat, member: CellNode -> bool, c: nat, listed: bool)
    requires ListsUpTo(pairs, n, member)
    requires forall d: nat :: member((d, n)) <==> d == c && listed
    ensures ListsUpTo(if listed then pairs + [(c, n)] else pairs, n + 1, member)
  {
    var pairs' := if listed then pairs + [(c, n)] else pairs;
    if listed {
      assert (c, n) !in pairs;
      forall x ensures multiset(pairs')[x] <= 1 {
        assert multiset(pairs)[x] <= 1;
        assert x !in pairs ==> multiset(pairs)[x] == 0;
      }
    }
    forall x: CellNode ensures x in pairs' <==> x.1 < n + 1 && member(x) {
      assert x.1 == n ==> x == (x.0, n);
      assert x in pairs' <==> x in pairs || (listed && x == (c, n));
    }
  }

  lemma DescribedCell(mlp: MultiLevelPartition, g: MultiLevelGraph, net: Network, level: nat, v: nat)
    requires Describes(mlp, g, net) && mlp.levelData.IsLevel(level) && v < net.numNodes
    ensures mlp.GetCell(level, v) == net.Cell(level, v)
  {
    assert CellAgrees(mlp, net, level, v);
  }

  /** Which lists a node belongs to, read off its flags. */
  lemma RolesOfNode(net: Network, level: nat, node: nat)
    requires net.Shaped() && net.EdgesInRange() && level <= |net.cells| && node < net.numNodes
    ensures forall c: nat :: SourceMember(net, level, (c, node)) <==>
              c == net.Cell(level, node) && net.Boundary(level, node) && net.HasInnerForward(level, node)
    ensures forall c: nat :: DestinationMember(net, level, (c, node)) <==>
              c == net.Cell(level, node) && net.Boundary(level, node)
              && (net.HasInnerBackward(level, node) || !net.HasInnerForward(level, node))
    ensures Unconnected(net, level, node) <==>
              net.Boundary(level, node) && !net.HasInnerForward(level, node) && !net.HasInnerBackward(level, node)
  {
    hide Network.Boundary, Network.HasInnerForward, Network.HasInnerBackward;
  }

  /** The unconnected ones among the first `n` nodes. */
  ghost function UnconnectedBelow(net: Network, level: nat, n: nat): set<nat>
    requires net.Shaped() && net.EdgesInRange() && level <= |net.cells|
  {
    set v: nat | v < n && Unconnected(net, level, v)
  }

  lemma UnconnectedGrows(net: Network, level: nat, n: nat)
    requires net.Shaped() && net.EdgesInRange() && level <= |net.cells|
    ensures |UnconnectedBelow(net, level, n + 1)|
              == |UnconnectedBelow(net, level, n)| + (if Unconnected(net, level, n) then 1 else 0)
  {
    hide Unconnected;
    var before, after := UnconnectedBelow(net, level, n), UnconnectedBelow(net, level, n + 1);
    if Unconnected(net, level, n) {
      assert after == before + {n};
    } else {
      assert after == before;
    }
  }

  lemma NoneUnconnected(net: Network, level: nat, n: nat)
    requires net.Shaped() && net.EdgesInRange() && level <= |net.cells|
    ensures |UnconnectedBelow(net, level, n)| == 0 <==> forall v: nat :: v < n ==> !Unconnected(net, level, v)
  {
    hide Unconnected;
    if |UnconnectedBelow(net, level, n)| == 0 {
      forall v: nat | v < n ensures !Unconnected(net, level, v) {
        assert v !in UnconnectedBelow(net, level, n);
      }
    } else {
      assert UnconnectedBelow(net, level, n) != {};
    }
  }

  /** The lists of a level before sorting, and the number of unconnected nodes that are warned about. */
  method CollectLevel(mlp: MultiLevelPartition, g: MultiLevelGraph, level: nat, ghost net: Network)
    returns (sources: seq<CellNode>, destinations: seq<CellNode>, unconnected: nat)
    requires Describes(mlp, g, net) && net.links == net.edges && mlp.levelData.IsLevel(level)
    ensures ListsUpTo(sources, net.numNodes, x => SourceMember(net, level, x))
    ensures ListsUpTo(destinations, net.numNodes, x => DestinationMember(net, level, x))
    ensures net.Shaped() && net.EdgesInRange() && level <= |net.cells|
            && unconnected == |UnconnectedBelow(net, level, net.numNodes)|
    ensures unconnected == 0 <==> forall v: nat :: v < net.numNodes ==> !Unconnected(net, level, v)
  {
    assert g.Shaped();
    hide ListsUpTo, Network.Boundary, Network.HasInnerForward, Network.HasInnerBackward, LevelData.Valid, Stores;
    assert g.NumNodes() == net.numNodes == mlp.NumNodes() && net.Shaped() && net.EdgesInRange() && level <= |net.cells|;
    hide SourceMember, DestinationMember, Unconnected, Describes, MultiLevelPartition.GetCell, Network.Cell;
    sources, destinations, unconnected := [], [], 0;
    NothingListed(x => SourceMember(net, level, x));
    NothingListed(x => DestinationMember(net, level, x));
    assert UnconnectedBelow(net, level, 0) == {};
    for node := 0 to g.NumNodes()
      invariant ListsUpTo(sources, node, x => SourceMember(net, level, x))
      invariant ListsUpTo(destinations, node, x => DestinationMember(net, level, x))
      invariant unconnected == |UnconnectedBelow(net, level, node)|
    {
      var cellId := mlp.GetCell(level, node);
      DescribedCell(mlp, g, net, level, node);
      var isBoundary, isSource, isDestination := ScanNode(mlp, g, level, node, net);
      ghost var s := isBoundary && isSource;
      ghost var d := isBoundary && (isDestination || !isSource);
      RolesOfNode(net, level, node);
      UnconnectedGrows(net, level, node);
      ListGrows(sources, node, x => SourceMember(net, level, x), cellId, s);
      ListGrows(destinations, node, x => DestinationMember(net, level, x), cellId, d);
      var unused;
      sources, destinations, unused := AddNode(sources, destinations, cellId, node, isBoundary, isSource,
                                               isDestination);
      if unused {
        unconnected := unconnected + 1;
      }
    }
    NoneUnconnected(net, level, net.numNodes);
  }

  /** Lists one node; a border node without any inner edge goes to the destinations and is reported. */
  method AddNode(sources0: seq<CellNode>, destinations0: seq<CellNode>, cellId: nat, node: nat, isBoundary: bool,
                 isSource: bool, isDestination: bool)
    returns (sources: seq<CellNode>, destinations: seq<CellNode>, unconnected: bool)
    ensures sources == if isBoundary && isSource then sources0 + [(cellId, node)] else sources0
    ensures destinations == if isBoundary && (isDestination || !isSource) then destinations0 + [(cellId, node)]
              else destinations0
    ensures unconnected <==> isBoundary && !isSource && !isDestination
  {
    sources, destinations, unconnected := sources0, destinations0, false;
    if isBoundary {
      if isSource {
        sources := sources + [(cellId, node)];
      }
      if isDestination {
        destinations := destinations + [(cellId, node)];
      }
      if !isSource && !isDestination {
        unconnected := true;
        destinations := destinations + [(cellId, node)];
      }
    }
  }

  ghost predicate SourceMember(net: Network, level: nat, x: CellNode) {
    net.Shaped() && net.EdgesInRange() && level <= |net.cells| && ListedSource(net, level, x.0, x.1)
  }

  ghost predicate DestinationMember(net: Network, level: nat, x: CellNode) {
    net.Shaped() && net.EdgesInRange() && level <= |net.cells| && ListedDestination(net, level, x.0, x.1)
  }

  lemma NothingListed(member: CellNode -> bool)
    ensures ListsUpTo([], 0, member)
  {
  }

  // ---------- the finished lists of a level ----------

  /** The span of cell `c` lists its members in ascending order, each once. */
  ghost predicate ListedCell(boundary: seq<nat>, spans: seq<Span>, levelOffset: nat, c: nat, member: CellNode -> bool)
    requires levelOffset + c < |spans|
  {
    var span := spans[levelOffset + c];
    SpanFits(boundary, span) && ListsExactly(Slice(boundary, span), c, member)
  }

  ghost predicate ListsExactly(nodes: seq<nat>, c: nat, member: CellNode -> bool) {
    Ascending(nodes) && forall v: nat :: v in nodes <==> member((c, v))
  }

  ghost predicate LevelListed(boundary: seq<nat>, spans: seq<Span>, levelOffset: nat, numCells: nat,
                              member: CellNode -> bool) {
    && levelOffset + numCells <= |spans|
    && forall c: nat :: c < numCells ==> ListedCell(boundary, spans, levelOffset, c, member)
  }

  lemma GroupedIsListed(boundary: seq<nat>, spans: seq<Span>, levelOffset: nat, numCells: nat, collected: seq<CellNode>,
                        sorted: seq<CellNode>, n: nat, member: CellNode -> bool)
    requires levelOffset + numCells <= |spans| && Grouped(boundary, spans, levelOffset, numCells, sorted)
    requires ListsUpTo(collected, n, member) && multiset(sorted) == multiset(collected)
    requires Sorting.Sorted(sorted, (x, y) => Sorting.PairAtMost(x, y))
    requires forall x: CellNode :: member(x) ==> x.1 < n
    ensures LevelListed(boundary, spans, levelOffset, numCells, member)
  {
    hide Sorting.Sorted, ListsUpTo, ListsGroup, ListedCell;
    forall c: nat | c < numCells ensures ListedCell(boundary, spans, levelOffset, c, member) {
      assert ListsGroup(boundary, spans, levelOffset, c, sorted);
      GroupIsListed(collected, sorted, n, member, c);
      GroupMakesCell(boundary, spans, levelOffset, c, sorted, member);
    }
  }

  lemma GroupIsListed(collected: seq<CellNode>, sorted: seq<CellNode>, n: nat, member: CellNode -> bool, c: nat)
    requires ListsUpTo(collected, n, member) && multiset(sorted) == multiset(collected)
    requires Sorting.Sorted(sorted, (x, y) => Sorting.PairAtMost(x, y))
    requires forall x: CellNode :: member(x) ==> x.1 < n
    ensures ListsExactly(NodesOf(sorted, c), c, member)
  {
    hide Sorting.Sorted, NodesOf;
    NodesOfAscend(sorted, c);
    forall v: nat ensures v in NodesOf(sorted, c) <==> member((c, v)) {
      NodesOfMembers(sorted, c, v);
      Sorting.SameMembers(sorted, collected, (c, v));
    }
  }

  lemma GroupMakesCell(boundary: seq<nat>, spans: seq<Span>, levelOffset: nat, c: nat, pairs: seq<CellNode>,
                       member: CellNode -> bool)
    requires levelOffset + c < |spans| && ListsGroup(boundary, spans, levelOffset, c, pairs)
             && ListsExactly(NodesOf(pairs, c), c, member)
    ensures ListedCell(boundary, spans, levelOffset, c, member)
  {
    hide NodesOf, ListsExactly;
  }

  lemma LevelStaysListed(boundary: seq<nat>, boundary': seq<nat>, spans: seq<Span>, spans': seq<Span>, levelOffset: nat,
                         numCells: nat, otherOffset: nat, otherCells: nat, member: CellNode -> bool)
    requires LevelListed(boundary, spans, levelOffset, numCells, member)
    requires boundary <= boundary' && OtherSpansKept(spans, spans', otherOffset, otherCells)
    requires levelOffset + numCells <= otherOffset
    ensures LevelListed(boundary', spans', levelOffset, numCells, member)
  {
    hide ListsExactly;
    forall c: nat | c < numCells ensures ListedCell(boundary', spans', levelOffset, c, member) {
      assert ListedCell(boundary, spans, levelOffset, c, member);
      assert boundary' == boundary + boundary'[|boundary|..];
      SliceOfLonger(boundary, boundary'[|boundary|..], spans[levelOffset + c]);
    }
  }

  lemma PairOrderIsTotal()
    ensures Sorting.Total((x, y) => Sorting.PairAtMost(x, y))
  {
  }

  /** Sorts the collected pairs and appends them. */
  method InsertLevel(collected: seq<CellNode>, boundary0: seq<nat>, spans0: seq<Span>, levelOffset: nat, numCells: nat,
                     ghost n: nat, ghost member: CellNode -> bool)
    returns (boundary: seq<nat>, spans: seq<Span>)
    requires ListsUpTo(collected, n, member) && forall x: CellNode :: member(x) ==> x.1 < n && x.0 < numCells
    requires levelOffset + numCells <= |spans0|
    requires forall k :: levelOffset <= k < levelOffset + numCells ==> spans0[k] == NO_SPAN
    ensures boundary0 <= boundary && OtherSpansKept(spans0, spans, levelOffset, numCells)
    ensures LevelListed(boundary, spans, levelOffset, numCells, member)
  {
    PairOrderIsTotal();
    hide Sorting.Total, Sorting.Sorted, Grouped, LevelListed;
    var sorted := Sorting.Sort(collected, (x, y) => Sorting.PairAtMost(x, y));
    forall k | 0 <= k < |sorted| ensures sorted[k].0 < numCells {
      Sorting.SameMembers(sorted, collected, sorted[k]);
    }
    boundary, spans := InsertCellBoundaries(sorted, boundary0, spans0, levelOffset, numCells);
    GroupedIsListed(boundary, spans, levelOffset, numCells, collected, sorted, n, member);
  }
}
