/**
 The packed multi-level partition: one word per node and a sentinel word that stores the
 number of cells of every level.
 */
module MultiLevelPartitions {
  import opened RoadGraph
  import opened Words
  import opened LevelLayout
  import NestedCells
  import Runs
  import opened NodeOrder

  datatype MultiLevelPartition = MultiLevelPartition(levelData: LevelData, childrenOffsets: seq<nat>,
                                                     partition: seq<Word>, cellToChildren: seq<nat>)
  {
    ghost predicate Valid() {
      && levelData.Valid() && |partition| >= 1
      && forall v :: 0 <= v < |partition| ==> Tidy(levelData, partition[v])
    }

    ghost function NumNodes(): nat
      requires Valid()
    {
      |partition| - 1
    }

    function GetNumberOfLevels(): nat {
      levelData.numLevel
    }

    function GetCell(l: nat, node: nat): nat
      requires Valid() && levelData.IsLevel(l) && node < |partition|
    {
      ReadCell(levelData, l, partition[node])
    }

    function GetHighestDifferentLevel(first: nat, second: nat): nat
      requires Valid() && first < |partition| && second < |partition|
    {
      HighestDifferentLevel(levelData, partition[first], partition[second])
    }

    function GetNumberOfCells(l: nat): nat
      requires Valid() && levelData.IsLevel(l)
    {
      GetCell(l, |partition| - 1)
    }

    predicate HasChildEntry(level: nat, cell: nat) {
      1 < level <= |childrenOffsets| && childrenOffsets[level - 1] + cell < |cellToChildren|
    }

    function BeginChildren(level: nat, cell: nat): nat
      requires HasChildEntry(level, cell)
    {
      cellToChildren[childrenOffsets[level - 1] + cell]
    }

    function EndChildren(level: nat, cell: nat): nat
      requires HasChildEntry(level, cell + 1)
    {
      cellToChildren[childrenOffsets[level - 1] + cell + 1]
    }
  }

  // ---------- what the constructor establishes ----------

  /** On level `l` the ids along `order` number the runs of the input partition; the sentinel counts them. */
  ghost predicate Numbered(data: LevelData, words: seq<Word>, l: nat, cells: seq<nat>, order: seq<nat>)
    requires data.Valid() && data.IsLevel(l)
  {
    && 0 < |order| == |cells| < |words| && InRange(order, |cells|)
    && (forall k :: 0 <= k < |order| ==> Field(data, l, words[order[k]]) == Runs.RunId(Along(cells, order), k))
    && Field(data, l, words[|order|]) == Runs.RunId(Along(cells, order), |order| - 1) + 1
  }

  /** The children table of level `l + 1` lists where the ids of level `l` stand when the parent changes. */
  ghost predicate ChildrenListed(offsets: seq<nat>, table: seq<nat>, l: nat, child: seq<nat>, parent: seq<nat>,
                                 order: seq<nat>)
    requires 0 < |order| == |child| == |parent| && InRange(order, |child|)
  {
    var entries := ChildEntries(child, parent, order);
    && l < |offsets| && offsets[l] + |entries| <= |table|
    && table[offsets[l]..offsets[l] + |entries|] == entries
  }

  ghost function ChildEntries(child: seq<nat>, parent: seq<nat>, order: seq<nat>): seq<nat>
    requires 0 < |order| == |child| == |parent| && InRange(order, |child|)
  {
    Runs.ChildStarts(Along(parent, order), Along(child, order), |order| - 1)
    + [Runs.RunId(Along(child, order), |order| - 1) + 1]
  }

  ghost predicate Packed(mlp: MultiLevelPartition, cells: seq<seq<nat>>, order: seq<nat>) {
    && mlp.Valid() && 1 <= |cells| && mlp.levelData.numLevel == |cells| + 1
    && 0 < |order| && |mlp.partition| == |order| + 1
    && NestedCells.Shaped(cells, |order|) && NestedCells.Nested(cells, |order|)
    && IsPermutation(order, |order|) && InRange(order, |order|)
    && Ordered(cells, |order|, |cells|, order)
    && (forall l: nat :: mlp.levelData.IsLevel(l) ==> Numbered(mlp.levelData, mlp.partition, l, cells[l - 1], order))
    && (forall l: nat :: 1 <= l < |cells| ==>
            ChildrenListed(mlp.childrenOffsets, mlp.cellToChildren, l, cells[l - 1], cells[l], order))
  }

  // ---------- construction ----------

  ghost predicate AllTidy(data: LevelData, words: seq<Word>)
    requires data.Valid()
  {
    forall v :: 0 <= v < |words| ==> Tidy(data, words[v])
  }

  ghost predicate FieldKept(data: LevelData, m: nat, before: Word, after: Word)
    requires data.Valid() && data.IsLevel(m)
  {
    Field(data, m, after) == Field(data, m, before)
  }

  /** Every word keeps its ids on all levels except `l`. */
  ghost predicate OtherLevelsKept(data: LevelData, l: nat, before: seq<Word>, after: seq<Word>)
    requires data.Valid()
  {
    && |before| == |after|
    && forall m: nat, v: nat :: data.IsLevel(m) && m != l && v < |after| ==> FieldKept(data, m, before[v], after[v])
  }

  /** Exactly one word changed, it holds the id on level `l` and kept all its other ids. */
  ghost predicate CellIdSet(data: LevelData, l: nat, before: seq<Word>, after: seq<Word>, node: nat, id: nat)
    requires data.Valid() && data.IsLevel(l)
  {
    && node < |before| && |after| == |before| && after == before[node := after[node]]
    && Tidy(data, after[node]) && Field(data, l, after[node]) == id
    && forall m: nat :: data.IsLevel(m) && m != l ==> FieldKept(data, m, before[node], after[node])
  }

  method SetCellID(words: array<Word>, data: LevelData, l: nat, node: nat, id: nat)
    requires data.Valid() && data.IsLevel(l) && node < words.Length && id < Pow2(data.Hi(l) - data.Lo(l))
    requires AllTidy(data, words[..])
    modifies words
    ensures CellIdSet(data, l, old(words[..]), words[..], node, id)
  {
    hide Field, Tidy, Words.Value;
    WriteCellFields(data, l, words[node], id);
    assert Tidy(data, words[..][node]);
    words[node] := WriteCell(data, l, words[node], id);
  }

  ghost predicate NumberedUpTo(data: LevelData, words: seq<Word>, l: nat, vals: seq<nat>, order: seq<nat>, k: nat)
    requires data.Valid() && data.IsLevel(l)
  {
    && k <= |order| == |vals| && InRange(order, |words|)
    && forall j :: 0 <= j < k ==> Field(data, l, words[order[j]]) == Runs.RunId(vals, j)
  }

  /** Writing the next node of the order extends what is numbered, leaves no stray bits and keeps the other levels. */
  lemma CellIdSetKeeps(data: LevelData, l: nat, start: seq<Word>, before: seq<Word>, after: seq<Word>, node: nat,
                       id: nat, vals: seq<nat>, order: seq<nat>, k: nat)
    requires data.Valid() && data.IsLevel(l) && CellIdSet(data, l, before, after, node, id)
    requires AllTidy(data, before) && OtherLevelsKept(data, l, start, before)
    requires NumberedUpTo(data, before, l, vals, order, k)
    requires forall j :: 0 <= j < k ==> order[j] != node
    ensures AllTidy(data, after) && OtherLevelsKept(data, l, start, after)
    ensures NumberedUpTo(data, after, l, vals, order, k)
  {
    hide Field, Tidy, LevelData.Valid, Words.Value;
    forall m: nat, v: nat | data.IsLevel(m) && m != l && v < |after| ensures FieldKept(data, m, start[v], after[v]) {
      assert FieldKept(data, m, start[v], before[v]);
    }
  }

  lemma CellIdSetExtends(data: LevelData, l: nat, before: seq<Word>, after: seq<Word>, node: nat, id: nat,
                         vals: seq<nat>, order: seq<nat>, k: nat)
    requires data.Valid() && data.IsLevel(l) && CellIdSet(data, l, before, after, node, id)
    requires NumberedUpTo(data, after, l, vals, order, k)
    requires k < |order| && order[k] == node && id == Runs.RunId(vals, k)
    ensures NumberedUpTo(data, after, l, vals, order, k + 1)
  {
    hide Field, Tidy, LevelData.Valid, Words.Value;
  }

  lemma PermutationDistinct(order: seq<nat>, n: nat, k: nat)
    requires IsPermutation(order, n) && k < n
    ensures forall j :: 0 <= j < k ==> order[j] != order[k]
  {
    forall j | 0 <= j < k ensures order[j] != order[k] {
      if order[j] == order[k] {
        PermutationInjective(order, n, j, k);
      }
    }
  }

  /** One pass over the sorted nodes writes the ids of one level. */
  method AssignLevel(words: array<Word>, data: LevelData, l: nat, cells: seq<nat>, order: seq<nat>)
    requires data.Valid() && data.IsLevel(l) && AllTidy(data, words[..])
    requires 0 < |order| == |cells| == words.Length - 1 && IsPermutation(order, |order|) && InRange(order, |cells|)
    requires Runs.RunId(Along(cells, order), |order| - 1) + 1 < Pow2(data.Hi(l) - data.Lo(l))
    modifies words
    ensures AllTidy(data, words[..]) && Numbered(data, words[..], l, cells, order)
    ensures OtherLevelsKept(data, l, old(words[..]), words[..])
  {
    hide Field, Tidy, Words.Pow2, LevelData.Valid, IsPermutation, AllTidy, OtherLevelsKept, CellIdSet, NumberedUpTo;
    ghost var vals, start := Along(cells, order), words[..];
    NothingNumbered(data, l, start, vals, order);
    var lastCellId, cellId := cells[order[0]], 0;
    for k := 0 to |order|
      invariant AllTidy(data, words[..])
      invariant k == 0 ==> cellId == 0 && lastCellId == vals[0]
      invariant k > 0 ==> cellId == Runs.RunId(vals, k - 1) && lastCellId == vals[k - 1]
      invariant NumberedUpTo(data, words[..], l, vals, order, k)
      invariant OtherLevelsKept(data, l, start, words[..])
    {
      var node := order[k];
      if lastCellId != cells[node] {
        cellId, lastCellId := cellId + 1, cells[node];
      }
      Runs.RunIdMonotone(vals, k, |order| - 1);
      PermutationDistinct(order, |order|, k);
      ghost var before := words[..];
      SetCellID(words, data, l, node, cellId);
      CellIdSetKeeps(data, l, start, before, words[..], node, cellId, vals, order, k);
      CellIdSetExtends(data, l, before, words[..], node, cellId, vals, order, k);
    }
    ghost var before := words[..];
    SetCellID(words, data, l, |order|, cellId + 1);
    CellIdSetKeeps(data, l, start, before, words[..], |order|, cellId + 1, vals, order, |order|);
    AllNumbered(data, l, before, words[..], cells, order);
  }

  lemma NothingNumbered(data: LevelData, l: nat, words: seq<Word>, vals: seq<nat>, order: seq<nat>)
    requires data.Valid() && data.IsLevel(l) && |order| == |vals| && InRange(order, |words|)
    ensures OtherLevelsKept(data, l, words, words) && NumberedUpTo(data, words, l, vals, order, 0)
  {
  }

  lemma AllNumbered(data: LevelData, l: nat, before: seq<Word>, after: seq<Word>, cells: seq<nat>, order: seq<nat>)
    requires data.Valid() && data.IsLevel(l)
    requires 0 < |order| == |cells| && InRange(order, |cells|)
    requires NumberedUpTo(data, after, l, Along(cells, order), order, |order|)
    requires CellIdSet(data, l, before, after, |order|, Runs.RunId(Along(cells, order), |order| - 1) + 1)
    ensures Numbered(data, after, l, cells, order)
  {
  }

  /** Sorts the nodes by every partition in turn. */
  method SortNodes(cells: seq<seq<nat>>, n: nat) returns (order: seq<nat>)
    requires NestedCells.Shaped(cells, n)
    ensures IsPermutation(order, n) && InRange(order, n) && Ordered(cells, n, |cells|, order)
  {
    order := Identity(n);
    for m := 0 to |cells|
      invariant IsPermutation(order, n) && InRange(order, n) && Ordered(cells, n, m, order)
    {
      StableSortOrders(cells, n, m, order);
      order := StableSort(order, cells[m]);
    }
  }

  ghost predicate CountsFit(cells: seq<seq<nat>>, numCells: seq<nat>) {
    |cells| == |numCells| && forall l :: 0 <= l < |cells| ==> |Runs.Values(cells[l])| <= numCells[l]
  }

  lemma SubsetCardinality(a: set<nat>, b: set<nat>)
    requires a <= b
    ensures |a| <= |b|
  {
    assert b == a + (b - a);
  }

  /** Along any order there are no more runs than cells, provided the cells are contiguous. */
  lemma RunsFit(cells: seq<nat>, order: seq<nat>)
    requires 0 < |order| == |cells| && InRange(order, |cells|) && Runs.Grouped(Along(cells, order))
    ensures Runs.RunId(Along(cells, order), |order| - 1) + 1 <= |Runs.Values(cells)|
  {
    hide Runs.Grouped;
    var vals := Along(cells, order);
    Runs.RunIdCounts(vals, |order| - 1);
    assert vals[..|order|] == vals;
    SubsetCardinality(Runs.Values(vals), Runs.Values(cells));
  }

  ghost predicate NumberedFrom(data: LevelData, words: seq<Word>, cells: seq<seq<nat>>, order: seq<nat>, from: nat)
    requires data.Valid() && data.numLevel == |cells| + 1
  {
    forall l: nat :: data.IsLevel(l) && from < l ==> Numbered(data, words, l, cells[l - 1], order)
  }

  lemma NumberedSurvives(data: LevelData, before: seq<Word>, after: seq<Word>, cells: seq<seq<nat>>, order: seq<nat>,
                         l: nat)
    requires data.Valid() && data.IsLevel(l) && data.numLevel == |cells| + 1
    requires NumberedFrom(data, before, cells, order, l)
    requires OtherLevelsKept(data, l, before, after) && Numbered(data, after, l, cells[l - 1], order)
    ensures NumberedFrom(data, after, cells, order, l - 1)
  {
    hide Field, LevelData.Valid;
    forall m: nat | data.IsLevel(m) && l - 1 < m ensures Numbered(data, after, m, cells[m - 1], order) {
      if m != l {
        assert Numbered(data, before, m, cells[m - 1], order);
        forall v: nat | v < |after| ensures Field(data, m, after[v]) == Field(data, m, before[v]) {
          assert FieldKept(data, m, before[v], after[v]);
        }
      }
    }
  }

  /** Top down, every level gets its ids. */
  method AssignAllLevels(words: array<Word>, data: LevelData, cells: seq<seq<nat>>, numCells: seq<nat>, order: seq<nat>)
    requires data.Valid() && data.numLevel == |cells| + 1 && AllTidy(data, words[..])
    requires 0 < |order| == words.Length - 1 && IsPermutation(order, |order|) && InRange(order, |order|)
    requires NestedCells.Shaped(cells, |order|) && NestedCells.Nested(cells, |order|)
    requires Ordered(cells, |order|, |cells|, order) && CountsFit(cells, numCells)
    requires forall l :: 1 <= l <= |numCells| ==> numCells[l - 1] < Pow2(data.Hi(l) - data.Lo(l))
    modifies words
    ensures AllTidy(data, words[..]) && NumberedFrom(data, words[..], cells, order, 0)
  {
    hide Field, Tidy, Words.Pow2, LevelData.Valid, IsPermutation, AllTidy, OtherLevelsKept, Numbered;
    hide NestedCells.Nested, Ordered, NumberedFrom;
    var level: nat := |cells|;
    NumberedAboveAll(data, words[..], cells, order);
    while level > 0
      invariant level <= |cells| && AllTidy(data, words[..])
      invariant NumberedFrom(data, words[..], cells, order, level)
    {
      OrderGroups(cells, |order|, order, level - 1);
      RunsFit(cells[level - 1], order);
      ghost var before := words[..];
      AssignLevel(words, data, level, cells[level - 1], order);
      NumberedSurvives(data, before, words[..], cells, order, level);
      level := level - 1;
    }
  }

  lemma NumberedAboveAll(data: LevelData, words: seq<Word>, cells: seq<seq<nat>>, order: seq<nat>)
    requires data.Valid() && data.numLevel == |cells| + 1
    ensures NumberedFrom(data, words, cells, order, |cells|)
  {
  }

  lemma IdsReadBack(data: LevelData, words: seq<Word>, l: nat, child: seq<nat>, parent: seq<nat>, order: seq<nat>)
    requires data.Valid() && data.IsLevel(l) && Numbered(data, words, l, child, order)
    requires 0 < |order| == |parent| && InRange(order, |parent|)
    ensures |child| == |order| < |words| && InRange(order, |child|)
    ensures |Along(child, order)| == |Along(parent, order)| == |order|
    ensures forall k :: 0 <= k < |order| ==> Along(parent, order)[k] == parent[order[k]]
    ensures forall k :: 0 <= k < |order| ==> ReadCell(data, l, words[order[k]]) == Runs.RunId(Along(child, order), k)
  {
    hide Field, LevelData.Valid, ReadCell;
    forall k | 0 <= k < |order| ensures ReadCell(data, l, words[order[k]]) == Runs.RunId(Along(child, order), k) {
      ReadCellIsField(data, l, words[order[k]]);
    }
  }

  /** The children table of one pair of levels, read off the packed ids. */
  method ListChildren(data: LevelData, words: seq<Word>, l: nat, child: seq<nat>, parent: seq<nat>, order: seq<nat>)
    returns (entries: seq<nat>)
    requires data.Valid() && data.IsLevel(l) && Numbered(data, words, l, child, order)
    requires 0 < |order| == |parent| && InRange(order, |parent|)
    ensures entries == ChildEntries(child, parent, order)
  {
    hide LevelData.Valid, Numbered, Along, ReadCell;
    IdsReadBack(data, words, l, child, parent, order);
    ghost var childVals, parentVals := Along(child, order), Along(parent, order);
    var lastParentId := parent[order[0]];
    entries := [ReadCell(data, l, words[order[0]])];
    for k := 0 to |order|
      invariant lastParentId == parentVals[if k == 0 then 0 else k - 1]
      invariant entries == Runs.ChildStarts(parentVals, childVals, if k == 0 then 0 else k - 1)
    {
      var node := order[k];
      if lastParentId != parent[node] {
        entries := entries + [ReadCell(data, l, words[node])];
        lastParentId := parent[node];
      }
    }
    entries := entries + [ReadCell(data, l, words[order[|order| - 1]]) + 1];
  }

  method BuildChildren(data: LevelData, words: seq<Word>, cells: seq<seq<nat>>, order: seq<nat>)
    returns (offsets: seq<nat>, table: seq<nat>)
    requires 1 <= |cells| && data.Valid() && data.numLevel == |cells| + 1 && 0 < |order| && InRange(order, |order|)
    requires NestedCells.Shaped(cells, |order|) && NumberedFrom(data, words, cells, order, 0)
    ensures forall l: nat :: 1 <= l < |cells| ==> ChildrenListed(offsets, table, l, cells[l - 1], cells[l], order)
  {
    hide LevelData.Valid, Numbered, ChildEntries;
    offsets, table := [0], [];
    for l := 1 to |cells|
      invariant |offsets| == l
      invariant forall m: nat :: 1 <= m < l ==> ChildrenListed(offsets, table, m, cells[m - 1], cells[m], order)
    {
      ghost var offsets', table' := offsets, table;
      assert data.IsLevel(l);
      var entries := ListChildren(data, words, l, cells[l - 1], cells[l], order);
      offsets := offsets + [|table|];
      table := table + entries;
      forall m: nat | 1 <= m < l + 1 ensures ChildrenListed(offsets, table, m, cells[m - 1], cells[m], order) {
        if m < l {
          ChildrenStayListed(offsets', table', offsets, table, m, cells[m - 1], cells[m], order);
        }
      }
    }
  }

  lemma ChildrenStayListed(offsets: seq<nat>, table: seq<nat>, offsets': seq<nat>, table': seq<nat>, l: nat,
                           child: seq<nat>, parent: seq<nat>, order: seq<nat>)
    requires 0 < |order| == |child| == |parent| && InRange(order, |child|)
    requires ChildrenListed(offsets, table, l, child, parent, order)
    requires offsets <= offsets' && table <= table'
    ensures ChildrenListed(offsets', table', l, child, parent, order)
  {
    var k := |ChildEntries(child, parent, order)|;
    assert table'[offsets[l]..offsets[l] + k] == table[offsets[l]..offsets[l] + k];
  }

  lemma CountsArePositive(cells: seq<seq<nat>>, n: nat, numCells: seq<nat>)
    requires NestedCells.Shaped(cells, n) && n >= 1 && CountsFit(cells, numCells)
    ensures forall c :: c in numCells ==> c >= 1
  {
    forall l | 0 <= l < |numCells| ensures numCells[l] >= 1 {
      assert cells[l][0] in Runs.Values(cells[l]);
    }
  }

  /** The constructor. `None` stands for the exception thrown when the ids do not fit into a word;
      `order` is the sorted node order, kept for the specification. */
  method Build(cells: seq<seq<nat>>, numCells: seq<nat>) returns (r: Option<MultiLevelPartition>, ghost order: seq<nat>)
    requires 1 <= |cells| && 1 <= |cells[0]| && NestedCells.Shaped(cells, |cells[0]|)
    requires NestedCells.Nested(cells, |cells[0]|) && CountsFit(cells, numCells)
    ensures r.Some? <==> BitsUsed(numCells, |numCells|) <= WORD_BITS
    ensures r.Some? <==> LayoutExists(numCells)
    ensures r.Some? ==> Packed(r.value, cells, order)
  {
    hide Words.Pow2, NestedCells.Nested, Ordered, Words.BitLength, BitsUsed, IsPermutation, LevelData.Valid;
    hide NumberedFrom, ChildrenListed, Packed, LayoutExists;
    var n := |cells[0]|;
    CountsArePositive(cells, n, numCells);
    var levelData := MakeLevelData(numCells);
    order := [];
    if levelData.None? { return None, order; }
    var data := levelData.value;
    var sorted := SortNodes(cells, n);
    order := sorted;
    var words := new Word[n + 1](_ => seq(WORD_BITS, _ => false));
    ZerosAreTidy(data, words[..]);
    hide AllTidy;
    AssignAllLevels(words, data, cells, numCells, sorted);
    var offsets, table := BuildChildren(data, words[..], cells, sorted);
    var mlp := MultiLevelPartition(data, offsets, words[..], table);
    AssemblePacked(mlp, cells, order);
    r := Some(mlp);
  }

  lemma ZerosAreTidy(data: LevelData, words: seq<Word>)
    requires data.Valid() && forall v :: 0 <= v < |words| ==> AllZero(words[v])
    ensures AllTidy(data, words)
  {
  }

  lemma AssemblePacked(mlp: MultiLevelPartition, cells: seq<seq<nat>>, order: seq<nat>)
    requires mlp.levelData.Valid() && AllTidy(mlp.levelData, mlp.partition)
    requires 1 <= |cells| && mlp.levelData.numLevel == |cells| + 1 && 0 < |order| && |mlp.partition| == |order| + 1
    requires NestedCells.Shaped(cells, |order|) && NestedCells.Nested(cells, |order|)
    requires IsPermutation(order, |order|) && InRange(order, |order|) && Ordered(cells, |order|, |cells|, order)
    requires NumberedFrom(mlp.levelData, mlp.partition, cells, order, 0)
    requires forall l: nat :: 1 <= l < |cells| ==>
               ChildrenListed(mlp.childrenOffsets, mlp.cellToChildren, l, cells[l - 1], cells[l], order)
    ensures Packed(mlp, cells, order)
  {
    hide LevelData.Valid, NestedCells.Nested, Ordered, IsPermutation, Numbered, ChildrenListed, Tidy;
  }

  // ---------- what the packed form means ----------

  lemma PackedFacts(mlp: MultiLevelPartition, cells: seq<seq<nat>>, order: seq<nat>)
    requires Packed(mlp, cells, order)
    ensures mlp.Valid() && 1 <= |order| && 1 <= |cells| && |cells[0]| == |order| == mlp.NumNodes()
            && mlp.levelData.numLevel == |cells| + 1
  {
  }

  /** The packed id of a node is the number of its run. */
  lemma PackedId(mlp: MultiLevelPartition, cells: seq<seq<nat>>, order: seq<nat>, l: nat, u: nat) returns (k: nat)
    requires Packed(mlp, cells, order) && mlp.levelData.IsLevel(l) && u < mlp.NumNodes()
    ensures k < |order| && order[k] == u && |cells[l - 1]| == |order|
    ensures Along(cells[l - 1], order)[k] == cells[l - 1][u]
    ensures mlp.GetCell(l, u) == Runs.RunId(Along(cells[l - 1], order), k)
  {
    hide LevelData.Valid, Field, ReadCell, NestedCells.Nested, Ordered, ChildrenListed;
    k := PermutationPosition(order, |order|, u);
    assert Numbered(mlp.levelData, mlp.partition, l, cells[l - 1], order);
    ReadCellIsField(mlp.levelData, l, mlp.partition[u]);
  }

  /** Packed ids are equal exactly where the input put both nodes into one cell. */
  lemma PackingIsFaithful(mlp: MultiLevelPartition, cells: seq<seq<nat>>, order: seq<nat>, l: nat, u: nat, v: nat)
    requires Packed(mlp, cells, order) && mlp.levelData.IsLevel(l) && u < mlp.NumNodes() && v < mlp.NumNodes()
    ensures |cells[l - 1]| == mlp.NumNodes()
    ensures mlp.GetCell(l, u) == mlp.GetCell(l, v) <==> cells[l - 1][u] == cells[l - 1][v]
  {
    hide LevelData.Valid, NestedCells.Nested, Ordered, ChildrenListed, Numbered, IsPermutation, Runs.Grouped;
    var i := PackedId(mlp, cells, order, l, u);
    var j := PackedId(mlp, cells, order, l, v);
    OrderGroups(cells, |order|, order, l - 1);
    Runs.RunIdSeparates(Along(cells[l - 1], order), i, j);
  }

  /** Some node carries the id `c`. */
  ghost predicate Used(mlp: MultiLevelPartition, l: nat, c: nat)
    requires mlp.Valid() && mlp.levelData.IsLevel(l)
  {
    exists u :: 0 <= u < mlp.NumNodes() && mlp.GetCell(l, u) == c
  }

  lemma SentinelIsRunCount(mlp: MultiLevelPartition, cells: seq<seq<nat>>, order: seq<nat>, l: nat)
    requires Packed(mlp, cells, order) && mlp.levelData.IsLevel(l)
    ensures mlp.GetNumberOfCells(l) == Runs.RunId(Along(cells[l - 1], order), |order| - 1) + 1
  {
    hide LevelData.Valid, Field, ReadCell, NestedCells.Nested, Ordered, ChildrenListed, IsPermutation;
    assert Numbered(mlp.levelData, mlp.partition, l, cells[l - 1], order);
    ReadCellIsField(mlp.levelData, l, mlp.partition[|order|]);
  }

  lemma IdIsUsed(mlp: MultiLevelPartition, cells: seq<seq<nat>>, order: seq<nat>, l: nat, c: nat)
    requires Packed(mlp, cells, order) && mlp.levelData.IsLevel(l) && c < mlp.GetNumberOfCells(l)
    ensures Used(mlp, l, c)
  {
    hide LevelData.Valid, Numbered, ReadCell, NestedCells.Nested, Ordered, ChildrenListed, IsPermutation, Along;
    SentinelIsRunCount(mlp, cells, order, l);
    var k := Runs.RunIdsAreDense(Along(cells[l - 1], order), |order| - 1, c);
    var i := PackedId(mlp, cells, order, l, order[k]);
    PermutationInjective(order, |order|, i, k);
    assert mlp.GetCell(l, order[k]) == c;
  }

  /** The sentinel holds the number of cells, ids stay below it, and every id below it is used. */
  lemma IdsAreDense(mlp: MultiLevelPartition, cells: seq<seq<nat>>, order: seq<nat>, l: nat)
    requires Packed(mlp, cells, order) && mlp.levelData.IsLevel(l)
    ensures mlp.GetNumberOfCells(l) == |Runs.Values(cells[l - 1])|
    ensures forall u :: 0 <= u < mlp.NumNodes() ==> mlp.GetCell(l, u) < mlp.GetNumberOfCells(l)
    ensures forall c: nat :: c < mlp.GetNumberOfCells(l) ==> Used(mlp, l, c)
  {
    hide LevelData.Valid, Numbered, ReadCell, NestedCells.Nested, Ordered, ChildrenListed, Runs.Grouped, IsPermutation;
    hide Used;
    SentinelIsRunCount(mlp, cells, order, l);
    OrderGroups(cells, |order|, order, l - 1);
    CountAlong(cells[l - 1], order);
    forall u | 0 <= u < mlp.NumNodes() ensures mlp.GetCell(l, u) < mlp.GetNumberOfCells(l) {
      var k := PackedId(mlp, cells, order, l, u);
      Runs.RunIdMonotone(Along(cells[l - 1], order), k, |order| - 1);
    }
    forall c: nat | c < mlp.GetNumberOfCells(l) ensures Used(mlp, l, c) {
      IdIsUsed(mlp, cells, order, l, c);
    }
  }

  lemma CountAlong(cells: seq<nat>, order: seq<nat>)
    requires 0 < |order| == |cells| && IsPermutation(order, |order|) && InRange(order, |cells|)
    requires Runs.Grouped(Along(cells, order))
    ensures Runs.RunId(Along(cells, order), |order| - 1) + 1 == |Runs.Values(cells)|
  {
    hide Runs.Grouped;
    var vals := Along(cells, order);
    Runs.RunIdCounts(vals, |order| - 1);
    assert vals[..|order|] == vals;
    forall v: nat | v < |cells| ensures cells[v] in vals {
      var k := PermutationPosition(order, |order|, v);
      assert vals[k] == cells[v];
    }
    assert Runs.Values(vals) == Runs.Values(cells);
  }

  /** The bit trick: two nodes differ on a level exactly if the level is at most the reported one. */
  lemma HighestDifferentLevelSplits(mlp: MultiLevelPartition, cells: seq<seq<nat>>, order: seq<nat>, l: nat, u: nat,
                                    v: nat)
    requires Packed(mlp, cells, order) && mlp.levelData.IsLevel(l) && u < mlp.NumNodes() && v < mlp.NumNodes()
    ensures mlp.GetHighestDifferentLevel(u, v) < mlp.GetNumberOfLevels()
    ensures mlp.GetCell(l, u) != mlp.GetCell(l, v) <==> l <= mlp.GetHighestDifferentLevel(u, v)
  {
    hide LevelData.Valid, Field, ReadCell, Numbered, Ordered, ChildrenListed, HighestDifferentLevel, Tidy;
    hide IsPermutation;
    var data, a, b := mlp.levelData, mlp.partition[u], mlp.partition[v];
    var h := mlp.GetHighestDifferentLevel(u, v);
    HighestDifferentLevelIsHighest(data, a, b);
    ReadCellIsField(data, l, a);
    ReadCellIsField(data, l, b);
    if l <= h {
      ReadCellIsField(data, h, a);
      ReadCellIsField(data, h, b);
      PackingIsFaithful(mlp, cells, order, l, u, v);
      PackingIsFaithful(mlp, cells, order, h, u, v);
      if cells[l - 1][u] == cells[l - 1][v] {
        NestedCells.NestedUpwards(cells, |order|, l - 1, h - 1, u, v);
      }
    }
  }

  /** Entry `c` of the children table of `level`. */
  lemma ChildTableEntry(mlp: MultiLevelPartition, cells: seq<seq<nat>>, order: seq<nat>, level: nat, c: nat)
    requires Packed(mlp, cells, order) && 1 < level && mlp.levelData.IsLevel(level)
    requires c < |ChildEntries(cells[level - 2], cells[level - 1], order)|
    ensures mlp.HasChildEntry(level, c)
    ensures mlp.BeginChildren(level, c) == ChildEntries(cells[level - 2], cells[level - 1], order)[c]
  {
    hide LevelData.Valid, NestedCells.Nested, Ordered, Numbered, ChildEntries, IsPermutation;
    var l := level - 1;
    assert ChildrenListed(mlp.childrenOffsets, mlp.cellToChildren, l, cells[l - 1], cells[l], order);
    var entries, offset := ChildEntries(cells[l - 1], cells[l], order), mlp.childrenOffsets[l];
    assert mlp.cellToChildren[offset..offset + |entries|][c] == mlp.cellToChildren[offset + c];
  }

  ghost predicate HasInterval(mlp: MultiLevelPartition, level: nat, c: nat) {
    mlp.HasChildEntry(level, c) && mlp.HasChildEntry(level, c + 1)
  }

  lemma ChildEntryCount(mlp: MultiLevelPartition, cells: seq<seq<nat>>, order: seq<nat>, level: nat)
    requires Packed(mlp, cells, order) && 1 < level && mlp.levelData.IsLevel(level)
    ensures |ChildEntries(cells[level - 2], cells[level - 1], order)| == mlp.GetNumberOfCells(level) + 1
    ensures Runs.StartsBracket(Along(cells[level - 1], order), Along(cells[level - 2], order), |order| - 1,
              Runs.ChildStarts(Along(cells[level - 1], order), Along(cells[level - 2], order), |order| - 1))
    ensures mlp.GetNumberOfCells(level - 1) == Runs.RunId(Along(cells[level - 2], order), |order| - 1) + 1
  {
    hide LevelData.Valid, Numbered, ReadCell, NestedCells.Nested, Ordered, ChildrenListed, Runs.Grouped, IsPermutation;
    SentinelIsRunCount(mlp, cells, order, level);
    SentinelIsRunCount(mlp, cells, order, level - 1);
    OrderGroups(cells, |order|, order, level - 2);
    Runs.ChildStartsBracket(Along(cells[level - 1], order), Along(cells[level - 2], order), |order| - 1);
  }

  /** A node lies in cell `c` exactly if its cell one level below lies between the reported bounds. */
  lemma ChildrenAreIntervals(mlp: MultiLevelPartition, cells: seq<seq<nat>>, order: seq<nat>, level: nat, c: nat,
                             u: nat)
    requires Packed(mlp, cells, order) && 1 < level && mlp.levelData.IsLevel(level)
    requires c < mlp.GetNumberOfCells(level) && u < mlp.NumNodes()
    ensures HasInterval(mlp, level, c)
    ensures mlp.levelData.IsLevel(level - 1)
    ensures mlp.GetCell(level, u) == c
       <==> mlp.BeginChildren(level, c) <= mlp.GetCell(level - 1, u) < mlp.EndChildren(level, c)
  {
    hide LevelData.Valid, Field, ReadCell, NestedCells.Nested, Ordered, ChildrenListed, Numbered, IsPermutation;
    var parent, child, last := Along(cells[level - 1], order), Along(cells[level - 2], order), |order| - 1;
    ChildEntryCount(mlp, cells, order, level);
    ChildTableEntry(mlp, cells, order, level, c);
    ChildTableEntry(mlp, cells, order, level, c + 1);
    assert mlp.levelData.IsLevel(level - 1);
    var i := PackedId(mlp, cells, order, level, u);
    var j := PackedId(mlp, cells, order, level - 1, u);
    PermutationInjective(order, |order|, i, j);
    var starts := Runs.ChildStarts(parent, child, last);
    assert Runs.Bracketed(parent, child, i, starts);
    Runs.RunIdMonotone(child, i, last);
    Runs.RunIdMonotone(parent, i, last);
  }

  /** Consecutive cells have consecutive intervals, and together they cover the ids of the level below. */
  lemma ChildIntervalsTile(mlp: MultiLevelPartition, cells: seq<seq<nat>>, order: seq<nat>, level: nat, c: nat)
    requires Packed(mlp, cells, order) && 1 < level && mlp.levelData.IsLevel(level)
    requires c < mlp.GetNumberOfCells(level)
    ensures HasInterval(mlp, level, c) && mlp.levelData.IsLevel(level - 1)
    ensures mlp.BeginChildren(level, c) < mlp.EndChildren(level, c)
    ensures c == 0 ==> mlp.BeginChildren(level, c) == 0
    ensures c + 1 < mlp.GetNumberOfCells(level) ==>
              HasInterval(mlp, level, c + 1) && mlp.EndChildren(level, c) == mlp.BeginChildren(level, c + 1)
    ensures c + 1 == mlp.GetNumberOfCells(level) ==> mlp.EndChildren(level, c) == mlp.GetNumberOfCells(level - 1)
  {
    hide LevelData.Valid, Field, ReadCell, NestedCells.Nested, Ordered, ChildrenListed, Numbered, IsPermutation;
    var parent, child, last := Along(cells[level - 1], order), Along(cells[level - 2], order), |order| - 1;
    ChildEntryCount(mlp, cells, order, level);
    ChildTableEntry(mlp, cells, order, level, c);
    ChildTableEntry(mlp, cells, order, level, c + 1);
    if c + 1 < mlp.GetNumberOfCells(level) {
      ChildTableEntry(mlp, cells, order, level, c + 2);
    }
    assert Runs.Bracketed(parent, child, last, Runs.ChildStarts(parent, child, last));
  }
}
