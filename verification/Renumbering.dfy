/**
 The partitioner renumbers the nodes: border nodes of the coarsest levels first, and within a
 level along the cells.
 */
module Renumbering {
  import opened NodeOrder
  import opened Permutations
  import PartitionRepair
  import MultiLevelPartitions
  import NestedCells

  // ---------- the highest level at which a node is a border node ----------

  /** Edge `i` of node `u` crosses a border of `level` and ends in `v`, or starts there. */
  ghost predicate CrossesAt(adj: PartitionRepair.Adjacency, cells: seq<seq<nat>>, level: nat, u: nat, i: nat, v: nat)
    requires PartitionRepair.Fits(adj, cells) && 1 <= level <= |cells|
  {
    && u < |adj| && i < |adj[u]| && cells[level - 1][u] != cells[level - 1][adj[u][i].target]
    && (u == v || adj[u][i].target == v)
  }

  ghost predicate OnBorder(adj: PartitionRepair.Adjacency, cells: seq<seq<nat>>, level: nat, v: nat)
    requires PartitionRepair.Fits(adj, cells) && 1 <= level <= |cells|
  {
    exists u: nat, i: nat :: CrossesAt(adj, cells, level, u, i, v)
  }

  /** Found among the edges of the nodes before `node` and the first `k` edges of `node`. */
  ghost predicate FoundBefore(adj: PartitionRepair.Adjacency, cells: seq<seq<nat>>, level: nat, v: nat, node: nat,
                              k: nat)
    requires PartitionRepair.Fits(adj, cells) && 1 <= level <= |cells|
  {
    exists u: nat, i: nat :: CrossesAt(adj, cells, level, u, i, v) && (u < node || (u == node && i < k))
  }

  /** `b` is the highest of the first `m` levels at which `v` is a border node, or 0. */
  ghost predicate IsHighest(adj: PartitionRepair.Adjacency, cells: seq<seq<nat>>, m: nat, v: nat, b: nat)
    requires PartitionRepair.Fits(adj, cells) && m <= |cells|
  {
    b <= m && (b > 0 ==> OnBorder(adj, cells, b, v)) && forall l: nat :: b < l <= m ==> !OnBorder(adj, cells, l, v)
  }

  lemma FoundGrows(adj: PartitionRepair.Adjacency, cells: seq<seq<nat>>, level: nat, v: nat, node: nat, k: nat)
    requires PartitionRepair.Fits(adj, cells) && 1 <= level <= |cells| && node < |adj| && k < |adj[node]|
    ensures FoundBefore(adj, cells, level, v, node, k + 1)
       <==> FoundBefore(adj, cells, level, v, node, k) || CrossesAt(adj, cells, level, node, k, v)
  {
  }

  lemma FoundInRow(adj: PartitionRepair.Adjacency, cells: seq<seq<nat>>, level: nat, v: nat, node: nat)
    requires PartitionRepair.Fits(adj, cells) && 1 <= level <= |cells| && node < |adj|
    ensures FoundBefore(adj, cells, level, v, node, |adj[node]|) <==> FoundBefore(adj, cells, level, v, node + 1, 0)
  {
  }

  ghost predicate LevelMarked(adj: PartitionRepair.Adjacency, cells: seq<seq<nat>>, level: nat, before: seq<nat>,
                              now: seq<nat>, node: nat, k: nat)
    requires PartitionRepair.Fits(adj, cells) && 1 <= level <= |cells|
  {
    |before| == |now| == |adj| && forall v: nat :: v < |adj| ==>
      now[v] == if FoundBefore(adj, cells, level, v, node, k) then level else before[v]
  }

  /** One level: both ends of every crossing edge get the level. */
  method MarkLevel(adj: PartitionRepair.Adjacency, cells: seq<seq<nat>>, level: nat, before: seq<nat>)
    returns (border: seq<nat>)
    requires PartitionRepair.Fits(adj, cells) && 1 <= level <= |cells| && |before| == |adj|
    ensures |border| == |adj|
    ensures forall v: nat :: v < |adj| ==> border[v] == if OnBorder(adj, cells, level, v) then level else before[v]
  {
    var partition := cells[level - 1];
    border := before;
    for node := 0 to |adj|
      invariant LevelMarked(adj, cells, level, before, border, node, 0)
    {
      for k := 0 to |adj[node]|
        invariant LevelMarked(adj, cells, level, before, border, node, k)
      {
        var target := adj[node][k].target;
        if partition[node] != partition[target] {
          border := border[node := level][target := level];
        }
        forall v: nat | v < |adj| ensures FoundBefore(adj, cells, level, v, node, k + 1)
          <==> FoundBefore(adj, cells, level, v, node, k) || CrossesAt(adj, cells, level, node, k, v)
        {
          FoundGrows(adj, cells, level, v, node, k);
        }
        hide FoundBefore;
      }
      forall v: nat | v < |adj|
        ensures FoundBefore(adj, cells, level, v, node, |adj[node]|) <==> FoundBefore(adj, cells, level, v, node + 1, 0)
      {
        FoundInRow(adj, cells, level, v, node);
      }
      hide FoundBefore;
    }
    assert forall v: nat ::
             v < |adj| ==> (FoundBefore(adj, cells, level, v, |adj|, 0) <==> OnBorder(adj, cells, level, v));
  }

  /** `getHighestBorderLevel` */
  method GetHighestBorderLevel(adj: PartitionRepair.Adjacency, cells: seq<seq<nat>>) returns (border: seq<nat>)
    requires PartitionRepair.Fits(adj, cells)
    ensures |border| == |adj| && forall v: nat :: v < |adj| ==> IsHighest(adj, cells, |cells|, v, border[v])
  {
    border := seq(|adj|, _ => 0);
    for level := 1 to |cells| + 1
      invariant |border| == |adj| && forall v: nat :: v < |adj| ==> IsHighest(adj, cells, level - 1, v, border[v])
    {
      hide OnBorder;
      border := MarkLevel(adj, cells, level, border);
    }
  }

  // ---------- the new numbers ----------

  lemma {:induction false} MoreCellsSameOrder(cells: seq<seq<nat>>, key: seq<nat>, n: nat, m: nat, a: nat, b: nat)
    requires NestedCells.Shaped(cells, n) && |key| == n && m <= |cells| && a < n && b < n
    ensures NestedCells.Shaped(cells + [key], n) && (Before(cells + [key], n, m, a, b) <==> Before(cells, n, m, a, b))
    decreases m
  {
    assert NestedCells.Shaped(cells + [key], n);
    if m > 0 {
      MoreCellsSameOrder(cells, key, n, m - 1, a, b);
    }
  }

  /** Higher border levels get smaller numbers; equal ones are numbered along the cells. */
  ghost predicate BordersFirst(cells: seq<seq<nat>>, border: seq<nat>, perm: seq<nat>) {
    && |border| == |perm| && NestedCells.Shaped(cells, |perm|)
    && forall u: nat, v: nat :: u < |perm| && v < |perm| && perm[u] < perm[v] ==> Earlier(cells, border, u, v)
  }

  ghost predicate Earlier(cells: seq<seq<nat>>, border: seq<nat>, u: nat, v: nat)
    requires NestedCells.Shaped(cells, |border|) && u < |border| && v < |border|
  {
    border[u] > border[v] || (border[u] == border[v] && Before(cells, |border|, |cells|, u, v))
  }

  /** `makePermutation` */
  method MakePermutation(adj: PartitionRepair.Adjacency, cells: seq<seq<nat>>)
    returns (perm: seq<nat>, ghost order: seq<nat>, ghost border: seq<nat>)
    requires PartitionRepair.Fits(adj, cells)
    ensures |perm| == |adj| && Inverse(perm, order) && BordersFirst(cells, border, perm)
    ensures |border| == |adj| && forall v: nat :: v < |adj| ==> IsHighest(adj, cells, |cells|, v, border[v])
  {
    hide OnBorder;
    var n := |adj|;
    var ordering := MultiLevelPartitions.SortNodes(cells, n);
    var levels := GetHighestBorderLevel(adj, cells);
    assert forall v: nat :: v < n ==> IsHighest(adj, cells, |cells|, v, levels[v]) && levels[v] <= |cells|;
    hide Ordered, IsHighest, IsPermutation;
    var key := SortKey(levels, |cells|);
    SortedByBorder(cells, key, n, ordering);
    var sorted := StableSort(ordering, key);
    assert IsPermutation(sorted, n) by { SortedIsPermutation(ordering, key, n); }
    perm := OrderingToPermutation(sorted);
    order, border := sorted, levels;
    NumberedInOrder(cells, levels, sorted, perm);
  }

  /** Sorting by this key puts higher levels first. */
  function SortKey(levels: seq<nat>, top: nat): (key: seq<nat>)
    requires forall v: nat :: v < |levels| ==> levels[v] <= top
    ensures |key| == |levels|
  {
    seq(|levels|, v requires 0 <= v < |levels| => top - levels[v])
  }

  lemma SortedIsPermutation(s: seq<nat>, key: seq<nat>, n: nat)
    requires IsPermutation(s, n) && InRange(s, |key|)
    ensures IsPermutation(StableSort(s, key), n)
  {
  }

  lemma NumberedInOrder(cells: seq<seq<nat>>, levels: seq<nat>, order: seq<nat>, perm: seq<nat>)
    requires NestedCells.Shaped(cells, |levels|) && (forall v: nat :: v < |levels| ==> levels[v] <= |cells|)
    requires Inverse(perm, order) && |perm| == |levels|
    requires var key := SortKey(levels, |cells|);
             NestedCells.Shaped(cells + [key], |levels|) && InRange(order, |levels|)
             && Ordered(cells + [key], |levels|, |cells| + 1, order)
    ensures BordersFirst(cells, levels, perm)
  {
    hide Ordered, Before;
    forall u: nat, v: nat | u < |perm| && v < |perm| && perm[u] < perm[v] ensures Earlier(cells, levels, u, v) {
      SortedPair(cells, SortKey(levels, |cells|), |levels|, order, perm[u], perm[v]);
    }
  }

  lemma SortedByBorder(cells: seq<seq<nat>>, key: seq<nat>, n: nat, s: seq<nat>)
    requires NestedCells.Shaped(cells, n) && |key| == n && InRange(s, n) && Ordered(cells, n, |cells|, s)
    ensures NestedCells.Shaped(cells + [key], n) && Ordered(cells + [key], n, |cells| + 1, StableSort(s, key))
  {
    hide Before;
    assert NestedCells.Shaped(cells + [key], n);
    forall i, j | 0 <= i < j < |s| ensures Before(cells + [key], n, |cells|, s[i], s[j]) {
      MoreCellsSameOrder(cells, key, n, |cells|, s[i], s[j]);
    }
    StableSortOrders(cells + [key], n, |cells|, s);
  }

  lemma SortedPair(cells: seq<seq<nat>>, key: seq<nat>, n: nat, s: seq<nat>, i: nat, j: nat)
    requires NestedCells.Shaped(cells, n) && |key| == n && InRange(s, n) && i < j < |s|
    requires NestedCells.Shaped(cells + [key], n) && Ordered(cells + [key], n, |cells| + 1, s)
    ensures key[s[i]] < key[s[j]] || (key[s[i]] == key[s[j]] && Before(cells, n, |cells|, s[i], s[j]))
  {
    MoreCellsSameOrder(cells, key, n, |cells|, s[i], s[j]);
    assert Before(cells + [key], n, |cells| + 1, s[i], s[j]);
  }

  // ---------- renumbered tables ----------

  ghost predicate TableRenumbered<T>(now: seq<T>, before: seq<T>, perm: seq<nat>) {
    && |now| == |before| == |perm|
    && forall v :: 0 <= v < |perm| ==> perm[v] < |perm| && now[perm[v]] == before[v]
  }

  method RenumberTable<T>(table: seq<T>, perm: seq<nat>, ghost order: seq<nat>) returns (renumbered: seq<T>)
    requires |table| == |perm| && Inverse(perm, order)
    ensures TableRenumbered(renumbered, table, perm)
  {
    var a := new T[|table|](i requires 0 <= i < |table| => table[i]);
    InplacePermutation(a, perm, order);
    renumbered := a[..];
  }

  ghost predicate CellsRenumbered(now: seq<seq<nat>>, before: seq<seq<nat>>, perm: seq<nat>) {
    |now| == |before| && forall l :: 0 <= l < |before| ==> TableRenumbered(now[l], before[l], perm)
  }

  /** `renumber` of the partitions: every level in place. */
  method RenumberPartitions(cells: seq<seq<nat>>, perm: seq<nat>, ghost order: seq<nat>)
    returns (renumbered: seq<seq<nat>>)
    requires NestedCells.Shaped(cells, |perm|) && Inverse(perm, order)
    ensures CellsRenumbered(renumbered, cells, perm)
  {
    hide TableRenumbered;
    renumbered := [];
    for l := 0 to |cells|
      invariant |renumbered| == l && forall k :: 0 <= k < l ==> TableRenumbered(renumbered[k], cells[k], perm)
    {
      var level := RenumberTable(cells[l], perm, order);
      renumbered := renumbered + [level];
    }
  }

  /** Renumbering keeps the nesting. */
  lemma RenumberedIsNested(now: seq<seq<nat>>, before: seq<seq<nat>>, perm: seq<nat>, order: seq<nat>)
    requires CellsRenumbered(now, before, perm) && Inverse(perm, order)
    requires NestedCells.Shaped(before, |perm|) && NestedCells.Nested(before, |perm|)
    ensures NestedCells.Shaped(now, |perm|) && NestedCells.Nested(now, |perm|)
  {
    assert forall l :: 0 <= l < |now| ==> TableRenumbered(now[l], before[l], perm);
    forall l: nat, u: nat, v: nat | l + 1 < |now| && u < |perm| && v < |perm|
      ensures NestedCells.NestedAt(now, |perm|, l, u, v)
    {
      assert NestedCells.NestedAt(before, |perm|, l, order[u], order[v]);
      CellOf(now, before, perm, order, l, u);
      CellOf(now, before, perm, order, l, v);
      CellOf(now, before, perm, order, l + 1, u);
      CellOf(now, before, perm, order, l + 1, v);
    }
  }

  lemma CellOf(now: seq<seq<nat>>, before: seq<seq<nat>>, perm: seq<nat>, order: seq<nat>, l: nat, x: nat)
    requires CellsRenumbered(now, before, perm) && Inverse(perm, order) && l < |now| && x < |perm|
    ensures |now[l]| == |before[l]| == |perm| && now[l][x] == before[l][order[x]]
  {
    assert TableRenumbered(now[l], before[l], perm);
    assert perm[order[x]] == x;
  }
}
