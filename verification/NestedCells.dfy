/**
 Partitions of the nodes on several levels, finest first: `cells[l][v]` names the cell of
 node `v` in the `l`-th partition.
 */
module NestedCells {

  ghost predicate Shaped(cells: seq<seq<nat>>, numNodes: nat) {
    forall l :: 0 <= l < |cells| ==> |cells[l]| == numNodes
  }

  ghost predicate NestedAt(cells: seq<seq<nat>>, numNodes: nat, l: nat, u: nat, v: nat)
    requires Shaped(cells, numNodes) && l + 1 < |cells| && u < numNodes && v < numNodes
  {
    cells[l][u] == cells[l][v] ==> cells[l + 1][u] == cells[l + 1][v]
  }

  /** Nodes sharing a cell share the cell one level up. */
  ghost predicate Nested(cells: seq<seq<nat>>, numNodes: nat)
    requires Shaped(cells, numNodes)
  {
    forall l: nat, u: nat, v: nat ::
      l + 1 < |cells| && u < numNodes && v < numNodes ==> NestedAt(cells, numNodes, l, u, v)
  }

  lemma {:induction false} NestedUpwards(cells: seq<seq<nat>>, numNodes: nat, lo: nat, hi: nat, u: nat, v: nat)
    requires Shaped(cells, numNodes) && Nested(cells, numNodes)
    requires lo <= hi < |cells| && u < numNodes && v < numNodes
    requires cells[lo][u] == cells[lo][v]
    ensures cells[hi][u] == cells[hi][v]
    decreases hi - lo
  {
    if lo < hi {
      assert NestedAt(cells, numNodes, lo, u, v);
      NestedUpwards(cells, numNodes, lo + 1, hi, u, v);
    }
  }
}
