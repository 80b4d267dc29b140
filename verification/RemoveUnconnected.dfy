/**
 Repairing nested partitions: a border node without any edge inside its cell moves to the
 cell of a neighbour, on this level and on all finer ones.
 */
module PartitionRepair {
  import opened RoadGraph
  import NestedCells

  /** The edges of each node. */
  type Adjacency = seq<seq<Edge>>

  ghost predicate InRange(adj: Adjacency) {
    forall v, i :: 0 <= v < |adj| && 0 <= i < |adj[v]| ==> adj[v][i].target < |adj|
  }

  /** Every stored edge can be travelled in at least one direction. */
  ghost predicate Flagged(adj: Adjacency) {
    forall v, i :: 0 <= v < |adj| && 0 <= i < |adj[v]| ==> adj[v][i].data.forward || adj[v][i].data.backward
  }

  ghost predicate IsNeighbour(adj: Adjacency, v: nat, w: nat)
    requires v < |adj|
  {
    exists i :: 0 <= i < |adj[v]| && adj[v][i].target == w
  }

  ghost predicate Symmetric(adj: Adjacency) {
    forall v: nat, w: nat :: v < |adj| && w < |adj| && IsNeighbour(adj, v, w) ==> IsNeighbour(adj, w, v)
  }

  ghost predicate Fits(adj: Adjacency, cells: seq<seq<nat>>) {
    InRange(adj) && NestedCells.Shaped(cells, |adj|)
  }

  // ---------- what one visit to a node does ----------

  ghost predicate HasInner(adj: Adjacency, cells: seq<seq<nat>>, level: nat, v: nat)
    requires Fits(adj, cells) && level < |cells| && v < |adj|
  {
    exists i :: 0 <= i < |adj[v]| && cells[level][adj[v][i].target] == cells[level][v]
                && (adj[v][i].data.forward || adj[v][i].data.backward)
  }

  ghost predicate HasOuter(adj: Adjacency, cells: seq<seq<nat>>, level: nat, v: nat)
    requires Fits(adj, cells) && level < |cells| && v < |adj|
  {
    exists i :: 0 <= i < |adj[v]| && cells[level][adj[v][i].target] != cells[level][v]
  }

  ghost predicate Unconnected(adj: Adjacency, cells: seq<seq<nat>>, level: nat, v: nat)
    requires Fits(adj, cells) && level < |cells| && v < |adj|
  {
    HasOuter(adj, cells, level, v) && !HasInner(adj, cells, level, v)
  }

  /** A neighbour in another cell that shares the parent cell, unless on the coarsest level. */
  predicate Witness(cells: seq<seq<nat>>, level: nat, v: nat, w: nat)
    requires level < |cells| && v < |cells[level]| && w < |cells[level]|
    requires level + 1 < |cells| ==> v < |cells[level + 1]| && w < |cells[level + 1]|
  {
    cells[level][w] != cells[level][v] && (level + 1 < |cells| ==> cells[level + 1][v] == cells[level + 1][w])
  }

  ghost predicate Candidate(adj: Adjacency, cells: seq<seq<nat>>, level: nat, v: nat, w: nat)
    requires Fits(adj, cells) && level < |cells| && v < |adj|
  {
    w < |adj| && IsNeighbour(adj, v, w) && Witness(cells, level, v, w)
  }

  /** Levels up to `level` on which `a` and `b` lie in different cells. */
  function Differences(cells: seq<seq<nat>>, level: int, a: nat, b: nat): nat
    requires -1 <= level < |cells| && forall l :: 0 <= l <= level ==> a < |cells[l]| && b < |cells[l]|
    decreases level + 1
  {
    if level < 0 then 0 else (if cells[level][a] != cells[level][b] then 1 else 0) + Differences(cells, level - 1, a, b)
  }

  /** Border edges over the first `k` edges of `v`, if it joined the cells of `w`. */
  function InducedBorderEdges(adj: Adjacency, cells: seq<seq<nat>>, level: nat, v: nat, w: nat, k: nat): nat
    requires v < |adj| && k <= |adj[v]| && w < |adj| && level < |cells|
    requires (forall i :: 0 <= i < |adj[v]| ==> adj[v][i].target < |adj|)
             && forall l :: 0 <= l < |cells| ==> |cells[l]| == |adj|
  {
    if k == 0 then 0
    else InducedBorderEdges(adj, cells, level, v, w, k - 1) + Differences(cells, level, adj[v][k - 1].target, w)
  }

  /** A candidate that induces the fewest border edges. */
  ghost predicate BestWitness(adj: Adjacency, cells: seq<seq<nat>>, level: nat, v: nat, w: nat)
    requires Fits(adj, cells) && level < |cells| && v < |adj|
  {
    && Candidate(adj, cells, level, v, w)
    && forall x: nat :: Candidate(adj, cells, level, v, x) ==>
         InducedBorderEdges(adj, cells, level, v, w, |adj[v]|) <= InducedBorderEdges(adj, cells, level, v, x, |adj[v]|)
  }

  /** `v` joins the cells of `w` on `level` and below. */
  function Reassign(cells: seq<seq<nat>>, level: nat, v: nat, w: nat): (r: seq<seq<nat>>)
    requires level < |cells| && forall l :: 0 <= l < |cells| ==> v < |cells[l]| && w < |cells[l]|
    ensures |r| == |cells|
            && forall l :: 0 <= l < |cells| ==> r[l] == if l <= level then cells[l][v := cells[l][w]] else cells[l]
  {
    seq(|cells|, l requires 0 <= l < |cells| => if l <= level then cells[l][v := cells[l][w]] else cells[l])
  }

  // ---------- what the count of a candidate means ----------

  /** Pairs of one of the first `k` edges of `v` and a level on which its other end is not in the cell of `w`. */
  ghost function PairsApart(adj: Adjacency, cells: seq<seq<nat>>, level: nat, v: nat, w: nat, k: nat): set<(nat, nat)>
    requires Fits(adj, cells) && level < |cells| && v < |adj| && w < |adj| && k <= |adj[v]|
  {
    set i: nat, l: nat | i < k && l <= level && cells[l][adj[v][i].target] != cells[l][w] :: (i, l)
  }

  ghost function LevelsApart(cells: seq<seq<nat>>, level: int, a: nat, b: nat, i: nat): set<(nat, nat)>
    requires -1 <= level < |cells| && forall l :: 0 <= l <= level ==> a < |cells[l]| && b < |cells[l]|
  {
    set l: nat | l <= level && cells[l][a] != cells[l][b] :: (i, l)
  }

  lemma {:induction false} DifferencesCount(cells: seq<seq<nat>>, level: int, a: nat, b: nat, i: nat)
    requires -1 <= level < |cells| && forall l :: 0 <= l <= level ==> a < |cells[l]| && b < |cells[l]|
    ensures Differences(cells, level, a, b) == |LevelsApart(cells, level, a, b, i)|
    decreases level + 1
  {
    var now := LevelsApart(cells, level, a, b, i);
    if level < 0 {
      assert now == {};
    } else {
      DifferencesCount(cells, level - 1, a, b, i);
      var below := LevelsApart(cells, level - 1, a, b, i);
      assert (i, level as nat) !in below;
      assert now == if cells[level][a] != cells[level][b] then below + {(i, level as nat)} else below;
    }
  }

  lemma {:induction false} InducedCountsPairs(adj: Adjacency, cells: seq<seq<nat>>, level: nat, v: nat, w: nat, k: nat)
    requires Fits(adj, cells) && level < |cells| && v < |adj| && w < |adj| && k <= |adj[v]|
    ensures InducedBorderEdges(adj, cells, level, v, w, k) == |PairsApart(adj, cells, level, v, w, k)|
  {
    if k == 0 {
      assert PairsApart(adj, cells, level, v, w, k) == {};
    } else {
      hide PairsApart, LevelsApart, Differences;
      InducedCountsPairs(adj, cells, level, v, w, k - 1);
      DifferencesCount(cells, level, adj[v][k - 1].target, w, k - 1);
      PairsGrow(adj, cells, level, v, w, k - 1);
    }
  }

  lemma PairsGrow(adj: Adjacency, cells: seq<seq<nat>>, level: nat, v: nat, w: nat, k: nat)
    requires Fits(adj, cells) && level < |cells| && v < |adj| && w < |adj| && k < |adj[v]|
    ensures var before, last := PairsApart(adj, cells, level, v, w, k),
                                LevelsApart(cells, level, adj[v][k].target, w, k);
            PairsApart(adj, cells, level, v, w, k + 1) == before + last && before !! last
  {
    var before, last := PairsApart(adj, cells, level, v, w, k), LevelsApart(cells, level, adj[v][k].target, w, k);
    forall p: (nat, nat) ensures p in PairsApart(adj, cells, level, v, w, k + 1) <==> p in before || p in last {
      var (i, l) := p;
    }
  }

  /** Pairs of an edge of `v` and a level up to `level` on which the edge crosses a border. */
  ghost function CrossingPairs(adj: Adjacency, cells: seq<seq<nat>>, level: nat, v: nat): set<(nat, nat)>
    requires Fits(adj, cells) && level < |cells| && v < |adj|
  {
    set i: nat, l: nat | i < |adj[v]| && l <= level && cells[l][adj[v][i].target] != cells[l][v] :: (i, l)
  }

  ghost predicate NoLoops(adj: Adjacency, v: nat)
    requires v < |adj|
  {
    forall i :: 0 <= i < |adj[v]| ==> adj[v][i].target != v
  }

  /** What is counted for a candidate is how often the edges of the node cross a border once it has moved there. */
  lemma InducedIsCrossing(adj: Adjacency, cells: seq<seq<nat>>, level: nat, v: nat, w: nat)
    requires Fits(adj, cells) && level < |cells| && v < |adj| && w < |adj| && NoLoops(adj, v)
    ensures Fits(adj, Reassign(cells, level, v, w))
    ensures InducedBorderEdges(adj, cells, level, v, w, |adj[v]|)
            == |CrossingPairs(adj, Reassign(cells, level, v, w), level, v)|
  {
    InducedCountsPairs(adj, cells, level, v, w, |adj[v]|);
    var after := Reassign(cells, level, v, w);
    assert PairsApart(adj, cells, level, v, w, |adj[v]|) == CrossingPairs(adj, after, level, v);
  }

  /** A node without inner edges has no loop that can be travelled. */
  lemma UnconnectedHasNoLoops(adj: Adjacency, cells: seq<seq<nat>>, level: nat, v: nat)
    requires Fits(adj, cells) && level < |cells| && v < |adj| && Flagged(adj) && Unconnected(adj, cells, level, v)
    ensures NoLoops(adj, v)
  {
  }

  /** After the move the edges of the node cross borders no more often than after any other move it could make. */
  ghost predicate FewestCrossings(adj: Adjacency, before: seq<seq<nat>>, after: seq<seq<nat>>, level: nat, v: nat)
    requires Fits(adj, before) && Fits(adj, after) && level < |before| == |after| && v < |adj|
  {
    forall i :: 0 <= i < |adj[v]| && CanJoin(before, level, v, adj[v][i].target) ==>
      |CrossingPairs(adj, after, level, v)| <= CrossingsAfterMove(adj, before, level, v, adj[v][i].target)
  }

  /** `x` lies in another cell of the same parent cell. */
  ghost predicate CanJoin(cells: seq<seq<nat>>, level: nat, v: nat, x: nat) {
    && level < |cells| && v < |cells[level]| && x < |cells[level]| && cells[level][x] != cells[level][v]
    && (level + 1 < |cells| ==>
          v < |cells[level + 1]| && x < |cells[level + 1]| && cells[level + 1][x] == cells[level + 1][v])
  }

  ghost function CrossingsAfterMove(adj: Adjacency, cells: seq<seq<nat>>, level: nat, v: nat, x: nat): nat
    requires Fits(adj, cells) && level < |cells| && v < |adj| && x < |adj|
  {
    MoveFits(adj, cells, level, v, x);
    |CrossingPairs(adj, Reassign(cells, level, v, x), level, v)|
  }

  lemma MoveFits(adj: Adjacency, cells: seq<seq<nat>>, level: nat, v: nat, w: nat)
    requires Fits(adj, cells) && level < |cells| && v < |adj| && w < |adj|
    ensures Fits(adj, Reassign(cells, level, v, w))
  {
  }

  lemma BestMoveHasFewestCrossings(adj: Adjacency, cells: seq<seq<nat>>, level: nat, v: nat, w: nat)
    requires Fits(adj, cells) && level < |cells| && v < |adj| && Flagged(adj) && Unconnected(adj, cells, level, v)
    requires BestWitness(adj, cells, level, v, w)
    ensures Fits(adj, Reassign(cells, level, v, w))
    ensures FewestCrossings(adj, cells, Reassign(cells, level, v, w), level, v)
  {
    UnconnectedHasNoLoops(adj, cells, level, v);
    hide Unconnected, InducedBorderEdges, CrossingPairs;
    InducedIsCrossing(adj, cells, level, v, w);
    forall i | 0 <= i < |adj[v]| && CanJoin(cells, level, v, adj[v][i].target)
      ensures |CrossingPairs(adj, Reassign(cells, level, v, w), level, v)|
              <= CrossingsAfterMove(adj, cells, level, v, adj[v][i].target)
    {
      var x := adj[v][i].target;
      assert Candidate(adj, cells, level, v, x);
      InducedIsCrossing(adj, cells, level, v, x);
    }
  }

  datatype Outcome = Fine | Stuck | Moved(to: nat)

  /** One visit: nothing to do, no witness left, or a move to a best witness. */
  ghost predicate Visited(adj: Adjacency, before: seq<seq<nat>>, after: seq<seq<nat>>, level: nat, v: nat,
                          outcome: Outcome)
    requires Fits(adj, before) && level < |before| && v < |adj|
  {
    match outcome
    case Fine => !Unconnected(adj, before, level, v) && after == before
    case Stuck => Unconnected(adj, before, level, v) && (forall w: nat :: !Candidate(adj, before, level, v, w))
                  && after == before
    case Moved(w) =>
      && Unconnected(adj, before, level, v) && BestWitness(adj, before, level, v, w)
      && after == Reassign(before, level, v, w)
  }

  // ---------- what every visit keeps ----------

  /** Nesting survives every visit, whatever the graph looks like, and coarser levels are not touched. */
  lemma VisitKeepsNesting(adj: Adjacency, before: seq<seq<nat>>, after: seq<seq<nat>>, level: nat, v: nat,
                          outcome: Outcome)
    requires Fits(adj, before) && level < |before| && v < |adj| && Visited(adj, before, after, level, v, outcome)
    ensures Fits(adj, after) && |after| == |before|
    ensures forall l :: level < l < |before| ==> after[l] == before[l]
    ensures NestedCells.Nested(before, |adj|) ==> NestedCells.Nested(after, |adj|)
  {
    if outcome.Moved? && NestedCells.Nested(before, |adj|) {
      var w := outcome.to;
      forall l: nat, a: nat, b: nat | l + 1 < |after| && a < |adj| && b < |adj|
        ensures NestedCells.NestedAt(after, |adj|, l, a, b)
      {
        var a', b' := if a == v && l <= level then w else a, if b == v && l <= level then w else b;
        assert NestedCells.NestedAt(before, |adj|, l, a', b');
      }
    }
  }

  /** Every cell of `after` is a cell of `before`. */
  ghost predicate NoNewCells(before: seq<seq<nat>>, after: seq<seq<nat>>) {
    |after| == |before| && forall l: nat, v: nat :: l < |after| && v < |after[l]| ==> after[l][v] in before[l]
  }

  lemma VisitAddsNoCells(adj: Adjacency, start: seq<seq<nat>>, before: seq<seq<nat>>, after: seq<seq<nat>>, level: nat,
                         v: nat, outcome: Outcome)
    requires Fits(adj, before) && level < |before| && v < |adj| && Visited(adj, before, after, level, v, outcome)
    requires NoNewCells(start, before)
    ensures NoNewCells(start, after)
  {
    hide Unconnected, IsNeighbour, InRange;
    if outcome.Moved? {
      forall l: nat, u: nat | l < |after| && u < |after[l]| ensures after[l][u] in start[l] {
        assert before[l][u] in start[l] && before[l][outcome.to] in start[l];
      }
    }
  }

  /** `v` shares its cell with a neighbour, or has no edges at all. */
  ghost predicate Settled(adj: Adjacency, cells: seq<seq<nat>>, level: nat, v: nat)
    requires Fits(adj, cells) && level < |cells| && v < |adj|
  {
    adj[v] == [] || exists w: nat :: w < |adj| && IsNeighbour(adj, v, w) && cells[level][w] == cells[level][v]
  }

  ghost predicate LevelSettled(adj: Adjacency, cells: seq<seq<nat>>, level: nat)
    requires Fits(adj, cells) && level < |cells|
  {
    forall v: nat :: v < |adj| ==> Settled(adj, cells, level, v)
  }

  lemma FlaggedInner(adj: Adjacency, cells: seq<seq<nat>>, level: nat, v: nat)
    requires Fits(adj, cells) && level < |cells| && v < |adj| && Flagged(adj)
    ensures Settled(adj, cells, level, v) <==> !Unconnected(adj, cells, level, v)
  {
    if HasInner(adj, cells, level, v) {
      var i :| 0 <= i < |adj[v]| && cells[level][adj[v][i].target] == cells[level][v];
      assert IsNeighbour(adj, v, adj[v][i].target);
    } else if adj[v] != [] {
      assert cells[level][adj[v][0].target] != cells[level][v];
      forall w: nat | w < |adj| && IsNeighbour(adj, v, w) ensures cells[level][w] != cells[level][v] {
        var i :| 0 <= i < |adj[v]| && adj[v][i].target == w;
      }
    }
  }

  /** If the level above is settled, a witness always remains. */
  lemma NeverStuck(adj: Adjacency, cells: seq<seq<nat>>, level: nat, v: nat)
    requires Fits(adj, cells) && level < |cells| && v < |adj| && Flagged(adj)
    requires level + 1 < |cells| ==> Settled(adj, cells, level + 1, v)
    requires Unconnected(adj, cells, level, v)
    ensures exists w: nat :: Candidate(adj, cells, level, v, w)
  {
    FlaggedInner(adj, cells, level, v);
    if level + 1 < |cells| {
      var w: nat :| w < |adj| && IsNeighbour(adj, v, w) && cells[level + 1][w] == cells[level + 1][v];
      assert cells[level][w] != cells[level][v];
      assert Candidate(adj, cells, level, v, w);
    } else {
      var i :| 0 <= i < |adj[v]| && cells[level][adj[v][i].target] != cells[level][v];
      assert IsNeighbour(adj, v, adj[v][i].target);
      assert Candidate(adj, cells, level, v, adj[v][i].target);
    }
  }

  /** A move settles the node and cannot unsettle another one: on a symmetric graph nobody relied on it. */
  lemma MoveKeepsSettled(adj: Adjacency, before: seq<seq<nat>>, level: nat, v: nat, w: nat, u: nat)
    requires Fits(adj, before) && level < |before| && v < |adj| && u < |adj| && Flagged(adj) && Symmetric(adj)
    requires Unconnected(adj, before, level, v) && Candidate(adj, before, level, v, w)
    requires u == v || Settled(adj, before, level, u)
    ensures Fits(adj, Reassign(before, level, v, w)) && Settled(adj, Reassign(before, level, v, w), level, u)
  {
    var after := Reassign(before, level, v, w);
    assert NestedCells.Shaped(after, |adj|);
    FlaggedInner(adj, before, level, v);
    if u == v {
      assert w != v && after[level][w] == after[level][v];
    } else if adj[u] != [] {
      var x: nat :| x < |adj| && IsNeighbour(adj, u, x) && before[level][x] == before[level][u];
      assert IsNeighbour(adj, u, v) ==> IsNeighbour(adj, v, u);
      assert x != v;
    }
  }

  // ---------- the repair ----------

  class PartitionTable {
    var cells: seq<seq<nat>>

    constructor (cells: seq<seq<nat>>)
      ensures this.cells == cells
    {
      this.cells := cells;
    }
  }

  ghost predicate NodesBelow(s: seq<nat>, n: nat) {
    forall i :: 0 <= i < |s| ==> s[i] < n
  }

  /** Neighbours in other cells, and whether some edge stays inside. */
  method ScanEdges(adj: Adjacency, cells: seq<seq<nat>>, level: nat, node: nat)
    returns (witnesses: seq<nat>, isSource: bool, isTarget: bool)
    requires Fits(adj, cells) && level < |cells| && node < |adj|
    ensures (isSource || isTarget) == HasInner(adj, cells, level, node)
    ensures NodesBelow(witnesses, |adj|)
    ensures forall w: nat ::
              w in witnesses <==> w < |adj| && IsNeighbour(adj, node, w) && cells[level][w] != cells[level][node]
    ensures |witnesses| > 0 <==> HasOuter(adj, cells, level, node)
  {
    witnesses, isSource, isTarget := [], false, false;
    var cellId := cells[level][node];
    for i := 0 to |adj[node]|
      invariant (isSource || isTarget) <==> exists j :: 0 <= j < i && cells[level][adj[node][j].target] == cellId
                                                   && (adj[node][j].data.forward || adj[node][j].data.backward)
      invariant NodesBelow(witnesses, |adj|)
      invariant forall w: nat ::
                  w in witnesses <==> exists j :: 0 <= j < i && adj[node][j].target == w && cells[level][w] != cellId
      invariant |witnesses| > 0 <==> exists j :: 0 <= j < i && cells[level][adj[node][j].target] != cellId
    {
      var data, target := adj[node][i].data, adj[node][i].target;
      if cells[level][target] == cellId {
        isSource := isSource || data.forward;
        isTarget := isTarget || data.backward;
      } else {
        witnesses := witnesses + [target];
      }
    }
  }

  /** `std::remove_if` of witnesses outside the parent cell. */
  method KeepSiblings(cells: seq<seq<nat>>, level: nat, node: nat, witnesses: seq<nat>) returns (kept: seq<nat>)
    requires level + 1 < |cells| && node < |cells[level + 1]| && NodesBelow(witnesses, |cells[level + 1]|)
    ensures NodesBelow(kept, |cells[level + 1]|)
    ensures forall w: nat ::
              w in kept <==> w in witnesses && w < |cells[level + 1]| && cells[level + 1][node] == cells[level + 1][w]
  {
    kept := [];
    for i := 0 to |witnesses|
      invariant NodesBelow(kept, |cells[level + 1]|)
      invariant forall w: nat ::
                  w in kept
                  <==> w in witnesses[..i] && w < |cells[level + 1]| && cells[level + 1][node] == cells[level + 1][w]
    {
      assert witnesses[..i + 1] == witnesses[..i] + [witnesses[i]];
      assert witnesses[i] in witnesses;
      if cells[level + 1][node] == cells[level + 1][witnesses[i]] {
        kept := kept + [witnesses[i]];
      }
    }
    assert witnesses[..|witnesses|] == witnesses;
  }

  /** The triple loop that counts the border edges a move would induce. */
  method CountInduced(adj: Adjacency, cells: seq<seq<nat>>, level: nat, node: nat, candidate: nat)
    returns (induced: nat)
    requires Fits(adj, cells) && level < |cells| && node < |adj| && candidate < |adj|
    ensures induced == InducedBorderEdges(adj, cells, level, node, candidate, |adj[node]|)
  {
    induced := 0;
    for i := 0 to |adj[node]|
      invariant induced == InducedBorderEdges(adj, cells, level, node, candidate, i)
    {
      var target := adj[node][i].target;
      ghost var before := induced;
      var sublevel: int := level;
      while sublevel >= 0
        invariant -1 <= sublevel <= level
        invariant induced + Differences(cells, sublevel, target, candidate)
                    == before + Differences(cells, level, target, candidate)
      {
        if cells[sublevel][target] != cells[sublevel][candidate] {
          induced := induced + 1;
        }
        sublevel := sublevel - 1;
      }
    }
  }

  /** `std::min_element` over the witnesses. */
  method FindBest(adj: Adjacency, cells: seq<seq<nat>>, level: nat, node: nat, witnesses: seq<nat>) returns (best: nat)
    requires Fits(adj, cells) && level < |cells| && node < |adj|
    requires witnesses != [] && NodesBelow(witnesses, |adj|)
    ensures best in witnesses && best < |adj|
    ensures forall w: nat :: w in witnesses && w < |adj| ==>
      InducedBorderEdges(adj, cells, level, node, best, |adj[node]|)
        <= InducedBorderEdges(adj, cells, level, node, w, |adj[node]|)
  {
    best := witnesses[0];
    var fewest := CountInduced(adj, cells, level, node, best);
    for i := 1 to |witnesses|
      invariant best in witnesses && best < |adj|
                && fewest == InducedBorderEdges(adj, cells, level, node, best, |adj[node]|)
      invariant forall j ::
                  0 <= j < i ==> fewest <= InducedBorderEdges(adj, cells, level, node, witnesses[j], |adj[node]|)
    {
      assert witnesses[i] in witnesses;
      var induced := CountInduced(adj, cells, level, node, witnesses[i]);
      if induced < fewest {
        best, fewest := witnesses[i], induced;
      }
    }
  }

  /** Visits one node of one level. */
  method VisitNode(adj: Adjacency, table: PartitionTable, level: nat, node: nat) returns (outcome: Outcome)
    requires Fits(adj, table.cells) && level < |table.cells| && node < |adj|
    modifies table
    ensures Visited(adj, old(table.cells), table.cells, level, node, outcome)
    ensures Fits(adj, table.cells) && |table.cells| == old(|table.cells|)
    ensures outcome.Moved? && Flagged(adj) ==> FewestCrossings(adj, old(table.cells), table.cells, level, node)
  {
    ghost var before := table.cells;
    var witnesses, isSource, isTarget := ScanEdges(adj, table.cells, level, node);
    if |witnesses| == 0 || isSource || isTarget {
      return Fine;
    }
    if level + 1 < |table.cells| {
      witnesses := KeepSiblings(table.cells, level, node, witnesses);
    }
    assert forall w: nat :: w in witnesses <==> Candidate(adj, before, level, node, w);
    hide IsNeighbour, HasInner, HasOuter;
    if |witnesses| == 0 {
      return Stuck;
    }
    var best := FindBest(adj, table.cells, level, node, witnesses);
    assert BestWitness(adj, before, level, node, best);
    var sublevel: int := level;
    while sublevel >= 0
      invariant -1 <= sublevel <= level && |table.cells| == |before|
      invariant forall l :: 0 <= l < |before| ==>
        table.cells[l] == if sublevel < l <= level then before[l][node := before[l][best]] else before[l]
    {
      var row := table.cells[sublevel];
      table.cells := table.cells[sublevel := row[node := row[best]]];
      sublevel := sublevel - 1;
    }
    assert table.cells == Reassign(before, level, node, best);
    MoveFits(adj, before, level, node, best);
    if Flagged(adj) {
      BestMoveHasFewestCrossings(adj, before, level, node, best);
    }
    return Moved(best);
  }

  /** The graphs the partitioner builds: every edge has a direction and is stored at both ends. */
  ghost predicate Proper(adj: Adjacency) {
    Flagged(adj) && Symmetric(adj)
  }

  ghost predicate SettledAbove(adj: Adjacency, cells: seq<seq<nat>>, level: int)
    requires Fits(adj, cells)
  {
    forall l: nat :: level < l < |cells| ==> LevelSettled(adj, cells, l)
  }

  ghost predicate SettledUpTo(adj: Adjacency, cells: seq<seq<nat>>, level: nat, bound: nat)
    requires Fits(adj, cells) && level < |cells|
  {
    forall v: nat :: v < bound && v < |adj| ==> Settled(adj, cells, level, v)
  }

  /** One visit on a proper graph below settled levels: no witness is missing, and one more node is settled. */
  lemma VisitSettles(adj: Adjacency, before: seq<seq<nat>>, after: seq<seq<nat>>, level: nat, v: nat, outcome: Outcome)
    requires Fits(adj, before) && level < |before| && v < |adj| && Visited(adj, before, after, level, v, outcome)
             && Proper(adj)
    requires SettledAbove(adj, before, level) && SettledUpTo(adj, before, level, v)
    ensures !outcome.Stuck? && Fits(adj, after) && |after| == |before|
    ensures SettledAbove(adj, after, level) && SettledUpTo(adj, after, level, v + 1)
  {
    VisitKeepsNesting(adj, before, after, level, v, outcome);
    FlaggedInner(adj, before, level, v);
    hide Unconnected, IsNeighbour, Flagged, Symmetric, InRange;
    if level + 1 < |before| {
      assert LevelSettled(adj, before, level + 1);
    }
    if outcome.Stuck? {
      NeverStuck(adj, before, level, v);
    }
    forall u: nat | u < v + 1 ensures Settled(adj, after, level, u) {
      if outcome.Moved? {
        MoveKeepsSettled(adj, before, level, v, outcome.to, u);
      }
    }
    forall l: nat | level < l < |after| ensures LevelSettled(adj, after, l) {
      assert LevelSettled(adj, before, l);
      assert after[l] == before[l];
      forall u: nat | u < |adj| ensures Settled(adj, after, l, u) {
        assert Settled(adj, before, l, u);
      }
    }
  }

  // ---------- the visits of a repair ----------

  datatype Visit = Visit(level: nat, node: nat, before: seq<seq<nat>>, after: seq<seq<nat>>, outcome: Outcome)

  /** One visit after the other leads from `start` to `end`. */
  ghost predicate Visits(adj: Adjacency, visits: seq<Visit>, start: seq<seq<nat>>, end: seq<seq<nat>>)
    decreases |visits|
  {
    if visits == [] then start == end
    else
      var x := visits[|visits| - 1];
      && Fits(adj, x.before) && x.level < |x.before| && x.node < |adj| && x.after == end
      && Visited(adj, x.before, x.after, x.level, x.node, x.outcome)
      && Visits(adj, visits[..|visits| - 1], start, x.before)
  }

  /** The coarsest level comes first, and on each level the nodes come in order. */
  ghost predicate InTurn(visits: seq<Visit>, levels: nat, n: nat) {
    && (visits != [] ==> visits[0].level + 1 == levels && visits[0].node == 0)
    && forall k :: 0 < k < |visits| ==>
         if visits[k].node > 0 then visits[k].level == visits[k - 1].level && visits[k].node == visits[k - 1].node + 1
         else visits[k].level + 1 == visits[k - 1].level && visits[k - 1].node + 1 == n
  }

  /** All levels and all nodes have had their turn. */
  ghost predicate AllVisited(visits: seq<Visit>, levels: nat, n: nat) {
    && InTurn(visits, levels, n)
    && if visits == [] then levels == 0 || n == 0
       else visits[|visits| - 1].level == 0 && visits[|visits| - 1].node + 1 == n
  }

  /** How many visits met an unconnected border node, and how many of these found no witness. */
  ghost function Met(visits: seq<Visit>): (r: (nat, nat))
    ensures r.1 <= r.0
  {
    if visits == [] then (0, 0)
    else
      var (met, stuck) := Met(visits[..|visits| - 1]);
      match visits[|visits| - 1].outcome
      case Fine => (met, stuck)
      case Stuck => (met + 1, stuck + 1)
      case Moved(_) => (met + 1, stuck)
  }

  lemma VisitAdded(adj: Adjacency, visits: seq<Visit>, start: seq<seq<nat>>, x: Visit)
    requires Visits(adj, visits, start, x.before)
    requires Fits(adj, x.before) && x.level < |x.before| && x.node < |adj|
             && Visited(adj, x.before, x.after, x.level, x.node, x.outcome)
    ensures Visits(adj, visits + [x], start, x.after)
    ensures Met(visits + [x]) == match x.outcome
                                 case Fine => Met(visits)
                                 case Stuck => (Met(visits).0 + 1, Met(visits).1 + 1)
                                 case Moved(_) => (Met(visits).0 + 1, Met(visits).1)
  {
    hide Visited, InRange;
    assert (visits + [x])[..|visits + [x]| - 1] == visits;
  }

  /** The turn of `node` on `level` has come. */
  ghost predicate ComesNext(visits: seq<Visit>, levels: nat, n: nat, level: int, node: nat) {
    && InTurn(visits, levels, n)
    && if visits == [] then level + 1 == levels && node == 0
       else
         var x := visits[|visits| - 1];
         if node > 0 then x.level == level && x.node + 1 == node else x.level == level + 1 && x.node + 1 == n
  }

  lemma TurnTaken(visits: seq<Visit>, levels: nat, n: nat, x: Visit)
    requires ComesNext(visits, levels, n, x.level, x.node) && x.node < n
    ensures ComesNext(visits + [x], levels, n, x.level, x.node + 1)
  {
  }

  lemma LevelDone(visits: seq<Visit>, levels: nat, n: nat, level: nat)
    requires ComesNext(visits, levels, n, level, n) && n > 0
    ensures ComesNext(visits, levels, n, level - 1, 0)
  {
  }

  /** The repair, coarsest level first. Returns the number of unconnected border nodes it met and how many of
      them it could not move. */
  method RemoveUnconnectedBoundaryNodes(adj: Adjacency, table: PartitionTable)
    returns (numUnconnected: nat, couldNotFix: nat, ghost visits: seq<Visit>)
    requires Fits(adj, table.cells)
    modifies table
    ensures Visits(adj, visits, old(table.cells), table.cells) && AllVisited(visits, old(|table.cells|), |adj|)
    ensures numUnconnected == Met(visits).0 && couldNotFix == Met(visits).1 && couldNotFix <= numUnconnected
    ensures Fits(adj, table.cells) && |table.cells| == old(|table.cells|)
    ensures NestedCells.Nested(old(table.cells), |adj|) ==> NestedCells.Nested(table.cells, |adj|)
    ensures Proper(adj) ==> couldNotFix == 0 && forall l: nat :: l < |table.cells| ==> LevelSettled(adj, table.cells, l)
    ensures numUnconnected == 0 ==> table.cells == old(table.cells)
    ensures NoNewCells(old(table.cells), table.cells)
  {
    hide Proper, InRange, NestedCells.Shaped, NestedCells.Nested, LevelSettled, Settled, Visited, FewestCrossings;
    hide Visits, Met, ComesNext, AllVisited;
    numUnconnected, couldNotFix, visits := 0, 0, [];
    NothingVisited(adj, table.cells);
    assert NoNewCells(table.cells, table.cells);
    hide NoNewCells;
    var levelIndex: int := |table.cells| - 1;
    while levelIndex >= 0
      invariant -1 <= levelIndex < |table.cells| == old(|table.cells|) && Fits(adj, table.cells)
      invariant NestedCells.Nested(old(table.cells), |adj|) ==> NestedCells.Nested(table.cells, |adj|)
      invariant Proper(adj) ==> couldNotFix == 0 && SettledAbove(adj, table.cells, levelIndex)
      invariant numUnconnected == 0 ==> table.cells == old(table.cells)
      invariant Visits(adj, visits, old(table.cells), table.cells) && (numUnconnected, couldNotFix) == Met(visits)
      invariant if |adj| == 0 then visits == []
                else ComesNext(visits, old(|table.cells|), |adj|, levelIndex, 0)
      invariant NoNewCells(old(table.cells), table.cells)
    {
      for node := 0 to |adj|
        invariant |table.cells| == old(|table.cells|) && Fits(adj, table.cells)
        invariant NestedCells.Nested(old(table.cells), |adj|) ==> NestedCells.Nested(table.cells, |adj|)
        invariant Proper(adj) ==> couldNotFix == 0 && SettledAbove(adj, table.cells, levelIndex)
                                  && SettledUpTo(adj, table.cells, levelIndex, node)
        invariant numUnconnected == 0 ==> table.cells == old(table.cells)
        invariant Visits(adj, visits, old(table.cells), table.cells) && (numUnconnected, couldNotFix) == Met(visits)
        invariant if |adj| == 0 then visits == []
                  else ComesNext(visits, old(|table.cells|), |adj|, levelIndex, node)
        invariant NoNewCells(old(table.cells), table.cells)
      {
        ghost var before := table.cells;
        var outcome := VisitNode(adj, table, levelIndex, node);
        VisitKeepsNesting(adj, before, table.cells, levelIndex, node, outcome);
        VisitAddsNoCells(adj, old(table.cells), before, table.cells, levelIndex, node, outcome);
        if Proper(adj) {
          VisitSettles(adj, before, table.cells, levelIndex, node, outcome);
        }
        if !outcome.Fine? {
          numUnconnected := numUnconnected + 1;
        }
        if outcome.Stuck? {
          couldNotFix := couldNotFix + 1;
        }
        ghost var visit := Visit(levelIndex, node, before, table.cells, outcome);
        VisitAdded(adj, visits, old(table.cells), visit);
        TurnTaken(visits, old(|table.cells|), |adj|, visit);
        UnchangedIfFine(adj, visit);
        visits := visits + [visit];
      }
      LevelCompletes(adj, table.cells, levelIndex);
      if |adj| > 0 {
        LevelDone(visits, old(|table.cells|), |adj|, levelIndex);
      }
      levelIndex := levelIndex - 1;
    }
    if Proper(adj) {
      assert SettledAbove(adj, table.cells, -1);
    }
    EveryoneVisited(visits, |table.cells|, |adj|);
  }

  lemma NothingVisited(adj: Adjacency, cells: seq<seq<nat>>)
    ensures Visits(adj, [], cells, cells) && Met([]) == (0, 0) && ComesNext([], |cells|, |adj|, |cells| - 1, 0)
  {
  }

  lemma EveryoneVisited(visits: seq<Visit>, levels: nat, n: nat)
    requires if n == 0 then visits == [] else ComesNext(visits, levels, n, -1, 0)
    ensures AllVisited(visits, levels, n)
  {
  }

  lemma UnchangedIfFine(adj: Adjacency, x: Visit)
    requires Fits(adj, x.before) && x.level < |x.before| && x.node < |adj|
    requires Visited(adj, x.before, x.after, x.level, x.node, x.outcome)
    ensures x.outcome.Fine? ==> x.after == x.before
  {
  }

  lemma LevelCompletes(adj: Adjacency, cells: seq<seq<nat>>, level: nat)
    requires Fits(adj, cells) && level < |cells|
    ensures SettledAbove(adj, cells, level) && SettledUpTo(adj, cells, level, |adj|) ==>
              SettledAbove(adj, cells, level - 1)
  {
    hide Settled;
  }
}
