/**
 Numbering the runs of equal values in a sequence, the way new cell ids are assigned along
 the sorted nodes.
 */
module Runs {

  /** The number of value changes before position `k`. */
  function RunId(vals: seq<nat>, k: nat): nat
    requires k < |vals|
  {
    if k == 0 then 0 else RunId(vals, k - 1) + (if vals[k] != vals[k - 1] then 1 else 0)
  }

  /** Equal values are next to each other. */
  ghost predicate Grouped(vals: seq<nat>) {
    forall i, j, k :: 0 <= i < j < k < |vals| && vals[i] == vals[k] ==> vals[j] == vals[i]
  }

  lemma {:induction false} RunIdMonotone(vals: seq<nat>, i: nat, j: nat)
    requires i <= j < |vals|
    ensures RunId(vals, i) <= RunId(vals, j)
    ensures vals[i] == vals[j] && Grouped(vals) ==> RunId(vals, i) == RunId(vals, j)
    ensures vals[i] != vals[j] ==> RunId(vals, i) < RunId(vals, j)
    decreases j
  {
    if i < j {
      RunIdMonotone(vals, i, j - 1);
      if vals[i] == vals[j] && Grouped(vals) && i < j - 1 {
        assert vals[j - 1] == vals[i];
      }
    }
  }

  /** Ids separate exactly the different values. */
  lemma RunIdSeparates(vals: seq<nat>, i: nat, j: nat)
    requires Grouped(vals) && i < |vals| && j < |vals|
    ensures RunId(vals, i) == RunId(vals, j) <==> vals[i] == vals[j]
  {
    if i <= j {
      RunIdMonotone(vals, i, j);
    } else {
      RunIdMonotone(vals, j, i);
    }
  }

  /** Every id up to the last one is used. */
  lemma {:induction false} RunIdsAreDense(vals: seq<nat>, k: nat, c: nat) returns (i: nat)
    requires k < |vals| && c <= RunId(vals, k)
    ensures i <= k && RunId(vals, i) == c
    decreases k
  {
    if c == RunId(vals, k) {
      i := k;
    } else {
      i := RunIdsAreDense(vals, k - 1, c);
    }
  }

  ghost function Values(vals: seq<nat>): set<nat> {
    set v | v in vals
  }

  lemma NewRunNewValue(vals: seq<nat>, k: nat)
    requires Grouped(vals) && 0 < k < |vals| && vals[k] != vals[k - 1]
    ensures vals[k] !in Values(vals[..k])
  {
    forall i | 0 <= i < k ensures vals[..k][i] != vals[k] {
    }
  }

  /** The last id counts the distinct values. */
  lemma {:induction false} RunIdCounts(vals: seq<nat>, k: nat)
    requires Grouped(vals) && k < |vals|
    ensures |Values(vals[..k + 1])| == RunId(vals, k) + 1
    decreases k
  {
    hide Grouped;
    if k == 0 {
      assert Values(vals[..1]) == {vals[0]};
    } else {
      RunIdCounts(vals, k - 1);
      var before := Values(vals[..k]);
      assert vals[..k + 1] == vals[..k] + [vals[k]];
      assert Values(vals[..k + 1]) == before + {vals[k]};
      if vals[k] == vals[k - 1] {
        assert vals[..k][k - 1] in before;
        assert before + {vals[k]} == before;
      } else {
        NewRunNewValue(vals, k);
      }
    }
  }

  // ---------- parents and children ----------

  /** Where the ids of `child` stand at the first position of each run of `parent`. */
  function ChildStarts(parent: seq<nat>, child: seq<nat>, k: nat): seq<nat>
    requires |parent| == |child| && k < |parent|
  {
    if k == 0 then [RunId(child, 0)]
    else
      var starts := ChildStarts(parent, child, k - 1);
      if parent[k] != parent[k - 1] then starts + [RunId(child, k)] else starts
  }

  /** Up to position `k`, each position's child id lies in the interval of its parent. */
  ghost predicate StartsBracket(parent: seq<nat>, child: seq<nat>, k: nat, starts: seq<nat>)
    requires |parent| == |child| && k < |parent|
  {
    && |starts| == RunId(parent, k) + 1 && starts[0] == 0
    && (forall a, b :: 0 <= a < b < |starts| ==> starts[a] < starts[b])
    && (forall j: nat :: j <= k ==> Bracketed(parent, child, j, starts))
  }

  ghost predicate Bracketed(parent: seq<nat>, child: seq<nat>, j: nat, starts: seq<nat>)
    requires |parent| == |child| && j < |parent|
  {
    var c := RunId(parent, j);
    c < |starts| && starts[c] <= RunId(child, j) && (c + 1 < |starts| ==> RunId(child, j) < starts[c + 1])
  }

  /** A change of parent is a change of child. */
  ghost predicate Refines(child: seq<nat>, parent: seq<nat>)
    requires |parent| == |child|
  {
    forall i, j :: 0 <= i < |child| && 0 <= j < |child| && child[i] == child[j] ==> parent[i] == parent[j]
  }

  lemma {:induction false} ChildStartsBracket(parent: seq<nat>, child: seq<nat>, k: nat)
    requires |parent| == |child| && k < |parent| && Refines(child, parent)
    ensures StartsBracket(parent, child, k, ChildStarts(parent, child, k))
    decreases k
  {
    if k > 0 {
      ChildStartsBracket(parent, child, k - 1);
      var before, after := ChildStarts(parent, child, k - 1), ChildStarts(parent, child, k);
      assert RunId(parent, k - 1) < |before|;
      assert Bracketed(parent, child, k - 1, before);
      forall j: nat | j <= k ensures Bracketed(parent, child, j, after) {
        if j < k {
          assert Bracketed(parent, child, j, before);
          RunIdMonotone(child, j, k - 1);
          RunIdMonotone(parent, j, k - 1);
        }
      }
    }
  }
}
