/**
 The node order built by sorting stably by one partition after the other, finest first:
 in the end all cells of every level are contiguous.
 */
module NodeOrder {
  import NestedCells
  import Runs

  /** All positions name nodes. */
  ghost predicate InRange(s: seq<nat>, n: nat) {
    forall i :: 0 <= i < |s| ==> s[i] < n
  }

  function InsertByKey(x: nat, s: seq<nat>, key: seq<nat>): (r: seq<nat>)
    requires x < |key| && InRange(s, |key|)
    ensures multiset(r) == multiset{x} + multiset(s) && |r| == |s| + 1 && InRange(r, |key|)
  {
    if s == [] || key[x] <= key[s[0]] then [x] + s
    else
      assert s == [s[0]] + s[1..];
      [s[0]] + InsertByKey(x, s[1..], key)
  }

  /** `std::stable_sort` by key. */
  function StableSort(s: seq<nat>, key: seq<nat>): (r: seq<nat>)
    requires InRange(s, |key|)
    ensures multiset(r) == multiset(s) && |r| == |s| && InRange(r, |key|)
  {
    if s == [] then []
    else
      assert s == [s[0]] + s[1..];
      InsertByKey(s[0], StableSort(s[1..], key), key)
  }

  /** Lexicographic order by the first `m` partitions, the coarsest of them first. */
  ghost predicate Before(cells: seq<seq<nat>>, n: nat, m: nat, a: nat, b: nat)
    requires NestedCells.Shaped(cells, n) && m <= |cells| && a < n && b < n
  {
    m == 0 || cells[m - 1][a] < cells[m - 1][b]
    || (cells[m - 1][a] == cells[m - 1][b] && Before(cells, n, m - 1, a, b))
  }

  ghost predicate Ordered(cells: seq<seq<nat>>, n: nat, m: nat, s: seq<nat>)
    requires NestedCells.Shaped(cells, n) && m <= |cells| && InRange(s, n)
  {
    forall i, j :: 0 <= i < j < |s| ==> Before(cells, n, m, s[i], s[j])
  }

  ghost predicate BeforeAll(cells: seq<seq<nat>>, n: nat, m: nat, x: nat, s: seq<nat>)
    requires NestedCells.Shaped(cells, n) && m <= |cells| && x < n && InRange(s, n)
  {
    forall i :: 0 <= i < |s| ==> Before(cells, n, m, x, s[i])
  }

  lemma BeforeAllOfSame(cells: seq<seq<nat>>, n: nat, m: nat, x: nat, s: seq<nat>, t: seq<nat>)
    requires NestedCells.Shaped(cells, n) && m <= |cells| && x < n && InRange(s, n) && InRange(t, n)
    requires BeforeAll(cells, n, m, x, s) && multiset(t) == multiset(s)
    ensures BeforeAll(cells, n, m, x, t)
  {
    forall i | 0 <= i < |t| ensures Before(cells, n, m, x, t[i]) {
      assert t[i] in multiset(s);
      var k :| 0 <= k < |s| && s[k] == t[i];
    }
  }

  lemma {:induction false} InsertKeepsOrder(cells: seq<seq<nat>>, n: nat, m: nat, x: nat, s: seq<nat>)
    requires NestedCells.Shaped(cells, n) && m < |cells| && x < n && InRange(s, n)
    requires Ordered(cells, n, m + 1, s) && BeforeAll(cells, n, m, x, s)
    ensures Ordered(cells, n, m + 1, InsertByKey(x, s, cells[m]))
    decreases |s|
  {
    hide Before, BeforeAll;
    var key := cells[m];
    if s == [] || key[x] <= key[s[0]] {
      FirstIsBeforeAll(cells, n, m, x, s);
      PrependKeepsOrder(cells, n, m + 1, x, s);
    } else {
      LaterByKey(cells, n, m, x, s[0]);
      BeforeTail(cells, n, m, x, s);
      InsertKeepsOrder(cells, n, m, x, s[1..]);
      InsertedBehind(cells, n, m, x, s);
      PrependKeepsOrder(cells, n, m + 1, s[0], InsertByKey(x, s[1..], key));
    }
  }

  lemma LaterByKey(cells: seq<seq<nat>>, n: nat, m: nat, x: nat, y: nat)
    requires NestedCells.Shaped(cells, n) && m < |cells| && x < n && y < n && cells[m][y] < cells[m][x]
    ensures Before(cells, n, m + 1, y, x)
  {
  }

  lemma BeforeTail(cells: seq<seq<nat>>, n: nat, m: nat, x: nat, s: seq<nat>)
    requires NestedCells.Shaped(cells, n) && m <= |cells| && x < n && InRange(s, n) && s != []
    requires BeforeAll(cells, n, m, x, s)
    ensures BeforeAll(cells, n, m, x, s[1..])
  {
    hide Before;
  }

  lemma FirstIsBeforeAll(cells: seq<seq<nat>>, n: nat, m: nat, x: nat, s: seq<nat>)
    requires NestedCells.Shaped(cells, n) && m < |cells| && x < n && InRange(s, n)
    requires Ordered(cells, n, m + 1, s) && BeforeAll(cells, n, m, x, s) && (s == [] || cells[m][x] <= cells[m][s[0]])
    ensures BeforeAll(cells, n, m + 1, x, s)
  {
    forall j | 0 <= j < |s| ensures Before(cells, n, m + 1, x, s[j]) {
      assert 0 < j ==> Before(cells, n, m + 1, s[0], s[j]);
    }
  }

  lemma InsertedBehind(cells: seq<seq<nat>>, n: nat, m: nat, x: nat, s: seq<nat>)
    requires NestedCells.Shaped(cells, n) && m < |cells| && x < n && InRange(s, n) && s != []
    requires Ordered(cells, n, m + 1, s) && Before(cells, n, m + 1, s[0], x)
    ensures BeforeAll(cells, n, m + 1, s[0], InsertByKey(x, s[1..], cells[m]))
  {
    hide Before, InsertByKey;
    var all := [x] + s[1..];
    forall i | 0 <= i < |all| ensures Before(cells, n, m + 1, s[0], all[i]) {
      if i > 0 {
        assert all[i] == s[i];
      }
    }
    BeforeAllOfSame(cells, n, m + 1, s[0], all, InsertByKey(x, s[1..], cells[m]));
  }

  lemma PrependKeepsOrder(cells: seq<seq<nat>>, n: nat, m: nat, x: nat, s: seq<nat>)
    requires NestedCells.Shaped(cells, n) && m <= |cells| && x < n && InRange(s, n)
    requires Ordered(cells, n, m, s) && BeforeAll(cells, n, m, x, s)
    ensures InRange([x] + s, n) && Ordered(cells, n, m, [x] + s)
  {
    hide Before;
    forall i, j | 0 <= i < j < |[x] + s| ensures Before(cells, n, m, ([x] + s)[i], ([x] + s)[j]) {
      if i > 0 {
        assert Before(cells, n, m, s[i - 1], s[j - 1]);
      }
    }
  }

  /** Sorting by the next partition keeps the order of the previous ones inside each cell. */
  lemma {:induction false} StableSortOrders(cells: seq<seq<nat>>, n: nat, m: nat, s: seq<nat>)
    requires NestedCells.Shaped(cells, n) && m < |cells| && InRange(s, n)
    requires Ordered(cells, n, m, s)
    ensures Ordered(cells, n, m + 1, StableSort(s, cells[m]))
    decreases |s|
  {
    if s != [] {
      StableSortOrders(cells, n, m, s[1..]);
      var tail := StableSort(s[1..], cells[m]);
      assert BeforeAll(cells, n, m, s[0], s[1..]);
      BeforeAllOfSame(cells, n, m, s[0], s[1..], tail);
      InsertKeepsOrder(cells, n, m, s[0], tail);
    }
  }

  /** Between two nodes of one cell there are only nodes of that cell. */
  lemma {:induction false} BetweenIsEqual(cells: seq<seq<nat>>, n: nat, m: nat, l: nat, a: nat, b: nat, c: nat)
    requires NestedCells.Shaped(cells, n) && NestedCells.Nested(cells, n)
    requires l < m <= |cells| && a < n && b < n && c < n
    requires Before(cells, n, m, a, b) && Before(cells, n, m, b, c) && cells[l][a] == cells[l][c]
    ensures cells[l][b] == cells[l][a]
    decreases m
  {
    NestedCells.NestedUpwards(cells, n, l, m - 1, a, c);
    if l < m - 1 {
      BetweenIsEqual(cells, n, m - 1, l, a, b, c);
    }
  }

  /** The cells of one level along a node order. */
  function Along(cells: seq<nat>, order: seq<nat>): (vals: seq<nat>)
    requires InRange(order, |cells|)
    ensures |vals| == |order|
  {
    seq(|order|, i requires 0 <= i < |order| => cells[order[i]])
  }

  /** In the final order every level is grouped, and coarser levels are constant on finer cells. */
  lemma OrderGroups(cells: seq<seq<nat>>, n: nat, order: seq<nat>, l: nat)
    requires NestedCells.Shaped(cells, n) && NestedCells.Nested(cells, n)
    requires InRange(order, n) && Ordered(cells, n, |cells|, order) && l < |cells|
    ensures Runs.Grouped(Along(cells[l], order))
    ensures l + 1 < |cells| ==> Runs.Refines(Along(cells[l], order), Along(cells[l + 1], order))
  {
    var vals := Along(cells[l], order);
    forall i, j, k | 0 <= i < j < k < |vals| && vals[i] == vals[k] ensures vals[j] == vals[i] {
      BetweenIsEqual(cells, n, |cells|, l, order[i], order[j], order[k]);
    }
    if l + 1 < |cells| {
      var parent := Along(cells[l + 1], order);
      forall i, j | 0 <= i < |vals| && 0 <= j < |vals| && vals[i] == vals[j] ensures parent[i] == parent[j] {
        NestedCells.NestedUpwards(cells, n, l, l + 1, order[i], order[j]);
      }
    }
  }

  /** The order names every node once. */
  ghost predicate IsPermutation(order: seq<nat>, n: nat) {
    |order| == n && multiset(order) == multiset(Identity(n))
  }

  function Identity(n: nat): (s: seq<nat>)
    ensures |s| == n && forall i :: 0 <= i < n ==> s[i] == i
  {
    seq(n, i => i)
  }

  lemma PermutationPosition(order: seq<nat>, n: nat, v: nat) returns (k: nat)
    requires IsPermutation(order, n) && v < n
    ensures k < n && order[k] == v
  {
    assert Identity(n)[v] in multiset(Identity(n));
    assert v in multiset(order);
    k :| 0 <= k < n && order[k] == v;
  }

  lemma PermutationInjective(order: seq<nat>, n: nat, i: nat, j: nat)
    requires IsPermutation(order, n) && i < n && j < n && order[i] == order[j]
    ensures i == j
  {
    if i != j {
      var v := order[i];
      var rest := order[..i] + order[i + 1..];
      assert order == order[..i] + [v] + order[i + 1..];
      var j' := if j < i then j else j - 1;
      assert rest[j'] == v;
      assert multiset(order)[v] >= 2 by {
        assert multiset(order) == multiset(rest) + multiset{v};
        assert v in multiset(rest);
      }
      IdentityCounts(n, v);
    }
  }

  lemma {:induction false} IdentityCounts(n: nat, v: nat)
    ensures multiset(Identity(n))[v] <= 1
    ensures v >= n ==> multiset(Identity(n))[v] == 0
    decreases n
  {
    if n > 0 {
      IdentityCounts(n - 1, v);
      assert Identity(n) == Identity(n - 1) + [n - 1];
    }
  }

  lemma PermutationInRange(order: seq<nat>, n: nat)
    requires IsPermutation(order, n)
    ensures InRange(order, n)
  {
    forall i | 0 <= i < |order| ensures order[i] < n {
      assert order[i] in multiset(order);
      IdentityCounts(n, order[i]);
    }
  }
}
