/**
 The edges of several contracted graphs in one list, with one bit for each graph saying
 which edges belong to it.
 */
module ContractedEdges {
  import Sorting
  import NodeOrder

  datatype QueryEdge = QueryEdge(source: nat, target: nat, turnId: nat, shortcut: bool, weight: int, duration: int,
                                 distance: real, forward: bool, backward: bool)

  // ---------- the merge order ----------

  function Bit(b: bool): int {
    if b then 1 else 0
  }

  /** What `mergeCompare` looks at, in its order; the distance is not part of it. */
  function Key(e: QueryEdge): (r: seq<int>)
    ensures |r| == 8
  {
    [e.source, e.target, Bit(e.shortcut), e.turnId, e.weight, e.duration, Bit(e.forward), Bit(e.backward)]
  }

  predicate LexLess(a: seq<int>, b: seq<int>)
    requires |a| == |b|
  {
    a != [] && (a[0] < b[0] || (a[0] == b[0] && LexLess(a[1..], b[1..])))
  }

  predicate MergeCompare(a: QueryEdge, b: QueryEdge) {
    LexLess(Key(a), Key(b))
  }

  predicate Mergable(a: QueryEdge, b: QueryEdge) {
    !MergeCompare(a, b) && !MergeCompare(b, a)
  }

  /** The two edges agree in everything but the distance. */
  predicate Agree(a: QueryEdge, b: QueryEdge) {
    && a.source == b.source && a.target == b.target && a.shortcut == b.shortcut && a.turnId == b.turnId
    && a.weight == b.weight && a.duration == b.duration && a.forward == b.forward && a.backward == b.backward
  }

  lemma KeyMeans(a: QueryEdge, b: QueryEdge)
    ensures Key(a) == Key(b) <==> Agree(a, b)
  {
    var x, y := Key(a), Key(b);
    if x == y {
      assert x[0] == y[0] && x[1] == y[1] && x[2] == y[2] && x[3] == y[3];
      assert x[4] == y[4] && x[5] == y[5] && x[6] == y[6] && x[7] == y[7];
    }
  }

  /** `mergable` means agreement in the eight fields. */
  lemma MergableIff(a: QueryEdge, b: QueryEdge)
    ensures Mergable(a, b)
       <==> && a.source == b.source && a.target == b.target && a.shortcut == b.shortcut && a.turnId == b.turnId
            && a.weight == b.weight && a.duration == b.duration && a.forward == b.forward && a.backward == b.backward
  {
    hide Key, MergeCompare;
    MergeOrder(a, b);
    KeyMeans(a, b);
  }

  /** The first of two values decides unless they are equal. */
  predicate FirstDiffers(x: int, y: int, later: bool) {
    x < y || (x == y && later)
  }

  lemma LexStep(a: seq<int>, b: seq<int>, k: nat)
    requires |a| == |b| && k < |a|
    ensures LexLess(a[k..], b[k..]) <==> a[k] < b[k] || (a[k] == b[k] && LexLess(a[k + 1..], b[k + 1..]))
  {
    assert a[k..][1..] == a[k + 1..] && b[k..][1..] == b[k + 1..];
  }

  lemma LexEnds(a: seq<int>, b: seq<int>)
    requires |a| == |b|
    ensures !LexLess(a[|a|..], b[|b|..]) && a[0..] == a && b[0..] == b
  {
  }

  lemma KeyFields(e: QueryEdge)
    ensures Key(e)[0] == e.source && Key(e)[1] == e.target && Key(e)[2] == (if e.shortcut then 1 else 0)
    ensures Key(e)[3] == e.turnId && Key(e)[4] == e.weight && Key(e)[5] == e.duration
    ensures Key(e)[6] == (if e.forward then 1 else 0) && Key(e)[7] == if e.backward then 1 else 0
  {
  }

  lemma LastFieldsDecide(a: QueryEdge, b: QueryEdge)
    ensures LexLess(Key(a)[4..], Key(b)[4..])
       <==> FirstDiffers(a.weight, b.weight,
              FirstDiffers(a.duration, b.duration,
                FirstDiffers(if a.forward then 1 else 0, if b.forward then 1 else 0, !a.backward && b.backward)))
  {
    hide LexLess, Key;
    var x, y := Key(a), Key(b);
    KeyFields(a);
    KeyFields(b);
    LexStep(x, y, 4);
    LexStep(x, y, 5);
    LexStep(x, y, 6);
    LexStep(x, y, 7);
    LexEnds(x, y);
  }

  lemma FirstFieldsDecide(a: QueryEdge, b: QueryEdge)
    ensures MergeCompare(a, b)
       <==> FirstDiffers(a.source, b.source,
              FirstDiffers(a.target, b.target,
                FirstDiffers(if a.shortcut then 1 else 0, if b.shortcut then 1 else 0,
                  FirstDiffers(a.turnId, b.turnId, LexLess(Key(a)[4..], Key(b)[4..])))))
  {
    hide LexLess, Key;
    var x, y := Key(a), Key(b);
    KeyFields(a);
    KeyFields(b);
    LexEnds(x, y);
    LexStep(x, y, 0);
    LexStep(x, y, 1);
    LexStep(x, y, 2);
    LexStep(x, y, 3);
  }

  /** `mergeCompare`: the first field that differs decides; `false` comes before `true`. */
  lemma MergeCompareIff(a: QueryEdge, b: QueryEdge)
    ensures MergeCompare(a, b)
       <==> FirstDiffers(a.source, b.source,
              FirstDiffers(a.target, b.target,
                FirstDiffers(if a.shortcut then 1 else 0, if b.shortcut then 1 else 0,
                  FirstDiffers(a.turnId, b.turnId,
                    FirstDiffers(a.weight, b.weight,
                      FirstDiffers(a.duration, b.duration,
                        FirstDiffers(if a.forward then 1 else 0, if b.forward then 1 else 0,
                          !a.backward && b.backward)))))))
  {
    hide Key, LexLess, MergeCompare, FirstDiffers;
    FirstFieldsDecide(a, b);
    LastFieldsDecide(a, b);
  }

  lemma {:induction false} LexTrichotomy(a: seq<int>, b: seq<int>)
    requires |a| == |b|
    ensures LexLess(a, b) ==> !LexLess(b, a) && a != b
    ensures LexLess(a, b) || LexLess(b, a) || a == b
    decreases |a|
  {
    if a != [] {
      LexTrichotomy(a[1..], b[1..]);
      assert a == [a[0]] + a[1..] && b == [b[0]] + b[1..];
    }
  }

  lemma {:induction false} LexTransitive(a: seq<int>, b: seq<int>, c: seq<int>)
    requires |a| == |b| == |c| && LexLess(a, b) && LexLess(b, c)
    ensures LexLess(a, c)
    decreases |a|
  {
    if a[0] == b[0] == c[0] {
      LexTransitive(a[1..], b[1..], c[1..]);
    }
  }

  /** `mergeCompare` is a strict total order on keys and `mergable` is equality of keys. */
  lemma MergeOrder(a: QueryEdge, b: QueryEdge)
    ensures MergeCompare(a, b) ==> !MergeCompare(b, a) && Key(a) != Key(b)
    ensures MergeCompare(a, b) || MergeCompare(b, a) || Key(a) == Key(b)
    ensures Mergable(a, b) <==> Key(a) == Key(b)
  {
    hide LexLess, Key;
    LexTrichotomy(Key(a), Key(b));
    LexTrichotomy(Key(b), Key(a));
  }

  /** The order is transitive, also through elements that merely do not come later. */
  lemma MergeTransitive(a: QueryEdge, b: QueryEdge, c: QueryEdge)
    ensures MergeCompare(a, b) && !MergeCompare(c, b) ==> MergeCompare(a, c)
    ensures !MergeCompare(b, a) && MergeCompare(b, c) ==> MergeCompare(a, c)
    ensures !MergeCompare(b, a) && !MergeCompare(c, b) ==> !MergeCompare(c, a)
  {
    hide LexLess, Key;
    MergeOrder(a, b);
    MergeOrder(b, c);
    MergeOrder(a, c);
    if MergeCompare(a, b) && MergeCompare(b, c) {
      LexTransitive(Key(a), Key(b), Key(c));
    }
  }

  /** Sorted for `mergeCompare`. */
  ghost predicate InOrder(edges: seq<QueryEdge>) {
    forall i, j :: 0 <= i < j < |edges| ==> !MergeCompare(edges[j], edges[i])
  }

  // ---------- views ----------

  ghost predicate Contains(list: seq<QueryEdge>, key: seq<int>) {
    exists k :: 0 <= k < |list| && Key(list[k]) == key
  }

  ghost predicate NoEdgeTwice(list: seq<QueryEdge>) {
    forall i, j :: 0 <= i < j < |list| ==> Key(list[i]) != Key(list[j])
  }

  /** An edge with this key has bit `i` set. */
  ghost predicate Shows(edges: seq<QueryEdge>, flags: seq<set<nat>>, i: nat, key: seq<int>) {
    exists k :: 0 <= k < |edges| && k < |flags| && i in flags[k] && Key(edges[k]) == key
  }

  ghost predicate HasEdge(list: seq<QueryEdge>, e: QueryEdge) {
    exists k :: 0 <= k < |list| && Agree(list[k], e)
  }

  /** An edge with bit `i` set agrees with `e`. */
  ghost predicate ShowsEdge(edges: seq<QueryEdge>, flags: seq<set<nat>>, i: nat, e: QueryEdge) {
    exists k :: 0 <= k < |edges| && k < |flags| && i in flags[k] && Agree(edges[k], e)
  }

  lemma ViewsByEdge(edges: seq<QueryEdge>, flags: seq<set<nat>>, i: nat, e: QueryEdge)
    ensures Shows(edges, flags, i, Key(e)) <==> ShowsEdge(edges, flags, i, e)
    ensures Contains(edges, Key(e)) <==> HasEdge(edges, e)
  {
    hide Key, Agree;
    forall k | 0 <= k < |edges| ensures Key(edges[k]) == Key(e) <==> Agree(edges[k], e) {
      KeyMeans(edges[k], e);
    }
  }

  /** No two edges of the list agree. */
  lemma NoEdgeTwiceMeans(list: seq<QueryEdge>)
    ensures NoEdgeTwice(list) <==> forall i, j :: 0 <= i < j < |list| ==> !Agree(list[i], list[j])
  {
    hide Key, Agree;
    forall i, j | 0 <= i < j < |list| ensures Key(list[i]) == Key(list[j]) <==> Agree(list[i], list[j]) {
      KeyMeans(list[i], list[j]);
    }
  }

  // ---------- the scan over the old edges ----------

  /** The first old edge from `it` on that is not before `e`. */
  function Advance(edges: seq<QueryEdge>, e: QueryEdge, it: nat): (r: nat)
    requires it <= |edges|
    ensures it <= r <= |edges| && (r < |edges| ==> !MergeCompare(edges[r], e))
    ensures forall k :: it <= k < r ==> MergeCompare(edges[k], e)
    decreases |edges| - it
  {
    if it < |edges| && MergeCompare(edges[it], e) then Advance(edges, e, it + 1) else it
  }

  /** Where the scan stands after `e`, and whether `e` is one of the old edges there. */
  function Visit(edges: seq<QueryEdge>, e: QueryEdge, it: nat): (r: (nat, bool))
    requires it <= |edges|
    ensures it <= r.0 <= |edges| && (r.1 ==> r.0 < |edges|)
  {
    if it == |edges| || MergeCompare(e, edges[it]) then (it, false)
    else
      var at := Advance(edges, e, it);
      (at, at < |edges| && Mergable(e, edges[at]))
  }

  /** The new edges that are appended: those the scan does not meet among the old ones. */
  function Kept(edges: seq<QueryEdge>, news: seq<QueryEdge>, it: nat): seq<QueryEdge>
    requires it <= |edges|
  {
    if news == [] then []
    else
      var (at, found) := Visit(edges, news[0], it);
      if found then Kept(edges, news[1..], at) else [news[0]] + Kept(edges, news[1..], at)
  }

  lemma KeptUnfolds(edges: seq<QueryEdge>, news: seq<QueryEdge>, it: nat)
    requires it <= |edges| && news != []
    ensures Kept(edges, news, it) ==
            (if Visit(edges, news[0], it).1 then [] else [news[0]])
              + Kept(edges, news[1..], Visit(edges, news[0], it).0)
  {
  }

  lemma KeptOfNothing(edges: seq<QueryEdge>, it: nat)
    requires it <= |edges|
    ensures Kept(edges, [], it) == []
  {
  }

  method VisitOld(edges: seq<QueryEdge>, e: QueryEdge, it: nat) returns (at: nat, found: bool)
    requires it <= |edges|
    ensures (at, found) == Visit(edges, e, it)
    ensures found ==> Key(e) == Key(edges[at])
  {
    hide Key, MergeCompare;
    at, found := it, false;
    if it < |edges| && !MergeCompare(e, edges[it]) {
      while at < |edges| && MergeCompare(edges[at], e)
        invariant it <= at <= |edges| && Advance(edges, e, it) == Advance(edges, e, at)
      {
        at := at + 1;
      }
      found := at < |edges| && Mergable(e, edges[at]);
      if found {
        MergeOrder(e, edges[at]);
      }
    }
  }

  /** What the scan has achieved when it has seen `seen`. */
  ghost predicate Scanned(edges: seq<QueryEdge>, before: seq<set<nat>>, after: seq<set<nat>>, bit: nat,
                          seen: seq<QueryEdge>, kept: seq<QueryEdge>) {
    && |before| == |after| == |edges|
    && (forall k ::
          0 <= k < |edges| ==>
            after[k] == before[k] || (after[k] == before[k] + {bit} && Contains(seen, Key(edges[k]))))
    && (forall k :: 0 <= k < |seen| ==> Contains(kept, Key(seen[k])) || Shows(edges, after, bit, Key(seen[k])))
    && (forall k :: 0 <= k < |kept| ==> Contains(seen, Key(kept[k])))
  }

  lemma ContainsMore(list: seq<QueryEdge>, more: seq<QueryEdge>, key: seq<int>)
    ensures Contains(list + more, key) <==> Contains(list, key) || Contains(more, key)
  {
    hide Key;
    var all := list + more;
    if k :| 0 <= k < |list| && Key(list[k]) == key {
      assert all[k] == list[k];
    }
    if k :| 0 <= k < |more| && Key(more[k]) == key {
      assert all[|list| + k] == more[k];
    }
  }

  lemma KeepStep(edges: seq<QueryEdge>, before: seq<set<nat>>, after: seq<set<nat>>, bit: nat, seen: seq<QueryEdge>,
                 kept: seq<QueryEdge>, e: QueryEdge)
    requires Scanned(edges, before, after, bit, seen, kept)
    ensures Scanned(edges, before, after, bit, seen + [e], kept + [e])
  {
    hide Key, Contains, Shows;
    assert Contains([e], Key(e)) by { ContainsOne(e); }
    forall key ensures Contains(seen + [e], key) <==> Contains(seen, key) || Contains([e], key) {
      ContainsMore(seen, [e], key);
    }
    forall key ensures Contains(kept + [e], key) <==> Contains(kept, key) || Contains([e], key) {
      ContainsMore(kept, [e], key);
    }
  }

  lemma ContainsOne(e: QueryEdge)
    ensures Contains([e], Key(e))
  {
    hide Key;
    assert [e][0] == e;
  }

  lemma FlagStep(edges: seq<QueryEdge>, before: seq<set<nat>>, after: seq<set<nat>>, bit: nat, seen: seq<QueryEdge>,
                 kept: seq<QueryEdge>, e: QueryEdge, at: nat)
    requires Scanned(edges, before, after, bit, seen, kept) && at < |edges| && Key(e) == Key(edges[at])
    ensures Scanned(edges, before, after[at := after[at] + {bit}], bit, seen + [e], kept)
  {
    hide Key, Contains;
    var flagged := after[at := after[at] + {bit}];
    ContainsOne(e);
    forall key ensures Contains(seen + [e], key) <==> Contains(seen, key) || Contains([e], key) {
      ContainsMore(seen, [e], key);
    }
    forall key | Shows(edges, after, bit, key) ensures Shows(edges, flagged, bit, key) {
      var k :| 0 <= k < |edges| && k < |after| && bit in after[k] && Key(edges[k]) == key;
      assert bit in flagged[k];
    }
    assert bit in flagged[at];
    assert Shows(edges, flagged, bit, Key(e));
    assert forall k :: 0 <= k < |edges| ==>
      flagged[k] == before[k] || (flagged[k] == before[k] + {bit} && Contains(seen + [e], Key(edges[k])));
  }

  // ---------- what a merge does to the views ----------

  /** The scan and the append add exactly the new edges to view `bit` and change no other view. */
  lemma AppendedViews(edges: seq<QueryEdge>, before: seq<set<nat>>, after: seq<set<nat>>, bit: nat,
                      news: seq<QueryEdge>, kept: seq<QueryEdge>, i: nat, key: seq<int>)
    requires Scanned(edges, before, after, bit, news, kept)
    ensures Shows(edges + kept, after + seq(|kept|, _ => {bit}), i, key) <==>
            Shows(edges, before, i, key) || (i == bit && Contains(news, key))
  {
    hide Key;
    var all, flags := edges + kept, after + seq(|kept|, _ => {bit});
    if Shows(all, flags, i, key) {
      var k :| 0 <= k < |all| && k < |flags| && i in flags[k] && Key(all[k]) == key;
      if k < |edges| {
        assert after[k] == before[k] || Contains(news, key);
        assert i in before[k] ==> Shows(edges, before, i, key);
      } else {
        assert Contains(news, Key(kept[k - |edges|]));
      }
    }
    if Shows(edges, before, i, key) {
      var k :| 0 <= k < |edges| && k < |before| && i in before[k] && Key(edges[k]) == key;
      assert i in flags[k] && all[k] == edges[k];
    }
    if i == bit && Contains(news, key) {
      var j :| 0 <= j < |news| && Key(news[j]) == key;
      if Contains(kept, key) {
        var k :| 0 <= k < |kept| && Key(kept[k]) == key;
        assert bit in flags[|edges| + k] && all[|edges| + k] == kept[k];
      } else {
        var k :| 0 <= k < |edges| && k < |after| && bit in after[k] && Key(edges[k]) == key;
        assert bit in flags[k] && all[k] == edges[k];
      }
    }
  }

  // ---------- rearranging edges and flags together ----------

  function Rearranged<T>(s: seq<T>, ordering: seq<nat>): (r: seq<T>)
    requires |ordering| == |s| && NodeOrder.InRange(ordering, |s|)
    ensures |r| == |s| && forall k :: 0 <= k < |s| ==> r[k] == s[ordering[k]]
  {
    seq(|s|, k requires 0 <= k < |s| => s[ordering[k]])
  }

  lemma RearrangedViews(edges: seq<QueryEdge>, flags: seq<set<nat>>, ordering: seq<nat>, i: nat, key: seq<int>)
    requires |flags| == |edges| && NodeOrder.IsPermutation(ordering, |edges|) && NodeOrder.InRange(ordering, |edges|)
    ensures Shows(Rearranged(edges, ordering), Rearranged(flags, ordering), i, key) <==> Shows(edges, flags, i, key)
  {
    assert |ordering| == |edges|;
    hide Key, NodeOrder.IsPermutation;
    var edges', flags' := Rearranged(edges, ordering), Rearranged(flags, ordering);
    if k :| 0 <= k < |edges| && i in flags[k] && Key(edges[k]) == key {
      var p := NodeOrder.PermutationPosition(ordering, |edges|, k);
      assert i in flags'[p] && edges'[p] == edges[k];
    }
    if p :| 0 <= p < |edges'| && i in flags'[p] && Key(edges'[p]) == key {
      assert i in flags[ordering[p]];
    }
  }

  lemma RearrangedDistinct(edges: seq<QueryEdge>, ordering: seq<nat>)
    requires NodeOrder.IsPermutation(ordering, |edges|) && NodeOrder.InRange(ordering, |edges|)
    ensures NoEdgeTwice(Rearranged(edges, ordering)) <==> NoEdgeTwice(edges)
  {
    assert |ordering| == |edges|;
    hide Key, NodeOrder.IsPermutation;
    var r := Rearranged(edges, ordering);
    if NoEdgeTwice(edges) {
      forall i, j | 0 <= i < j < |r| ensures Key(r[i]) != Key(r[j]) {
        if ordering[i] == ordering[j] {
          NodeOrder.PermutationInjective(ordering, |edges|, i, j);
        }
      }
    }
    if NoEdgeTwice(r) {
      forall i, j | 0 <= i < j < |edges| ensures Key(edges[i]) != Key(edges[j]) {
        var p := NodeOrder.PermutationPosition(ordering, |edges|, i);
        var q := NodeOrder.PermutationPosition(ordering, |edges|, j);
        assert p < q || q < p;
      }
    }
  }

  lemma RearrangedElements<T>(s: seq<T>, ordering: seq<nat>)
    requires |ordering| == |s| && NodeOrder.IsPermutation(ordering, |s|) && NodeOrder.InRange(ordering, |s|)
    ensures multiset(Rearranged(s, ordering)) == multiset(s)
  {
    if s != [] {
      var f := (i: nat) => if i < |s| then s[i] else s[0];
      Sorting.MappedPermutation(ordering, NodeOrder.Identity(|s|), f);
      assert Sorting.Mapped(ordering, f) == Rearranged(s, ordering) && Sorting.Mapped(NodeOrder.Identity(|s|), f) == s;
    }
  }

  predicate IndexAtMost(edges: seq<QueryEdge>, a: nat, b: nat) {
    b >= |edges| || (a < |edges| && !MergeCompare(edges[b], edges[a]))
  }

  lemma IndexOrderIsTotal(edges: seq<QueryEdge>)
    ensures Sorting.Total((a, b) => IndexAtMost(edges, a, b))
  {
    hide MergeCompare;
    forall a: nat, b: nat ensures IndexAtMost(edges, a, b) || IndexAtMost(edges, b, a) {
      if a < |edges| && b < |edges| {
        MergeOrder(edges[a], edges[b]);
      }
    }
    forall a: nat, b: nat, c: nat | IndexAtMost(edges, a, b) && IndexAtMost(edges, b, c)
      ensures IndexAtMost(edges, a, c)
    {
      if c < |edges| {
        MergeTransitive(edges[a], edges[b], edges[c]);
      }
    }
  }

  method SortedOrdering(edges: seq<QueryEdge>) returns (order: seq<nat>)
    ensures |order| == |edges| && NodeOrder.IsPermutation(order, |edges|) && NodeOrder.InRange(order, |edges|)
    ensures InOrder(Rearranged(edges, order))
  {
    hide MergeCompare;
    IndexOrderIsTotal(edges);
    order := Sorting.Sort(NodeOrder.Identity(|edges|), (a, b) => IndexAtMost(edges, a, b));
    Sorting.SameLength(order, NodeOrder.Identity(|edges|));
    NodeOrder.PermutationInRange(order, |edges|);
    hide Sorting.Total, NodeOrder.IsPermutation;
    forall i, j | 0 <= i < j < |edges| ensures !MergeCompare(Rearranged(edges, order)[j], Rearranged(edges, order)[i]) {
      assert IndexAtMost(edges, order[i], order[j]);
    }
  }

  // ---------- sorted lists leave no duplicates ----------

  /** Everything before the scan position is before `e`. */
  ghost predicate AllBefore(edges: seq<QueryEdge>, it: nat, e: QueryEdge) {
    it <= |edges| && forall k :: 0 <= k < it ==> MergeCompare(edges[k], e)
  }

  /** On sorted old edges the scan finds `e` if it is there. */
  lemma VisitIsComplete(edges: seq<QueryEdge>, e: QueryEdge, it: nat)
    requires InOrder(edges) && AllBefore(edges, it, e)
    ensures AllBefore(edges, Visit(edges, e, it).0, e)
    ensures Visit(edges, e, it).1 <==> Contains(edges, Key(e))
  {
    hide Key, MergeCompare;
    var (at, found) := Visit(edges, e, it);
    assert AllBefore(edges, at, e);
    if at < |edges| {
      MergeOrder(e, edges[at]);
    }
    if found {
      assert Key(edges[at]) == Key(e);
    } else {
      forall k | 0 <= k < |edges| ensures Key(edges[k]) != Key(e) {
        MergeOrder(edges[k], e);
        if at <= k {
          assert at < k ==> !MergeCompare(edges[k], edges[at]);
          MergeOrder(edges[k], edges[at]);
          MergeTransitive(edges[k], edges[at], e);
          MergeTransitive(e, edges[at], edges[k]);
        }
      }
    }
  }

  // ---------- exactly when an edge is stored twice ----------

  /** The first `j` new edges can lead a scan past the first `p` old ones: each of these sorts before some new edge,
      and those new edges come in the order of the old ones. */
  ghost predicate Climbs(edges: seq<QueryEdge>, news: seq<QueryEdge>, p: nat, j: nat)
    requires p <= |edges| && j <= |news|
    decreases p
  {
    p == 0 || exists i: nat :: i < j && MergeCompare(edges[p - 1], news[i]) && Climbs(edges, news, p - 1, i + 1)
  }

  /** The scan stands before a stored copy of new edge `j` when its turn comes: it got there and not beyond. */
  ghost predicate Met(edges: seq<QueryEdge>, news: seq<QueryEdge>, j: nat)
    requires j < |news|
  {
    exists p: nat :: p < |edges| && MetAt(edges, news, j, p)
  }

  ghost predicate MetAt(edges: seq<QueryEdge>, news: seq<QueryEdge>, j: nat, p: nat)
    requires j < |news| && p < |edges|
  {
    && Key(edges[p]) == Key(news[j])
    && Climbs(edges, news, p, j + 1) && !Climbs(edges, news, p + 1, j + 1)
  }

  /** Two equal new edges, neither stored yet. */
  ghost predicate Repeated(edges: seq<QueryEdge>, news: seq<QueryEdge>, i: nat, j: nat)
    requires i < j < |news|
  {
    Key(news[i]) == Key(news[j]) && !Contains(edges, Key(news[i]))
  }

  ghost predicate NothingRepeated(edges: seq<QueryEdge>, news: seq<QueryEdge>) {
    forall i: nat, j: nat :: i < j < |news| ==> !Repeated(edges, news, i, j)
  }

  /** What the two lists, in whatever order, must satisfy for the merge to leave no duplicate. */
  ghost predicate MergesCleanly(edges: seq<QueryEdge>, news: seq<QueryEdge>) {
    && NoEdgeTwice(edges) && NothingRepeated(edges, news)
    && forall j: nat :: j < |news| && Contains(edges, Key(news[j])) ==> Met(edges, news, j)
  }

  /** Where the scan stands when the turn of new edge `j` comes. */
  ghost function Position(edges: seq<QueryEdge>, news: seq<QueryEdge>, j: nat): (r: nat)
    requires j <= |news|
    ensures r <= |edges|
  {
    if j == 0 then 0 else Visit(edges, news[j - 1], Position(edges, news, j - 1)).0
  }

  /** The scan finds new edge `j` among the old ones. */
  ghost predicate Found(edges: seq<QueryEdge>, news: seq<QueryEdge>, j: nat)
    requires j < |news|
  {
    Visit(edges, news[j], Position(edges, news, j)).1
  }

  lemma VisitAdvances(edges: seq<QueryEdge>, e: QueryEdge, it: nat)
    requires it <= |edges|
    ensures Visit(edges, e, it).0 == Advance(edges, e, it)
    ensures Visit(edges, e, it).1 <==> Advance(edges, e, it) < |edges| && Key(edges[Advance(edges, e, it)]) == Key(e)
  {
    hide Key, MergeCompare;
    var at := Advance(edges, e, it);
    if at < |edges| {
      MergeOrder(e, edges[at]);
    }
    if it < |edges| {
      MergeOrder(e, edges[it]);
    }
  }

  /** One more new edge: it is used for the last old edge, or not needed. */
  lemma ClimbsStep(edges: seq<QueryEdge>, news: seq<QueryEdge>, p: nat, j: nat)
    requires 0 < p <= |edges| && j < |news|
    ensures Climbs(edges, news, p, j + 1)
       <==> Climbs(edges, news, p, j) || (MergeCompare(edges[p - 1], news[j]) && Climbs(edges, news, p - 1, j + 1))
  {
    hide MergeCompare;
    if Climbs(edges, news, p, j + 1) {
      var i: nat :| i < j + 1 && MergeCompare(edges[p - 1], news[i]) && Climbs(edges, news, p - 1, i + 1);
    }
  }

  /** The scan has passed exactly the old edges that the new ones can lead it past. */
  lemma {:induction false} PositionIsClimb(edges: seq<QueryEdge>, news: seq<QueryEdge>, p: nat, j: nat)
    requires p <= |edges| && j <= |news|
    ensures Climbs(edges, news, p, j) <==> p <= Position(edges, news, j)
    decreases j, p
  {
    hide MergeCompare, Visit;
    if p == 0 || j == 0 {
      assert j == 0 && p > 0 ==> !Climbs(edges, news, p, j);
    } else {
      ClimbsStep(edges, news, p, j - 1);
      PositionIsClimb(edges, news, p, j - 1);
      PositionIsClimb(edges, news, p - 1, j);
      VisitAdvances(edges, news[j - 1], Position(edges, news, j - 1));
    }
  }

  lemma ClimbsUpTo(edges: seq<QueryEdge>, news: seq<QueryEdge>, p: nat, j: nat)
    requires p < |edges| && j <= |news|
    ensures Climbs(edges, news, p, j) && !Climbs(edges, news, p + 1, j) <==> p == Position(edges, news, j)
  {
    PositionIsClimb(edges, news, p, j);
    PositionIsClimb(edges, news, p + 1, j);
  }

  /** A new edge is found exactly when the scan meets a stored copy of it. */
  lemma FoundIsMet(edges: seq<QueryEdge>, news: seq<QueryEdge>, j: nat)
    requires j < |news|
    ensures Found(edges, news, j) <==> Met(edges, news, j)
  {
    hide Key, MergeCompare, Climbs;
    var at := Position(edges, news, j + 1);
    VisitAdvances(edges, news[j], Position(edges, news, j));
    if Found(edges, news, j) {
      ClimbsUpTo(edges, news, at, j + 1);
      assert MetAt(edges, news, j, at);
    }
    if Met(edges, news, j) {
      var p: nat :| p < |edges| && MetAt(edges, news, j, p);
      ClimbsUpTo(edges, news, p, j + 1);
    }
  }

  lemma FoundIsStored(edges: seq<QueryEdge>, news: seq<QueryEdge>, j: nat)
    requires j < |news| && Found(edges, news, j)
    ensures Contains(edges, Key(news[j]))
  {
    hide Key, MergeCompare;
    VisitAdvances(edges, news[j], Position(edges, news, j));
  }

  /** The new edges that are not stored yet. */
  ghost function Unstored(edges: seq<QueryEdge>, news: seq<QueryEdge>): (r: seq<QueryEdge>)
    ensures forall e :: e in r ==> e in news && !Contains(edges, Key(e))
  {
    if news == [] then []
    else
      var rest := Unstored(edges, news[1..]);
      if Contains(edges, Key(news[0])) then rest else [news[0]] + rest
  }

  /** If every stored edge is found, exactly the edges not stored yet are appended. */
  lemma {:induction false} KeptIsUnstored(edges: seq<QueryEdge>, news: seq<QueryEdge>, j: nat)
    requires j <= |news|
    requires forall k: nat :: j <= k < |news| && Contains(edges, Key(news[k])) ==> Found(edges, news, k)
    ensures Kept(edges, news[j..], Position(edges, news, j)) == Unstored(edges, news[j..])
    decreases |news| - j
  {
    hide Key, MergeCompare, Contains, Visit;
    if j < |news| {
      assert news[j..][0] == news[j] && news[j..][1..] == news[j + 1..];
      if Found(edges, news, j) {
        FoundIsStored(edges, news, j);
      }
      KeptIsUnstored(edges, news, j + 1);
    }
  }

  /** A stored edge that is not found is appended although it is stored. */
  lemma {:induction false} UnfoundIsKept(edges: seq<QueryEdge>, news: seq<QueryEdge>, j: nat, k: nat)
    requires j <= k < |news| && Contains(edges, Key(news[k])) && !Found(edges, news, k)
    ensures news[k] in Kept(edges, news[j..], Position(edges, news, j))
    decreases k - j
  {
    hide Key, MergeCompare, Contains, Visit;
    assert news[j..][0] == news[j] && news[j..][1..] == news[j + 1..];
    if j < k {
      UnfoundIsKept(edges, news, j + 1, k);
    }
  }

  lemma {:induction false} UnstoredDistinct(edges: seq<QueryEdge>, news: seq<QueryEdge>)
    ensures NoEdgeTwice(Unstored(edges, news)) <==> NothingRepeated(edges, news)
    decreases |news|
  {
    hide Key, Contains;
    if news != [] {
      var rest, head := news[1..], news[0];
      UnstoredDistinct(edges, rest);
      var r, tail := Unstored(edges, news), Unstored(edges, rest);
      UnstoredMembers(edges, rest);
      assert forall i: nat, j: nat ::
               i < j < |rest| ==> (Repeated(edges, rest, i, j) <==> Repeated(edges, news, i + 1, j + 1));
      if Contains(edges, Key(head)) {
        assert forall j: nat :: 0 < j < |news| ==> !Repeated(edges, news, 0, j);
        RepeatedLater(edges, news);
      } else {
        RepeatedFirst(edges, news);
        RepeatedLater(edges, news);
        assert r == [head] + tail;
        PrependedDistinct(head, tail);
      }
    }
  }

  lemma PrependedDistinct(head: QueryEdge, tail: seq<QueryEdge>)
    ensures NoEdgeTwice([head] + tail)
       <==> NoEdgeTwice(tail) && forall k :: 0 <= k < |tail| ==> Key(tail[k]) != Key(head)
  {
    hide Key;
    var r := [head] + tail;
    if NoEdgeTwice(r) {
      forall i, j | 0 <= i < j < |tail| ensures Key(tail[i]) != Key(tail[j]) {
        assert tail[i] == r[i + 1] && tail[j] == r[j + 1];
      }
      forall k | 0 <= k < |tail| ensures Key(tail[k]) != Key(head) {
        assert tail[k] == r[k + 1] && head == r[0];
      }
    }
  }

  lemma UnstoredMembers(edges: seq<QueryEdge>, news: seq<QueryEdge>)
    ensures forall e :: e in Unstored(edges, news) <==> e in news && !Contains(edges, Key(e))
  {
    hide Key, Contains;
    if news != [] {
      UnstoredMembers(edges, news[1..]);
      assert news == [news[0]] + news[1..];
    }
  }

  /** The first edge is repeated exactly if its key is among the rest. */
  lemma RepeatedFirst(edges: seq<QueryEdge>, news: seq<QueryEdge>)
    requires news != [] && !Contains(edges, Key(news[0]))
    ensures (forall j: nat :: 0 < j < |news| ==> !Repeated(edges, news, 0, j)) <==>
            (forall k :: 0 <= k < |Unstored(edges, news[1..])| ==> Key(Unstored(edges, news[1..])[k]) != Key(news[0]))
  {
    hide Key, Contains, Unstored;
    var rest, tail := news[1..], Unstored(edges, news[1..]);
    UnstoredMembers(edges, rest);
    if forall j: nat :: 0 < j < |news| ==> !Repeated(edges, news, 0, j) {
      forall k | 0 <= k < |tail| ensures Key(tail[k]) != Key(news[0]) {
        var e := tail[k];
        assert e in tail;
        var j := RestMember(news, e);
        assert !Repeated(edges, news, 0, j);
      }
    } else {
      var j: nat :| 0 < j < |news| && Repeated(edges, news, 0, j);
      var e := news[j];
      assert e == rest[j - 1];
      assert e in rest && e in tail;
      var k :| 0 <= k < |tail| && tail[k] == e;
    }
  }

  lemma RestMember(news: seq<QueryEdge>, e: QueryEdge) returns (j: nat)
    requires news != [] && e in news[1..]
    ensures 0 < j < |news| && news[j] == e
  {
    var i :| 0 <= i < |news[1..]| && news[1..][i] == e;
    j := i + 1;
  }

  lemma RepeatedLater(edges: seq<QueryEdge>, news: seq<QueryEdge>)
    requires news != []
    ensures (forall i: nat, j: nat :: i < j < |news| ==> !Repeated(edges, news, i, j)) <==>
            && (forall j: nat :: 0 < j < |news| ==> !Repeated(edges, news, 0, j))
            && (forall i: nat, j: nat :: i < j < |news[1..]| ==> !Repeated(edges, news[1..], i, j))
  {
    hide Key, Contains;
    var rest := news[1..];
    forall i: nat, j: nat | i < j < |rest|
      ensures Repeated(edges, rest, i, j) <==> Repeated(edges, news, i + 1, j + 1)
    {
    }
    forall i: nat, j: nat | 0 < i < j < |news|
      ensures Repeated(edges, news, i, j) <==> Repeated(edges, rest, i - 1, j - 1)
    {
    }
  }

  /** Whatever the order of the two lists, merging leaves no duplicate exactly if they merge cleanly. */
  lemma NoDuplicateIff(edges: seq<QueryEdge>, news: seq<QueryEdge>)
    ensures NoEdgeTwice(edges + Kept(edges, news, 0)) <==> MergesCleanly(edges, news)
  {
    hide Key, MergeCompare, Contains, Kept, Found, Met, NoEdgeTwice, NothingRepeated;
    var kept := Kept(edges, news, 0);
    assert news[0..] == news;
    PrefixDistinct(edges, kept);
    if NoEdgeTwice(edges) {
      ConcatDistinct(edges, kept);
      forall j: nat | j < |news| ensures Found(edges, news, j) <==> Met(edges, news, j) {
        FoundIsMet(edges, news, j);
      }
      if forall j: nat :: j < |news| && Contains(edges, Key(news[j])) ==> Found(edges, news, j) {
        KeptIsUnstored(edges, news, 0);
        UnstoredDistinct(edges, news);
        UnstoredMembers(edges, news);
        assert forall k :: 0 <= k < |kept| ==> kept[k] in kept;
      } else {
        var j: nat :| j < |news| && Contains(edges, Key(news[j])) && !Found(edges, news, j);
        UnfoundIsKept(edges, news, 0, j);
        var k :| 0 <= k < |kept| && kept[k] == news[j];
      }
    }
  }

  lemma PrefixDistinct(edges: seq<QueryEdge>, kept: seq<QueryEdge>)
    ensures NoEdgeTwice(edges + kept) ==> NoEdgeTwice(edges)
  {
    hide Key;
    assert forall k :: 0 <= k < |edges| ==> (edges + kept)[k] == edges[k];
  }

  lemma ConcatDistinct(edges: seq<QueryEdge>, kept: seq<QueryEdge>)
    requires NoEdgeTwice(edges)
    ensures NoEdgeTwice(edges + kept) <==>
            NoEdgeTwice(kept) && forall k :: 0 <= k < |kept| ==> !Contains(edges, Key(kept[k]))
  {
    hide Key;
    var all := edges + kept;
    if NoEdgeTwice(all) {
      forall i, j | 0 <= i < j < |kept| ensures Key(kept[i]) != Key(kept[j]) {
        assert kept[i] == all[|edges| + i] && kept[j] == all[|edges| + j];
      }
      forall k | 0 <= k < |kept| ensures !Contains(edges, Key(kept[k])) {
        assert all[|edges| + k] == kept[k];
        assert forall p :: 0 <= p < |edges| ==> all[p] == edges[p];
      }
    } else if NoEdgeTwice(kept) {
      var i, j :| 0 <= i < j < |all| && Key(all[i]) == Key(all[j]);
      assert i < |edges| <= j && all[i] == edges[i] && all[j] == kept[j - |edges|];
    }
  }

  // ---------- old edges in merge order, and new edges that are all new ----------

  /** A new edge that is already stored comes after a new edge that sorts behind it. */
  ghost predicate Overtaken(edges: seq<QueryEdge>, news: seq<QueryEdge>, i: nat, j: nat)
    requires i < j < |news|
  {
    Contains(edges, Key(news[j])) && MergeCompare(news[j], news[i])
  }

  /** The condition when the old edges are in merge order; of these only the keys matter. */
  ghost predicate CleanAgainst(edges: seq<QueryEdge>, news: seq<QueryEdge>) {
    && NothingRepeated(edges, news)
    && forall i: nat, j: nat :: i < j < |news| ==> !Overtaken(edges, news, i, j)
  }

  /** An edge that sorts behind all of them leads a scan past the first `p` old edges. */
  lemma {:induction false} LargeEdgeClimbs(edges: seq<QueryEdge>, news: seq<QueryEdge>, p: nat, i: nat)
    requires p <= |edges| && i < |news| && forall k :: 0 <= k < p ==> MergeCompare(edges[k], news[i])
    ensures Climbs(edges, news, p, i + 1)
    decreases p
  {
    hide MergeCompare;
    if p > 0 {
      LargeEdgeClimbs(edges, news, p - 1, i);
      assert MergeCompare(edges[p - 1], news[i]);
    }
  }

  /** In merge order and without duplicates, what comes before an edge sorts before it and before all that sort
      behind. */
  lemma SortedBefore(edges: seq<QueryEdge>, p: nat, e: QueryEdge)
    requires InOrder(edges) && NoEdgeTwice(edges) && p < |edges| && !MergeCompare(e, edges[p])
    ensures forall k :: 0 <= k < p ==> MergeCompare(edges[k], e)
  {
    hide Key, MergeCompare;
    forall k | 0 <= k < p ensures MergeCompare(edges[k], e) {
      assert !MergeCompare(edges[p], edges[k]);
      MergeOrder(edges[k], edges[p]);
      MergeTransitive(edges[k], edges[p], e);
    }
  }

  /** In merge order, the scan passes a stored edge before its turn exactly if a larger new edge comes first. */
  lemma SortedIsPassed(edges: seq<QueryEdge>, news: seq<QueryEdge>, j: nat, p: nat)
    requires InOrder(edges) && NoEdgeTwice(edges) && j < |news| && p < |edges| && Key(edges[p]) == Key(news[j])
    ensures Climbs(edges, news, p, j + 1)
    ensures Climbs(edges, news, p + 1, j + 1) <==> exists i: nat :: i < j && MergeCompare(news[j], news[i])
  {
    hide Key, LexLess, InOrder, NoEdgeTwice;
    MergeOrder(news[j], edges[p]);
    SortedBefore(edges, p, news[j]);
    LargeEdgeClimbs(edges, news, p, j);
    MergeOrder(news[j], news[j]);
    if Climbs(edges, news, p + 1, j + 1) {
      var i: nat :| i < j + 1 && MergeCompare(edges[p], news[i]) && Climbs(edges, news, p, i + 1);
      assert MergeCompare(news[j], news[i]);
    }
    if i: nat :| i < j && MergeCompare(news[j], news[i]) {
      assert MergeCompare(edges[p], news[i]);
      MergeOrder(edges[p], news[i]);
      SortedBefore(edges, p, news[i]);
      LargeEdgeClimbs(edges, news, p, i);
    }
  }

  lemma SortedIsMet(edges: seq<QueryEdge>, news: seq<QueryEdge>, j: nat)
    requires InOrder(edges) && NoEdgeTwice(edges) && j < |news| && Contains(edges, Key(news[j]))
    ensures Met(edges, news, j) <==> forall i: nat :: i < j ==> !Overtaken(edges, news, i, j)
  {
    hide Key, MergeCompare, Climbs, InOrder, NoEdgeTwice;
    var p: nat :| p < |edges| && Key(edges[p]) == Key(news[j]);
    SortedIsPassed(edges, news, j, p);
    if Met(edges, news, j) {
      var q: nat :| q < |edges| && MetAt(edges, news, j, q);
      SortedIsPassed(edges, news, j, q);
    } else {
      assert !MetAt(edges, news, j, p);
      var i: nat :| i < j && MergeCompare(news[j], news[i]);
      assert Overtaken(edges, news, i, j);
    }
  }

  /** On old edges in merge order the condition is about keys and the order of the new list only. */
  lemma SortedMergesCleanlyIff(edges: seq<QueryEdge>, news: seq<QueryEdge>)
    requires InOrder(edges) && NoEdgeTwice(edges)
    ensures MergesCleanly(edges, news) <==> CleanAgainst(edges, news)
  {
    hide Key, MergeCompare, Contains, Met, InOrder, NoEdgeTwice, NothingRepeated;
    forall j: nat | j < |news| && Contains(edges, Key(news[j]))
      ensures Met(edges, news, j) <==> forall i: nat :: i < j ==> !Overtaken(edges, news, i, j)
    {
      SortedIsMet(edges, news, j);
    }
  }

  /** If no new edge is stored yet, the order of the two lists does not matter. */
  lemma NewEdgesMergeCleanlyIff(edges: seq<QueryEdge>, news: seq<QueryEdge>)
    requires forall j :: 0 <= j < |news| ==> !Contains(edges, Key(news[j]))
    ensures MergesCleanly(edges, news) <==> NoEdgeTwice(edges) && NoEdgeTwice(news)
  {
    hide Key, Contains, Met;
    assert NothingRepeated(edges, news) <==> NoEdgeTwice(news) by {
      if NothingRepeated(edges, news) {
        forall i: nat, j: nat | i < j < |news| ensures Key(news[i]) != Key(news[j]) {
          assert !Repeated(edges, news, i, j);
        }
      }
    }
  }

  /** The condition depends on the old edges only through their keys. */
  lemma SameKeysSameCondition(a: seq<QueryEdge>, b: seq<QueryEdge>, news: seq<QueryEdge>)
    requires forall key :: Contains(a, key) <==> Contains(b, key)
    ensures CleanAgainst(a, news) <==> CleanAgainst(b, news)
  {
    hide Key, MergeCompare, Contains;
    assert forall i: nat, j: nat :: i < j < |news| ==> (Repeated(a, news, i, j) <==> Repeated(b, news, i, j));
    assert forall i: nat, j: nat :: i < j < |news| ==> (Overtaken(a, news, i, j) <==> Overtaken(b, news, i, j));
  }

  /** A new list in merge order without duplicates is clean against everything. */
  lemma SortedListsMergeCleanly(edges: seq<QueryEdge>, news: seq<QueryEdge>)
    requires InOrder(news) && NoEdgeTwice(news)
    ensures CleanAgainst(edges, news)
  {
    hide Key, MergeCompare, Contains;
  }

  /** What a merge does to the views, edge by edge. */
  lemma MergedByEdge(before: seq<QueryEdge>, flags: seq<set<nat>>, after: seq<QueryEdge>, flags': seq<set<nat>>,
                     bit: nat, news: seq<QueryEdge>)
    requires forall i: nat, key ::
               Shows(after, flags', i, key) <==> Shows(before, flags, i, key) || (i == bit && Contains(news, key))
    requires forall key :: Contains(after, key) <==> Contains(before, key) || Contains(news, key)
    ensures forall i: nat, e ::
              ShowsEdge(after, flags', i, e) <==> ShowsEdge(before, flags, i, e) || (i == bit && HasEdge(news, e))
    ensures forall e :: HasEdge(after, e) <==> HasEdge(before, e) || HasEdge(news, e)
  {
    hide Key, Contains, Shows, ShowsEdge, HasEdge, Agree;
    forall i: nat, e
      ensures ShowsEdge(after, flags', i, e) <==> ShowsEdge(before, flags, i, e) || (i == bit && HasEdge(news, e))
    {
      ViewsByEdge(after, flags', i, e);
      ViewsByEdge(before, flags, i, e);
      ViewsByEdge(news, [], i, e);
    }
    forall e ensures HasEdge(after, e) <==> HasEdge(before, e) || HasEdge(news, e) {
      ViewsByEdge(after, flags', 0, e);
      ViewsByEdge(before, flags, 0, e);
      ViewsByEdge(news, [], 0, e);
    }
  }

  /** The distance is not compared: of two edges that agree otherwise the one that comes later is dropped, and the
      views show the distance of the first. */
  lemma DistanceIsNotCompared(a: QueryEdge, b: QueryEdge)
    requires Agree(a, b)
    ensures Kept([a], [b], 0) == [] && ShowsEdge([a], [{0, 1}], 1, b)
  {
    hide MergeCompare, Key;
    MergableIff(a, b);
    assert Mergable(b, a);
    assert Advance([a], b, 0) == 0 && Visit([a], b, 0) == (0, true);
    assert [b][1..] == [] && Kept([a], [], 0) == [];
    assert [a][0] == a && Agree([a][0], b);
  }

  /** Sorted for the order of `QueryEdge`, which looks at the end points only. */
  ghost predicate InEndsOrder(edges: seq<QueryEdge>) {
    forall i, j :: 0 <= i < j < |edges| ==>
      edges[i].source < edges[j].source || (edges[i].source == edges[j].source && edges[i].target <= edges[j].target)
  }

  /** Two edges between the same nodes: both lists are in the order of `QueryEdge`, and yet an edge is stored twice. */
  lemma UnsortedListsRepeatEdges(a: QueryEdge, b: QueryEdge)
    requires a.source == b.source && a.target == b.target && MergeCompare(a, b)
    ensures InEndsOrder([a, b]) && InEndsOrder([b, a])
    ensures Kept([a, b], [b, a], 0) == [a] && !NoEdgeTwice([a, b] + Kept([a, b], [b, a], 0))
  {
    hide Key, MergeCompare;
    var first := [a, b];
    MergeOrder(a, b);
    MergeOrder(b, b);
    assert Advance(first, b, 1) == 1;
    assert Visit(first, b, 0) == (1, true);
    assert Visit(first, a, 1) == (1, false);
    assert [b, a][1..] == [a] && [a][1..] == [];
    assert Kept(first, [b, a], 0) == Kept(first, [a], 1) == [a] + Kept(first, [], 1);
    var all := first + [a];
    assert Key(all[0]) == Key(all[2]);
  }

  /** The same with the order the other way round: the old edges, as inserted, in the order of `QueryEdge` only. */
  lemma UnsortedContainerRepeatsEdges(a: QueryEdge, b: QueryEdge)
    requires a.source == b.source && a.target == b.target && MergeCompare(a, b)
    ensures InEndsOrder([b, a]) && InEndsOrder([a]) && NoEdgeTwice([b, a]) && CleanAgainst([b, a], [a])
    ensures Kept([b, a], [a], 0) == [a] && !NoEdgeTwice([b, a] + Kept([b, a], [a], 0))
  {
    hide Key, LexLess;
    var first := [b, a];
    MergeOrder(a, b);
    assert Visit(first, a, 0) == (0, false);
    assert [a][1..] == [];
    assert Kept(first, [a], 0) == [a] + Kept(first, [], 0);
    var all := first + [a];
    assert Key(all[1]) == Key(all[2]);
  }

  // ---------- the container ----------

  const NUM_FLAGS: nat := 8

  function AllFlags(): (r: set<nat>)
    ensures forall i: nat :: i in r <==> i < NUM_FLAGS
  {
    {0, 1, 2, 3, 4, 5, 6, 7}
  }

  ghost predicate Allows(filter: seq<bool>, e: QueryEdge) {
    e.source < |filter| && e.target < |filter| && filter[e.source] && filter[e.target]
  }

  /** The edges some filter is asked about. */
  ghost predicate EndsIn(edges: seq<QueryEdge>, n: nat) {
    forall k :: 0 <= k < |edges| ==> edges[k].source < n && edges[k].target < n
  }

  class ContractedEdgeContainer {
    var index: nat
    var flags: seq<set<nat>>
    var edges: seq<QueryEdge>

    ghost predicate Valid()
      reads this
    {
      |flags| == |edges|
    }

    constructor ()
      ensures index == 0 && flags == [] && edges == []
    {
      index, flags, edges := 0, [], [];
    }

    method Insert(news: seq<QueryEdge>)
      requires edges == [] && flags == []
      modifies this
      ensures Valid() && index == old(index) && edges == news && forall k :: 0 <= k < |flags| ==> flags[k] == AllFlags()
    {
      edges := news;
      flags := seq(|edges|, _ => AllFlags());
    }

    /** Bit `i` of every edge says whether the filter allows both ends; no other bit changes. */
    method Filter(filter: seq<bool>, i: nat)
      requires Valid() && i < NUM_FLAGS && EndsIn(edges, |filter|)
      modifies this`flags
      ensures Valid()
      ensures forall k :: 0 <= k < |edges| ==> (i in flags[k] <==> Allows(filter, edges[k]))
      ensures forall k, j: nat :: 0 <= k < |edges| && j != i ==> (j in flags[k] <==> j in old(flags)[k])
    {
      for k := 0 to |edges|
        invariant Valid()
        invariant forall m :: 0 <= m < k ==> (i in flags[m] <==> Allows(filter, edges[m]))
        invariant forall m, j: nat :: 0 <= m < k && j != i ==> (j in flags[m] <==> j in old(flags)[m])
        invariant forall m :: k <= m < |edges| ==> flags[m] == old(flags)[m]
      {
        if filter[edges[k].source] && filter[edges[k].target] {
          flags := flags[k := flags[k] + {i}];
        } else {
          flags := flags[k := flags[k] - {i}];
        }
      }
    }

    /** `remove_if` with its stateful predicate: flags the old edges it meets and keeps the rest. */
    method ScanNew(news: seq<QueryEdge>, bit: nat) returns (kept: seq<QueryEdge>)
      requires Valid()
      modifies this`flags
      ensures Valid() && kept == Kept(edges, news, 0)
      ensures Scanned(edges, old(flags), flags, bit, news, kept)
    {
      hide Key, Scanned, Contains, Shows, Visit, Kept;
      kept := [];
      var it: nat := 0;
      NothingScanned(edges, flags, bit);
      for j := 0 to |news|
        invariant Valid() && it <= |edges|
        invariant kept + Kept(edges, news[j..], it) == Kept(edges, news, 0)
        invariant Scanned(edges, old(flags), flags, bit, news[..j], kept)
      {
        var e := news[j];
        assert news[j..][0] == e && news[j..][1..] == news[j + 1..] && news[..j + 1] == news[..j] + [e];
        KeptUnfolds(edges, news[j..], it);
        var found;
        it, found := VisitOld(edges, e, it);
        if found {
          FlagStep(edges, old(flags), flags, bit, news[..j], kept, e, it);
          flags := flags[it := flags[it] + {bit}];
        } else {
          KeepStep(edges, old(flags), flags, bit, news[..j], kept, e);
          kept := kept + [e];
        }
      }
      assert news[..|news|] == news && news[|news|..] == []
             && Kept(edges, [], it) == [] by { KeptOfNothing(edges, it); }
    }

    /** Sorts edges and flags together. */
    method SortEdges() returns (ghost ordering: seq<nat>)
      requires Valid()
      modifies this`edges, this`flags
      ensures Valid() && InOrder(edges)
      ensures |ordering| == |old(edges)| && NodeOrder.IsPermutation(ordering, |old(edges)|)
              && NodeOrder.InRange(ordering, |old(edges)|)
      ensures edges == Rearranged(old(edges), ordering) && flags == Rearranged(old(flags), ordering)
    {
      var order := SortedOrdering(edges);
      edges, flags := Rearranged(edges, order), Rearranged(flags, order);
      ordering := order;
    }

    /**
     View `index` gains the new edges and every other view stays. No old edge is lost, no
     edge is changed, and the edges end up in merge order.
     */
    method Merge(news: seq<QueryEdge>)
      requires Valid() && index < NUM_FLAGS
      modifies this
      ensures Valid() && index == old(index) + 1 && InOrder(edges)
      ensures multiset(edges) == multiset(old(edges)) + multiset(Kept(old(edges), news, 0))
      ensures forall i: nat, e :: ShowsEdge(edges, flags, i, e) <==>
                ShowsEdge(old(edges), old(flags), i, e) || (i == old(index) && HasEdge(news, e))
      ensures forall e :: HasEdge(edges, e) <==> HasEdge(old(edges), e) || HasEdge(news, e)
      ensures forall i: nat, key :: Shows(edges, flags, i, key) <==>
                Shows(old(edges), old(flags), i, key) || (i == old(index) && Contains(news, key))
      ensures forall key :: Contains(edges, key) <==> Contains(old(edges), key) || Contains(news, key)
      ensures NoEdgeTwice(edges) <==> MergesCleanly(old(edges), news)
    {
      hide Key, Contains, Shows, MergeCompare, Scanned, InOrder, NoEdgeTwice, MergesCleanly, ShowsEdge, HasEdge, Agree;
      var bit := index;
      index := index + 1;
      var kept := ScanNew(news, bit);
      ghost var scanned := flags;
      NoDuplicateIff(edges, news);
      edges, flags := edges + kept, flags + seq(|kept|, _ => {bit});
      ghost var all, allFlags := edges, flags;
      forall i: nat, key
        ensures Shows(all, allFlags, i, key)
           <==> Shows(old(edges), old(flags), i, key) || (i == bit && Contains(news, key))
      {
        AppendedViews(old(edges), old(flags), scanned, bit, news, kept, i, key);
      }
      ghost var ordering := SortEdges();
      RearrangedElements(all, ordering);
      forall i: nat, key ensures Shows(edges, flags, i, key) <==> Shows(all, allFlags, i, key) {
        RearrangedViews(all, allFlags, ordering, i, key);
      }
      RearrangedDistinct(all, ordering);
      forall key ensures Contains(edges, key) <==> Contains(old(edges), key) || Contains(news, key) {
        SameElementsSameKeys(edges, all, key);
        ContainsMore(old(edges), kept, key);
        ScannedKeys(old(edges), old(flags), scanned, bit, news, kept, key);
      }
      MergedByEdge(old(edges), old(flags), edges, flags, bit, news);
    }

    method MakeEdgeFilters() returns (filters: seq<seq<bool>>)
      requires Valid()
      ensures |filters| == index
      ensures forall i ::
                0 <= i < index ==>
                  |filters[i]| == |edges| && forall k :: 0 <= k < |edges| ==> (filters[i][k] <==> i in flags[k])
    {
      filters := seq(index, _ => []);
      for i := 0 to index
        invariant |filters| == index
        invariant forall m ::
                    0 <= m < i ==>
                      |filters[m]| == |edges| && forall k :: 0 <= k < |edges| ==> (filters[m][k] <==> m in flags[k])
        invariant forall m :: i <= m < index ==> filters[m] == []
      {
        for k := 0 to |flags|
          invariant |filters| == index && |filters[i]| == k
          invariant forall m :: 0 <= m < k ==> (filters[i][m] <==> i in flags[m])
          invariant forall m ::
                      0 <= m < i ==>
                        |filters[m]| == |edges| && forall k :: 0 <= k < |edges| ==> (filters[m][k] <==> m in flags[k])
          invariant forall m :: i < m < index ==> filters[m] == []
        {
          filters := filters[i := filters[i] + [i in flags[k]]];
        }
      }
    }
  }

  lemma SameElementsSameKeys(a: seq<QueryEdge>, b: seq<QueryEdge>, key: seq<int>)
    requires multiset(a) == multiset(b)
    ensures Contains(a, key) <==> Contains(b, key)
  {
    hide Key;
    if k :| 0 <= k < |a| && Key(a[k]) == key {
      Sorting.SameMembers(a, b, a[k]);
      var m :| 0 <= m < |b| && b[m] == a[k];
    }
    if k :| 0 <= k < |b| && Key(b[k]) == key {
      Sorting.SameMembers(a, b, b[k]);
      var m :| 0 <= m < |a| && a[m] == b[k];
    }
  }

  /** Nothing is lost: a new edge is appended or was stored before. */
  lemma ScannedKeys(edges: seq<QueryEdge>, before: seq<set<nat>>, after: seq<set<nat>>, bit: nat,
                    news: seq<QueryEdge>, kept: seq<QueryEdge>, key: seq<int>)
    requires Scanned(edges, before, after, bit, news, kept)
    ensures Contains(edges, key) || Contains(kept, key) <==> Contains(edges, key) || Contains(news, key)
  {
    hide Key;
    if k :| 0 <= k < |news| && Key(news[k]) == key {
      assert Contains(kept, Key(news[k])) || Shows(edges, after, bit, Key(news[k]));
    }
    if k :| 0 <= k < |kept| && Key(kept[k]) == key {
      assert Contains(news, Key(kept[k]));
    }
  }

  lemma NothingScanned(edges: seq<QueryEdge>, flags: seq<set<nat>>, bit: nat)
    requires |flags| == |edges|
    ensures Scanned(edges, flags, flags, bit, [], [])
  {
  }
}
