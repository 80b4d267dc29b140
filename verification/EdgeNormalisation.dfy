/**
 Turning the edges of an edge list into the edges of a graph: both directions are stored,
 loops vanish, parallel edges shrink to the cheapest one per direction.
 */
module EdgeNormalisation {
  import opened RoadGraph
  import Sorting

  // ---------- splitting ----------

  function Clamp(weight: int): int {
    if weight < 1 then 1 else weight
  }

  /** The edge as stored at its source, with its weight clamped. */
  function Kept(e: Edge): Edge {
    Edge(e.source, e.target, e.data.(weight := Clamp(e.data.weight)))
  }

  /** The same edge as stored at its target: ends and flags swapped. */
  function Reversed(e: Edge): Edge {
    Edge(e.target, e.source,
         e.data.(weight := Clamp(e.data.weight), forward := e.data.backward, backward := e.data.forward))
  }

  method SplitBidirectionalEdges(edges: seq<Edge>) returns (directed: seq<Edge>)
    ensures forall d :: d in directed <==> FromSplit(edges, d)
  {
    directed := [];
    for k := 0 to |edges|
      invariant forall d :: d in directed <==> FromSplit(edges[..k], d)
    {
      ghost var before := directed;
      var edge := edges[k];
      assert edges[..k + 1] == edges[..k] + [edge];
      if edge.data.weight != INVALID_EDGE_WEIGHT {
        directed := directed + [Kept(edge), Reversed(edge)];
      }
      hide SplitOf;
      forall d ensures d in directed <==> FromSplit(edges[..k + 1], d) {
        SplitGrows(edges[..k], edge, d);
        SplitIsOneOfTwo(edge, d);
        assert d in directed
          <==> d in before
               || (edge.data.weight != INVALID_EDGE_WEIGHT && (d == Kept(edge) || d == Reversed(edge)));
      }
    }
    assert edges[..|edges|] == edges;
  }

  /** `d` is `e` as stored at one of its ends: a usable edge, whose weight is at least 1. */
  ghost predicate SplitOf(e: Edge, d: Edge) {
    && e.data.weight != 0x7FFF_FFFF && d.data.weight == (if e.data.weight < 1 then 1 else e.data.weight)
    && SameRoad(e, d)
    && (|| (d.source == e.source && d.target == e.target && d.data.forward == e.data.forward
            && d.data.backward == e.data.backward)
        || (d.source == e.target && d.target == e.source && d.data.forward == e.data.backward
            && d.data.backward == e.data.forward))
  }

  ghost predicate SameRoad(e: Edge, d: Edge) {
    d.data.turnId == e.data.turnId && d.data.duration == e.data.duration && d.data.distance == e.data.distance
  }

  lemma SplitIsOneOfTwo(e: Edge, d: Edge)
    ensures SplitOf(e, d) <==> e.data.weight != INVALID_EDGE_WEIGHT && (d == Kept(e) || d == Reversed(e))
  {
  }

  ghost predicate FromSplit(edges: seq<Edge>, d: Edge) {
    exists e :: e in edges && SplitOf(e, d)
  }

  lemma SplitGrows(edges: seq<Edge>, e: Edge, d: Edge)
    ensures FromSplit(edges + [e], d) <==> FromSplit(edges, d) || SplitOf(e, d)
  {
    if FromSplit(edges, d) {
      var x :| x in edges && SplitOf(x, d);
      assert x in edges + [e];
    }
    if SplitOf(e, d) {
      assert e in edges + [e];
    }
  }

  // ---------- which direction costs what ----------

  ghost predicate HasForward(list: seq<Edge>, s: nat, t: nat, w: int) {
    exists e :: e in list && e.source == s && e.target == t && e.data.forward && e.data.weight == w
  }

  ghost predicate HasBackward(list: seq<Edge>, s: nat, t: nat, w: int) {
    exists e :: e in list && e.source == s && e.target == t && e.data.backward && e.data.weight == w
  }

  ghost predicate LeastForward(list: seq<Edge>, s: nat, t: nat, w: int) {
    HasForward(list, s, t, w) && forall v :: HasForward(list, s, t, v) ==> w <= v
  }

  ghost predicate LeastBackward(list: seq<Edge>, s: nat, t: nat, w: int) {
    HasBackward(list, s, t, w) && forall v :: HasBackward(list, s, t, v) ==> w <= v
  }

  // ---------- the result ----------

  /** For each pair of different nodes the output has exactly the cheapest weight of each direction. */
  ghost predicate KeepsLeast(output: seq<Edge>, input: seq<Edge>) {
    && (forall s: nat, t: nat, w: int :: HasForward(output, s, t, w) <==> s != t && LeastForward(input, s, t, w))
    && (forall s: nat, t: nat, w: int :: HasBackward(output, s, t, w) <==> s != t && LeastBackward(input, s, t, w))
  }

  /** Two stored edges of one pair are the cheapest forward and the cheapest backward edge, with different weights. */
  ghost predicate ParallelFree(output: seq<Edge>) {
    forall i, j ::
      0 <= i < j < |output| && output[i].source == output[j].source && output[i].target == output[j].target ==>
      Separate(output[i].data, output[j].data)
  }

  ghost predicate Separate(a: EdgeData, b: EdgeData) {
    a.forward && !a.backward && !b.forward && b.backward && a.weight != b.weight
  }

  ghost predicate Flagged(output: seq<Edge>) {
    forall i ::
      0 <= i < |output| ==> output[i].source != output[i].target && (output[i].data.forward || output[i].data.backward)
  }

  /** Stored edges keep the weight, turn, duration and distance of one edge in their direction. */
  ghost predicate KeepsData(output: seq<Edge>, input: seq<Edge>) {
    forall i :: 0 <= i < |output| ==> HasOrigin(input, output[i])
  }

  ghost predicate HasOrigin(input: seq<Edge>, o: Edge) {
    exists d :: d in input && IsOrigin(d, o)
  }

  ghost predicate IsOrigin(d: Edge, o: Edge) {
    && d.source == o.source && d.target == o.target && d.data.weight == o.data.weight && SameRoad(d, o)
    && (if o.data.forward then d.data.forward else d.data.backward)
  }

  ghost predicate Normal(output: seq<Edge>, input: seq<Edge>) {
    KeepsLeast(output, input) && ParallelFree(output) && Flagged(output) && KeepsData(output, input)
  }

  // ---------- one group of equal ends ----------

  /** Sorted by ends, forward edges first, then by weight. */
  predicate EdgeAtMost(a: Edge, b: Edge) {
    || a.source < b.source
    || (a.source == b.source && a.target < b.target)
    || (a.source == b.source && a.target == b.target && a.data.forward && !b.data.forward)
    || (a.source == b.source && a.target == b.target && a.data.forward == b.data.forward
        && a.data.weight <= b.data.weight)
  }

  ghost predicate IsGroup(group: seq<Edge>, s: nat, t: nat) {
    && group != [] && Sorting.Sorted(group, (a, b) => EdgeAtMost(a, b))
    && forall i :: 0 <= i < |group| ==>
         group[i].source == s && group[i].target == t && group[i].data.forward != group[i].data.backward
  }

  /** `std::find_if` for the first backward edge. */
  function FirstBackward(group: seq<Edge>): (k: nat)
    ensures k <= |group| && (k < |group| ==> group[k].data.backward)
    ensures forall i :: 0 <= i < k ==> !group[i].data.backward
  {
    if group == [] then 0 else if group[0].data.backward then 0 else 1 + FirstBackward(group[1..])
  }

  /** What a group contributes. */
  function GroupOutput(group: seq<Edge>): seq<Edge>
    requires group != []
  {
    var k := FirstBackward(group);
    if k == 0 then [group[0]]
    else if k == |group| then [group[0]]
    else if group[0].data.weight == group[k].data.weight then [group[0].(data := group[0].data.(backward := true))]
    else [group[0], group[k]]
  }

  lemma GroupLeast(group: seq<Edge>, s: nat, t: nat)
    requires IsGroup(group, s, t)
    ensures var k := FirstBackward(group);
            && (forall w :: LeastForward(group, s, t, w) <==> k > 0 && w == group[0].data.weight)
            && (forall w :: LeastBackward(group, s, t, w) <==> k < |group| && w == group[k].data.weight)
  {
    var k := FirstBackward(group);
    forall i | 0 <= i < |group|
      ensures group[i].data.forward <==> i < k
      ensures i < k ==> group[0].data.weight <= group[i].data.weight
      ensures k <= i ==> group[k].data.weight <= group[i].data.weight
    {
      assert 0 < i ==> EdgeAtMost(group[0], group[i]);
      assert k < i ==> EdgeAtMost(group[k], group[i]);
    }
    hide Sorting.Sorted, EdgeAtMost;
    if k > 0 {
      assert group[0] in group && HasForward(group, s, t, group[0].data.weight);
      forall v | HasForward(group, s, t, v) ensures group[0].data.weight <= v {
        var e :| e in group && e.source == s && e.target == t && e.data.forward && e.data.weight == v;
        var i :| 0 <= i < |group| && group[i] == e;
      }
    }
    if k < |group| {
      assert group[k] in group && HasBackward(group, s, t, group[k].data.weight);
      forall v | HasBackward(group, s, t, v) ensures group[k].data.weight <= v {
        var e :| e in group && e.source == s && e.target == t && e.data.backward && e.data.weight == v;
        var i :| 0 <= i < |group| && group[i] == e;
      }
    }
  }

  ghost predicate OnlyBetween(list: seq<Edge>, s: nat, t: nat) {
    forall i :: 0 <= i < |list| ==> list[i].source == s && list[i].target == t
  }

  lemma BetweenOthersNothing(list: seq<Edge>, s: nat, t: nat, s': nat, t': nat, w: int)
    requires OnlyBetween(list, s, t) && (s' != s || t' != t)
    ensures !HasForward(list, s', t', w) && !HasBackward(list, s', t', w)
  {
    assert forall e :: e in list ==> e.source == s && e.target == t;
  }

  /** The output edges of a group carry exactly the least weights of the group. */
  lemma GroupOutputWeights(group: seq<Edge>, s: nat, t: nat, w: int)
    requires IsGroup(group, s, t)
    ensures HasForward(GroupOutput(group), s, t, w) <==> LeastForward(group, s, t, w)
    ensures HasBackward(GroupOutput(group), s, t, w) <==> LeastBackward(group, s, t, w)
  {
    GroupLeast(group, s, t);
    hide LeastForward, LeastBackward, Sorting.Sorted;
    var k, output := FirstBackward(group), GroupOutput(group);
    assert output[0] in output;
    if |output| == 2 {
      assert output[1] in output;
    }
  }

  lemma GroupIsNormal(group: seq<Edge>, s: nat, t: nat)
    requires IsGroup(group, s, t) && s != t
    ensures Normal(GroupOutput(group), group)
    ensures OnlyBetween(GroupOutput(group), s, t)
  {
    var output := GroupOutput(group);
    assert OnlyBetween(group, s, t);
    forall s': nat, t': nat, w: int
      ensures HasForward(output, s', t', w) <==> s' != t' && LeastForward(group, s', t', w)
      ensures HasBackward(output, s', t', w) <==> s' != t' && LeastBackward(group, s', t', w)
    {
      if s' == s && t' == t {
        GroupOutputWeights(group, s, t, w);
      } else {
        BetweenOthersNothing(output, s, t, s', t', w);
        BetweenOthersNothing(group, s, t, s', t', w);
      }
    }
    hide HasForward, HasBackward, Sorting.Sorted;
    GroupHasOrigins(group, s, t);
  }

  lemma GroupHasOrigins(group: seq<Edge>, s: nat, t: nat)
    requires IsGroup(group, s, t)
    ensures KeepsData(GroupOutput(group), group)
  {
    hide Sorting.Sorted;
    var k := FirstBackward(group);
    assert group[0] in group && (k < |group| ==> group[k] in group);
    if k == 0 || k == |group| {
      assert IsOrigin(group[0], group[0]);
    } else if group[0].data.weight == group[k].data.weight {
      assert IsOrigin(group[0], GroupOutput(group)[0]);
    } else {
      assert IsOrigin(group[0], group[0]) && IsOrigin(group[k], group[k]);
    }
  }

  // ---------- putting groups together ----------

  /** No pair of ends occurs in both lists. */
  ghost predicate DifferentEnds(a: seq<Edge>, b: seq<Edge>) {
    forall i, j :: 0 <= i < |a| && 0 <= j < |b| ==> a[i].source != b[j].source || a[i].target != b[j].target
  }

  lemma HasInConcat(a: seq<Edge>, b: seq<Edge>, s: nat, t: nat, w: int)
    ensures HasForward(a + b, s, t, w) <==> HasForward(a, s, t, w) || HasForward(b, s, t, w)
    ensures HasBackward(a + b, s, t, w) <==> HasBackward(a, s, t, w) || HasBackward(b, s, t, w)
  {
    assert forall e :: e in a + b <==> e in a || e in b;
  }

  lemma EndsExclude(a: seq<Edge>, b: seq<Edge>, s: nat, t: nat, w: int, v: int)
    requires DifferentEnds(a, b) && (HasForward(a, s, t, w) || HasBackward(a, s, t, w))
    ensures !HasForward(b, s, t, v) && !HasBackward(b, s, t, v)
  {
    var e :| e in a && e.source == s && e.target == t;
    var i :| 0 <= i < |a| && a[i] == e;
    forall x | x in b ensures x.source != s || x.target != t {
      var j :| 0 <= j < |b| && b[j] == x;
    }
  }

  lemma LeastInConcat(a: seq<Edge>, b: seq<Edge>, s: nat, t: nat, w: int)
    requires DifferentEnds(a, b)
    ensures LeastForward(a + b, s, t, w) <==> LeastForward(a, s, t, w) || LeastForward(b, s, t, w)
    ensures LeastBackward(a + b, s, t, w) <==> LeastBackward(a, s, t, w) || LeastBackward(b, s, t, w)
  {
    assert DifferentEnds(b, a);
    forall v: int
      ensures HasForward(a + b, s, t, v) <==> HasForward(a, s, t, v) || HasForward(b, s, t, v)
      ensures HasBackward(a + b, s, t, v) <==> HasBackward(a, s, t, v) || HasBackward(b, s, t, v)
      ensures HasForward(a, s, t, w) || HasBackward(a, s, t, w) ==> !HasForward(b, s, t, v) && !HasBackward(b, s, t, v)
      ensures HasForward(b, s, t, w) || HasBackward(b, s, t, w) ==> !HasForward(a, s, t, v) && !HasBackward(a, s, t, v)
    {
      HasInConcat(a, b, s, t, v);
      if HasForward(a, s, t, w) || HasBackward(a, s, t, w) {
        EndsExclude(a, b, s, t, w, v);
      }
      if HasForward(b, s, t, w) || HasBackward(b, s, t, w) {
        EndsExclude(b, a, s, t, w, v);
      }
    }
  }

  lemma NormalConcat(output: seq<Edge>, input: seq<Edge>, output': seq<Edge>, input': seq<Edge>)
    requires Normal(output, input) && Normal(output', input') && DifferentEnds(input, input')
             && DifferentEnds(output, output')
    ensures Normal(output + output', input + input')
  {
    forall s: nat, t: nat, w: int
      ensures HasForward(output + output', s, t, w) <==> s != t && LeastForward(input + input', s, t, w)
      ensures HasBackward(output + output', s, t, w) <==> s != t && LeastBackward(input + input', s, t, w)
    {
      HasInConcat(output, output', s, t, w);
      LeastInConcat(input, input', s, t, w);
      hide LeastForward, LeastBackward;
      assert HasForward(output, s, t, w) <==> s != t && LeastForward(input, s, t, w);
      assert HasForward(output', s, t, w) <==> s != t && LeastForward(input', s, t, w);
    }
    hide KeepsLeast;
    var all := output + output';
    hide IsOrigin;
    forall i | 0 <= i < |all| ensures HasOrigin(input + input', all[i]) {
      if i < |output| {
        assert HasOrigin(input, output[i]);
        var d :| d in input && IsOrigin(d, all[i]);
        assert d in input + input';
      } else {
        assert HasOrigin(input', output'[i - |output|]);
        var d :| d in input' && IsOrigin(d, all[i]);
        assert d in input + input';
      }
    }
  }

  /** Loops contribute nothing. */
  lemma NormalSkipsLoops(output: seq<Edge>, input: seq<Edge>, loops: seq<Edge>, s: nat)
    requires Normal(output, input) && OnlyBetween(loops, s, s)
    ensures Normal(output, input + loops)
  {
    forall a: nat, b: nat, w: int | a != b
      ensures LeastForward(input + loops, a, b, w) <==> LeastForward(input, a, b, w)
      ensures LeastBackward(input + loops, a, b, w) <==> LeastBackward(input, a, b, w)
    {
      forall v: int
        ensures HasForward(input + loops, a, b, v) <==> HasForward(input, a, b, v)
        ensures HasBackward(input + loops, a, b, v) <==> HasBackward(input, a, b, v)
      {
        HasInConcat(input, loops, a, b, v);
        BetweenOthersNothing(loops, s, s, a, b, v);
      }
    }
    hide LeastForward, LeastBackward, HasForward, HasBackward, IsOrigin;
    forall i | 0 <= i < |output| ensures HasOrigin(input + loops, output[i]) {
      assert HasOrigin(input, output[i]);
      var d :| d in input && IsOrigin(d, output[i]);
      assert d in input + loops;
    }
  }

  lemma OutputEndsAreInput(output: seq<Edge>, input: seq<Edge>, group: seq<Edge>, s: nat, t: nat)
    requires Normal(output, input) && DifferentEnds(input, group) && OnlyBetween(group, s, t) && group != []
    ensures forall i :: 0 <= i < |output| ==> output[i].source != s || output[i].target != t
  {
    forall i | 0 <= i < |output| ensures output[i].source != s || output[i].target != t {
      var o := output[i];
      var w := o.data.weight;
      assert o in output;
      if o.data.forward {
        assert HasForward(output, o.source, o.target, w);
      } else {
        assert HasBackward(output, o.source, o.target, w);
      }
      assert HasForward(input, o.source, o.target, w) || HasBackward(input, o.source, o.target, w);
      var e :| e in input && e.source == o.source && e.target == o.target;
      var j :| 0 <= j < |input| && input[j] == e;
      assert group[0].source == s && group[0].target == t;
    }
  }

  lemma SameEdgesSameNormal(output: seq<Edge>, a: seq<Edge>, b: seq<Edge>)
    requires Normal(output, a) && multiset(a) == multiset(b)
    ensures Normal(output, b)
  {
    forall e ensures e in a <==> e in b {
      Sorting.SameMembers(a, b, e);
    }
    forall s: nat, t: nat, w: int
      ensures HasForward(a, s, t, w) <==> HasForward(b, s, t, w)
      ensures HasBackward(a, s, t, w) <==> HasBackward(b, s, t, w)
    {
    }
    hide HasForward, HasBackward, IsOrigin;
    forall i | 0 <= i < |output| ensures HasOrigin(b, output[i]) {
      assert HasOrigin(a, output[i]);
    }
  }

  lemma EdgeOrderIsTotal()
    ensures Sorting.Total((a, b) => EdgeAtMost(a, b))
  {
  }

  /** A list of complete groups, separated from what follows. */
  ghost predicate GroupBoundary(sorted: seq<Edge>, k: nat) {
    k <= |sorted| && DifferentEnds(sorted[..k], sorted[k..])
  }

  lemma NextBoundary(sorted: seq<Edge>, begin: nat, end: nat)
    requires Sorting.Sorted(sorted, (a, b) => EdgeAtMost(a, b)) && GroupBoundary(sorted, begin)
             && begin < end <= |sorted|
    requires OnlyBetween(sorted[begin..end], sorted[begin].source, sorted[begin].target)
    requires end < |sorted| ==> sorted[end].source != sorted[begin].source || sorted[end].target != sorted[begin].target
    ensures GroupBoundary(sorted, end) && DifferentEnds(sorted[..begin], sorted[begin..end])
  {
    forall i, j | 0 <= i < |sorted[..end]| && 0 <= j < |sorted[end..]|
      ensures sorted[..end][i].source != sorted[end..][j].source || sorted[..end][i].target != sorted[end..][j].target
    {
      if i < begin {
        assert sorted[..begin][i] == sorted[i] && sorted[begin..][end - begin + j] == sorted[end + j];
      } else {
        assert sorted[begin..end][i - begin] == sorted[i];
        assert EdgeAtMost(sorted[begin], sorted[end]);
        assert 0 < j ==> EdgeAtMost(sorted[end], sorted[end + j]);
      }
    }
    forall i, j | 0 <= i < |sorted[..begin]| && 0 <= j < |sorted[begin..end]|
      ensures sorted[..begin][i].source != sorted[begin..end][j].source
              || sorted[..begin][i].target != sorted[begin..end][j].target
    {
      assert sorted[begin..][j] == sorted[begin..end][j];
    }
  }

  ghost predicate Exclusive(edges: seq<Edge>) {
    forall i ::
      0 <= i < |edges| ==> edges[i].source != edges[i].target ==> edges[i].data.forward != edges[i].data.backward
  }

  lemma IntervalIsGroup(sorted: seq<Edge>, begin: nat, end: nat, s: nat, t: nat)
    requires Sorting.Sorted(sorted, (a, b) => EdgeAtMost(a, b)) && Exclusive(sorted) && begin < end <= |sorted|
             && s != t
    requires OnlyBetween(sorted[begin..end], s, t)
    ensures IsGroup(sorted[begin..end], s, t)
  {
    var group := sorted[begin..end];
    forall i, j | 0 <= i < j < |group| ensures EdgeAtMost(group[i], group[j]) {
      assert EdgeAtMost(sorted[begin + i], sorted[begin + j]);
    }
    forall i | 0 <= i < |group| ensures group[i].data.forward != group[i].data.backward {
      assert group[i] == sorted[begin + i];
    }
  }

  /** Keeps the cheapest edge of each direction of each pair of nodes. */
  method PrepareEdgesForUsageInGraph(edges: seq<Edge>) returns (output: seq<Edge>)
    requires Exclusive(edges)
    ensures Normal(output, edges)
  {
    EdgeOrderIsTotal();
    hide Sorting.Total, Sorting.Sorted, Normal, GroupOutput, DifferentEnds;
    var sorted := Sorting.Sort(edges, (a, b) => EdgeAtMost(a, b));
    forall i | 0 <= i < |sorted|
      ensures sorted[i].source != sorted[i].target ==> sorted[i].data.forward != sorted[i].data.backward
    {
      Sorting.SameMembers(sorted, edges, sorted[i]);
    }
    output := [];
    var begin := 0;
    NothingIsNormal(sorted);
    while begin < |sorted|
      invariant GroupBoundary(sorted, begin) && Normal(output, sorted[..begin])
    {
      var source, target := sorted[begin].source, sorted[begin].target;
      var end := begin;
      while end < |sorted| && sorted[end].source == source && sorted[end].target == target
        invariant begin <= end <= |sorted|
                  && (end == begin ==> sorted[begin].source == source && sorted[begin].target == target)
        invariant forall i :: begin <= i < end ==> sorted[i].source == source && sorted[i].target == target
      {
        end := end + 1;
      }
      var group := sorted[begin..end];
      assert OnlyBetween(group, source, target);
      NextBoundary(sorted, begin, end);
      assert sorted[..end] == sorted[..begin] + group;
      if source == target {
        NormalSkipsLoops(output, sorted[..begin], group, source);
      } else {
        IntervalIsGroup(sorted, begin, end, source, target);
        GroupIsNormal(group, source, target);
        OutputEndsAreInput(output, sorted[..begin], group, source, target);
        OutputsDiffer(output, GroupOutput(group), source, target);
        NormalConcat(output, sorted[..begin], GroupOutput(group), group);
        var pushed := PushGroup(group, source, target);
        output := output + pushed;
      }
      begin := end;
    }
    assert sorted[..|sorted|] == sorted;
    SameEdgesSameNormal(output, sorted, edges);
  }

  lemma NothingIsNormal(sorted: seq<Edge>)
    ensures Normal([], sorted[..0]) && GroupBoundary(sorted, 0)
  {
  }

  lemma OutputsDiffer(output: seq<Edge>, more: seq<Edge>, s: nat, t: nat)
    requires OnlyBetween(more, s, t) && forall i :: 0 <= i < |output| ==> output[i].source != s || output[i].target != t
    ensures DifferentEnds(output, more)
  {
  }

  /** The merge decision for one group. */
  method PushGroup(group: seq<Edge>, source: nat, target: nat) returns (pushed: seq<Edge>)
    requires IsGroup(group, source, target)
    ensures pushed == GroupOutput(group)
  {
    var firstBackward := 0;
    while firstBackward < |group| && !group[firstBackward].data.backward
      invariant firstBackward <= |group| && forall i :: 0 <= i < firstBackward ==> !group[i].data.backward
    {
      firstBackward := firstBackward + 1;
    }
    assert firstBackward == FirstBackward(group);
    if firstBackward == 0 {
      pushed := [Edge(source, target, group[firstBackward].data)];
    } else if firstBackward == |group| {
      pushed := [Edge(source, target, group[0].data)];
    } else if group[0].data.weight == group[firstBackward].data.weight {
      pushed := [Edge(source, target, group[0].data.(backward := true))];
    } else {
      pushed := [Edge(source, target, group[0].data), Edge(source, target, group[firstBackward].data)];
    }
  }

  // ---------- loading an edge list ----------

  ghost predicate IsSplitOf(directed: seq<Edge>, edges: seq<Edge>) {
    forall d :: d in directed <==> FromSplit(edges, d)
  }

  /** `LoadEdgeBasedGraph` without the file: split, then prepare. */
  method LoadEdges(edges: seq<Edge>) returns (output: seq<Edge>, ghost directed: seq<Edge>)
    requires Exclusive(edges)
    ensures IsSplitOf(directed, edges) && Normal(output, directed)
    ensures forall s: nat, t: nat, w: int :: HasForward(output, s, t, w) <==> s != t && LeastOffer(edges, s, t, w)
    ensures forall s: nat, t: nat, w: int :: HasBackward(output, t, s, w) <==> s != t && LeastOffer(edges, s, t, w)
    ensures forall o :: o in output ==> OnFile(edges, o)
  {
    var split := SplitBidirectionalEdges(edges);
    SplitIsExclusive(split, edges);
    hide Normal, FromSplit, HasForward, HasBackward, LeastOffer, OnFile;
    output := PrepareEdgesForUsageInGraph(split);
    directed := split;
    forall o | o in output ensures OnFile(edges, o) {
      StoredIsOnFile(output, directed, edges, o);
    }
    forall s: nat, t: nat, w: int
      ensures HasForward(output, s, t, w) <==> s != t && LeastOffer(edges, s, t, w)
      ensures HasBackward(output, t, s, w) <==> s != t && LeastOffer(edges, s, t, w)
    {
      LoadingKeepsCosts(output, directed, edges, s, t, w);
    }
  }

  lemma SplitIsExclusive(directed: seq<Edge>, edges: seq<Edge>)
    requires IsSplitOf(directed, edges) && Exclusive(edges)
    ensures Exclusive(directed)
  {
    forall i | 0 <= i < |directed|
      ensures directed[i].source != directed[i].target ==> directed[i].data.forward != directed[i].data.backward
    {
      assert FromSplit(edges, directed[i]);
      var e :| e in edges && SplitOf(e, directed[i]);
      var k :| 0 <= k < |edges| && edges[k] == e;
    }
  }

  /** The edge on file can be travelled from `s` to `t`. */
  ghost predicate Passable(e: Edge, s: nat, t: nat) {
    && e.data.weight != 0x7FFF_FFFF
    && ((e.source == s && e.target == t && e.data.forward) || (e.source == t && e.target == s && e.data.backward))
  }

  /** The edges on file offer to travel from `s` to `t` at weight `w`: that of an edge, or 1 if it is below 1. */
  ghost predicate Offers(edges: seq<Edge>, s: nat, t: nat, w: int) {
    exists e :: e in edges && OffersBy(e, s, t, w)
  }

  ghost predicate OffersBy(e: Edge, s: nat, t: nat, w: int) {
    Passable(e, s, t) && w == (if e.data.weight < 1 then 1 else e.data.weight)
  }

  ghost predicate LeastOffer(edges: seq<Edge>, s: nat, t: nat, w: int) {
    Offers(edges, s, t, w) && forall v :: Offers(edges, s, t, v) ==> w <= v
  }

  /** A stored edge stands for an edge on file that leads in its direction, with that edge's data and its weight. */
  ghost predicate StandsFor(o: Edge, e: Edge) {
    && o.data.weight == (if e.data.weight < 1 then 1 else e.data.weight) && o.data.turnId == e.data.turnId
    && o.data.duration == e.data.duration && o.data.distance == e.data.distance
    && (o.data.forward ==> Passable(e, o.source, o.target)) && (!o.data.forward ==> Passable(e, o.target, o.source))
  }

  ghost predicate OnFile(edges: seq<Edge>, o: Edge) {
    exists e :: e in edges && StandsFor(o, e)
  }

  lemma StoredIsOnFile(output: seq<Edge>, directed: seq<Edge>, edges: seq<Edge>, o: Edge)
    requires IsSplitOf(directed, edges) && Normal(output, directed) && o in output
    ensures OnFile(edges, o)
  {
    hide KeepsLeast, ParallelFree;
    var i :| 0 <= i < |output| && output[i] == o;
    assert HasOrigin(directed, output[i]);
    var d :| d in directed && IsOrigin(d, o);
    assert FromSplit(edges, d);
    var e :| e in edges && SplitOf(e, d);
    assert StandsFor(o, e);
  }

  lemma SplitOffers(directed: seq<Edge>, edges: seq<Edge>, s: nat, t: nat, w: int)
    requires IsSplitOf(directed, edges)
    ensures HasForward(directed, s, t, w) <==> Offers(edges, s, t, w)
    ensures HasBackward(directed, t, s, w) <==> Offers(edges, s, t, w)
  {
    hide HasForward, HasBackward, Offers, IsSplitOf;
    if Offers(edges, s, t, w) {
      OfferIsSplit(directed, edges, s, t, w);
    }
    if HasForward(directed, s, t, w) {
      ForwardIsOffered(directed, edges, s, t, w);
    }
    if HasBackward(directed, t, s, w) {
      BackwardIsOffered(directed, edges, s, t, w);
    }
  }

  lemma OfferIsSplit(directed: seq<Edge>, edges: seq<Edge>, s: nat, t: nat, w: int)
    requires IsSplitOf(directed, edges) && Offers(edges, s, t, w)
    ensures HasForward(directed, s, t, w) && HasBackward(directed, t, s, w)
  {
    var e :| e in edges && OffersBy(e, s, t, w);
    var kept, reversed := Kept(e), Reversed(e);
    assert SplitOf(e, kept) && SplitOf(e, reversed);
    assert FromSplit(edges, kept) && FromSplit(edges, reversed);
  }

  lemma ForwardIsOffered(directed: seq<Edge>, edges: seq<Edge>, s: nat, t: nat, w: int)
    requires IsSplitOf(directed, edges) && HasForward(directed, s, t, w)
    ensures Offers(edges, s, t, w)
  {
    var d :| d in directed && d.source == s && d.target == t && d.data.forward && d.data.weight == w;
    assert FromSplit(edges, d);
    var e :| e in edges && SplitOf(e, d);
    assert OffersBy(e, s, t, w);
  }

  lemma BackwardIsOffered(directed: seq<Edge>, edges: seq<Edge>, s: nat, t: nat, w: int)
    requires IsSplitOf(directed, edges) && HasBackward(directed, t, s, w)
    ensures Offers(edges, s, t, w)
  {
    var d :| d in directed && d.source == t && d.target == s && d.data.backward && d.data.weight == w;
    assert FromSplit(edges, d);
    var e :| e in edges && SplitOf(e, d);
    assert OffersBy(e, s, t, w);
  }

  /** The least weights among the split edges are the least weights the edge list offers. */
  lemma LeastIsOffered(output: seq<Edge>, directed: seq<Edge>, edges: seq<Edge>, s: nat, t: nat, w: int)
    requires IsSplitOf(directed, edges) && KeepsLeast(output, directed)
    ensures HasForward(output, s, t, w) <==> s != t && LeastOffer(edges, s, t, w)
    ensures HasBackward(output, t, s, w) <==> s != t && LeastOffer(edges, s, t, w)
  {
    hide IsSplitOf;
    forall v: int
      ensures HasForward(directed, s, t, v) <==> Offers(edges, s, t, v)
      ensures HasBackward(directed, t, s, v) <==> Offers(edges, s, t, v)
    {
      SplitOffers(directed, edges, s, t, v);
    }
    hide HasForward, HasBackward, Offers;
    assert LeastForward(directed, s, t, w) <==> LeastOffer(edges, s, t, w);
    assert LeastBackward(directed, t, s, w) <==> LeastOffer(edges, s, t, w);
  }

  /** Costs survive: the stored forward weight from `s` to `t`, and equally the stored backward weight from
      `t` to `s`, is the least clamped weight the input offers for that direction. */
  lemma LoadingKeepsCosts(output: seq<Edge>, directed: seq<Edge>, edges: seq<Edge>, s: nat, t: nat, w: int)
    requires IsSplitOf(directed, edges) && Normal(output, directed)
    ensures HasForward(output, s, t, w) <==> s != t && LeastOffer(edges, s, t, w)
    ensures HasBackward(output, t, s, w) <==> s != t && LeastOffer(edges, s, t, w)
  {
    hide KeepsLeast, IsSplitOf;
    LeastIsOffered(output, directed, edges, s, t, w);
  }

  /** The cheapest edge between two nodes is loaded at its own weight, or at 1 if it is below 1, and at no other. */
  lemma CheapestIsLoadedAt(output: seq<Edge>, directed: seq<Edge>, edges: seq<Edge>, e: Edge, s: nat, t: nat, w: int)
    requires IsSplitOf(directed, edges) && Normal(output, directed) && e in edges && Passable(e, s, t) && s != t
    requires forall x :: x in edges && Passable(x, s, t) ==> e.data.weight <= x.data.weight
    ensures e.data.weight >= 1 ==> (HasForward(output, s, t, w) <==> w == e.data.weight)
    ensures e.data.weight < 1 ==> (HasForward(output, s, t, w) <==> w == 1)
  {
    var least := if e.data.weight < 1 then 1 else e.data.weight;
    LoadingKeepsCosts(output, directed, edges, s, t, w);
    hide IsSplitOf, Normal, HasForward;
    assert OffersBy(e, s, t, least) && Offers(edges, s, t, least);
    forall v | Offers(edges, s, t, v) ensures least <= v {
      var x :| x in edges && OffersBy(x, s, t, v);
    }
  }

  // ---------- keys ----------

  /** An edge with these ends, weight and flags is stored. */
  ghost predicate HasKey(list: seq<Edge>, s: nat, t: nat, w: int, forward: bool, backward: bool) {
    exists e :: e in list && e.source == s && e.target == t && e.data.weight == w
                && e.data.forward == forward && e.data.backward == backward
  }

  /** Between two nodes a normal list has no two edges of one weight. */
  lemma OneEdgePerWeight(output: seq<Edge>, e: Edge, x: Edge)
    requires ParallelFree(output) && e in output && x in output
    requires x.source == e.source && x.target == e.target && x.data.weight == e.data.weight
    ensures x == e
  {
    hide ParallelFree;
    var i: nat :| i < |output| && output[i] == e;
    var j: nat :| j < |output| && output[j] == x;
    if i < j {
      ParallelEdgesDiffer(output, i, j);
    } else if j < i {
      ParallelEdgesDiffer(output, j, i);
    }
  }

  lemma ParallelEdgesDiffer(output: seq<Edge>, i: nat, j: nat)
    requires ParallelFree(output) && i < j < |output|
    requires output[i].source == output[j].source && output[i].target == output[j].target
    ensures output[i].data.weight != output[j].data.weight && !output[j].data.forward
  {
    assert Separate(output[i].data, output[j].data);
  }

  /** In a normal list the weights per direction determine which edges are stored. */
  lemma KeyIsDetermined(output: seq<Edge>, input: seq<Edge>, s: nat, t: nat, w: int, forward: bool, backward: bool)
    requires Normal(output, input)
    ensures HasKey(output, s, t, w, forward, backward)
       <==> (forward || backward) && forward == HasForward(output, s, t, w) && backward == HasBackward(output, s, t, w)
  {
    hide KeepsLeast, KeepsData, ParallelFree;
    if HasKey(output, s, t, w, forward, backward) {
      var e :| e in output && e.source == s && e.target == t && e.data.weight == w
               && e.data.forward == forward && e.data.backward == backward;
      forall x | x in output && x.source == s && x.target == t && x.data.weight == w ensures x == e {
        OneEdgePerWeight(output, e, x);
      }
    }
    if (forward || backward) && forward == HasForward(output, s, t, w) && backward == HasBackward(output, s, t, w) {
      var e :| e in output && e.source == s && e.target == t && e.data.weight == w
               && (e.data.forward || e.data.backward);
      forall x | x in output && x.source == s && x.target == t && x.data.weight == w ensures x == e {
        OneEdgePerWeight(output, e, x);
      }
    }
  }

  /** Every stored edge is stored at its other end too, with the flags swapped and the same weight. */
  lemma LoadedGraphIsMirrored(output: seq<Edge>, directed: seq<Edge>, edges: seq<Edge>, e: Edge)
    requires IsSplitOf(directed, edges) && Normal(output, directed) && e in output
    ensures e.source != e.target && e.data.weight >= 1
    ensures HasKey(output, e.target, e.source, e.data.weight, e.data.backward, e.data.forward)
  {
    var s, t, w := e.source, e.target, e.data.weight;
    assert HasKey(output, s, t, w, e.data.forward, e.data.backward);
    KeyIsDetermined(output, directed, s, t, w, e.data.forward, e.data.backward);
    LoadingKeepsCosts(output, directed, edges, s, t, w);
    LoadingKeepsCosts(output, directed, edges, t, s, w);
    KeyIsDetermined(output, directed, t, s, w, e.data.backward, e.data.forward);
    hide Normal, IsSplitOf, LeastForward, LeastBackward;
    assert Offers(edges, s, t, w) || Offers(edges, t, s, w);
  }

  // ---------- saving a graph and loading it again ----------

  /** A default-constructed edge, as it fills the turn ids that no edge uses. */
  const DEFAULT_EDGE := Edge(0, 0, EdgeData(0, 0, 0, 0.0, false, false))

  function Saved(e: Edge): Edge {
    e.(data := e.data.(forward := true, backward := false))
  }

  ghost predicate SavesTurn(stored: seq<Edge>, k: nat, e: Edge) {
    e in stored && e.data.forward && e.data.turnId == k
  }

  /** Slot `k` holds a forward edge with that turn id, or the default if there is none. */
  ghost predicate SlotSaved(stored: seq<Edge>, k: nat, slot: Edge) {
    if exists e :: SavesTurn(stored, k, e) then exists e :: SavesTurn(stored, k, e) && slot == Saved(e)
    else slot == DEFAULT_EDGE
  }

  ghost predicate SavedFrom(edges: seq<Edge>, stored: seq<Edge>) {
    && (forall e :: e in stored ==> e.data.turnId < |edges|)
    && (forall k: nat :: k < |edges| ==> SlotSaved(stored, k, edges[k]))
  }

  /** `graphToEdges`: one slot per turn id up to the largest one; only forward edges are written. */
  method GraphToEdges(stored: seq<Edge>) returns (edges: seq<Edge>)
    ensures SavedFrom(edges, stored)
  {
    var maxTurnId: nat := 0;
    for i := 0 to |stored|
      invariant forall j :: 0 <= j < i ==> stored[j].data.turnId <= maxTurnId
    {
      if maxTurnId < stored[i].data.turnId {
        maxTurnId := stored[i].data.turnId;
      }
    }
    edges := seq(maxTurnId + 1, _ => DEFAULT_EDGE);
    for i := 0 to |stored|
      invariant |edges| == maxTurnId + 1
      invariant forall k: nat :: k < |edges| ==> SlotSaved(stored[..i], k, edges[k])
    {
      ghost var before := edges;
      var e := stored[i];
      assert stored[..i + 1] == stored[..i] + [e];
      if e.data.forward {
        edges := edges[e.data.turnId := Saved(e)];
      }
      forall k: nat | k < |edges| ensures SlotSaved(stored[..i + 1], k, edges[k]) {
        assert SlotSaved(stored[..i], k, before[k]);
        SlotGrows(stored[..i], e, k, before[k]);
      }
    }
    assert stored[..|stored|] == stored;
  }

  lemma SlotGrows(stored: seq<Edge>, e: Edge, k: nat, slot: Edge)
    requires SlotSaved(stored, k, slot)
    ensures SlotSaved(stored + [e], k, if e.data.forward && e.data.turnId == k then Saved(e) else slot)
  {
    assert forall x ::
             SavesTurn(stored + [e], k, x)
             <==> SavesTurn(stored, k, x) || (x == e && e.data.forward && e.data.turnId == k);
    if exists x :: SavesTurn(stored, k, x) {
      var x :| SavesTurn(stored, k, x) && slot == Saved(x);
      assert SavesTurn(stored + [e], k, x);
    }
    if e.data.forward && e.data.turnId == k {
      assert SavesTurn(stored + [e], k, e);
    }
  }

  ghost predicate DistinctTurns(edges: seq<Edge>) {
    forall i, j :: 0 <= i < j < |edges| ==> edges[i].data.turnId != edges[j].data.turnId
  }

  /** With distinct turn ids in the input no two stored forward edges share a turn id. */
  lemma ForwardTurnsAreDistinct(output: seq<Edge>, directed: seq<Edge>, edges: seq<Edge>, a: Edge, b: Edge)
    requires Exclusive(edges) && DistinctTurns(edges) && IsSplitOf(directed, edges) && Normal(output, directed)
    requires a in output && b in output && a.data.forward && b.data.forward && a.data.turnId == b.data.turnId
    ensures a == b
  {
    hide KeepsLeast, ParallelFree;
    var i: nat :| i < |output| && output[i] == a;
    var j: nat :| j < |output| && output[j] == b;
    var e := TurnOrigin(output, directed, edges, i);
    var f := TurnOrigin(output, directed, edges, j);
    var m :| 0 <= m < |edges| && edges[m] == e;
    var n :| 0 <= n < |edges| && edges[n] == f;
    assert m == n;
    if i < j {
      ParallelEdgesDiffer(output, i, j);
    } else if j < i {
      ParallelEdgesDiffer(output, j, i);
    }
  }

  /** The input edge behind a stored forward edge: it leads from the one end to the other. */
  lemma TurnOrigin(output: seq<Edge>, directed: seq<Edge>, edges: seq<Edge>, i: nat) returns (e: Edge)
    requires IsSplitOf(directed, edges) && Normal(output, directed) && i < |output| && output[i].data.forward
    ensures e in edges && e.data.turnId == output[i].data.turnId && output[i].source != output[i].target
    ensures (e.source == output[i].source && e.target == output[i].target && e.data.forward)
         || (e.source == output[i].target && e.target == output[i].source && e.data.backward)
  {
    hide KeepsLeast, ParallelFree;
    assert HasOrigin(directed, output[i]);
    var d :| d in directed && IsOrigin(d, output[i]);
    assert FromSplit(edges, d);
    e :| e in edges && SplitOf(e, d);
  }

  /** Between different nodes, the saved list offers exactly the stored forward edges. */
  lemma SavedOffers(saved: seq<Edge>, output: seq<Edge>, directed: seq<Edge>, edges: seq<Edge>, s: nat, t: nat, w: int)
    requires Exclusive(edges) && DistinctTurns(edges) && IsSplitOf(directed, edges) && Normal(output, directed)
    requires SavedFrom(saved, output)
    ensures Offers(saved, s, t, w) <==> HasForward(output, s, t, w)
  {
    hide Exclusive, DistinctTurns, IsSplitOf, Normal, SlotSaved;
    if Offers(saved, s, t, w) {
      var e :| e in saved && OffersBy(e, s, t, w);
      var k: nat :| k < |saved| && saved[k] == e;
      var x := SlotOrigin(saved, output, k);
      LoadedGraphIsMirrored(output, directed, edges, x);
      assert HasForward(output, s, t, w);
    }
    if HasForward(output, s, t, w) {
      var o :| o in output && o.source == s && o.target == t && o.data.forward && o.data.weight == w;
      LoadedGraphIsMirrored(output, directed, edges, o);
      StoredIsValid(output, directed, edges, s, t, w);
      assert SavesTurn(output, o.data.turnId, o);
      var x := SlotFilled(saved, output, o.data.turnId, o);
      ForwardTurnsAreDistinct(output, directed, edges, o, x);
      assert OffersBy(Saved(o), s, t, w) && Saved(o) in saved;
    }
  }

  lemma SlotOrigin(saved: seq<Edge>, output: seq<Edge>, k: nat) returns (x: Edge)
    requires SavedFrom(saved, output) && k < |saved| && (saved[k].data.forward || saved[k].data.backward)
    ensures SavesTurn(output, k, x) && saved[k] == Saved(x)
  {
    assert SlotSaved(output, k, saved[k]);
    x :| SavesTurn(output, k, x) && saved[k] == Saved(x);
  }

  lemma SlotFilled(saved: seq<Edge>, output: seq<Edge>, k: nat, o: Edge) returns (x: Edge)
    requires SavedFrom(saved, output) && SavesTurn(output, k, o)
    ensures k < |saved| && SavesTurn(output, k, x) && saved[k] == Saved(x)
  {
    assert SlotSaved(output, k, saved[k]);
    x :| SavesTurn(output, k, x) && saved[k] == Saved(x);
  }

  lemma StoredIsValid(output: seq<Edge>, directed: seq<Edge>, edges: seq<Edge>, s: nat, t: nat, w: int)
    requires IsSplitOf(directed, edges) && Normal(output, directed) && HasForward(output, s, t, w)
    ensures w != INVALID_EDGE_WEIGHT
  {
    LoadingKeepsCosts(output, directed, edges, s, t, w);
    hide IsSplitOf, Normal, HasForward;
    var e :| e in edges && OffersBy(e, s, t, w);
  }

  /** Saving the graph and loading the saved edges stores the same ends, weights and flags again. */
  lemma ReloadIsIdentity(edges: seq<Edge>, directed: seq<Edge>, output: seq<Edge>, saved: seq<Edge>,
                         directed': seq<Edge>, output': seq<Edge>, s: nat, t: nat, w: int, forward: bool,
                         backward: bool)
    requires Exclusive(edges) && DistinctTurns(edges) && IsSplitOf(directed, edges) && Normal(output, directed)
    requires SavedFrom(saved, output) && IsSplitOf(directed', saved) && Normal(output', directed')
    ensures HasKey(output', s, t, w, forward, backward) <==> HasKey(output, s, t, w, forward, backward)
  {
    hide Exclusive, DistinctTurns, IsSplitOf, Normal, SavedFrom;
    ReloadKeepsForward(edges, directed, output, saved, directed', output', s, t, w);
    ReloadKeepsForward(edges, directed, output, saved, directed', output', t, s, w);
    KeyIsDetermined(output, directed, s, t, w, forward, backward);
    KeyIsDetermined(output', directed', s, t, w, forward, backward);
  }

  lemma ReloadKeepsForward(edges: seq<Edge>, directed: seq<Edge>, output: seq<Edge>, saved: seq<Edge>,
                           directed': seq<Edge>, output': seq<Edge>, s: nat, t: nat, w: int)
    requires Exclusive(edges) && DistinctTurns(edges) && IsSplitOf(directed, edges) && Normal(output, directed)
    requires SavedFrom(saved, output) && IsSplitOf(directed', saved) && Normal(output', directed')
    ensures HasForward(output', s, t, w) <==> HasForward(output, s, t, w)
    ensures HasBackward(output', t, s, w) <==> HasBackward(output, t, s, w)
  {
    hide Exclusive, DistinctTurns, IsSplitOf, Normal, SavedFrom, HasForward, HasBackward, Offers;
    forall v: int
      ensures Offers(saved, s, t, v) <==> HasForward(output, s, t, v)
      ensures HasForward(output, s, t, v) <==> s != t && LeastOffer(edges, s, t, v)
    {
      SavedOffers(saved, output, directed, edges, s, t, v);
      LoadingKeepsCosts(output, directed, edges, s, t, v);
    }
    LoadingKeepsCosts(output', directed', saved, s, t, w);
    LoadingKeepsCosts(output, directed, edges, s, t, w);
  }

  lemma SavedIsExclusive(saved: seq<Edge>, stored: seq<Edge>)
    requires SavedFrom(saved, stored)
    ensures Exclusive(saved)
  {
    forall i | 0 <= i < |saved|
      ensures saved[i].source != saved[i].target ==> saved[i].data.forward != saved[i].data.backward
    {
      assert SlotSaved(stored, i, saved[i]);
    }
  }

  /** Load, save and load again. */
  method Reload(edges: seq<Edge>) returns (output: seq<Edge>, output': seq<Edge>, ghost directed: seq<Edge>)
    requires Exclusive(edges) && DistinctTurns(edges)
    ensures IsSplitOf(directed, edges) && Normal(output, directed)
    ensures forall s: nat, t: nat, w: int, forward: bool, backward: bool ::
      HasKey(output', s, t, w, forward, backward) <==> HasKey(output, s, t, w, forward, backward)
  {
    hide Normal, IsSplitOf, HasKey, SavedFrom, Exclusive, DistinctTurns;
    ghost var directed';
    output, directed := LoadEdges(edges);
    var saved := GraphToEdges(output);
    SavedIsExclusive(saved, output);
    output', directed' := LoadEdges(saved);
    forall s: nat, t: nat, w: int, forward: bool, backward: bool
      ensures HasKey(output', s, t, w, forward, backward) <==> HasKey(output, s, t, w, forward, backward)
    {
      ReloadIsIdentity(edges, directed, output, saved, directed', output', s, t, w, forward, backward);
    }
  }
}
