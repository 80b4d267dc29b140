/**
 Preparing edges for the contractor: parallel edges are folded into one minimum per
 direction and written back over the front of the array that is being read.
 */
module ContractorAdaptors {
  import opened RoadGraph
  import opened EdgeNormalisation
  import Sorting

  // ---------- componentwise minima of a group ----------

  predicate Directed(e: Edge, forward: bool) {
    if forward then e.data.forward else e.data.backward
  }

  /** Values the 32-bit types can hold; invalid weights have been dropped. */
  ghost predicate Bounded(e: Edge) {
    e.data.weight < INVALID_EDGE_WEIGHT && e.data.duration <= MAXIMAL_EDGE_DURATION
    && e.data.distance <= INVALID_EDGE_DISTANCE
  }

  ghost predicate AllBounded(list: seq<Edge>) {
    forall k :: 0 <= k < |list| ==> Bounded(list[k])
  }

  const NOTHING := Cost(INVALID_EDGE_WEIGHT, MAXIMAL_EDGE_DURATION, INVALID_EDGE_DISTANCE)

  /** `std::min` on each of the three values. */
  function Lower(m: Cost, d: EdgeData): Cost {
    Cost(if d.weight < m.weight then d.weight else m.weight,
         if d.duration < m.duration then d.duration else m.duration,
         if d.distance < m.distance then d.distance else m.distance)
  }

  /** The accumulators after the edges of `group`. */
  function Minima(group: seq<Edge>, forward: bool): Cost {
    if group == [] then NOTHING
    else
      var last, before := group[|group| - 1], Minima(group[..|group| - 1], forward);
      if Directed(last, forward) then Lower(before, last.data) else before
  }

  ghost predicate AnyDirected(group: seq<Edge>, forward: bool) {
    exists k :: 0 <= k < |group| && Directed(group[k], forward)
  }

  ghost predicate Attains(group: seq<Edge>, forward: bool, m: Cost) {
    && (exists k :: 0 <= k < |group| && Directed(group[k], forward) && group[k].data.weight == m.weight)
    && (exists k :: 0 <= k < |group| && Directed(group[k], forward) && group[k].data.duration == m.duration)
    && (exists k :: 0 <= k < |group| && Directed(group[k], forward) && group[k].data.distance == m.distance)
  }

  ghost predicate BoundsAll(group: seq<Edge>, forward: bool, m: Cost) {
    forall k :: 0 <= k < |group| && Directed(group[k], forward) ==>
      m.weight <= group[k].data.weight && m.duration <= group[k].data.duration && m.distance <= group[k].data.distance
  }

  /** Each accumulator is the least value of its kind among the edges of its direction. */
  lemma {:induction false} MinimaAreLeast(group: seq<Edge>, forward: bool)
    requires AllBounded(group)
    ensures BoundsAll(group, forward, Minima(group, forward))
    ensures AnyDirected(group, forward) ==> Attains(group, forward, Minima(group, forward))
    ensures AnyDirected(group, forward) <==> Minima(group, forward).weight != INVALID_EDGE_WEIGHT
    ensures !AnyDirected(group, forward) ==> Minima(group, forward) == NOTHING
    decreases |group|
  {
    if group != [] {
      var n := |group| - 1;
      var rest, last := group[..n], group[n];
      MinimaAreLeast(rest, forward);
      assert forall k :: 0 <= k < n ==> group[k] == rest[k];
      assert Bounded(last);
      if AnyDirected(rest, forward) {
        AttainsInLonger(rest, last, forward);
        assert rest + [last] == group;
      }
    }
  }

  lemma AttainsInLonger(rest: seq<Edge>, last: Edge, forward: bool)
    requires Attains(rest, forward, Minima(rest, forward))
    ensures Attains(rest + [last], forward, Minima(rest + [last], forward))
  {
    var group, m, m' := rest + [last], Minima(rest, forward), Minima(rest + [last], forward);
    assert group[..|rest|] == rest && group[|rest|] == last;
    var a :| 0 <= a < |rest| && Directed(rest[a], forward) && rest[a].data.weight == m.weight;
    var b :| 0 <= b < |rest| && Directed(rest[b], forward) && rest[b].data.duration == m.duration;
    var c :| 0 <= c < |rest| && Directed(rest[c], forward) && rest[c].data.distance == m.distance;
    var a' := if Directed(last, forward) && last.data.weight < m.weight then |rest| else a;
    var b' := if Directed(last, forward) && last.data.duration < m.duration then |rest| else b;
    var c' := if Directed(last, forward) && last.data.distance < m.distance then |rest| else c;
    assert Directed(group[a'], forward) && group[a'].data.weight == m'.weight;
    assert Directed(group[b'], forward) && group[b'].data.duration == m'.duration;
    assert Directed(group[c'], forward) && group[c'].data.distance == m'.distance;
  }

  // ---------- what a group leaves behind ----------

  function Folded(s: nat, t: nat, id: nat, m: Cost, forward: bool, backward: bool): Edge {
    Edge(s, t, EdgeData(id, m.weight, m.duration, m.distance, forward, backward))
  }

  function Emitted(group: seq<Edge>, s: nat, t: nat, id: nat): seq<Edge> {
    var f, r := Minima(group, true), Minima(group, false);
    if f.weight == r.weight then
      if f.weight != INVALID_EDGE_WEIGHT then [Folded(s, t, id, f, true, true)] else []
    else
      (if f.weight != INVALID_EDGE_WEIGHT then [Folded(s, t, id, f, true, false)] else [])
      + (if r.weight != INVALID_EDGE_WEIGHT then [Folded(s, t, id, r, false, true)] else [])
  }

  /** A group never writes more edges than it has read: this keeps the write index behind. */
  lemma EmittedFits(group: seq<Edge>, s: nat, t: nat, id: nat)
    requires group != []
    ensures |Emitted(group, s, t, id)| <= |group|
  {
    if |group| == 1 {
      assert group[..0] == [] && Minima(group[..0], true) == Minima(group[..0], false) == NOTHING;
    }
  }

  /** An output edge carries the least duration and distance of its direction and the id of some edge of its pair. */
  ghost predicate BestOf(o: Edge, input: seq<Edge>) {
    && (exists e :: e in input && e.source == o.source && e.target == o.target && e.data.turnId == o.data.turnId)
    && (exists e :: Copy(e, o, input) && e.data.duration == o.data.duration)
    && (exists e :: Copy(e, o, input) && e.data.distance == o.data.distance)
    && (forall e :: Copy(e, o, input) ==> o.data.duration <= e.data.duration && o.data.distance <= e.data.distance)
  }

  /** An input edge between the same nodes that can be used in the direction `o` stands for. */
  ghost predicate Copy(e: Edge, o: Edge, input: seq<Edge>) {
    e in input && e.source == o.source && e.target == o.target && Directed(e, o.data.forward)
  }

  ghost predicate AllBest(output: seq<Edge>, input: seq<Edge>) {
    forall k :: 0 <= k < |output| ==> BestOf(output[k], input)
  }

  /** The result: least weights, at most one edge for each direction of a pair, least durations and distances. */
  ghost predicate Compact(output: seq<Edge>, input: seq<Edge>) {
    KeepsLeast(output, input) && ParallelFree(output) && Flagged(output) && AllBest(output, input)
  }

  ghost predicate HasWeight(group: seq<Edge>, forward: bool, v: int) {
    exists k :: 0 <= k < |group| && Directed(group[k], forward) && group[k].data.weight == v
  }

  lemma MinimumIsLeast(group: seq<Edge>, forward: bool, w: int)
    requires AllBounded(group)
    ensures AnyDirected(group, forward) && w == Minima(group, forward).weight <==>
            HasWeight(group, forward, w) && forall v :: HasWeight(group, forward, v) ==> w <= v
  {
    MinimaAreLeast(group, forward);
    hide Minima, AllBounded;
    var m := Minima(group, forward);
    if AnyDirected(group, forward) {
      assert HasWeight(group, forward, m.weight);
    }
  }

  lemma GroupWeights(group: seq<Edge>, s: nat, t: nat, w: int)
    requires AllBounded(group) && OnlyBetween(group, s, t)
    ensures LeastForward(group, s, t, w) <==> AnyDirected(group, true) && w == Minima(group, true).weight
    ensures LeastBackward(group, s, t, w) <==> AnyDirected(group, false) && w == Minima(group, false).weight
  {
    MinimumIsLeast(group, true, w);
    MinimumIsLeast(group, false, w);
    forall v
      ensures HasForward(group, s, t, v) <==> HasWeight(group, true, v)
      ensures HasBackward(group, s, t, v) <==> HasWeight(group, false, v)
    {
      HasMeansDirected(group, s, t, v);
    }
    hide HasForward, HasBackward, HasWeight, AnyDirected, Minima, AllBounded;
  }

  lemma HasMeansDirected(group: seq<Edge>, s: nat, t: nat, v: int)
    requires OnlyBetween(group, s, t)
    ensures HasForward(group, s, t, v) <==> HasWeight(group, true, v)
    ensures HasBackward(group, s, t, v) <==> HasWeight(group, false, v)
  {
    if k :| 0 <= k < |group| && Directed(group[k], true) && group[k].data.weight == v {
      assert group[k] in group;
    }
    if k :| 0 <= k < |group| && Directed(group[k], false) && group[k].data.weight == v {
      assert group[k] in group;
    }
  }

  lemma EmittedWeights(group: seq<Edge>, s: nat, t: nat, id: nat, w: int)
    requires AllBounded(group) && OnlyBetween(group, s, t)
    ensures HasForward(Emitted(group, s, t, id), s, t, w) <==> LeastForward(group, s, t, w)
    ensures HasBackward(Emitted(group, s, t, id), s, t, w) <==> LeastBackward(group, s, t, w)
  {
    GroupWeights(group, s, t, w);
    MinimaAreLeast(group, true);
    MinimaAreLeast(group, false);
    hide Minima, LeastForward, LeastBackward, AnyDirected, Attains, BoundsAll, AllBounded;
    var output := Emitted(group, s, t, id);
    assert |output| > 0 ==> output[0] in output;
    assert |output| > 1 ==> output[1] in output;
  }

  lemma EmittedIsBest(group: seq<Edge>, s: nat, t: nat, id: nat, m: Cost, forward: bool, backward: bool)
    requires AllBounded(group) && OnlyBetween(group, s, t) && AnyDirected(group, forward) && m == Minima(group, forward)
    requires HasId(group, id)
    ensures BestOf(Folded(s, t, id, m, forward, backward), group)
  {
    MinimaAreLeast(group, forward);
    hide Minima, AllBounded, AnyDirected;
    var o := Folded(s, t, id, m, forward, backward);
    assert forall k :: 0 <= k < |group| ==> group[k] in group;
    var b :| 0 <= b < |group| && Directed(group[b], forward) && group[b].data.duration == m.duration;
    var c :| 0 <= c < |group| && Directed(group[c], forward) && group[c].data.distance == m.distance;
    assert Copy(group[b], o, group) && Copy(group[c], o, group);
    forall e | Copy(e, o, group) ensures o.data.duration <= e.data.duration && o.data.distance <= e.data.distance {
      var k :| 0 <= k < |group| && group[k] == e;
    }
  }

  lemma EmittedKeepsLeast(group: seq<Edge>, s: nat, t: nat, id: nat)
    requires AllBounded(group) && OnlyBetween(group, s, t) && s != t
    ensures KeepsLeast(Emitted(group, s, t, id), group) && OnlyBetween(Emitted(group, s, t, id), s, t)
  {
    hide Minima, AllBounded;
    var output := Emitted(group, s, t, id);
    assert OnlyBetween(output, s, t);
    hide Emitted;
    forall s': nat, t': nat, w: int
      ensures HasForward(output, s', t', w) <==> s' != t' && LeastForward(group, s', t', w)
      ensures HasBackward(output, s', t', w) <==> s' != t' && LeastBackward(group, s', t', w)
    {
      if s' == s && t' == t {
        EmittedWeights(group, s, t, id, w);
      } else {
        BetweenOthersNothing(output, s, t, s', t', w);
        BetweenOthersNothing(group, s, t, s', t', w);
      }
    }
  }

  ghost predicate HasId(group: seq<Edge>, id: nat) {
    exists k :: 0 <= k < |group| && group[k].data.turnId == id
  }

  lemma EmittedShape(group: seq<Edge>, s: nat, t: nat, id: nat)
    requires s != t
    ensures ParallelFree(Emitted(group, s, t, id)) && Flagged(Emitted(group, s, t, id))
    ensures forall k :: 0 <= k < |Emitted(group, s, t, id)| ==>
              var d := Emitted(group, s, t, id)[k].data;
              && Minima(group, d.forward).weight != INVALID_EDGE_WEIGHT
              && Emitted(group, s, t, id)[k] == Folded(s, t, id, Minima(group, d.forward), d.forward, d.backward)
  {
    hide Minima;
  }

  lemma EmittedIsCompact(group: seq<Edge>, s: nat, t: nat, id: nat)
    requires AllBounded(group) && OnlyBetween(group, s, t) && s != t && HasId(group, id)
    ensures Compact(Emitted(group, s, t, id), group) && OnlyBetween(Emitted(group, s, t, id), s, t)
  {
    EmittedKeepsLeast(group, s, t, id);
    EmittedShape(group, s, t, id);
    hide KeepsLeast, BestOf, ParallelFree, Flagged, Emitted, Minima, AllBounded, AnyDirected, Attains, BoundsAll, HasId;
    hide OnlyBetween;
    var output := Emitted(group, s, t, id);
    forall k | 0 <= k < |output| ensures BestOf(output[k], group) {
      var d := output[k].data;
      MinimaAreLeast(group, d.forward);
      EmittedIsBest(group, s, t, id, Minima(group, d.forward), d.forward, d.backward);
    }
  }

  // ---------- groups in a row ----------

  predicate EndsAtMost(a: Edge, b: Edge) {
    a.source < b.source || (a.source == b.source && a.target <= b.target)
  }

  ghost predicate InEndsOrder(list: seq<Edge>) {
    forall i, j :: 0 <= i < j < |list| ==> EndsAtMost(list[i], list[j])
  }

  /** Past `i` no pair of different nodes of the first `i` edges comes again. */
  ghost predicate Boundary(list: seq<Edge>, i: nat) {
    i <= |list|
    && forall a, b ::
      0 <= a < i <= b < |list| && list[a].source == list[b].source && list[a].target == list[b].target ==>
      list[a].source == list[a].target
  }

  lemma BestInLonger(o: Edge, before: seq<Edge>, group: seq<Edge>)
    requires BestOf(o, before)
             && forall k :: 0 <= k < |group| ==> group[k].source != o.source || group[k].target != o.target
    ensures BestOf(o, before + group) && BestOf(o, group + before)
  {
    forall e ensures Copy(e, o, before + group) <==> Copy(e, o, before)
             ensures Copy(e, o, group + before) <==> Copy(e, o, before)
    {
      assert e in before + group <==> e in before || e in group;
    }
    var e :| e in before && e.source == o.source && e.target == o.target && e.data.turnId == o.data.turnId;
    assert e in before + group && e in group + before;
    var d :| Copy(d, o, before) && d.data.duration == o.data.duration;
    assert Copy(d, o, before + group) && Copy(d, o, group + before);
    var x :| Copy(x, o, before) && x.data.distance == o.data.distance;
    assert Copy(x, o, before + group) && Copy(x, o, group + before);
  }

  lemma OutputEnds(output: seq<Edge>, input: seq<Edge>, k: nat)
    requires AllBest(output, input) && k < |output|
    ensures exists j :: 0 <= j < |input| && input[j].source == output[k].source && input[j].target == output[k].target
  {
    assert BestOf(output[k], input);
    var e :| e in input && e.source == output[k].source && e.target == output[k].target
             && e.data.turnId == output[k].data.turnId;
    var j :| 0 <= j < |input| && input[j] == e;
  }

  /** Results of groups with different ends add up. */
  lemma CompactConcat(output: seq<Edge>, input: seq<Edge>, output': seq<Edge>, group: seq<Edge>, s: nat, t: nat)
    requires Compact(output, input) && Compact(output', group) && DifferentEnds(input, group)
    requires OnlyBetween(group, s, t) && OnlyBetween(output', s, t) && group != []
    ensures Compact(output + output', input + group)
  {
    forall k | 0 <= k < |output| ensures output[k].source != s || output[k].target != t {
      OutputEnds(output, input, k);
      assert group[0].source == s && group[0].target == t;
    }
    forall a: nat, b: nat, w: int
      ensures HasForward(output + output', a, b, w) <==> a != b && LeastForward(input + group, a, b, w)
      ensures HasBackward(output + output', a, b, w) <==> a != b && LeastBackward(input + group, a, b, w)
    {
      HasInConcat(output, output', a, b, w);
      LeastInConcat(input, group, a, b, w);
      hide LeastForward, LeastBackward;
      assert HasForward(output, a, b, w) <==> a != b && LeastForward(input, a, b, w);
      assert HasForward(output', a, b, w) <==> a != b && LeastForward(group, a, b, w);
    }
    hide KeepsLeast, BestOf;
    var all := output + output';
    forall k | 0 <= k < |all| ensures BestOf(all[k], input + group) {
      if k < |output| {
        BestInLonger(output[k], input, group);
      } else {
        assert output'[k - |output|] == all[k];
        assert all[k].source == s && all[k].target == t;
        assert forall j :: 0 <= j < |input| ==> input[j].source != s || input[j].target != t by {
          assert group[0].source == s && group[0].target == t;
        }
        BestInLonger(all[k], group, input);
      }
    }
  }

  /** A loop contributes nothing. */
  lemma CompactSkipsLoop(output: seq<Edge>, input: seq<Edge>, loop: Edge)
    requires Compact(output, input) && loop.source == loop.target
    ensures Compact(output, input + [loop])
  {
    forall a: nat, b: nat, w: int | a != b
      ensures LeastForward(input + [loop], a, b, w) <==> LeastForward(input, a, b, w)
      ensures LeastBackward(input + [loop], a, b, w) <==> LeastBackward(input, a, b, w)
    {
      forall v: int
        ensures HasForward(input + [loop], a, b, v) <==> HasForward(input, a, b, v)
        ensures HasBackward(input + [loop], a, b, v) <==> HasBackward(input, a, b, v)
      {
        HasInConcat(input, [loop], a, b, v);
        BetweenOthersNothing([loop], loop.source, loop.source, a, b, v);
      }
    }
    hide LeastForward, LeastBackward, HasForward, HasBackward, BestOf;
    forall k | 0 <= k < |output| ensures BestOf(output[k], input + [loop]) {
      BestInLonger(output[k], input, [loop]);
    }
  }

  // ---------- the two-index loop ----------

  /** Accumulates the minima of the group that starts at `i`. */
  method ScanGroup(edges: array<Edge>, i: nat) returns (end: nat, f: Cost, r: Cost)
    requires i < edges.Length
    ensures i < end <= edges.Length && OnlyBetween(edges[i..end], edges[i].source, edges[i].target)
    ensures end < edges.Length ==> edges[end].source != edges[i].source || edges[end].target != edges[i].target
    ensures f == Minima(edges[i..end], true) && r == Minima(edges[i..end], false)
  {
    var source, target := edges[i].source, edges[i].target;
    end, f, r := i, NOTHING, NOTHING;
    while end < edges.Length && edges[end].source == source && edges[end].target == target
      invariant i <= end <= edges.Length && (end > i || (edges[i].source == source && edges[i].target == target))
      invariant OnlyBetween(edges[i..end], source, target)
      invariant f == Minima(edges[i..end], true) && r == Minima(edges[i..end], false)
    {
      assert edges[i..end + 1] == edges[i..end] + [edges[end]] && edges[i..end + 1][..end - i] == edges[i..end];
      if edges[end].data.forward {
        f := Lower(f, edges[end].data);
      }
      if edges[end].data.backward {
        r := Lower(r, edges[end].data);
      }
      end := end + 1;
    }
  }

  /** Writes what a group leaves behind at `edge`, which must not be past the group. */
  method WriteGroup(edges: array<Edge>, edge: nat, end: nat, s: nat, t: nat, id: nat, f: Cost, r: Cost,
                    ghost group: seq<Edge>)
    returns (next: nat)
    requires f == Minima(group, true) && r == Minima(group, false)
    requires edge + |Emitted(group, s, t, id)| <= end <= edges.Length
    modifies edges
    ensures next == edge + |Emitted(group, s, t, id)|
    ensures edges[..next] == old(edges[..edge]) + Emitted(group, s, t, id)
    ensures edges[end..] == old(edges[end..])
  {
    hide Minima;
    next := edge;
    if f.weight == r.weight {
      if f.weight != INVALID_EDGE_WEIGHT {
        edges[next] := Folded(s, t, id, f, true, true);
        next := next + 1;
      }
    } else {
      if f.weight != INVALID_EDGE_WEIGHT {
        edges[next] := Folded(s, t, id, f, true, false);
        next := next + 1;
      }
      if r.weight != INVALID_EDGE_WEIGHT {
        edges[next] := Folded(s, t, id, r, false, true);
        next := next + 1;
      }
    }
  }

  lemma NextGroup(list: seq<Edge>, i: nat, end: nat)
    requires InEndsOrder(list) && Boundary(list, i) && i < end <= |list| && list[i].source != list[i].target
    requires OnlyBetween(list[i..end], list[i].source, list[i].target)
    requires end < |list| ==> list[end].source != list[i].source || list[end].target != list[i].target
    ensures Boundary(list, end) && DifferentEnds(list[..i], list[i..end])
  {
    forall a | i <= a < end ensures list[a].source == list[i].source && list[a].target == list[i].target {
      assert list[i..end][a - i] == list[a];
    }
    forall b | end <= b < |list| ensures list[b].source != list[i].source || list[b].target != list[i].target {
      assert EndsAtMost(list[i], list[end]) && (end < b ==> EndsAtMost(list[end], list[b]));
    }
    forall a, b | 0 <= a < i && 0 <= b < end - i
      ensures list[..i][a].source != list[i..end][b].source || list[..i][a].target != list[i..end][b].target
    {
      assert list[i..end][b] == list[i + b];
    }
  }

  /** One group read, folded and written. */
  lemma GroupStep(output: seq<Edge>, list: seq<Edge>, i: nat, end: nat)
    requires i < end <= |list| && Compact(output, list[..i]) && DifferentEnds(list[..i], list[i..end])
             && AllBounded(list)
    requires list[i].source != list[i].target && OnlyBetween(list[i..end], list[i].source, list[i].target)
    ensures Compact(output + Emitted(list[i..end], list[i].source, list[i].target, list[i].data.turnId), list[..end])
  {
    var s, t, id, group := list[i].source, list[i].target, list[i].data.turnId, list[i..end];
    assert group[0] == list[i] && HasId(group, id) && AllBounded(group);
    EmittedIsCompact(group, s, t, id);
    hide Compact, Emitted, DifferentEnds, OnlyBetween, AllBounded;
    CompactConcat(output, list[..i], Emitted(group, s, t, id), group, s, t);
    assert list[..i] + group == list[..end];
  }

  /**
   The compaction loop. The write index stays behind the read index, so nothing is
   overwritten before it has been read, and the surviving prefix is compact.
   */
  method CompactInPlace(edges: array<Edge>) returns (edge: nat)
    requires InEndsOrder(edges[..]) && AllBounded(edges[..])
    modifies edges
    ensures edge <= edges.Length && Compact(edges[..edge], old(edges[..]))
  {
    hide Compact, Minima, Emitted, AllBounded, InEndsOrder, DifferentEnds, OnlyBetween;
    ghost var was := edges[..];
    var i := 0;
    edge := 0;
    NothingIsCompact();
    assert was[..0] == [];
    while i < edges.Length
      invariant edge <= i <= edges.Length && edges[i..] == was[i..]
      invariant Boundary(was, i) && Compact(edges[..edge], was[..i])
    {
      assert edges[i] == edges[i..][0] == was[i];
      var source, target, id := edges[i].source, edges[i].target, edges[i].data.turnId;
      if source == target {
        CompactSkipsLoop(edges[..edge], was[..i], was[i]);
        assert was[..i] + [was[i]] == was[..i + 1];
        i := i + 1;
        assert edges[i..] == was[i..];
      } else {
        var end, f, r := ScanGroup(edges, i);
        assert edges[i..end] == was[i..end] by { SameSlice(edges[..], was, i, end); }
        assert end < edges.Length ==> edges[end] == edges[i..][end - i] == was[end];
        NextGroup(was, i, end);
        GroupStep(edges[..edge], was, i, end);
        EmittedFits(was[i..end], source, target, id);
        ghost var before := edges[..];
        edge := WriteGroup(edges, edge, end, source, target, id, f, r, was[i..end]);
        assert edges[end..] == before[end..] == was[end..] by { SameTail(before, was, i, end); }
        i := end;
      }
    }
    assert was[..i] == was;
  }

  lemma SameSlice(a: seq<Edge>, b: seq<Edge>, i: nat, end: nat)
    requires i <= end <= |a| == |b| && a[i..] == b[i..]
    ensures a[i..end] == b[i..end]
  {
    assert a[i..end] == a[i..][..end - i] && b[i..end] == b[i..][..end - i];
  }

  lemma SameTail(a: seq<Edge>, b: seq<Edge>, i: nat, end: nat)
    requires i <= end <= |a| == |b| && a[i..] == b[i..]
    ensures a[end..] == b[end..]
  {
    assert a[end..] == a[i..][end - i..] && b[end..] == b[i..][end - i..];
  }

  lemma NothingIsCompact()
    ensures Compact([], [])
  {
  }

  // ---------- the whole adaptor ----------

  lemma CompactOfSameEdges(output: seq<Edge>, a: seq<Edge>, b: seq<Edge>)
    requires Compact(output, a) && forall e :: e in a <==> e in b
    ensures Compact(output, b)
  {
    forall s: nat, t: nat, w: int
      ensures HasForward(a, s, t, w) <==> HasForward(b, s, t, w)
      ensures HasBackward(a, s, t, w) <==> HasBackward(b, s, t, w)
    {
    }
    hide HasForward, HasBackward;
    forall k | 0 <= k < |output| ensures BestOf(output[k], b) {
      assert BestOf(output[k], a);
      assert forall e :: Copy(e, output[k], a) <==> Copy(e, output[k], b);
    }
  }

  lemma EndsOrderIsTotal()
    ensures Sorting.Total((a, b) => EndsAtMost(a, b))
  {
  }

  ghost predicate Fits32Bits(e: Edge) {
    e.data.weight <= INVALID_EDGE_WEIGHT && e.data.duration <= MAXIMAL_EDGE_DURATION
    && e.data.distance <= INVALID_EDGE_DISTANCE
  }

  lemma SplitIsBounded(directed: seq<Edge>, input: seq<Edge>)
    requires IsSplitOf(directed, input) && forall e :: e in input ==> Fits32Bits(e)
    ensures forall d :: d in directed ==> Bounded(d)
  {
    forall d | d in directed ensures Bounded(d) {
      assert FromSplit(input, d);
      var e :| e in input && SplitOf(e, d);
    }
  }

  /** `toContractorGraph` up to the graph constructor. */
  method ToContractorGraph(input: seq<Edge>) returns (output: seq<Edge>, ghost directed: seq<Edge>)
    requires forall e :: e in input ==> Fits32Bits(e)
    ensures IsSplitOf(directed, input) && Compact(output, directed)
    ensures ParallelFree(output) && Flagged(output)
    ensures forall s: nat, t: nat, w: int :: HasForward(output, s, t, w) <==> s != t && LeastOffer(input, s, t, w)
    ensures forall s: nat, t: nat, w: int :: HasBackward(output, t, s, w) <==> s != t && LeastOffer(input, s, t, w)
  {
    var split := SplitBidirectionalEdges(input);
    directed := split;
    SplitIsBounded(split, input);
    hide IsSplitOf, Compact, Bounded, Fits32Bits;
    EndsOrderIsTotal();
    hide Sorting.Total;
    var sorted := Sorting.Sort(split, (a, b) => EndsAtMost(a, b));
    forall e ensures e in sorted <==> e in split {
      Sorting.SameMembers(sorted, split, e);
    }
    assert forall k :: 0 <= k < |sorted| ==> sorted[k] in sorted;
    var edges := new Edge[|sorted|](k requires 0 <= k < |sorted| => sorted[k]);
    assert edges[..] == sorted;
    var edge := CompactInPlace(edges);
    output := edges[..edge];
    CompactOfSameEdges(output, sorted, split);
    CompactShape(output, split);
    hide HasForward, HasBackward, LeastOffer;
    forall s: nat, t: nat, w: int
      ensures HasForward(output, s, t, w) <==> s != t && LeastOffer(input, s, t, w)
      ensures HasBackward(output, t, s, w) <==> s != t && LeastOffer(input, s, t, w)
    {
      ContractorKeepsCosts(output, directed, input, s, t, w);
    }
  }

  lemma CompactShape(output: seq<Edge>, input: seq<Edge>)
    requires Compact(output, input)
    ensures ParallelFree(output) && Flagged(output)
  {
  }

  /** For every pair of nodes the contractor's graph offers exactly the least usable input weight, in both
      directions. */
  lemma ContractorKeepsCosts(output: seq<Edge>, directed: seq<Edge>, input: seq<Edge>, s: nat, t: nat, w: int)
    requires IsSplitOf(directed, input) && Compact(output, directed)
    ensures HasForward(output, s, t, w) <==> s != t && LeastOffer(input, s, t, w)
    ensures HasBackward(output, t, s, w) <==> s != t && LeastOffer(input, s, t, w)
  {
    hide IsSplitOf, KeepsLeast;
    LeastIsOffered(output, directed, input, s, t, w);
  }

  /** Contraction and the multi-level partition start from graphs with the same weights. */
  lemma BothLoadersAgree(contractor: seq<Edge>, directed: seq<Edge>, partitioner: seq<Edge>, directed': seq<Edge>,
                         input: seq<Edge>, s: nat, t: nat, w: int)
    requires IsSplitOf(directed, input) && Compact(contractor, directed)
    requires IsSplitOf(directed', input) && Normal(partitioner, directed')
    ensures HasForward(contractor, s, t, w) <==> HasForward(partitioner, s, t, w)
    ensures HasBackward(contractor, s, t, w) <==> HasBackward(partitioner, s, t, w)
  {
    hide IsSplitOf, Compact, Normal;
    ContractorKeepsCosts(contractor, directed, input, s, t, w);
    ContractorKeepsCosts(contractor, directed, input, t, s, w);
    LoadingKeepsCosts(partitioner, directed', input, s, t, w);
    LoadingKeepsCosts(partitioner, directed', input, t, s, w);
  }

  // ---------- when a stored edge is one of the parallel edges ----------

  predicate SameValues(e: Edge, o: Edge) {
    e.data.weight == o.data.weight && e.data.duration == o.data.duration && e.data.distance == o.data.distance
  }

  /** A copy that is least in weight, duration and distance at once. */
  ghost predicate LeastInAll(e: Edge, o: Edge, input: seq<Edge>) {
    && Copy(e, o, input)
    && forall x :: Copy(x, o, input) ==>
         e.data.weight <= x.data.weight && e.data.duration <= x.data.duration && e.data.distance <= x.data.distance
  }

  /**
   A stored edge has the three values of one of the parallel edges if and only if one of them
   is least in all three at once; otherwise it mixes values of several.
   */
  lemma StoredEdgeIsACopyIff(output: seq<Edge>, input: seq<Edge>, o: Edge)
    requires Compact(output, input) && o in output
    ensures (exists e :: Copy(e, o, input) && SameValues(e, o)) <==> (exists e :: LeastInAll(e, o, input))
  {
    var k :| 0 <= k < |output| && output[k] == o;
    assert BestOf(o, input);
    StoredWeightIsLeast(output, input, o);
    hide Compact, KeepsLeast;
    if e :| Copy(e, o, input) && SameValues(e, o) {
      assert LeastInAll(e, o, input);
    }
    if e :| LeastInAll(e, o, input) {
      var d :| Copy(d, o, input) && d.data.duration == o.data.duration;
      var x :| Copy(x, o, input) && x.data.distance == o.data.distance;
      var w :| Copy(w, o, input) && w.data.weight == o.data.weight;
      assert Copy(e, o, input) && SameValues(e, o);
    }
  }

  /** The stored weight is attained and least among the copies. */
  lemma StoredWeightIsLeast(output: seq<Edge>, input: seq<Edge>, o: Edge)
    requires Compact(output, input) && o in output
    ensures exists e :: Copy(e, o, input) && e.data.weight == o.data.weight
    ensures forall e :: Copy(e, o, input) ==> o.data.weight <= e.data.weight
  {
    var k :| 0 <= k < |output| && output[k] == o;
    var s, t, w := o.source, o.target, o.data.weight;
    if o.data.forward {
      assert HasForward(output, s, t, w);
      assert LeastForward(input, s, t, w);
      forall e | Copy(e, o, input) ensures w <= e.data.weight {
        assert HasForward(input, s, t, e.data.weight);
      }
      var e :| e in input && e.source == s && e.target == t && e.data.forward && e.data.weight == w;
      assert Copy(e, o, input);
    } else {
      assert HasBackward(output, s, t, w);
      assert LeastBackward(input, s, t, w);
      forall e | Copy(e, o, input) ensures w <= e.data.weight {
        assert HasBackward(input, s, t, e.data.weight);
      }
      var e :| e in input && e.source == s && e.target == t && e.data.backward && e.data.weight == w;
      assert Copy(e, o, input);
    }
  }

  /** Two parallel edges from which every result stores an edge that is neither. */
  lemma MinimaMixEdges(s: nat, t: nat, id: nat, input: seq<Edge>, directed: seq<Edge>, output: seq<Edge>)
    requires s != t
    requires input
               == [Edge(s, t, EdgeData(id, 1, 9, 9.0, true, false)), Edge(s, t, EdgeData(id, 2, 3, 3.0, true, false))]
    requires IsSplitOf(directed, input) && Compact(output, directed)
    ensures exists o :: o in output && o.source == s && o.target == t && o.data.forward
                        && forall e :: Copy(e, o, directed) ==> !SameValues(e, o)
  {
    hide IsSplitOf, KeepsLeast, LeastOffer, ParallelFree, Flagged, HasBackward, BestOf, AllBest;
    TwoOffers(input, s, t);
    TwoCopies(input, directed, s, t);
    LeastIsOffered(output, directed, input, s, t, 1);
    var o :| o in output && o.source == s && o.target == t && o.data.forward && o.data.weight == 1;
    ShorterDuration(output, directed, o, input[1]);
    assert forall e :: Copy(e, o, directed) ==> !SameValues(e, o);
  }

  /** A stored edge takes no longer than any of its copies. */
  lemma ShorterDuration(output: seq<Edge>, input: seq<Edge>, o: Edge, e: Edge)
    requires Compact(output, input) && o in output && Copy(e, o, input)
    ensures o.data.duration <= e.data.duration
  {
    var k :| 0 <= k < |output| && output[k] == o;
    assert BestOf(o, input);
  }

  lemma TwoCopies(input: seq<Edge>, directed: seq<Edge>, s: nat, t: nat)
    requires s != t && |input| == 2 && IsSplitOf(directed, input)
    requires forall k ::
               0 <= k < 2 ==>
                 input[k].source == s && input[k].target == t && input[k].data.forward && !input[k].data.backward
    requires input[0].data.weight == 1 && input[1].data.weight == 2
    ensures input[0] in directed && input[1] in directed
    ensures forall e ::
              e in directed && e.source == s && e.target == t && e.data.forward ==> e == input[0] || e == input[1]
  {
    var a, b := input[0], input[1];
    assert a in input && b in input && Kept(a) == a && Kept(b) == b;
    assert SplitOf(a, a) && SplitOf(b, b);
    assert FromSplit(input, a) && FromSplit(input, b);
    forall e | e in directed && e.source == s && e.target == t && e.data.forward ensures e == a || e == b {
      assert FromSplit(input, e);
      var x :| x in input && SplitOf(x, e);
    }
  }

  lemma TwoOffers(input: seq<Edge>, s: nat, t: nat)
    requires s != t && |input| == 2
    requires forall k ::
               0 <= k < 2 ==>
                 input[k].source == s && input[k].target == t && input[k].data.forward && !input[k].data.backward
    requires input[0].data.weight == 1 && input[1].data.weight == 2
    ensures LeastOffer(input, s, t, 1)
  {
    assert input[0] in input && OffersBy(input[0], s, t, 1);
  }
}
