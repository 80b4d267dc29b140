/**
 Walks over the edges on file, where an edge may be given in either direction, repeated, or a
 loop. The weights of the loaded graph are the weights of these walks.
 */
module FileWalks {
  import opened RoadGraph
  import opened EdgeNormalisation
  import opened OverlayNetwork
  import opened Routes

  datatype Hop = Hop(from: nat, to: nat, weight: int)

  /** Which hops there are, by their ends and weight. */
  type Arcs = (nat, nat, int) -> bool

  ghost predicate HopWalk(arcs: Arcs, region: set<nat>, u: nat, v: nat, hops: seq<Hop>)
    decreases |hops|
  {
    && v in region
    && if hops == [] then u == v
       else
         var h := hops[|hops| - 1];
         && arcs(h.from, h.to, h.weight) && h.to == v
         && HopWalk(arcs, region, u, h.from, hops[..|hops| - 1])
  }

  ghost function Weight(hops: seq<Hop>): int {
    if hops == [] then 0 else Weight(hops[..|hops| - 1]) + hops[|hops| - 1].weight
  }

  ghost predicate WalkOfWeight(arcs: Arcs, region: set<nat>, u: nat, v: nat, hops: seq<Hop>, w: int) {
    HopWalk(arcs, region, u, v, hops) && Weight(hops) == w
  }

  /** The least weight of a walk inside the region, or nothing when there is no walk. */
  ghost predicate LeastWeight(arcs: Arcs, region: set<nat>, u: nat, v: nat, slot: Option<int>) {
    match slot
    case Some(w) =>
      && (exists hops :: WalkOfWeight(arcs, region, u, v, hops, w))
      && (forall hops :: HopWalk(arcs, region, u, v, hops) ==> w <= Weight(hops))
    case None => forall hops :: !HopWalk(arcs, region, u, v, hops)
  }

  // ---------- walks over other arcs, between other numbers ----------

  /** Every arc of `a` inside the region has one of `b` that is not dearer, unless it is a loop there. */
  ghost predicate NoDearer(a: Arcs, b: Arcs, f: nat -> nat, region: set<nat>) {
    forall s: nat, t: nat, w: int ::
      s in region && t in region && a(s, t, w) ==> w >= 0 && (f(s) == f(t) || HasArc(b, f(s), f(t), w))
  }

  ghost predicate HasArc(b: Arcs, s: nat, t: nat, bound: int) {
    exists w :: w <= bound && b(s, t, w)
  }

  lemma {:induction false} HopWalkEnds(arcs: Arcs, region: set<nat>, u: nat, v: nat, hops: seq<Hop>)
    requires HopWalk(arcs, region, u, v, hops)
    ensures u in region && v in region
    decreases |hops|
  {
    if hops != [] {
      HopWalkEnds(arcs, region, u, hops[|hops| - 1].from, hops[..|hops| - 1]);
    }
  }

  lemma {:induction false} Transfer(a: Arcs, b: Arcs, f: nat -> nat, region: set<nat>, other: set<nat>, u: nat, v: nat,
                                    hops: seq<Hop>)
    returns (r: seq<Hop>)
    requires NoDearer(a, b, f, region) && (forall x :: x in region ==> f(x) in other)
    requires HopWalk(a, region, u, v, hops)
    ensures HopWalk(b, other, f(u), f(v), r) && Weight(r) <= Weight(hops)
    decreases |hops|
  {
    HopWalkEnds(a, region, u, v, hops);
    if hops == [] {
      r := [];
    } else {
      var h := hops[|hops| - 1];
      HopWalkEnds(a, region, u, h.from, hops[..|hops| - 1]);
      r := Transfer(a, b, f, region, other, u, h.from, hops[..|hops| - 1]);
      if f(h.from) != f(h.to) {
        assert HasArc(b, f(h.from), f(h.to), h.weight);
        var w :| w <= h.weight && b(f(h.from), f(h.to), w);
        ghost var init := r;
        r := r + [Hop(f(h.from), f(h.to), w)];
        assert r[..|r| - 1] == init;
      }
    }
  }

  /** Arcs that are no dearer in either direction have the same least weights. */
  lemma SameLeastWeight(a: Arcs, b: Arcs, f: nat -> nat, g: nat -> nat, region: set<nat>, other: set<nat>, u: nat,
                        v: nat, slot: Option<int>)
    requires NoDearer(a, b, f, region) && NoDearer(b, a, g, other)
    requires (forall x :: x in region ==> f(x) in other) && (forall x :: x in other ==> g(x) in region)
    requires g(f(u)) == u && g(f(v)) == v && LeastWeight(b, other, f(u), f(v), slot)
    ensures LeastWeight(a, region, u, v, slot)
  {
    hide NoDearer, HopWalk, Weight;
    forall hops | HopWalk(a, region, u, v, hops) ensures slot.Some? && slot.value <= Weight(hops) {
      var r := Transfer(a, b, f, region, other, u, v, hops);
    }
    if slot.Some? {
      var hops :| WalkOfWeight(b, other, f(u), f(v), hops, slot.value);
      var r := Transfer(b, a, g, other, region, f(u), f(v), hops);
      assert WalkOfWeight(a, region, u, v, r, slot.value);
    }
  }

  // ---------- the stored graph ----------

  ghost function StoredArcs(output: seq<Edge>): Arcs {
    (s: nat, t: nat, w: int) => HasForward(output, s, t, w)
  }

  function WeightOf(slot: Option<Cost>): Option<int> {
    match slot
    case None => None
    case Some(c) => Some(c.weight)
  }

  lemma {:induction false} WalkIsHopWalk(output: seq<Edge>, region: set<nat>, u: nat, v: nat, path: seq<Edge>)
    returns (hops: seq<Hop>)
    requires Walk(output, region, u, v, path)
    ensures WalkOfWeight(StoredArcs(output), region, u, v, hops, PathCost(path).weight)
    decreases |path|
  {
    if path == [] {
      hops := [];
    } else {
      var e := path[|path| - 1];
      var init := WalkIsHopWalk(output, region, u, e.source, path[..|path| - 1]);
      assert HasForward(output, e.source, e.target, e.data.weight);
      hops := init + [Hop(e.source, e.target, e.data.weight)];
      assert hops[..|hops| - 1] == init;
    }
  }

  lemma {:induction false} HopWalkIsWalk(output: seq<Edge>, region: set<nat>, u: nat, v: nat, hops: seq<Hop>)
    returns (path: seq<Edge>)
    requires HopWalk(StoredArcs(output), region, u, v, hops)
    ensures Walk(output, region, u, v, path) && PathCost(path).weight == Weight(hops)
    decreases |hops|
  {
    if hops == [] {
      path := [];
    } else {
      var h := hops[|hops| - 1];
      var init := HopWalkIsWalk(output, region, u, h.from, hops[..|hops| - 1]);
      assert HasForward(output, h.from, h.to, h.weight);
      var e :| e in output && e.source == h.from && e.target == h.to && e.data.forward && e.data.weight == h.weight;
      path := init + [e];
      assert path[..|path| - 1] == init;
    }
  }

  lemma ExactIsLeastWeight(output: seq<Edge>, region: set<nat>, u: nat, v: nat, slot: Option<Cost>)
    requires Exact(output, region, u, v, slot)
    ensures LeastWeight(StoredArcs(output), region, u, v, WeightOf(slot))
  {
    hide Walk, PathCost, HopWalk, Weight;
    forall hops | HopWalk(StoredArcs(output), region, u, v, hops)
      ensures slot.Some? && slot.value.weight <= Weight(hops)
    {
      var path := HopWalkIsWalk(output, region, u, v, hops);
    }
    if slot.Some? {
      var path :| WalkOfCost(output, region, u, v, path, slot.value);
      var hops := WalkIsHopWalk(output, region, u, v, path);
    }
  }

  // ---------- the edges on file ----------

  ghost function FileArcs(edges: seq<Edge>): Arcs {
    (s: nat, t: nat, w: int) => Offers(edges, s, t, w)
  }

  lemma {:induction false} LeastOfferExists(edges: seq<Edge>, s: nat, t: nat, w: int) returns (least: int)
    requires Offers(edges, s, t, w)
    ensures w >= 1 && least <= w && LeastOffer(edges, s, t, least)
    decreases w
  {
    OfferIsPositive(edges, s, t, w);
    if v :| v < w && Offers(edges, s, t, v) {
      least := LeastOfferExists(edges, s, t, v);
    } else {
      least := w;
    }
  }

  lemma OfferIsPositive(edges: seq<Edge>, s: nat, t: nat, w: int)
    requires Offers(edges, s, t, w)
    ensures w >= 1
  {
  }

  /** The stored graph is no dearer than the file, and the file no dearer than the stored graph. */
  lemma LoadedIsNoDearer(output: seq<Edge>, directed: seq<Edge>, edges: seq<Edge>, region: set<nat>)
    requires IsSplitOf(directed, edges) && Normal(output, directed)
    ensures NoDearer(FileArcs(edges), StoredArcs(output), x => x, region)
    ensures NoDearer(StoredArcs(output), FileArcs(edges), x => x, region)
  {
    hide IsSplitOf, Normal, LeastOffer, HasForward, Offers;
    forall s: nat, t: nat, w: int | Offers(edges, s, t, w)
      ensures w >= 0 && (s == t || HasArc(StoredArcs(output), s, t, w))
    {
      var least := LeastOfferExists(edges, s, t, w);
      LoadingKeepsCosts(output, directed, edges, s, t, least);
      assert s != t ==> StoredArcs(output)(s, t, least);
    }
    forall s: nat, t: nat, w: int | HasForward(output, s, t, w) ensures w >= 0 && HasArc(FileArcs(edges), s, t, w) {
      LoadingKeepsCosts(output, directed, edges, s, t, w);
      LeastIsAnOffer(edges, s, t, w);
      OfferIsPositive(edges, s, t, w);
      assert FileArcs(edges)(s, t, w);
    }
  }

  lemma LeastIsAnOffer(edges: seq<Edge>, s: nat, t: nat, w: int)
    requires LeastOffer(edges, s, t, w)
    ensures Offers(edges, s, t, w)
  {
  }

  /** An exact slot of the loaded graph holds the least weight of a walk over the edges on file. */
  lemma LoadedSlotIsLeastOnFile(output: seq<Edge>, directed: seq<Edge>, edges: seq<Edge>, region: set<nat>, u: nat,
                                v: nat, slot: Option<Cost>)
    requires IsSplitOf(directed, edges) && Normal(output, directed) && Exact(output, region, u, v, slot)
    ensures LeastWeight(FileArcs(edges), region, u, v, WeightOf(slot))
  {
    hide IsSplitOf, Normal, NoDearer, Exact, LeastWeight, FileArcs, StoredArcs;
    ExactIsLeastWeight(output, region, u, v, slot);
    LoadedIsNoDearer(output, directed, edges, region);
    SameLeastWeight(FileArcs(edges), StoredArcs(output), x => x, x => x, region, region, u, v, WeightOf(slot));
  }

  // ---------- drives ----------

  /** Edge `i` of the path leads from node `i` to node `i + 1`, in a direction in which it is open. */
  ghost predicate Drive(edges: seq<Edge>, u: nat, v: nat, nodes: seq<nat>, path: seq<Edge>) {
    && |nodes| == |path| + 1 && nodes[0] == u && nodes[|path|] == v
    && forall i :: 0 <= i < |path| ==> path[i] in edges && Passable(path[i], nodes[i], nodes[i + 1])
  }

  /** The sum of the weights, each of them at least 1. */
  ghost function RaisedTotal(path: seq<Edge>): int {
    if path == [] then 0
    else
      var w := path[|path| - 1].data.weight;
      RaisedTotal(path[..|path| - 1]) + (if w < 1 then 1 else w)
  }

  ghost predicate DriveIn(edges: seq<Edge>, cells: seq<nat>, allowed: seq<bool>, c: nat, u: nat, v: nat,
                          nodes: seq<nat>, path: seq<Edge>) {
    Drive(edges, u, v, nodes, path) && StaysIn(nodes, cells, allowed, c)
  }

  ghost predicate HasDriveTotals(path: seq<Edge>, weight: int, duration: int, distance: real) {
    RaisedTotal(path) == weight && DurationTotal(path) == duration && DistanceTotal(path) == distance
  }

  /** The answer is for a drive inside the cell of least weight, with its duration and distance; there is none if and
      only if there is no such drive. */
  ghost predicate LeastDrive(edges: seq<Edge>, cells: seq<nat>, allowed: seq<bool>, c: nat, u: nat, v: nat,
                             answer: Option<Cost>) {
    match answer
    case None => forall nodes, path :: !DriveIn(edges, cells, allowed, c, u, v, nodes, path)
    case Some(x) =>
      && (exists nodes, path :: DriveIn(edges, cells, allowed, c, u, v, nodes, path)
                                && HasDriveTotals(path, x.weight, x.duration, x.distance))
      && (forall nodes, path ::
            DriveIn(edges, cells, allowed, c, u, v, nodes, path) ==> x.weight <= RaisedTotal(path))
  }

  lemma {:induction false} DriveIsHopWalk(edges: seq<Edge>, region: set<nat>, u: nat, v: nat, nodes: seq<nat>,
                                          path: seq<Edge>)
    returns (hops: seq<Hop>)
    requires Drive(edges, u, v, nodes, path) && AllIn(nodes, region)
    ensures HopWalk(FileArcs(edges), region, u, v, hops) && Weight(hops) == RaisedTotal(path)
    decreases |path|
  {
    hide Drive, AllIn, Passable, RaisedTotal;
    if path == [] {
      EmptyDrive(edges, region, u, v, nodes);
      hops := [];
    } else {
      var n := |path| - 1;
      DrivePrefix(edges, region, u, v, nodes, path);
      TotalsGrow(path);
      var init := DriveIsHopWalk(edges, region, u, nodes[n], nodes[..n + 1], path[..n]);
      var w := if path[n].data.weight < 1 then 1 else path[n].data.weight;
      assert OffersBy(path[n], nodes[n], v, w) && Offers(edges, nodes[n], v, w);
      hops := init + [Hop(nodes[n], v, w)];
      assert hops[..|hops| - 1] == init;
    }
  }

  lemma DrivePrefix(edges: seq<Edge>, region: set<nat>, u: nat, v: nat, nodes: seq<nat>, path: seq<Edge>)
    requires Drive(edges, u, v, nodes, path) && AllIn(nodes, region) && path != []
    ensures var n := |path| - 1;
            && |nodes| == n + 2 && Drive(edges, u, nodes[n], nodes[..n + 1], path[..n]) && AllIn(nodes[..n + 1], region)
            && path[n] in edges && Passable(path[n], nodes[n], v) && v in region
  {
    hide Passable;
    var n := |path| - 1;
    forall i | 0 <= i < n
      ensures path[..n][i] in edges && Passable(path[..n][i], nodes[..n + 1][i], nodes[..n + 1][i + 1])
    {
    }
  }

  lemma EmptyDrive(edges: seq<Edge>, region: set<nat>, u: nat, v: nat, nodes: seq<nat>)
    ensures Drive(edges, u, v, nodes, []) && AllIn(nodes, region) ==> u == v && u in region
    ensures u in region ==> Drive(edges, u, u, [u], []) && AllIn([u], region)
    ensures RaisedTotal([]) == 0 && DurationTotal([]) == 0 && DistanceTotal([]) == 0.0
  {
  }

  /** One more edge on a drive. */
  lemma DriveGrows(edges: seq<Edge>, region: set<nat>, u: nat, v: nat, nodes: seq<nat>, path: seq<Edge>, e: Edge,
                   w: nat)
    requires Drive(edges, u, v, nodes, path) && AllIn(nodes, region) && e in edges && Passable(e, v, w) && w in region
    ensures Drive(edges, u, w, nodes + [w], path + [e]) && AllIn(nodes + [w], region)
    ensures RaisedTotal(path + [e]) == RaisedTotal(path) + (if e.data.weight < 1 then 1 else e.data.weight)
    ensures DurationTotal(path + [e]) == DurationTotal(path) + e.data.duration
    ensures DistanceTotal(path + [e]) == DistanceTotal(path) + e.data.distance
  {
    assert (path + [e])[..|path + [e]| - 1] == path;
    hide Passable;
    forall i | 0 <= i < |path + [e]|
      ensures (path + [e])[i] in edges && Passable((path + [e])[i], (nodes + [w])[i], (nodes + [w])[i + 1])
    {
    }
  }

  /** A walk over the loaded graph is a drive over the edges on file, with the same sums. */
  lemma {:induction false} LoadedWalkIsDrive(output: seq<Edge>, directed: seq<Edge>, edges: seq<Edge>, region: set<nat>,
                                             u: nat, v: nat, walk: seq<Edge>)
    returns (nodes: seq<nat>, path: seq<Edge>)
    requires IsSplitOf(directed, edges) && Normal(output, directed) && Walk(output, region, u, v, walk)
    ensures Drive(edges, u, v, nodes, path) && AllIn(nodes, region)
    ensures HasDriveTotals(path, WeightTotal(walk), DurationTotal(walk), DistanceTotal(walk))
    decreases |walk|
  {
    hide IsSplitOf, Normal, Passable, Drive, AllIn, RaisedTotal;
    if walk == [] {
      EmptyDrive(edges, region, u, v, []);
      nodes, path := [u], [];
    } else {
      var n := |walk| - 1;
      var o := walk[n];
      nodes, path := LoadedWalkIsDrive(output, directed, edges, region, u, o.source, walk[..n]);
      StoredIsOnFile(output, directed, edges, o);
      var e :| e in edges && StandsFor(o, e);
      DriveGrows(edges, region, u, o.source, nodes, path, e, v);
      nodes, path := nodes + [v], path + [e];
    }
  }

  /** An edge of the one list has a counterpart in the other, between the renamed nodes and with the same values. */
  ghost predicate Counterpart(b: seq<Edge>, e: Edge, s: nat, t: nat) {
    exists x :: x in b && Passable(x, s, t) && SamePrice(x, e)
  }

  ghost predicate SamePrice(x: Edge, e: Edge) {
    && (if x.data.weight < 1 then 1 else x.data.weight) == (if e.data.weight < 1 then 1 else e.data.weight)
    && x.data.duration == e.data.duration && x.data.distance == e.data.distance
  }

  ghost predicate HasCounterparts(a: seq<Edge>, b: seq<Edge>, f: nat -> nat) {
    forall e, s, t :: e in a && Passable(e, s, t) ==> Counterpart(b, e, f(s), f(t))
  }

  lemma {:induction false} DriveTransfers(a: seq<Edge>, b: seq<Edge>, f: nat -> nat, region: set<nat>, other: set<nat>,
                                          u: nat, v: nat, nodes: seq<nat>, path: seq<Edge>)
    returns (ns: seq<nat>, p: seq<Edge>)
    requires HasCounterparts(a, b, f) && forall x :: x in region ==> f(x) in other
    requires Drive(a, u, v, nodes, path) && AllIn(nodes, region)
    ensures Drive(b, f(u), f(v), ns, p) && AllIn(ns, other)
    ensures HasDriveTotals(p, RaisedTotal(path), DurationTotal(path), DistanceTotal(path))
    decreases |path|
  {
    hide Passable, Drive, AllIn, HasCounterparts, RaisedTotal, DurationTotal, DistanceTotal;
    if path == [] {
      EmptyDrive(a, region, u, v, nodes);
      EmptyDrive(b, other, f(u), f(u), []);
      ns, p := [f(u)], [];
    } else {
      var n := |path| - 1;
      DrivePrefix(a, region, u, v, nodes, path);
      ns, p := DriveTransfers(a, b, f, region, other, u, nodes[n], nodes[..n + 1], path[..n]);
      var x := FindCounterpart(a, b, f, path[n], nodes[n], v);
      DriveGrows(b, other, f(u), f(nodes[n]), ns, p, x, f(v));
      TotalsGrow(path);
      ns, p := ns + [f(v)], p + [x];
    }
  }

  lemma FindCounterpart(a: seq<Edge>, b: seq<Edge>, f: nat -> nat, e: Edge, s: nat, t: nat) returns (x: Edge)
    requires HasCounterparts(a, b, f) && e in a && Passable(e, s, t)
    ensures x in b && Passable(x, f(s), f(t)) && SamePrice(x, e)
  {
    hide Passable;
    assert Counterpart(b, e, f(s), f(t));
    x :| x in b && Passable(x, f(s), f(t)) && SamePrice(x, e);
  }

  lemma TotalsGrow(path: seq<Edge>)
    requires path != []
    ensures var n, e := |path| - 1, path[|path| - 1];
            && RaisedTotal(path) == RaisedTotal(path[..n]) + (if e.data.weight < 1 then 1 else e.data.weight)
            && DurationTotal(path) == DurationTotal(path[..n]) + e.data.duration
            && DistanceTotal(path) == DistanceTotal(path[..n]) + e.data.distance
  {
  }

  /** A drive of the weight that is least over the file. */
  lemma DriveIsLeast(edges: seq<Edge>, net: Network, level: nat, c: nat, u: nat, v: nat, answer: Option<Cost>,
                     nodes: seq<nat>, path: seq<Edge>)
    requires net.Shaped() && 1 <= level <= |net.cells|
    requires LeastWeight(FileArcs(edges), net.Region(level, c), u, v, WeightOf(answer))
    requires match answer
             case None => true
             case Some(x) =>
               && Drive(edges, u, v, nodes, path) && AllIn(nodes, net.Region(level, c))
               && HasDriveTotals(path, x.weight, x.duration, x.distance)
    ensures LeastDrive(edges, net.cells[level - 1], net.allowed, c, u, v, answer)
  {
    hide Drive, StaysIn, AllIn, Network.Region, HopWalk, Weight, RaisedTotal, FileArcs;
    RegionIsCell(net, level, c, nodes);
    var cells := net.cells[level - 1];
    if answer.None? {
      forall ns, p ensures !DriveIn(edges, cells, net.allowed, c, u, v, ns, p) {
        if DriveIn(edges, cells, net.allowed, c, u, v, ns, p) {
          RegionIsCell(net, level, c, ns);
          var hops := DriveIsHopWalk(edges, net.Region(level, c), u, v, ns, p);
          assert false;
        }
      }
    } else {
      forall ns, p | DriveIn(edges, cells, net.allowed, c, u, v, ns, p)
        ensures answer.value.weight <= RaisedTotal(p)
      {
        RegionIsCell(net, level, c, ns);
        var hops := DriveIsHopWalk(edges, net.Region(level, c), u, v, ns, p);
      }
      assert DriveIn(edges, cells, net.allowed, c, u, v, nodes, path);
    }
  }

  /** An exact slot of the loaded graph answers for a drive of least weight over the edges on file. */
  lemma LoadedSlotIsLeastDrive(output: seq<Edge>, directed: seq<Edge>, edges: seq<Edge>, net: Network, level: nat,
                               c: nat, u: nat, v: nat, slot: Option<Cost>)
    requires IsSplitOf(directed, edges) && Normal(output, directed)
    requires net.Shaped() && 1 <= level <= |net.cells| && Exact(output, net.Region(level, c), u, v, slot)
    ensures LeastDrive(edges, net.cells[level - 1], net.allowed, c, u, v, slot)
  {
    hide IsSplitOf, Normal, LeastWeight, LeastDrive, Network.Region, Drive, AllIn, Walk, PathCost, LowerBound;
    LoadedSlotIsLeastOnFile(output, directed, edges, net.Region(level, c), u, v, slot);
    var nodes, path := [], [];
    if slot.Some? {
      var walk :| WalkOfCost(output, net.Region(level, c), u, v, walk, slot.value);
      nodes, path := LoadedWalkIsDrive(output, directed, edges, net.Region(level, c), u, v, walk);
      CostIsTotals(walk);
    }
    DriveIsLeast(edges, net, level, c, u, v, slot, nodes, path);
  }
}
