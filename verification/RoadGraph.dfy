/**
 Edges of the edge-based graph, lexicographic path costs and the walks that serve
 as the reference definition of "cheapest path inside a cell".
 */
module RoadGraph {

  datatype Option<+T> = None | Some(value: T)

  const INVALID_EDGE_WEIGHT: int := 0x7FFF_FFFF

  const MAXIMAL_EDGE_DURATION: int := 0x7FFF_FFFF

  /** The largest 32-bit float. */
  const INVALID_EDGE_DISTANCE: real := 340282346638528859811704183484516925440.0

  /** What the customizer adds up along a path; compared as (weight, duration, distance). */
  datatype Cost = Cost(weight: int, duration: int, distance: real)

  const ZERO := Cost(0, 0, 0.0)

  function Plus(a: Cost, b: Cost): Cost {
    Cost(a.weight + b.weight, a.duration + b.duration, a.distance + b.distance)
  }

  /** `std::tie(a...) < std::tie(b...)` */
  predicate Less(a: Cost, b: Cost) {
    || a.weight < b.weight
    || (a.weight == b.weight && a.duration < b.duration)
    || (a.weight == b.weight && a.duration == b.duration && a.distance < b.distance)
  }

  predicate AtMost(a: Cost, b: Cost) {
    !Less(b, a)
  }

  datatype EdgeData = EdgeData(turnId: nat, weight: int, duration: int, distance: real, forward: bool, backward: bool)

  /** An edge as it is stored with its source node: `forward` means it can be
      travelled from source to target, `backward` from target to source. */
  datatype Edge = Edge(source: nat, target: nat, data: EdgeData)

  function EdgeCost(e: Edge): Cost {
    Cost(e.data.weight, e.data.duration, e.data.distance)
  }

  /** `path` leads from `u` to `v` over forward edges and never leaves `region`. */
  ghost predicate Walk(edges: seq<Edge>, region: set<nat>, u: nat, v: nat, path: seq<Edge>)
    decreases |path|
  {
    && v in region
    && if path == [] then u == v
       else
         var e := path[|path| - 1];
         && e in edges && e.data.forward && e.target == v
         && Walk(edges, region, u, e.source, path[..|path| - 1])
  }

  ghost function PathCost(path: seq<Edge>): Cost {
    if path == [] then ZERO
    else Plus(PathCost(path[..|path| - 1]), EdgeCost(path[|path| - 1]))
  }

  ghost predicate WalkOfCost(edges: seq<Edge>, region: set<nat>, u: nat, v: nat, path: seq<Edge>, c: Cost) {
    Walk(edges, region, u, v, path) && PathCost(path) == c
  }

  ghost predicate Attained(edges: seq<Edge>, region: set<nat>, u: nat, v: nat, c: Cost) {
    exists path :: WalkOfCost(edges, region, u, v, path, c)
  }

  ghost predicate LowerBound(edges: seq<Edge>, region: set<nat>, u: nat, v: nat, c: Cost) {
    forall path :: Walk(edges, region, u, v, path) ==> AtMost(c, PathCost(path))
  }

  ghost predicate Disconnected(edges: seq<Edge>, region: set<nat>, u: nat, v: nat) {
    forall path :: !Walk(edges, region, u, v, path)
  }

  /** The specification of a matrix slot: the lexicographically least cost of a walk
      inside the region, or nothing when there is no such walk. */
  ghost predicate Exact(edges: seq<Edge>, region: set<nat>, u: nat, v: nat, slot: Option<Cost>) {
    match slot
    case Some(c) => Attained(edges, region, u, v, c) && LowerBound(edges, region, u, v, c)
    case None => Disconnected(edges, region, u, v)
  }

  /** The specification determines the slot. */
  lemma ExactIsUnique(edges: seq<Edge>, region: set<nat>, u: nat, v: nat, a: Option<Cost>, b: Option<Cost>)
    requires Exact(edges, region, u, v, a) && Exact(edges, region, u, v, b)
    ensures a == b
  {
    if a.Some? && b.Some? {
      var p :| WalkOfCost(edges, region, u, v, p, a.value);
      var q :| WalkOfCost(edges, region, u, v, q, b.value);
      assert AtMost(b.value, PathCost(p)) && AtMost(a.value, PathCost(q));
    }
  }

  lemma {:induction false} WalkConcat(edges: seq<Edge>, region: set<nat>, u: nat, v: nat, w: nat, p: seq<Edge>,
                                      q: seq<Edge>)
    requires Walk(edges, region, u, v, p) && Walk(edges, region, v, w, q)
    ensures Walk(edges, region, u, w, p + q)
    ensures PathCost(p + q) == Plus(PathCost(p), PathCost(q))
    decreases |q|
  {
    if q == [] {
      assert p + q == p;
    } else {
      var k := |q| - 1;
      WalkConcat(edges, region, u, v, q[k].source, p, q[..k]);
      assert (p + q)[..|p + q| - 1] == p + q[..k];
    }
  }

  lemma {:induction false} WalkInLargerRegion(edges: seq<Edge>, small: set<nat>, large: set<nat>, u: nat, v: nat,
                                              p: seq<Edge>)
    requires Walk(edges, small, u, v, p) && small <= large
    ensures Walk(edges, large, u, v, p)
    decreases |p|
  {
    if p != [] {
      WalkInLargerRegion(edges, small, large, u, p[|p| - 1].source, p[..|p| - 1]);
    }
  }

  lemma {:induction false} WalkStart(edges: seq<Edge>, region: set<nat>, u: nat, v: nat, p: seq<Edge>)
    requires Walk(edges, region, u, v, p)
    ensures u in region
    ensures p != [] ==> p[0] in edges && p[0].data.forward && p[0].source == u && p[0].target in region
    decreases |p|
  {
    if |p| > 1 {
      WalkStart(edges, region, u, p[|p| - 1].source, p[..|p| - 1]);
    }
  }

  ghost predicate PositiveWeights(edges: seq<Edge>) {
    forall e :: e in edges ==> e.data.weight >= 1
  }

  /** With weights clamped to at least one, only the empty walk is free. */
  lemma {:induction false} WalkWeight(edges: seq<Edge>, region: set<nat>, u: nat, v: nat, p: seq<Edge>)
    requires PositiveWeights(edges)
    requires Walk(edges, region, u, v, p)
    ensures PathCost(p).weight >= |p|
    decreases |p|
  {
    if p != [] {
      WalkWeight(edges, region, u, p[|p| - 1].source, p[..|p| - 1]);
    }
  }

  lemma AttainedComposes(edges: seq<Edge>, region: set<nat>, u: nat, v: nat, w: nat, a: Cost, b: Cost)
    requires Attained(edges, region, u, v, a) && Attained(edges, region, v, w, b)
    ensures Attained(edges, region, u, w, Plus(a, b))
  {
    var p :| WalkOfCost(edges, region, u, v, p, a);
    var q :| WalkOfCost(edges, region, v, w, q, b);
    WalkConcat(edges, region, u, v, w, p, q);
    assert WalkOfCost(edges, region, u, w, p + q, Plus(a, b));
  }

  lemma ExactBoundsAttained(edges: seq<Edge>, region: set<nat>, u: nat, v: nat, slot: Option<Cost>, c: Cost)
    requires Exact(edges, region, u, v, slot) && Attained(edges, region, u, v, c)
    ensures slot.Some? && AtMost(slot.value, c)
  {
    var p :| WalkOfCost(edges, region, u, v, p, c);
  }

  /** Exact slots compose: the triangle inequality, together with the existence of the third slot. */
  lemma ExactTriangle(edges: seq<Edge>, region: set<nat>, u: nat, v: nat, w: nat, uv: Option<Cost>, vw: Option<Cost>,
                      uw: Option<Cost>)
    requires Exact(edges, region, u, v, uv) && uv.Some?
    requires Exact(edges, region, v, w, vw) && vw.Some?
    requires Exact(edges, region, u, w, uw)
    ensures uw.Some? && AtMost(uw.value, Plus(uv.value, vw.value))
  {
    AttainedComposes(edges, region, u, v, w, uv.value, vw.value);
    ExactBoundsAttained(edges, region, u, w, uw, Plus(uv.value, vw.value));
  }
}
