/**
 What a customized value promises, in terms of edges and nodes alone: routes that stay in a cell,
 and the sums of the weights, durations and distances of their edges.
 */
module Routes {
  import opened RoadGraph
  import opened OverlayNetwork

  // ---------- sums ----------

  ghost function WeightTotal(path: seq<Edge>): int {
    if path == [] then 0 else WeightTotal(path[..|path| - 1]) + path[|path| - 1].data.weight
  }

  ghost function DurationTotal(path: seq<Edge>): int {
    if path == [] then 0 else DurationTotal(path[..|path| - 1]) + path[|path| - 1].data.duration
  }

  ghost function DistanceTotal(path: seq<Edge>): real {
    if path == [] then 0.0 else DistanceTotal(path[..|path| - 1]) + path[|path| - 1].data.distance
  }

  /** Path costs are the three sums. */
  lemma {:induction false} CostIsTotals(path: seq<Edge>)
    ensures PathCost(path).weight == WeightTotal(path) && PathCost(path).duration == DurationTotal(path)
            && PathCost(path).distance == DistanceTotal(path)
    decreases |path|
  {
    if path != [] {
      CostIsTotals(path[..|path| - 1]);
    }
  }

  // ---------- routes ----------

  /** Edge `i` of the path leads forward from node `i` to node `i + 1`. */
  ghost predicate Route(edges: seq<Edge>, u: nat, v: nat, nodes: seq<nat>, path: seq<Edge>) {
    && |nodes| == |path| + 1 && nodes[0] == u && nodes[|path|] == v
    && forall i :: 0 <= i < |path| ==>
         path[i] in edges && path[i].data.forward && path[i].source == nodes[i] && path[i].target == nodes[i + 1]
  }

  /** All nodes are usable and lie in cell `c` of a level, which is given by the cells of its nodes. */
  ghost predicate StaysIn(nodes: seq<nat>, cells: seq<nat>, allowed: seq<bool>, c: nat) {
    forall i :: 0 <= i < |nodes| ==>
      nodes[i] < |cells| && nodes[i] < |allowed| && allowed[nodes[i]] && cells[nodes[i]] == c
  }

  ghost predicate AllIn(nodes: seq<nat>, region: set<nat>) {
    forall i :: 0 <= i < |nodes| ==> nodes[i] in region
  }

  lemma {:induction false} WalkIsRoute(edges: seq<Edge>, region: set<nat>, u: nat, v: nat, path: seq<Edge>)
    returns (nodes: seq<nat>)
    requires Walk(edges, region, u, v, path)
    ensures Route(edges, u, v, nodes, path) && AllIn(nodes, region)
    decreases |path|
  {
    if path == [] {
      nodes := [v];
    } else {
      var n := |path| - 1;
      var init := WalkIsRoute(edges, region, u, path[n].source, path[..n]);
      nodes := init + [v];
      forall i | 0 <= i < |path|
        ensures path[i] in edges && path[i].data.forward && path[i].source == nodes[i] && path[i].target == nodes[i + 1]
      {
        assert i < n ==> path[..n][i] == path[i];
      }
    }
  }

  lemma {:induction false} RouteIsWalk(edges: seq<Edge>, region: set<nat>, u: nat, v: nat, nodes: seq<nat>,
                                       path: seq<Edge>)
    requires Route(edges, u, v, nodes, path) && AllIn(nodes, region)
    ensures Walk(edges, region, u, v, path)
    decreases |path|
  {
    if path != [] {
      var n := |path| - 1;
      assert forall i :: 0 <= i < n ==> path[..n][i] == path[i] && nodes[..n + 1][i] == nodes[i];
      RouteIsWalk(edges, region, u, path[n].source, nodes[..n + 1], path[..n]);
    }
  }

  // ---------- the cheapest route inside a cell ----------

  ghost predicate RouteIn(edges: seq<Edge>, cells: seq<nat>, allowed: seq<bool>, c: nat, u: nat, v: nat,
                          nodes: seq<nat>, path: seq<Edge>) {
    Route(edges, u, v, nodes, path) && StaysIn(nodes, cells, allowed, c)
  }

  /** The three values are the sums of one route. */
  ghost predicate HasTotals(path: seq<Edge>, weight: int, duration: int, distance: real) {
    WeightTotal(path) == weight && DurationTotal(path) == duration && DistanceTotal(path) == distance
  }

  /** By weight, then by duration, then by distance, the values are not above the sums of the route. */
  ghost predicate NotAbove(weight: int, duration: int, distance: real, path: seq<Edge>) {
    && weight <= WeightTotal(path)
    && (weight == WeightTotal(path) ==>
          && duration <= DurationTotal(path)
          && (duration == DurationTotal(path) ==> distance <= DistanceTotal(path)))
  }

  /** The values of the cheapest route from `u` to `v` that stays in cell `c`, or no weight if there is none. */
  ghost predicate Cheapest(edges: seq<Edge>, cells: seq<nat>, allowed: seq<bool>, c: nat, u: nat, v: nat,
                           weight: Option<int>, duration: int, distance: real) {
    match weight
    case None => forall nodes, path :: !RouteIn(edges, cells, allowed, c, u, v, nodes, path)
    case Some(w) =>
      && (exists nodes, path ::
            RouteIn(edges, cells, allowed, c, u, v, nodes, path) && HasTotals(path, w, duration, distance))
      && (forall nodes, path ::
            RouteIn(edges, cells, allowed, c, u, v, nodes, path) ==> NotAbove(w, duration, distance, path))
  }

  lemma CostNotAbove(c: Cost, path: seq<Edge>)
    ensures AtMost(c, PathCost(path)) <==> NotAbove(c.weight, c.duration, c.distance, path)
    ensures PathCost(path) == c <==> HasTotals(path, c.weight, c.duration, c.distance)
  {
    CostIsTotals(path);
    hide PathCost, WeightTotal, DurationTotal, DistanceTotal;
  }

  lemma RegionIsCell(net: Network, level: nat, c: nat, nodes: seq<nat>)
    requires net.Shaped() && 1 <= level <= |net.cells|
    ensures AllIn(nodes, net.Region(level, c)) <==> StaysIn(nodes, net.cells[level - 1], net.allowed, c)
  {
  }

  /** A slot is exact if and only if it holds the values of the cheapest route inside the cell. */
  lemma ExactIsCheapest(net: Network, level: nat, c: nat, u: nat, v: nat, slot: Option<Cost>, weight: Option<int>,
                        duration: int, distance: real)
    requires net.Shaped() && 1 <= level <= |net.cells|
    requires match slot case None => weight == None
                        case Some(x) => weight == Some(x.weight) && duration == x.duration && distance == x.distance
    ensures Exact(net.edges, net.Region(level, c), u, v, slot)
       <==> Cheapest(net.edges, net.cells[level - 1], net.allowed, c, u, v, weight, duration, distance)
  {
    hide Walk, Route, PathCost, Network.Region, StaysIn, AllIn, NotAbove, HasTotals, AtMost;
    var edges, region, cells := net.edges, net.Region(level, c), net.cells[level - 1];
    forall path | Walk(edges, region, u, v, path)
      ensures exists nodes :: RouteIn(edges, cells, net.allowed, c, u, v, nodes, path)
    {
      var nodes := WalkIsRoute(edges, region, u, v, path);
      RegionIsCell(net, level, c, nodes);
      assert RouteIn(edges, cells, net.allowed, c, u, v, nodes, path);
    }
    forall nodes, path | RouteIn(edges, cells, net.allowed, c, u, v, nodes, path)
      ensures Walk(edges, region, u, v, path)
    {
      RegionIsCell(net, level, c, nodes);
      RouteIsWalk(edges, region, u, v, nodes, path);
    }
    if slot.Some? {
      SomeIsCheapest(edges, region, cells, net.allowed, c, u, v, slot.value);
    } else {
      hide RouteIn;
    }
  }

  lemma SomeIsCheapest(edges: seq<Edge>, region: set<nat>, cells: seq<nat>, allowed: seq<bool>, c: nat, u: nat, v: nat,
                       x: Cost)
    requires forall path :: Walk(edges, region, u, v, path) ==>
               exists nodes :: RouteIn(edges, cells, allowed, c, u, v, nodes, path)
    requires forall nodes, path ::
               RouteIn(edges, cells, allowed, c, u, v, nodes, path) ==> Walk(edges, region, u, v, path)
    ensures Exact(edges, region, u, v, Some(x))
       <==> Cheapest(edges, cells, allowed, c, u, v, Some(x.weight), x.duration, x.distance)
  {
    hide Walk, RouteIn, PathCost, NotAbove, HasTotals, AtMost;
    forall path
      ensures AtMost(x, PathCost(path)) <==> NotAbove(x.weight, x.duration, x.distance, path)
      ensures PathCost(path) == x <==> HasTotals(path, x.weight, x.duration, x.distance)
    {
      CostNotAbove(x, path);
    }
    if Exact(edges, region, u, v, Some(x)) {
      var path :| WalkOfCost(edges, region, u, v, path, x);
      var nodes :| RouteIn(edges, cells, allowed, c, u, v, nodes, path);
      assert HasTotals(path, x.weight, x.duration, x.distance);
    }
    if Cheapest(edges, cells, allowed, c, u, v, Some(x.weight), x.duration, x.distance) {
      var nodes, path :| RouteIn(edges, cells, allowed, c, u, v, nodes, path)
                         && HasTotals(path, x.weight, x.duration, x.distance);
      assert WalkOfCost(edges, region, u, v, path, x);
      forall p | Walk(edges, region, u, v, p) ensures AtMost(x, PathCost(p)) {
        var ns :| RouteIn(edges, cells, allowed, c, u, v, ns, p);
        assert NotAbove(x.weight, x.duration, x.distance, p);
      }
    }
  }
}
