/**
 Networks that differ only in their numbering, in the names of their cells and in what has become
 of their edges: the same nodes are border nodes, sources and destinations.
 */
module CorrespondingNetworks {
  import opened RoadGraph
  import opened OverlayNetwork
  import opened Permutations
  import opened RenumberedEdges
  import opened CellBoundaries
  import opened CellStorages

  // ---------- links ----------

  ghost predicate Linked(edges: seq<Edge>, s: nat, t: nat) {
    exists e :: e in edges && e.source == s && e.target == t
  }

  ghost predicate LinkedForward(edges: seq<Edge>, s: nat, t: nat) {
    exists e :: e in edges && e.source == s && e.target == t && e.data.forward
  }

  ghost predicate LinkedBackward(edges: seq<Edge>, s: nat, t: nat) {
    exists e :: e in edges && e.source == s && e.target == t && e.data.backward
  }

  /** Between corresponding nodes there are edges in the same directions. */
  ghost predicate SameLink(a: seq<Edge>, b: seq<Edge>, perm: seq<nat>, s: nat, t: nat) {
    && (Linked(a, s, t) <==> Linked(b, At(perm, s), At(perm, t)))
    && (LinkedForward(a, s, t) <==> LinkedForward(b, At(perm, s), At(perm, t)))
    && (LinkedBackward(a, s, t) <==> LinkedBackward(b, At(perm, s), At(perm, t)))
  }

  /** Corresponding nodes are together in a cell, or apart. */
  ghost predicate SameSides(a: Network, b: Network, perm: seq<nat>, level: nat, u: nat, v: nat)
    requires a.Shaped() && b.Shaped() && level <= |a.cells| == |b.cells|
    requires u < a.numNodes && v < a.numNodes && a.numNodes == |perm| && perm[u] < b.numNodes && perm[v] < b.numNodes
  {
    a.Cell(level, u) == a.Cell(level, v) <==> b.Cell(level, perm[u]) == b.Cell(level, perm[v])
  }

  ghost predicate Corresponds(a: Network, b: Network, perm: seq<nat>, order: seq<nat>) {
    && a.Shaped() && b.Shaped() && a.EdgesInRange() && b.EdgesInRange()
    && a.numNodes == b.numNodes == |perm| && |a.cells| == |b.cells| && Inverse(perm, order)
    && (forall s: nat, t: nat :: SameLink(a.links, b.links, perm, s, t))
    && (forall level: nat, u: nat, v: nat ::
          level <= |a.cells| && u < |perm| && v < |perm| ==> SameSides(a, b, perm, level, u, v))
  }

  // ---------- the roles of a node ----------

  ghost predicate BorderTo(net: Network, level: nat, v: nat, t: nat)
    requires net.Shaped() && level <= |net.cells|
  {
    v < net.numNodes && t < net.numNodes && Linked(net.links, v, t) && net.Cell(level, v) != net.Cell(level, t)
  }

  ghost predicate ForwardTo(net: Network, level: nat, v: nat, t: nat)
    requires net.Shaped() && level <= |net.cells|
  {
    v < net.numNodes && t < net.numNodes && LinkedForward(net.links, v, t) && net.Cell(level, v) == net.Cell(level, t)
  }

  ghost predicate BackwardTo(net: Network, level: nat, v: nat, t: nat)
    requires net.Shaped() && level <= |net.cells|
  {
    v < net.numNodes && t < net.numNodes && LinkedBackward(net.links, v, t) && net.Cell(level, v) == net.Cell(level, t)
  }

  lemma BoundaryByLinks(net: Network, level: nat, v: nat)
    requires net.Shaped() && net.EdgesInRange() && level <= |net.cells|
    ensures net.Boundary(level, v) <==> exists t: nat :: BorderTo(net, level, v, t)
  {
    hide Network.Cell;
    if e :| e in net.links && e.source == v && net.Crosses(level, e) {
      assert BorderTo(net, level, v, e.target);
    }
    if t: nat :| BorderTo(net, level, v, t) {
      var e :| e in net.links && e.source == v && e.target == t;
      assert net.Crosses(level, e);
    }
  }

  lemma ForwardByLinks(net: Network, level: nat, v: nat)
    requires net.Shaped() && net.EdgesInRange() && level <= |net.cells|
    ensures net.HasInnerForward(level, v) <==> exists t: nat :: ForwardTo(net, level, v, t)
  {
    hide Network.Cell;
    if e :| e in net.links && e.source == v && e.data.forward && !net.Crosses(level, e) {
      assert ForwardTo(net, level, v, e.target);
    }
    if t: nat :| ForwardTo(net, level, v, t) {
      var e :| e in net.links && e.source == v && e.target == t && e.data.forward;
      assert !net.Crosses(level, e);
    }
  }

  lemma BackwardByLinks(net: Network, level: nat, v: nat)
    requires net.Shaped() && net.EdgesInRange() && level <= |net.cells|
    ensures net.HasInnerBackward(level, v) <==> exists t: nat :: BackwardTo(net, level, v, t)
  {
    hide Network.Cell;
    if e :| e in net.links && e.source == v && e.data.backward && !net.Crosses(level, e) {
      assert BackwardTo(net, level, v, e.target);
    }
    if t: nat :| BackwardTo(net, level, v, t) {
      var e :| e in net.links && e.source == v && e.target == t && e.data.backward;
      assert !net.Crosses(level, e);
    }
  }

  /** The roles depend on the links only. */
  lemma RolesByLinks(net: Network, level: nat, v: nat)
    requires net.Shaped() && net.EdgesInRange() && level <= |net.cells|
    ensures net.Boundary(level, v) <==> exists t: nat :: BorderTo(net, level, v, t)
    ensures net.HasInnerForward(level, v) <==> exists t: nat :: ForwardTo(net, level, v, t)
    ensures net.HasInnerBackward(level, v) <==> exists t: nat :: BackwardTo(net, level, v, t)
  {
    hide BorderTo, ForwardTo, BackwardTo, Network.Boundary, Network.HasInnerForward, Network.HasInnerBackward;
    BoundaryByLinks(net, level, v);
    ForwardByLinks(net, level, v);
    BackwardByLinks(net, level, v);
  }

  lemma PairCorresponds(a: Network, b: Network, perm: seq<nat>, order: seq<nat>, level: nat, v: nat, t: nat)
    requires Corresponds(a, b, perm, order) && level <= |a.cells| && v < |perm| && t < |perm|
    ensures BorderTo(a, level, v, t) <==> BorderTo(b, level, perm[v], perm[t])
    ensures ForwardTo(a, level, v, t) <==> ForwardTo(b, level, perm[v], perm[t])
    ensures BackwardTo(a, level, v, t) <==> BackwardTo(b, level, perm[v], perm[t])
  {
    hide Network.Cell, Linked, LinkedForward, LinkedBackward;
    assert SameLink(a.links, b.links, perm, v, t) && SameSides(a, b, perm, level, v, t);
  }

  /** Corresponding nodes have the same roles. */
  lemma RolesCorrespond(a: Network, b: Network, perm: seq<nat>, order: seq<nat>, level: nat, v: nat)
    requires Corresponds(a, b, perm, order) && level <= |a.cells| && v < |perm|
    ensures a.Boundary(level, v) == b.Boundary(level, perm[v])
    ensures a.HasInnerForward(level, v) == b.HasInnerForward(level, perm[v])
    ensures a.HasInnerBackward(level, v) == b.HasInnerBackward(level, perm[v])
  {
    RolesByLinks(a, level, v);
    RolesByLinks(b, level, perm[v]);
    forall t: nat | t < |perm|
      ensures BorderTo(a, level, v, t) <==> BorderTo(b, level, perm[v], perm[t])
      ensures ForwardTo(a, level, v, t) <==> ForwardTo(b, level, perm[v], perm[t])
      ensures BackwardTo(a, level, v, t) <==> BackwardTo(b, level, perm[v], perm[t])
    {
      PairCorresponds(a, b, perm, order, level, v, t);
    }
    hide Network.Boundary, Network.HasInnerForward, Network.HasInnerBackward, SameLink, SameSides;
    FoundByOther(a, b, perm, order, level, v);
  }

  lemma FoundByOther(a: Network, b: Network, perm: seq<nat>, order: seq<nat>, level: nat, v: nat)
    requires Corresponds(a, b, perm, order) && level <= |a.cells| && v < |perm|
    requires forall t: nat :: t < |perm| ==>
      && (BorderTo(a, level, v, t) <==> BorderTo(b, level, perm[v], perm[t]))
      && (ForwardTo(a, level, v, t) <==> ForwardTo(b, level, perm[v], perm[t]))
      && (BackwardTo(a, level, v, t) <==> BackwardTo(b, level, perm[v], perm[t]))
    ensures (exists t: nat :: BorderTo(a, level, v, t)) <==> (exists t: nat :: BorderTo(b, level, perm[v], t))
    ensures (exists t: nat :: ForwardTo(a, level, v, t)) <==> (exists t: nat :: ForwardTo(b, level, perm[v], t))
    ensures (exists t: nat :: BackwardTo(a, level, v, t)) <==> (exists t: nat :: BackwardTo(b, level, perm[v], t))
  {
    hide Linked, LinkedForward, LinkedBackward, SameLink, SameSides, Network.Cell;
    if t: nat :| BorderTo(a, level, v, t) {
      assert BorderTo(b, level, perm[v], perm[t]);
    }
    if t: nat :| ForwardTo(a, level, v, t) {
      assert ForwardTo(b, level, perm[v], perm[t]);
    }
    if t: nat :| BackwardTo(a, level, v, t) {
      assert BackwardTo(b, level, perm[v], perm[t]);
    }
    if t: nat :| BorderTo(b, level, perm[v], t) {
      assert BorderTo(b, level, perm[v], perm[order[t]]);
    }
    if t: nat :| ForwardTo(b, level, perm[v], t) {
      assert ForwardTo(b, level, perm[v], perm[order[t]]);
    }
    if t: nat :| BackwardTo(b, level, perm[v], t) {
      assert BackwardTo(b, level, perm[v], perm[order[t]]);
    }
  }

  ghost predicate SameFilter(a: Network, b: Network, perm: seq<nat>) {
    |a.allowed| == |b.allowed| == |perm|
    && forall v :: 0 <= v < |perm| ==> perm[v] < |perm| && a.allowed[v] == b.allowed[perm[v]]
  }

  /** Corresponding nodes lie in corresponding regions. */
  lemma RegionsCorrespond(a: Network, b: Network, perm: seq<nat>, order: seq<nat>, level: nat, v: nat)
    requires Corresponds(a, b, perm, order) && SameFilter(a, b, perm) && level <= |a.cells| && v < |perm|
    ensures forall u: nat :: u in a.RegionOf(level, v) ==> u < |perm| && perm[u] in b.RegionOf(level, perm[v])
    ensures forall x: nat :: x in b.RegionOf(level, perm[v]) ==> x < |perm| && order[x] in a.RegionOf(level, v)
  {
    hide Network.Cell, SameLink;
    forall u: nat | u in a.RegionOf(level, v) ensures u < |perm| && perm[u] in b.RegionOf(level, perm[v]) {
      assert SameSides(a, b, perm, level, u, v);
    }
    forall x: nat | x in b.RegionOf(level, perm[v]) ensures x < |perm| && order[x] in a.RegionOf(level, v) {
      assert perm[order[x]] == x;
      assert SameSides(a, b, perm, level, order[x], v);
    }
  }

  lemma UnconnectedCorresponds(a: Network, b: Network, perm: seq<nat>, order: seq<nat>, level: nat, v: nat)
    requires Corresponds(a, b, perm, order) && level <= |a.cells| && v < |perm|
    ensures Unconnected(a, level, v) == Unconnected(b, level, perm[v])
  {
    RolesCorrespond(a, b, perm, order, level, v);
  }

  // ---------- other weights and closed edges ----------

  /** The layout depends on the links only: it serves whatever edges are left of them, at whatever weights. */
  lemma LayoutServesEveryUpdate(storage: CellStorage, net: Network, edges: seq<Edge>)
    requires LaidOut(storage, net) && net.Shaped() && net.EdgesInRange() && net.(edges := edges).EdgesInRange()
    ensures LaidOut(storage, net.(edges := edges))
  {
    var other := net.(edges := edges);
    hide Network.EdgesInRange;
    forall level: nat, v: nat | level <= |net.cells|
      ensures net.Boundary(level, v) == other.Boundary(level, v)
      ensures net.HasInnerForward(level, v) == other.HasInnerForward(level, v)
      ensures net.HasInnerBackward(level, v) == other.HasInnerBackward(level, v)
    {
      SameLinksSameRoles(net, other, level, v);
    }
    hide Network.Boundary, Network.HasInnerForward, Network.HasInnerBackward;
    forall level: nat, c: nat | storage.HasCell(level, c) ensures CellListed(storage, other, level, c) {
      assert CellListed(storage, net, level, c);
      forall v: nat
        ensures SourceMember(net, level, (c, v)) <==> SourceMember(other, level, (c, v))
        ensures DestinationMember(net, level, (c, v)) <==> DestinationMember(other, level, (c, v))
      {
      }
    }
  }

  lemma SameLinksSameRoles(a: Network, b: Network, level: nat, v: nat)
    requires a.Shaped() && a.EdgesInRange() && b.EdgesInRange() && level <= |a.cells|
    requires b == a.(edges := b.edges)
    ensures a.Boundary(level, v) == b.Boundary(level, v)
    ensures a.HasInnerForward(level, v) == b.HasInnerForward(level, v)
    ensures a.HasInnerBackward(level, v) == b.HasInnerBackward(level, v)
  {
    assert forall e :: e in a.links ==> a.Crosses(level, e) == b.Crosses(level, e);
  }
}
