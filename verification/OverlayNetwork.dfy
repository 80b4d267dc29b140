/**
 The network the customizer works on: edges, nested cells on several levels and the
 nodes that an exclusion leaves usable. The cells were laid out for `links`; since then
 edges may have got other weights or have been closed.
 */
module OverlayNetwork {
  import opened RoadGraph
  import NestedCells

  ghost predicate EndsInRange(edges: seq<Edge>, n: nat) {
    forall e :: e in edges ==> e.source < n && e.target < n && e.source != e.target
  }

  /** `cells[l - 1][v]` is the cell of node `v` on level `l`. */
  datatype Network = Network(numNodes: nat, edges: seq<Edge>, links: seq<Edge>, cells: seq<seq<nat>>,
                             allowed: seq<bool>)
  {
    /** Level 0 is the base graph: every node is a cell of its own. */
    ghost function Cell(level: nat, v: nat): nat
      requires Shaped() && level <= |cells| && v < numNodes
    {
      if level == 0 then v else cells[level - 1][v]
    }

    ghost predicate Shaped() {
      |allowed| == numNodes && NestedCells.Shaped(cells, numNodes)
    }

    ghost predicate EdgesInRange() {
      EndsInRange(edges, numNodes) && EndsInRange(links, numNodes)
    }

    /** Every link is also stored at its other end, with the flags swapped. */
    ghost predicate Mirrored() {
      forall e :: e in links ==> HasMirror(e)
    }

    ghost predicate HasMirror(e: Edge) {
      exists m :: m in links && m.source == e.target && m.target == e.source
        && (e.data.forward ==> m.data.backward) && (e.data.backward ==> m.data.forward)
    }

    /** Every edge runs along a link, and every forward edge along a forward one. */
    ghost predicate OnLinks() {
      forall e :: e in edges ==> HasLink(e, false) && (e.data.forward ==> HasLink(e, true))
    }

    ghost predicate HasLink(e: Edge, forward: bool) {
      exists m :: m in links && m.source == e.source && m.target == e.target && (forward ==> m.data.forward)
    }

    ghost predicate WellFormed() {
      && Shaped() && EdgesInRange() && PositiveWeights(edges) && NestedCells.Nested(cells, numNodes)
      && Mirrored() && OnLinks()
    }

    /** The nodes a search in cell `c` may use. */
    ghost function Region(level: nat, c: nat): set<nat>
      requires Shaped() && level <= |cells|
    {
      set v | 0 <= v < numNodes && allowed[v] && Cell(level, v) == c
    }

    ghost function RegionOf(level: nat, v: nat): set<nat>
      requires Shaped() && level <= |cells| && v < numNodes
    {
      Region(level, Cell(level, v))
    }

    ghost predicate Crosses(level: nat, e: Edge)
      requires Shaped() && level <= |cells| && e.source < numNodes && e.target < numNodes
    {
      Cell(level, e.source) != Cell(level, e.target)
    }

    /** `v` has a link that leaves its cell. */
    ghost predicate Boundary(level: nat, v: nat)
      requires Shaped() && EdgesInRange() && level <= |cells|
    {
      exists e :: e in links && e.source == v && Crosses(level, e)
    }

    ghost predicate HasInnerForward(level: nat, v: nat)
      requires Shaped() && EdgesInRange() && level <= |cells|
    {
      exists e :: e in links && e.source == v && e.data.forward && !Crosses(level, e)
    }

    ghost predicate HasInnerBackward(level: nat, v: nat)
      requires Shaped() && EdgesInRange() && level <= |cells|
    {
      exists e :: e in links && e.source == v && e.data.backward && !Crosses(level, e)
    }

    ghost predicate IsSource(level: nat, v: nat)
      requires Shaped() && EdgesInRange() && level <= |cells|
    {
      Boundary(level, v) && HasInnerForward(level, v)
    }

    ghost predicate IsDestination(level: nat, v: nat)
      requires Shaped() && EdgesInRange() && level <= |cells|
    {
      Boundary(level, v) && HasInnerBackward(level, v)
    }
  }

  lemma SameCellAbove(net: Network, level: nat, u: nat, v: nat)
    requires net.WellFormed() && level < |net.cells| && u < net.numNodes && v < net.numNodes
    requires net.Cell(level, u) == net.Cell(level, v)
    ensures net.Cell(level + 1, u) == net.Cell(level + 1, v)
  {
    if level > 0 {
      assert NestedCells.NestedAt(net.cells, net.numNodes, level - 1, u, v);
    }
  }

  lemma SubRegion(net: Network, level: nat, v: nat)
    requires net.WellFormed() && level < |net.cells| && v < net.numNodes
    ensures net.RegionOf(level, v) <= net.RegionOf(level + 1, v)
  {
    forall w | w in net.RegionOf(level, v) ensures w in net.RegionOf(level + 1, v) {
      SameCellAbove(net, level, w, v);
    }
  }

  lemma BoundaryBelow(net: Network, level: nat, v: nat)
    requires net.WellFormed() && level < |net.cells| && v < net.numNodes
    requires net.Boundary(level + 1, v)
    ensures net.Boundary(level, v)
  {
    var e :| e in net.links && e.source == v && net.Crosses(level + 1, e);
    if !net.Crosses(level, e) {
      SameCellAbove(net, level, e.source, e.target);
    }
  }

  /** An edge across a border makes both its ends border nodes. */
  lemma CrossingEndsOnBorder(net: Network, level: nat, e: Edge)
    requires net.WellFormed() && level <= |net.cells| && e in net.edges && net.Crosses(level, e)
    ensures net.Boundary(level, e.source) && net.Boundary(level, e.target)
  {
    assert net.HasLink(e, false);
    var l :| l in net.links && l.source == e.source && l.target == e.target;
    CrossingLink(net, level, l);
  }

  lemma CrossingLink(net: Network, level: nat, l: Edge)
    requires net.WellFormed() && level <= |net.cells| && l in net.links && net.Crosses(level, l)
    ensures net.Boundary(level, l.source) && net.Boundary(level, l.target)
  {
    assert net.HasMirror(l);
    var m :| m in net.links && m.source == l.target && m.target == l.source;
    assert net.Crosses(level, m);
  }

  /** A forward edge inside a cell gives its source an inner forward link and its target an inner backward one. */
  lemma InnerEdge(net: Network, level: nat, e: Edge)
    requires net.WellFormed() && level <= |net.cells|
    requires e in net.edges && e.data.forward && !net.Crosses(level, e)
    ensures net.HasInnerForward(level, e.source) && net.HasInnerBackward(level, e.target)
  {
    assert net.HasLink(e, true);
    var l :| l in net.links && l.source == e.source && l.target == e.target && l.data.forward;
    assert net.HasMirror(l);
    var m :| m in net.links && m.source == l.target && m.target == l.source && m.data.backward;
    assert !net.Crosses(level, l) && !net.Crosses(level, m);
  }
}
