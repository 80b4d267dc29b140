/**
 The addressable queue of the search. Entries live in `insertedNodes`; `nodeIndex` maps a
 node to its entry and is never cleared, so a stale index is recognised by comparing the
 node stored in the entry. The four-ary heap is the set of its (weight, index) pairs.
 */
module QueryHeaps {
  import opened RoadGraph
  import opened OverlaySearch
  import Sorting

  datatype HeapData = HeapData(fromClique: bool, duration: int, distance: real)

  datatype HeapNode = HeapNode(queued: bool, node: nat, weight: int, data: HeapData)

  function LabelOf(n: HeapNode): Label {
    Label(Cost(n.weight, n.data.duration, n.data.distance), n.data.fromClique)
  }

  predicate IsTop(m: (int, nat), s: set<(int, nat)>) {
    m in s && forall e :: e in s ==> Sorting.PairAtMost(m, e)
  }

  lemma {:induction false} MinimumExists(s: set<(int, nat)>)
    requires s != {}
    ensures exists m :: m in s && IsTop(m, s)
    decreases |s|
  {
    var x :| x in s;
    var rest := s - {x};
    if rest == {} {
      assert s == {x} && IsTop(x, s);
    } else {
      MinimumExists(rest);
      var m :| m in rest && IsTop(m, rest);
      TopOfTwo(s, x, m);
    }
  }

  lemma TopOfTwo(s: set<(int, nat)>, x: (int, nat), m: (int, nat))
    requires x in s && IsTop(m, s - {x})
    ensures IsTop(if Sorting.PairAtMost(x, m) then x else m, s)
  {
    forall e | e in s && e != x ensures Sorting.PairAtMost(m, e) {
      assert e in s - {x};
    }
  }

  /** Entry `i` is the one its node is indexed at, and it holds that node's label. */
  ghost predicate EntryAgrees(nodes: seq<HeapNode>, index: seq<nat>, labels: map<nat, Label>, removed: set<nat>, i: nat)
    requires i < |nodes|
  {
    var n := nodes[i];
    && n.node < |index| && index[n.node] == i
    && n.node in labels && labels[n.node] == LabelOf(n)
    && n.queued == (n.node !in removed)
  }

  ghost predicate Represents(nodes: seq<HeapNode>, heap: set<(int, nat)>, index: seq<nat>, labels: map<nat, Label>,
                             removed: set<nat>)
  {
    && (forall i {:trigger nodes[i]} :: 0 <= i < |nodes| ==> EntryAgrees(nodes, index, labels, removed, i))
    && (forall v :: v in labels ==> v < |index| && index[v] < |nodes| && nodes[index[v]].node == v)
    && removed <= labels.Keys
    && (forall e :: e in heap <==> e.1 < |nodes| && nodes[e.1].queued && e.0 == nodes[e.1].weight)
  }

  lemma QueuedEntries(nodes: seq<HeapNode>, heap: set<(int, nat)>, index: seq<nat>, labels: map<nat, Label>,
                      removed: set<nat>)
    requires Represents(nodes, heap, index, labels, removed)
    ensures heap == {} <==> labels.Keys == removed
    ensures forall v :: v in labels && v !in removed ==> (labels[v].cost.weight, index[v]) in heap
  {
    forall v | v in labels && v !in removed ensures (labels[v].cost.weight, index[v]) in heap {
      var n := nodes[index[v]];
    }
    forall e | e in heap ensures nodes[e.1].node in labels.Keys - removed {
    }
  }

  /** Rewriting one entry, its label and its heap pair together keeps the representation. */
  lemma EntryUpdated(nodes: seq<HeapNode>, heap: set<(int, nat)>, index: seq<nat>, labels: map<nat, Label>,
                     removed: set<nat>, i: nat, n: HeapNode, heap': set<(int, nat)>, removed': set<nat>)
    requires Represents(nodes, heap, index, labels, removed)
    requires i < |nodes| && n.node == nodes[i].node
    requires removed' == (if n.queued then removed - {n.node} else removed + {n.node})
    requires heap' == heap - {(nodes[i].weight, i)} + (if n.queued then {(n.weight, i)} else {})
    ensures Represents(nodes[i := n], heap', index, labels[n.node := LabelOf(n)], removed')
  {
    var nodes', labels' := nodes[i := n], labels[n.node := LabelOf(n)];
    forall j | 0 <= j < |nodes'| ensures EntryAgrees(nodes', index, labels', removed', j) {
      assert EntryAgrees(nodes, index, labels, removed, j) && EntryAgrees(nodes, index, labels, removed, i);
    }
  }

  lemma EntryAppended(nodes: seq<HeapNode>, heap: set<(int, nat)>, index: seq<nat>, labels: map<nat, Label>,
                      removed: set<nat>, n: HeapNode)
    requires Represents(nodes, heap, index, labels, removed)
    requires n.queued && n.node < |index| && n.node !in labels
    ensures Represents(nodes + [n], heap + {(n.weight, |nodes|)}, index[n.node := |nodes|],
                       labels[n.node := LabelOf(n)], removed)
  {
    var nodes', index', labels' := nodes + [n], index[n.node := |nodes|], labels[n.node := LabelOf(n)];
    forall j | 0 <= j < |nodes'| ensures EntryAgrees(nodes', index', labels', removed, j) {
      assert j < |nodes| ==> EntryAgrees(nodes, index, labels, removed, j);
    }
  }

  class QueryHeap {
    var insertedNodes: seq<HeapNode>
    var heap: set<(int, nat)>
    var nodeIndex: seq<nat>

    ghost var labels: map<nat, Label>
    ghost var removed: set<nat>

    ghost predicate Valid()
      reads this
    {
      Represents(insertedNodes, heap, nodeIndex, labels, removed)
    }

    constructor (capacity: nat)
      ensures Valid() && labels == map[] && removed == {} && |nodeIndex| == capacity
    {
      insertedNodes, heap := [], {};
      nodeIndex := seq(capacity, _ => 0);
      labels, removed := map[], {};
    }

    /** Forgets all entries but leaves `nodeIndex` as it is. */
    method Clear()
      modifies this
      ensures Valid() && labels == map[] && removed == {} && |nodeIndex| == old(|nodeIndex|)
    {
      insertedNodes, heap := [], {};
      labels, removed := map[], {};
    }

    predicate Empty()
      reads this
      requires Valid()
      ensures Empty() <==> labels.Keys == removed
    {
      QueuedEntries(insertedNodes, heap, nodeIndex, labels, removed);
      heap == {}
    }

    /** Correct whatever a previous search left in `nodeIndex`. */
    predicate WasInserted(node: nat)
      reads this
      requires Valid() && node < |nodeIndex|
      ensures WasInserted(node) <==> node in labels
    {
      assert nodeIndex[node] < |insertedNodes| ==> insertedNodes[nodeIndex[node]].node in labels;
      nodeIndex[node] < |insertedNodes| && insertedNodes[nodeIndex[node]].node == node
    }

    function GetKey(node: nat): (w: int)
      reads this
      requires Valid() && node in labels
      ensures w == labels[node].cost.weight
    {
      insertedNodes[nodeIndex[node]].weight
    }

    function GetData(node: nat): (d: HeapData)
      reads this
      requires Valid() && node in labels
      ensures labels[node] == Label(Cost(labels[node].cost.weight, d.duration, d.distance), d.fromClique)
    {
      insertedNodes[nodeIndex[node]].data
    }

    method Insert(node: nat, weight: int, data: HeapData)
      requires Valid() && node < |nodeIndex| && node !in labels
      modifies this
      ensures Valid() && removed == old(removed) && |nodeIndex| == old(|nodeIndex|)
      ensures labels == old(labels)[node := Label(Cost(weight, data.duration, data.distance), data.fromClique)]
    {
      var index := |insertedNodes|;
      var entry := HeapNode(true, node, weight, data);
      EntryAppended(insertedNodes, heap, nodeIndex, labels, removed, entry);
      heap := heap + {(weight, index)};
      insertedNodes := insertedNodes + [entry];
      nodeIndex := nodeIndex[node := index];
      labels := labels[node := LabelOf(entry)];
    }

    /** Removes an entry of least weight; its label stays readable. */
    method DeleteMin() returns (node: nat)
      requires Valid() && labels.Keys != removed
      modifies this
      ensures Valid() && labels == old(labels) && |nodeIndex| == old(|nodeIndex|)
      ensures IsMinimum(labels, old(removed), node) && removed == old(removed) + {node}
    {
      QueuedEntries(insertedNodes, heap, nodeIndex, labels, removed);
      MinimumExists(heap);
      var top :| top in heap && IsTop(top, heap);
      var index := top.1;
      var entry := insertedNodes[index].(queued := false);
      node := entry.node;
      EntryUpdated(insertedNodes, heap, nodeIndex, labels, removed, index, entry, heap - {top}, removed + {node});
      heap := heap - {top};
      insertedNodes := insertedNodes[index := entry];
      removed := removed + {node};
      assert labels == labels[node := LabelOf(entry)];
    }

    /** Only legal for a node that is still queued. */
    method DecreaseKey(node: nat, weight: int)
      requires Valid() && node in labels && node !in removed
      modifies this
      ensures Valid() && removed == old(removed) && |nodeIndex| == old(|nodeIndex|)
      ensures labels
                == old(labels)[node := Label(old(labels)[node].cost.(weight := weight), old(labels)[node].fromClique)]
    {
      var index := nodeIndex[node];
      var entry := insertedNodes[index].(weight := weight);
      var heap' := heap - {(insertedNodes[index].weight, index)} + {(weight, index)};
      EntryUpdated(insertedNodes, heap, nodeIndex, labels, removed, index, entry, heap', removed);
      heap := heap';
      insertedNodes := insertedNodes[index := entry];
      labels := labels[node := LabelOf(entry)];
    }

    method SetData(node: nat, data: HeapData)
      requires Valid() && node in labels
      modifies this
      ensures Valid() && removed == old(removed) && |nodeIndex| == old(|nodeIndex|)
      ensures labels
                == var cost := Cost(old(labels)[node].cost.weight, data.duration, data.distance);
                    old(labels)[node := Label(cost, data.fromClique)]
    {
      var index := nodeIndex[node];
      var entry := insertedNodes[index].(data := data);
      ghost var heap' := heap - {(entry.weight, index)} + (if entry.queued then {(entry.weight, index)} else {});
      assert heap' == heap;
      EntryUpdated(insertedNodes, heap, nodeIndex, labels, removed, index, entry, heap', removed);
      insertedNodes := insertedNodes[index := entry];
      labels := labels[node := LabelOf(entry)];
    }
  }
}
