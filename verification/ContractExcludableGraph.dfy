/**
 Contracting a graph once for all exclusion filters: a shared part, and for each filter a
 core of its own, merged into one edge list.
 */
module ExcludableContraction {
  import opened ContractedEdges

  /** The nodes no filter excludes. */
  method AlwaysAllowed(filters: seq<seq<bool>>, n: nat) returns (allowed: seq<bool>)
    requires forall f :: f in filters ==> |f| == n
    ensures |allowed| == n && forall v :: 0 <= v < n ==> (allowed[v] <==> forall f :: f in filters ==> f[v])
  {
    allowed := seq(n, _ => true);
    for i := 0 to |filters|
      invariant |allowed| == n
      invariant forall v :: 0 <= v < n ==> (allowed[v] <==> forall m :: 0 <= m < i ==> filters[m][v])
    {
      ghost var before := allowed;
      for node := 0 to n
        invariant |allowed| == n
        invariant forall v :: 0 <= v < node ==> (allowed[v] <==> before[v] && filters[i][v])
        invariant forall v :: node <= v < n ==> allowed[v] == before[v]
      {
        allowed := allowed[node := allowed[node] && filters[i][node]];
      }
    }
  }

  // ---------- when an edge is stored twice ----------

  /** The edges of the first `k` cores, one list after the other. */
  ghost function CoreEdges(cores: seq<seq<QueryEdge>>, k: nat): seq<QueryEdge>
    requires k <= |cores|
  {
    if k == 0 then [] else CoreEdges(cores, k - 1) + cores[k - 1]
  }

  /** The first merge meets the shared edges in the order they were inserted in; behind it the container is sorted,
      and only the keys of what was merged before matter. */
  ghost predicate MergeIsClean(shared: seq<QueryEdge>, cores: seq<seq<QueryEdge>>, k: nat)
    requires k < |cores|
  {
    if k == 0 then MergesCleanly(shared, cores[0]) else CleanAgainst(shared + CoreEdges(cores, k), cores[k])
  }

  /** All of the first `k` merges are clean. */
  ghost predicate AllClean(shared: seq<QueryEdge>, cores: seq<seq<QueryEdge>>, k: nat)
    requires k <= |cores|
  {
    NoEdgeTwice(shared) && forall i: nat :: i < k ==> MergeIsClean(shared, cores, i)
  }

  /** Where the container stands after `k` merges. */
  ghost predicate Merged(edges: seq<QueryEdge>, shared: seq<QueryEdge>, cores: seq<seq<QueryEdge>>, k: nat)
    requires k <= |cores|
  {
    && (forall key :: Contains(edges, key) <==> Contains(shared + CoreEdges(cores, k), key))
    && (if k == 0 then edges == shared else InOrder(edges))
    && (NoEdgeTwice(edges) <==> AllClean(shared, cores, k))
  }

  lemma NothingMerged(shared: seq<QueryEdge>, cores: seq<seq<QueryEdge>>)
    ensures Merged(shared, shared, cores, 0)
  {
    hide Key, Contains;
    assert shared + CoreEdges(cores, 0) == shared;
  }

  lemma MergeStep(before: seq<QueryEdge>, after: seq<QueryEdge>, shared: seq<QueryEdge>, cores: seq<seq<QueryEdge>>,
                  k: nat)
    requires k < |cores| && Merged(before, shared, cores, k) && InOrder(after)
    requires forall key :: Contains(after, key) <==> Contains(before, key) || Contains(cores[k], key)
    requires NoEdgeTwice(after) <==> MergesCleanly(before, cores[k])
    ensures Merged(after, shared, cores, k + 1)
  {
    hide Key, Contains, InOrder, NoEdgeTwice, CleanAgainst, MergesCleanly;
    var stored := shared + CoreEdges(cores, k);
    assert shared + CoreEdges(cores, k + 1) == stored + cores[k];
    forall key ensures Contains(after, key) <==> Contains(shared + CoreEdges(cores, k + 1), key) {
      ContainsMore(stored, cores[k], key);
    }
    CleanMeansDistinct(before, cores[k]);
    if k > 0 && NoEdgeTwice(before) {
      SortedMergesCleanlyIff(before, cores[k]);
      SameKeysSameCondition(before, stored, cores[k]);
    }
    assert AllClean(shared, cores, k + 1) <==> AllClean(shared, cores, k) && MergeIsClean(shared, cores, k);
  }

  lemma CleanMeansDistinct(edges: seq<QueryEdge>, news: seq<QueryEdge>)
    ensures MergesCleanly(edges, news) ==> NoEdgeTwice(edges)
  {
  }

  /** Shared edges have an end outside the core and core edges have none: the first merge is clean exactly if neither
      list repeats an edge, whatever their order. */
  lemma FirstMergeIsClean(edges: seq<QueryEdge>, core: seq<bool>, news: seq<QueryEdge>)
    requires forall e :: e in news ==> InCore(core, e)
    ensures MergesCleanly(WithoutCore(edges, core), news)
       <==> NoEdgeTwice(WithoutCore(edges, core)) && NoEdgeTwice(news)
  {
    hide Key, WithoutCore, MergesCleanly, NoEdgeTwice;
    var shared := WithoutCore(edges, core);
    forall j | 0 <= j < |news| ensures !Contains(shared, Key(news[j])) {
      if Contains(shared, Key(news[j])) {
        var k :| 0 <= k < |shared| && Key(shared[k]) == Key(news[j]);
        assert shared[k] in shared && news[j] in news;
        SameKeySameEnds(shared[k], news[j]);
      }
    }
    NewEdgesMergeCleanlyIff(shared, news);
  }

  lemma SameKeySameEnds(a: QueryEdge, b: QueryEdge)
    requires Key(a) == Key(b)
    ensures a.source == b.source && a.target == b.target
  {
    assert Key(a)[0] == Key(b)[0] && Key(a)[1] == Key(b)[1];
  }

  // ---------- the shared part ----------

  predicate InCore(core: seq<bool>, e: QueryEdge) {
    e.source < |core| && e.target < |core| && core[e.source] && core[e.target]
  }

  function WithoutCore(edges: seq<QueryEdge>, core: seq<bool>): (r: seq<QueryEdge>)
    ensures forall e :: e in r <==> e in edges && !InCore(core, e)
  {
    if edges == [] then []
    else
      assert edges == [edges[0]] + edges[1..];
      (if InCore(core, edges[0]) then [] else [edges[0]]) + WithoutCore(edges[1..], core)
  }

  /** Some edge of the shared part has this key, and the filter allows it. */
  ghost predicate SharedBy(edges: seq<QueryEdge>, core: seq<bool>, filter: seq<bool>, key: seq<int>) {
    exists e :: e in edges && !InCore(core, e) && Allows(filter, e) && Key(e) == key
  }

  ghost predicate ViewHas(edges: seq<QueryEdge>, view: seq<bool>, key: seq<int>) {
    |view| == |edges| && exists k :: 0 <= k < |edges| && view[k] && Key(edges[k]) == key
  }

  /** Bit `i` shows the shared edges the filter allows. */
  lemma FilteredView(edges: seq<QueryEdge>, core: seq<bool>, filter: seq<bool>, flags: seq<set<nat>>, i: nat,
                     key: seq<int>)
    requires var shared := WithoutCore(edges, core);
             |flags| == |shared| && forall k :: 0 <= k < |shared| ==> (i in flags[k] <==> Allows(filter, shared[k]))
    ensures Shows(WithoutCore(edges, core), flags, i, key) <==> SharedBy(edges, core, filter, key)
  {
    hide Key, WithoutCore;
    var shared := WithoutCore(edges, core);
    if k :| 0 <= k < |shared| && i in flags[k] && Key(shared[k]) == key {
      assert shared[k] in shared;
    }
    if e :| e in edges && !InCore(core, e) && Allows(filter, e) && Key(e) == key {
      assert e in shared;
      var k :| 0 <= k < |shared| && shared[k] == e;
      assert i in flags[k];
    }
  }

  /** One `Filter` call for each filter. */
  method FilterAll(container: ContractedEdgeContainer, filters: seq<seq<bool>>)
    requires container.Valid() && |filters| <= NUM_FLAGS && forall f :: f in filters ==> EndsIn(container.edges, |f|)
    modifies container`flags
    ensures container.Valid()
    ensures forall i: nat, k :: i < |filters| && 0 <= k < |container.edges| ==>
              (i in container.flags[k] <==> Allows(filters[i], container.edges[k]))
  {
    for i := 0 to |filters|
      invariant container.Valid()
      invariant forall m: nat, k :: m < i && 0 <= k < |container.edges| ==>
                  (m in container.flags[k] <==> Allows(filters[m], container.edges[k]))
    {
      container.Filter(filters[i], i);
    }
  }

  /**
   One edge list for all filters. View `i` shows exactly the shared edges that filter `i`
   allows and the edges of the core contracted for filter `i`. The contractions are parameters.
   */
  method ContractExcludableGraph(n: nat, filters: seq<seq<bool>>, full: seq<QueryEdge>,
                                 contractShared: seq<bool> -> (seq<QueryEdge>, seq<bool>),
                                 contractCore: (seq<bool>, seq<bool>) -> seq<QueryEdge>)
    returns (edges: seq<QueryEdge>, views: seq<seq<bool>>, allowed: seq<bool>)
    requires |filters| <= 8 && forall f :: f in filters ==> |f| == n
    requires forall a :: |a| == n ==> EndsIn(contractShared(a).0, n)
    ensures |views| == |filters| && forall i :: 0 <= i < |views| ==> |views[i]| == |edges|
    ensures |allowed| == n && forall v :: 0 <= v < n ==> (allowed[v] <==> forall f :: f in filters ==> f[v])
    ensures |filters| == 1 && (forall v :: 0 <= v < n ==> allowed[v]) ==>
              edges == full && forall k :: 0 <= k < |edges| ==> views[0][k]
    ensures !(|filters| == 1 && (forall v :: 0 <= v < n ==> allowed[v])) ==>
              var (shared, core) := contractShared(allowed);
              forall i: nat, key :: i < |filters| ==>
                (ViewHas(edges, views[i], key) <==>
                 SharedBy(shared, core, filters[i], key) || Contains(contractCore(core, filters[i]), key))
    ensures !(|filters| == 1 && (forall v :: 0 <= v < n ==> allowed[v])) ==>
              var (shared, core) := contractShared(allowed);
              forall i: nat, e :: i < |filters| ==>
                (ViewHasEdge(edges, views[i], e) <==>
                 SharedEdge(shared, core, filters[i], e) || HasEdge(contractCore(core, filters[i]), e))
    ensures !(|filters| == 1 && (forall v :: 0 <= v < n ==> allowed[v])) ==>
              var (shared, core) := contractShared(allowed);
              var cores := seq(|filters|, i requires 0 <= i < |filters| => contractCore(core, filters[i]));
              NoEdgeTwice(edges) <==> AllClean(WithoutCore(shared, core), cores, |cores|)
  {
    hide Key, Contains, SharedBy, Shows, WithoutCore, InOrder, NoEdgeTwice, Merged, AllClean, MergesCleanly, ViewHas;
    hide SharedEdge, HasEdge, ShowsEdge, Agree, ViewHasEdge;
    allowed := AlwaysAllowed(filters, n);
    if |filters| == 1 && forall v :: 0 <= v < n ==> allowed[v] {
      edges := full;
      views := [seq(|full|, _ => true)];
      return;
    }
    var (shared, core) := contractShared(allowed);
    var container := new ContractedEdgeContainer();
    container.Insert(WithoutCore(shared, core));
    assert EndsIn(container.edges, n) by { SharedEndsIn(shared, core, n); }
    FilterAll(container, filters);
    ghost var flags := container.flags;
    forall i: nat, key | i < |filters|
      ensures Shows(container.edges, flags, i, key) <==> SharedBy(shared, core, filters[i], key)
    {
      FilteredView(shared, core, filters[i], flags, i, key);
    }
    ghost var cores := seq(|filters|, i requires 0 <= i < |filters| => contractCore(core, filters[i]));
    NothingMerged(container.edges, cores);
    for i := 0 to |filters|
      invariant container.Valid() && container.index == i
      invariant Merged(container.edges, WithoutCore(shared, core), cores, i)
      invariant forall m: nat, key :: m < |filters| ==>
                  (Shows(container.edges, container.flags, m, key) <==>
                   SharedBy(shared, core, filters[m], key) || (m < i && Contains(contractCore(core, filters[m]), key)))
    {
      ghost var before := container.edges;
      container.Merge(contractCore(core, filters[i]));
      MergeStep(before, container.edges, WithoutCore(shared, core), cores, i);
    }
    MergedMeans(container.edges, WithoutCore(shared, core), cores);
    edges := container.edges;
    views := container.MakeEdgeFilters();
    forall i: nat, key | i < |filters|
      ensures ViewHas(edges, views[i], key) <==> Shows(container.edges, container.flags, i, key)
    {
      ViewShows(edges, container.flags, views[i], i, key);
    }
    forall i: nat, e | i < |filters|
      ensures ViewHasEdge(edges, views[i], e)
         <==> SharedEdge(shared, core, filters[i], e) || HasEdge(contractCore(core, filters[i]), e)
    {
      ViewIsByEdge(edges, views[i], shared, core, filters[i], contractCore(core, filters[i]), e);
    }
  }

  lemma ViewIsByEdge(edges: seq<QueryEdge>, view: seq<bool>, shared: seq<QueryEdge>, core: seq<bool>, filter: seq<bool>,
                     own: seq<QueryEdge>, e: QueryEdge)
    requires ViewHas(edges, view, Key(e)) <==> SharedBy(shared, core, filter, Key(e)) || Contains(own, Key(e))
    ensures ViewHasEdge(edges, view, e) <==> SharedEdge(shared, core, filter, e) || HasEdge(own, e)
  {
    hide Key, Contains, SharedBy, SharedEdge, HasEdge, ViewHas, ViewHasEdge;
    ViewByEdge(edges, view, e);
    SharedByEdge(shared, core, filter, e);
    ViewsByEdge(own, [], 0, e);
  }

  lemma MergedMeans(edges: seq<QueryEdge>, shared: seq<QueryEdge>, cores: seq<seq<QueryEdge>>)
    requires Merged(edges, shared, cores, |cores|)
    ensures NoEdgeTwice(edges) <==> AllClean(shared, cores, |cores|)
  {
  }

  /** A shared edge that the filter allows at both ends agrees with `e`. */
  ghost predicate SharedEdge(edges: seq<QueryEdge>, core: seq<bool>, filter: seq<bool>, e: QueryEdge) {
    exists x :: x in edges && IsShared(x, core, filter) && Agree(x, e)
  }

  ghost predicate IsShared(x: QueryEdge, core: seq<bool>, filter: seq<bool>) {
    && !(x.source < |core| && x.target < |core| && core[x.source] && core[x.target])
    && x.source < |filter| && x.target < |filter| && filter[x.source] && filter[x.target]
  }

  ghost predicate ViewHasEdge(edges: seq<QueryEdge>, view: seq<bool>, e: QueryEdge) {
    |view| == |edges| && exists k :: 0 <= k < |edges| && view[k] && Agree(edges[k], e)
  }

  lemma SharedByEdge(edges: seq<QueryEdge>, core: seq<bool>, filter: seq<bool>, e: QueryEdge)
    ensures SharedBy(edges, core, filter, Key(e)) <==> SharedEdge(edges, core, filter, e)
  {
    hide Key, Agree;
    forall x ensures Key(x) == Key(e) <==> Agree(x, e) {
      KeyMeans(x, e);
    }
  }

  lemma ViewByEdge(edges: seq<QueryEdge>, view: seq<bool>, e: QueryEdge)
    ensures ViewHas(edges, view, Key(e)) <==> ViewHasEdge(edges, view, e)
  {
    hide Key, Agree;
    forall k | 0 <= k < |edges| ensures Key(edges[k]) == Key(e) <==> Agree(edges[k], e) {
      KeyMeans(edges[k], e);
    }
  }

  lemma SharedEndsIn(edges: seq<QueryEdge>, core: seq<bool>, n: nat)
    requires EndsIn(edges, n)
    ensures EndsIn(WithoutCore(edges, core), n)
  {
    hide WithoutCore;
    var r := WithoutCore(edges, core);
    forall k | 0 <= k < |r| ensures r[k].source < n && r[k].target < n {
      assert r[k] in r;
      var j :| 0 <= j < |edges| && edges[j] == r[k];
    }
  }

  lemma ViewShows(edges: seq<QueryEdge>, flags: seq<set<nat>>, view: seq<bool>, i: nat, key: seq<int>)
    requires |flags| == |edges| == |view| && forall k :: 0 <= k < |edges| ==> (view[k] <==> i in flags[k])
    ensures ViewHas(edges, view, key) <==> Shows(edges, flags, i, key)
  {
    hide Key;
  }
}
