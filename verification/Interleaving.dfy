/**
 The cells of one level are customized in parallel. Workers settle node by node and store value
 by value, in any interleaving, and a search may read each value at any moment of the level.
 */
module Interleaving {
  import opened RoadGraph
  import opened OverlayNetwork
  import opened OverlaySearch
  import opened MultiLevelPartitions
  import opened MultiLevelGraphs
  import opened CellStorages
  import opened CellMetrics
  import opened CellCustomizers
  import opened Customization
  import opened QueryHeaps

  /** One level to customize. */
  datatype Job = Job(mlp: MultiLevelPartition, graph: MultiLevelGraph, storage: CellStorage, net: Network, level: nat)
  {
    ghost predicate Ready() {
      Setup(mlp, graph, storage, net) && 1 <= level <= |net.cells|
    }

    ghost predicate HasCell(c: nat) {
      storage.Valid() && storage.HasCell(level, c)
    }

    function Sources(c: nat): seq<nat>
      requires HasCell(c)
    {
      storage.GetSourceNodes(level, c)
    }

    function Destinations(c: nat): seq<nat>
      requires HasCell(c)
    {
      storage.GetDestinationNodes(level, c)
    }

    ghost predicate IsSlot(c: nat, i: nat, j: nat) {
      HasCell(c) && i < |Sources(c)| && j < |Destinations(c)|
    }

    ghost function Slot(c: nat, i: nat, j: nat): nat
      requires HasCell(c)
    {
      CellSlot(storage, level, c, i, j)
    }

    ghost predicate Allowed(v: nat) {
      v < |net.allowed| && net.allowed[v]
    }
  }

  /** The worker of a cell: between two sources, searching from one, or storing what the search found. It stores
      weight, duration and distance of a column one after the other; `part` says which comes next. */
  datatype Worker =
    | Between(row: nat)
    | Searching(row: nat, labels: map<nat, Label>, removed: set<nat>)
    | Writing(row: nat, column: nat, part: nat, labels: map<nat, Label>)

  datatype State = State(vals: MetricValues, workers: map<nat, Worker>)

  datatype Step =
    | Skip(c: nat)
    | Begin(c: nat)
    | Settle(c: nat, view: MetricValues, node: nat, cliqueArcs: seq<Arc>, edgeArcs: seq<Arc>)
    | Finish(c: nat)
    | Store(c: nat)
    | EndRow(c: nat)

  // ---------- the steps ----------

  /** Each value of `view` was in its slot at some moment of `history`, every value at its own. */
  ghost predicate SeenDuring(view: MetricValues, history: seq<State>, size: nat) {
    && view.Sized(size)
    && forall k: nat :: k < size ==>
         && SeenWeight(history, k, view.weights[k]) && SeenDuration(history, k, view.durations[k])
         && SeenDistance(history, k, view.distances[k])
  }

  ghost predicate SeenWeight(history: seq<State>, k: nat, weight: Option<int>) {
    exists t :: 0 <= t < |history| && k < |history[t].vals.weights| && history[t].vals.weights[k] == weight
  }

  ghost predicate SeenDuration(history: seq<State>, k: nat, duration: int) {
    exists t :: 0 <= t < |history| && k < |history[t].vals.durations| && history[t].vals.durations[k] == duration
  }

  ghost predicate SeenDistance(history: seq<State>, k: nat, distance: real) {
    exists t :: 0 <= t < |history| && k < |history[t].vals.distances| && history[t].vals.distances[k] == distance
  }

  /** The round removes a cheapest node and lists what leaves it: clique arcs by the values `view`, and edges. */
  ghost predicate IsRoundOn(job: Job, c: nat, row: nat, view: MetricValues, r: Round)
    requires job.HasCell(c) && row < |job.Sources(c)|
  {
    var q := Query(job.net, job.level, job.Sources(c)[row]);
    q.Valid() && IsRound(q, CliqueBelow(job.storage, job.net, view, job.level), r)
  }

  ghost predicate Enabled(job: Job, history: seq<State>, s: State, step: Step) {
    && job.HasCell(step.c) && step.c in s.workers && s.vals.Sized(|s.vals.weights|)
    && var w := s.workers[step.c];
    && w.row < |job.Sources(step.c)|
    && match step
       case Skip(c) => w.Between? && !job.Allowed(job.Sources(c)[w.row])
       case Begin(c) => w.Between? && job.Allowed(job.Sources(c)[w.row])
       case Settle(c, view, node, cliqueArcs, edgeArcs) =>
         && w.Searching? && SeenDuring(view, history, |s.vals.weights|)
         && IsRoundOn(job, c, w.row, view, Round(w.labels, w.removed, node, cliqueArcs, edgeArcs))
       case Finish(c) => w.Searching? && SearchDone(w.labels, w.removed, job.net.allowed, job.Destinations(c))
       case Store(c) =>
         && w.Writing? && w.part < 3 && w.column < |job.Destinations(c)|
         && job.Slot(c, w.row, w.column) < |s.vals.weights|
       case EndRow(c) => w.Writing? && w.column == |job.Destinations(c)|
  }

  function SlotWeight(cost: Option<Cost>): Option<int> {
    if cost.Some? then Some(cost.value.weight) else None
  }

  function SlotDuration(cost: Option<Cost>): int {
    if cost.Some? then cost.value.duration else MAXIMAL_EDGE_DURATION
  }

  function SlotDistance(cost: Option<Cost>): real {
    if cost.Some? then cost.value.distance else INVALID_EDGE_DISTANCE
  }

  /** The values with one part of `cost` stored in slot `k`. */
  ghost function Stored(vals: MetricValues, k: nat, cost: Option<Cost>, part: nat): (r: MetricValues)
    requires vals.Sized(|vals.weights|) && k < |vals.weights| && part < 3
    ensures r.Sized(|vals.weights|) && (PartHeld(vals, k, cost, part) ==> PartHeld(r, k, cost, part + 1))
    ensures forall m: nat :: m < |vals.weights| && m != k ==> SameAt(vals, r, m)
  {
    match part
    case 0 => vals.(weights := vals.weights[k := SlotWeight(cost)])
    case 1 => vals.(durations := vals.durations[k := SlotDuration(cost)])
    case 2 => vals.(distances := vals.distances[k := SlotDistance(cost)])
  }

  /** The first parts of `cost` are in slot `k`. */
  ghost predicate PartHeld(vals: MetricValues, k: nat, cost: Option<Cost>, part: nat)
    requires vals.Sized(|vals.weights|) && k < |vals.weights|
  {
    && (part > 0 ==> vals.weights[k] == SlotWeight(cost))
    && (part > 1 ==> vals.durations[k] == SlotDuration(cost))
    && (part > 2 ==> vals.distances[k] == SlotDistance(cost))
  }

  function AfterStore(w: Worker): Worker
    requires w.Writing?
  {
    if w.part < 2 then w.(part := w.part + 1) else w.(column := w.column + 1, part := 0)
  }

  ghost function Apply(job: Job, history: seq<State>, s: State, step: Step): State
    requires Enabled(job, history, s, step)
  {
    var w := s.workers[step.c];
    match step
    case Skip(c) => s.(workers := s.workers[c := Between(w.row + 1)])
    case Begin(c) => s.(workers := s.workers[c := Searching(w.row, FirstLabels(job.Sources(c)[w.row]), {})])
    case Settle(c, view, node, cliqueArcs, edgeArcs) =>
      var labels := RelaxNodeLabels(w.labels, node, cliqueArcs, edgeArcs);
      s.(workers := s.workers[c := Searching(w.row, labels, w.removed + {node})])
    case Finish(c) => s.(workers := s.workers[c := Writing(w.row, 0, 0, w.labels)])
    case Store(c) => AfterStoring(job, s, c)
    case EndRow(c) => s.(workers := s.workers[c := Between(w.row + 1)])
  }

  /** The worker of `c` has a value to store and room for it. */
  ghost predicate Stores(job: Job, s: State, c: nat) {
    && c in s.workers && s.workers[c].Writing? && s.workers[c].part < 3 && s.vals.Sized(|s.vals.weights|)
    && job.IsSlot(c, s.workers[c].row, s.workers[c].column)
    && job.Slot(c, s.workers[c].row, s.workers[c].column) < |s.vals.weights|
  }

  ghost function AfterStoring(job: Job, s: State, c: nat): (r: State)
    requires Stores(job, s, c)
    ensures r.vals.Sized(|s.vals.weights|)
  {
    var w := s.workers[c];
    State(Stored(s.vals, job.Slot(c, w.row, w.column), LabelSlot(w.labels, job.Destinations(c)[w.column]), w.part),
          s.workers[c := AfterStore(w)])
  }

  /** A run: all workers start at their first source, and then steps of any workers follow. */
  ghost predicate IsRun(job: Job, run: seq<State>) {
    && run != []
    && (forall c: nat :: job.HasCell(c) ==> c in run[0].workers && run[0].workers[c] == Between(0))
    && forall i :: 0 < i < |run| ==> IsStep(job, run[..i], run[i - 1], run[i])
  }

  ghost predicate IsStep(job: Job, history: seq<State>, s: State, r: State) {
    exists step :: Enabled(job, history, s, step) && r == Apply(job, history, s, step)
  }

  /** A run from `start` in which all workers get through, leaving `end`. */
  ghost predicate IsFullRun(job: Job, run: seq<State>, start: MetricValues, end: MetricValues) {
    IsRun(job, run) && run[0].vals == start && run[|run| - 1].vals == end && Finished(job, run[|run| - 1])
  }

  ghost predicate Finished(job: Job, s: State) {
    forall c: nat :: job.HasCell(c) ==> c in s.workers && s.workers[c] == Between(|job.Sources(c)|)
  }

  // ---------- what every step keeps ----------

  ghost predicate InLevel(job: Job, k: nat) {
    exists c: nat :: job.HasCell(c) && InBlock(job.storage, job.level, c, k)
  }

  /** Equal except in the blocks of the level. */
  ghost predicate SameOffLevel(job: Job, a: MetricValues, b: MetricValues) {
    && a.Sized(|a.weights|) && b.Sized(|a.weights|)
    && forall k: nat :: k < |a.weights| && !InLevel(job, k) ==> SameAt(a, b, k)
  }

  predicate Done(w: Worker, i: nat, j: nat) {
    i < w.row || (w.Writing? && i == w.row && j < w.column)
  }

  /** A slot that is done is exact; one that is not done and will be skipped is still invalid. */
  ghost predicate SlotGood(job: Job, vals: MetricValues, w: Worker, c: nat, i: nat, j: nat)
    requires job.IsSlot(c, i, j) && job.net.Shaped() && job.level <= |job.net.cells| && vals.Sized(|vals.weights|)
  {
    if Done(w, i, j) then SlotExact(job.storage, job.net, vals, job.level, c, i, j)
    else ExcludedSlotInvalid(job.storage, job.net, vals, job.level, c, i, j)
  }

  ghost function CliqueFrom(job: Job, vals: MetricValues): Clique {
    CliqueBelow(job.storage, job.net, vals, job.level)
  }

  /** A search keeps its invariant, and what is about to be written is exact. */
  ghost predicate PlaceGood(job: Job, start: MetricValues, w: Worker, c: nat)
    requires job.HasCell(c) && job.net.Shaped() && job.level <= |job.net.cells|
  {
    && w.row <= |job.Sources(c)|
    && (!w.Between? ==> w.row < |job.Sources(c)| && job.Allowed(job.Sources(c)[w.row]))
    && (w.Searching? ==> SearchGood(job, start, w, c))
    && (w.Writing? ==>
          && w.column <= |job.Destinations(c)| && w.part < 3
          && forall j: nat :: j < |job.Destinations(c)| ==> LabelGood(job, w.labels, c, w.row, j))
  }

  ghost predicate SearchGood(job: Job, start: MetricValues, w: Worker, c: nat)
    requires job.HasCell(c) && w.Searching? && w.row < |job.Sources(c)|
  {
    var q := Query(job.net, job.level, job.Sources(c)[w.row]);
    q.Valid() && SearchInvariant(q, CliqueFrom(job, start), w.labels, w.removed)
  }

  /** What has been stored of the column in work is there. */
  ghost predicate PartGood(job: Job, vals: MetricValues, w: Worker, c: nat)
    requires job.HasCell(c) && vals.Sized(|vals.weights|)
  {
    w.Writing? && w.part > 0 ==>
      && w.column < |job.Destinations(c)| && job.Slot(c, w.row, w.column) < |vals.weights|
      && PartHeld(vals, job.Slot(c, w.row, w.column), LabelSlot(w.labels, job.Destinations(c)[w.column]), w.part)
  }

  ghost predicate LabelGood(job: Job, labels: map<nat, Label>, c: nat, i: nat, j: nat)
    requires job.IsSlot(c, i, j) && job.net.Shaped() && job.level <= |job.net.cells|
  {
    var v := job.Destinations(c)[j];
    Exact(job.net.edges, job.net.Region(job.level, c), job.Sources(c)[i], v, LabelSlot(labels, v))
  }

  ghost predicate WorkerGood(job: Job, start: MetricValues, s: State, c: nat)
    requires job.HasCell(c) && job.net.Shaped() && job.level <= |job.net.cells| && s.vals.Sized(|s.vals.weights|)
  {
    && c in s.workers && PlaceGood(job, start, s.workers[c], c) && PartGood(job, s.vals, s.workers[c], c)
    && forall i: nat, j: nat :: job.IsSlot(c, i, j) ==> SlotGood(job, s.vals, s.workers[c], c, i, j)
  }

  ghost predicate Good(job: Job, start: MetricValues, s: State) {
    && job.net.Shaped() && job.level <= |job.net.cells|
    && SameOffLevel(job, start, s.vals)
    && forall c: nat :: job.HasCell(c) ==> WorkerGood(job, start, s, c)
  }

  // ---------- a search sees the exact level below ----------

  lemma JobFacts(job: Job)
    requires job.Ready()
    ensures job.storage.Valid() && job.storage.Consecutive() && job.storage.ProductsFit() && job.net.Shaped()
    ensures LaidOut(job.storage, job.net) && job.net.WellFormed() && job.net.EdgesInRange()
            && |job.net.allowed| == job.net.numNodes
    ensures 1 <= job.level <= |job.net.cells|
  {
    SetupFacts(job.mlp, job.graph, job.storage, job.net);
    hide Network.Mirrored, Network.OnLinks, PositiveWeights, LaidOut;
  }

  /** Slots of other levels lie in no block of this level. */
  lemma OtherLevelsAreOff(job: Job, level: nat, c: nat, i: nat, j: nat)
    requires job.storage.Valid() && job.storage.Consecutive() && job.storage.ProductsFit() && level != job.level
    requires job.storage.HasCell(level, c)
    requires i < |job.storage.GetSourceNodes(level, c)| && j < |job.storage.GetDestinationNodes(level, c)|
    ensures !InLevel(job, CellSlot(job.storage, level, c, i, j))
  {
    hide CellStorage.Consecutive, CellStorage.ProductsFit, InBlock, CellSlot;
    forall c': nat | job.HasCell(c')
      ensures !InBlock(job.storage, job.level, c', CellSlot(job.storage, level, c, i, j))
    {
      SlotNotInOtherBlock(job.storage, level, c, i, j, job.level, c');
    }
  }

  lemma OtherLevelsStayExact(job: Job, a: MetricValues, b: MetricValues, level: nat)
    requires job.storage.Valid() && job.storage.Consecutive() && job.storage.ProductsFit() && job.net.Shaped()
    requires level != job.level && level <= |job.net.cells|
    requires SameOffLevel(job, a, b) && LevelExact(job.storage, job.net, a, level)
    ensures LevelExact(job.storage, job.net, b, level)
  {
    hide Exact, CellStorage.Consecutive, CellStorage.ProductsFit, InLevel;
    forall c: nat, i: nat, j: nat |
      && job.storage.HasCell(level, c)
      && i < |job.storage.GetSourceNodes(level, c)| && j < |job.storage.GetDestinationNodes(level, c)|
      ensures SlotExact(job.storage, job.net, b, level, c, i, j)
    {
      assert CellExact(job.storage, job.net, a, level, c);
      assert SlotExact(job.storage, job.net, a, level, c, i, j);
      OtherLevelsAreOff(job, level, c, i, j);
      assert SameAt(a, b, CellSlot(job.storage, level, c, i, j));
    }
  }

  lemma SeenIsStart(job: Job, start: MetricValues, history: seq<State>, view: MetricValues, k: nat)
    requires forall t :: 0 <= t < |history| ==> SameOffLevel(job, start, history[t].vals)
    requires SeenDuring(view, history, |start.weights|) && k < |start.weights| && !InLevel(job, k)
    ensures start.Sized(|start.weights|) && SameAt(start, view, k)
  {
    hide InLevel;
    assert SeenWeight(history, k, view.weights[k]) && SeenDuration(history, k, view.durations[k])
           && SeenDistance(history, k, view.distances[k]);
    var t :| 0 <= t < |history| && k < |history[t].vals.weights| && history[t].vals.weights[k] == view.weights[k];
    assert SameOffLevel(job, start, history[t].vals) && SameAt(start, history[t].vals, k);
    t :| 0 <= t < |history| && k < |history[t].vals.durations| && history[t].vals.durations[k] == view.durations[k];
    assert SameOffLevel(job, start, history[t].vals) && SameAt(start, history[t].vals, k);
    t :| 0 <= t < |history| && k < |history[t].vals.distances| && history[t].vals.distances[k] == view.distances[k];
    assert SameOffLevel(job, start, history[t].vals) && SameAt(start, history[t].vals, k);
  }

  /** Whenever its values were read, a view has the level below exact. */
  lemma ViewIsExactBelow(job: Job, start: MetricValues, history: seq<State>, view: MetricValues)
    requires job.Ready() && BelowExact(job.storage, job.net, start, job.level)
    requires forall t :: 0 <= t < |history| ==> SameOffLevel(job, start, history[t].vals)
    requires SeenDuring(view, history, |start.weights|)
    ensures BelowExact(job.storage, job.net, view, job.level)
  {
    JobFacts(job);
    hide Job.Ready, LaidOut, CellStorage.Consecutive, CellStorage.ProductsFit, Network.WellFormed, LevelExact, InLevel;
    forall k: nat | k < |start.weights| && !InLevel(job, k) ensures SameAt(start, view, k) {
      SeenIsStart(job, start, history, view, k);
    }
    assert SameOffLevel(job, start, view);
    if job.level > 1 {
      OtherLevelsStayExact(job, start, view, job.level - 1);
    }
  }

  /** Two cliques that are exact are the same. */
  lemma GoodCliquesAgree(net: Network, level: nat, a: Clique, b: Clique, x: nat, y: nat)
    requires net.WellFormed() && level <= |net.cells| && GoodClique(net, level, a) && GoodClique(net, level, b)
    ensures a(x, y) == b(x, y)
  {
    hide Exact;
    if a(x, y).Some? || b(x, y).Some? {
      assert x < net.numNodes && y < net.numNodes && net.Cell(level, x) == net.Cell(level, y);
      ExactIsUnique(net.edges, net.RegionOf(level, x), x, y, a(x, y), b(x, y));
    }
  }

  lemma GoodCliquesListTheSame(net: Network, level: nat, a: Clique, b: Clique, x: nat, arcs: seq<Arc>)
    requires net.WellFormed() && level <= |net.cells| && GoodClique(net, level, a) && GoodClique(net, level, b)
    requires ListsClique(a, x, arcs)
    ensures ListsClique(b, x, arcs)
  {
    hide Network.WellFormed, GoodClique;
    forall y: nat ensures a(x, y) == b(x, y) {
      GoodCliquesAgree(net, level, a, b, x, y);
    }
  }

  /** A round over one exact clique keeps the invariant of a search over another. */
  lemma RoundOverAnyGoodClique(q: Query, a: Clique, b: Clique, r: Round)
    requires q.Valid() && GoodClique(q.net, q.level - 1, a) && GoodClique(q.net, q.level - 1, b)
    requires IsRound(q, a, r) && SearchInvariant(q, b, r.labels, r.removed)
    ensures r.node in r.labels
    ensures SearchInvariant(q, b, RelaxNodeLabels(r.labels, r.node, r.cliqueArcs, r.edgeArcs), r.removed + {r.node})
  {
    hide SearchInvariant, GoodClique, RelaxNodeLabels, ListsClique, ListsEdges, Query.Valid, IsMinimum, IsRound;
    hide Network.WellFormed;
    QueryFacts(q);
    RoundFacts(q, a, r);
    GoodCliquesListTheSame(q.net, q.level - 1, a, b, r.node, r.cliqueArcs);
    SettleNode(q, b, r.labels, r.removed, r.node, r.cliqueArcs, r.edgeArcs);
  }

  lemma RoundFacts(q: Query, clique: Clique, r: Round)
    requires q.Valid() && IsRound(q, clique, r)
    ensures IsMinimum(r.labels, r.removed, r.node) && r.node in r.labels
    ensures ListsClique(clique, r.node, r.cliqueArcs) && ListsEdges(q, r.node, r.edgeArcs)
  {
    hide Query.Valid, ListsClique, ListsEdges;
  }

  lemma QueryFacts(q: Query)
    requires q.Valid()
    ensures q.net.WellFormed() && 1 <= q.level <= |q.net.cells|
  {
  }

  /** A round over such a view keeps the invariant of a search over the values the level started from. */
  lemma RoundKeepsSearch(job: Job, start: MetricValues, view: MetricValues, c: nat, w: Worker, r: Round)
    requires job.Ready() && job.HasCell(c) && w.Searching? && w.row < |job.Sources(c)|
    requires BelowExact(job.storage, job.net, start, job.level) && BelowExact(job.storage, job.net, view, job.level)
    requires SearchGood(job, start, w, c) && r.labels == w.labels && r.removed == w.removed
    requires IsRoundOn(job, c, w.row, view, r)
    ensures r.node in r.labels
    ensures SearchGood(job, start, Searching(w.row, RelaxNodeLabels(r.labels, r.node, r.cliqueArcs, r.edgeArcs),
                                             r.removed + {r.node}), c)
  {
    hide Setup, BelowExact, SearchInvariant, GoodClique, RelaxNodeLabels, Query.Valid, IsRound, CliqueBelow;
    hide Network.WellFormed, CellStorage.Valid;
    BelowIsGood(job.mlp, job.graph, job.storage, job.net, start, job.level);
    BelowIsGood(job.mlp, job.graph, job.storage, job.net, view, job.level);
    var q := Query(job.net, job.level, job.Sources(c)[w.row]);
    QueryFacts(q);
    RoundOverAnyGoodClique(q, CliqueFrom(job, view), CliqueFrom(job, start), r);
  }

  /** A search from an allowed source can begin. */
  lemma SearchBegins(job: Job, start: MetricValues, c: nat, row: nat)
    requires job.Ready() && job.HasCell(c) && row < |job.Sources(c)| && job.Allowed(job.Sources(c)[row])
    ensures SearchGood(job, start, Searching(row, FirstLabels(job.Sources(c)[row]), {}), c)
  {
    hide SearchInvariant, LaidOut, CliqueOf;
    JobFacts(job);
    hide Setup, CellStorage.Valid, CellStorage.Consecutive, CellStorage.ProductsFit;
    ListedFacts(job.storage, job.net, job.level, c);
    var q := Query(job.net, job.level, job.Sources(c)[row]);
    assert BorderNode(job.net, job.level, c, q.source);
    hide Network.WellFormed, Network.Boundary;
    SearchStarts(q, CliqueFrom(job, start));
  }

  /** The labels a search ends with are exact. */
  lemma OutcomeIsExact(job: Job, start: MetricValues, c: nat, w: Worker, j: nat)
    requires job.Ready() && w.Searching? && job.IsSlot(c, w.row, j)
    requires BelowExact(job.storage, job.net, start, job.level)
    requires SearchGood(job, start, w, c) && SearchDone(w.labels, w.removed, job.net.allowed, job.Destinations(c))
    ensures job.net.Shaped() && job.level <= |job.net.cells| && LabelGood(job, w.labels, c, w.row, j)
  {
    hide Setup, LaidOut, CellStorage.Consecutive, CellStorage.ProductsFit, LevelExact, BelowExact, Exact;
    hide CellStorage.Valid;
    hide GoodClique, SearchInvariant, SearchDone, Network.Boundary, Network.WellFormed;
    JobFacts(job);
    BelowIsGood(job.mlp, job.graph, job.storage, job.net, start, job.level);
    ListedFacts(job.storage, job.net, job.level, c);
    var q := Query(job.net, job.level, job.Sources(c)[w.row]);
    assert BorderNode(job.net, job.level, c, q.source) && BorderNode(job.net, job.level, c, job.Destinations(c)[j]);
    assert q.Region() == job.net.Region(job.level, c);
    LabelIsExact(q, CliqueFrom(job, start), w.labels, w.removed, job.Destinations(c), j);
  }

  // ---------- one step ----------

  lemma SlotKept(job: Job, net: Network, a: MetricValues, b: MetricValues, c: nat, i: nat, j: nat, w: Worker)
    requires job.net == net && job.IsSlot(c, i, j) && net.Shaped() && job.level <= |net.cells|
    requires a.Sized(|a.weights|) && b.Sized(|a.weights|) && SlotGood(job, a, w, c, i, j)
    requires job.Slot(c, i, j) < |a.weights| ==> SameAt(a, b, job.Slot(c, i, j))
    ensures SlotGood(job, b, w, c, i, j)
  {
    hide Exact;
  }

  /** Slots of the level are pairwise different. */
  lemma SlotsDiffer(job: Job, c: nat, i: nat, j: nat, c': nat, i': nat, j': nat)
    requires job.storage.Valid() && job.storage.Consecutive() && job.storage.ProductsFit()
    requires job.IsSlot(c, i, j) && job.IsSlot(c', i', j') && (c != c' || i != i' || j != j')
    ensures job.Slot(c, i, j) != job.Slot(c', i', j')
  {
    var k, k' := job.storage.CellIndex(job.level, c), job.storage.CellIndex(job.level, c');
    if k == k' {
      CellIndexInjective(job.storage, job.level, c, job.level, c');
    }
    BlocksAreSeparateIff(job.storage);
    SeparateBlocksSeparateSlots(job.storage, k, i, j, k', i', j');
  }

  /** A slot with all its parts stored is exact. */
  lemma StoredIsExact(job: Job, vals: MetricValues, labels: map<nat, Label>, c: nat, i: nat, j: nat)
    requires job.IsSlot(c, i, j) && job.net.Shaped() && job.level <= |job.net.cells|
    requires vals.Sized(|vals.weights|) && job.Slot(c, i, j) < |vals.weights|
    requires PartHeld(vals, job.Slot(c, i, j), LabelSlot(labels, job.Destinations(c)[j]), 3)
             && LabelGood(job, labels, c, i, j)
    ensures SlotExact(job.storage, job.net, vals, job.level, c, i, j)
  {
    hide Exact;
    assert CostAt(vals, job.Slot(c, i, j)) == LabelSlot(labels, job.Destinations(c)[j]);
  }

  /** An invalid slot of an excluded source is exact. */
  lemma SkippedIsExact(job: Job, vals: MetricValues, c: nat, i: nat, j: nat)
    requires job.IsSlot(c, i, j) && job.net.Shaped() && job.level <= |job.net.cells| && vals.Sized(|vals.weights|)
    requires job.Sources(c)[i] < |job.net.allowed| && !job.Allowed(job.Sources(c)[i])
    requires ExcludedSlotInvalid(job.storage, job.net, vals, job.level, c, i, j)
    ensures SlotExact(job.storage, job.net, vals, job.level, c, i, j)
  {
    hide Exact;
    var source, v := job.Sources(c)[i], job.Destinations(c)[j];
    OutsideRegionIsDisconnected(job.net.edges, job.net.Region(job.level, c), source, v);
    DisconnectedIsExact(job.net.edges, job.net.Region(job.level, c), source, v);
  }

  lemma PartKept(job: Job, a: MetricValues, b: MetricValues, w: Worker, c: nat)
    requires job.HasCell(c) && a.Sized(|a.weights|) && b.Sized(|a.weights|) && PartGood(job, a, w, c)
    requires w.Writing? && w.part > 0 && job.Slot(c, w.row, w.column) < |a.weights| ==>
               SameAt(a, b, job.Slot(c, w.row, w.column))
    ensures PartGood(job, b, w, c)
  {
  }

  lemma StoreKeepsOthers(job: Job, start: MetricValues, s: State, c: nat, d: nat)
    requires job.storage.Valid() && job.storage.Consecutive() && job.storage.ProductsFit()
    requires job.net.Shaped() && job.level <= |job.net.cells| && Stores(job, s, c)
    requires job.HasCell(d) && c != d && WorkerGood(job, start, s, d)
    ensures WorkerGood(job, start, AfterStoring(job, s, c), d)
  {
    hide CellStorage.Consecutive, CellStorage.ProductsFit, SlotGood, SearchGood, LabelGood, Job.Slot, PartGood;
    var w, vals, own := s.workers[c], AfterStoring(job, s, c).vals, s.workers[d];
    forall i: nat, j: nat | job.IsSlot(d, i, j) ensures SlotGood(job, vals, own, d, i, j) {
      SlotsDiffer(job, d, i, j, c, w.row, w.column);
      SlotKept(job, job.net, s.vals, vals, d, i, j, own);
    }
    if own.Writing? && own.part > 0 {
      PartInRange(job, s.vals, own, d);
      SlotsDiffer(job, d, own.row, own.column, c, w.row, w.column);
    }
    PartKept(job, s.vals, vals, own, d);
  }

  lemma PartInRange(job: Job, vals: MetricValues, w: Worker, c: nat)
    requires job.HasCell(c) && vals.Sized(|vals.weights|) && PartGood(job, vals, w, c) && w.Writing? && w.part > 0
    ensures w.column < |job.Destinations(c)| && job.Slot(c, w.row, w.column) < |vals.weights|
  {
  }

  /** A store leaves the parts that the worker has stored, and the last one leaves nothing in work. */
  lemma StoreKeepsPart(job: Job, s: State, c: nat)
    requires Stores(job, s, c) && PartGood(job, s.vals, s.workers[c], c)
    ensures var w, r := s.workers[c], AfterStoring(job, s, c);
            && PartGood(job, r.vals, r.workers[c], c)
            && PartHeld(r.vals, job.Slot(c, w.row, w.column), LabelSlot(w.labels, job.Destinations(c)[w.column]),
                        w.part + 1)
  {
    hide Job.Slot, CellStorage.Valid;
  }

  /** The slot in work belongs to an allowed source. */
  lemma WorkIsAllowed(job: Job, vals: MetricValues, c: nat, i: nat, j: nat)
    requires job.IsSlot(c, i, j) && vals.Sized(|vals.weights|) && job.Allowed(job.Sources(c)[i])
    ensures ExcludedSlotInvalid(job.storage, job.net, vals, job.level, c, i, j)
  {
  }

  lemma StoreKeepsOwn(job: Job, start: MetricValues, s: State, c: nat)
    requires job.storage.Valid() && job.storage.Consecutive() && job.storage.ProductsFit()
    requires job.net.Shaped() && job.level <= |job.net.cells| && Stores(job, s, c) && WorkerGood(job, start, s, c)
    ensures WorkerGood(job, start, AfterStoring(job, s, c), c)
  {
    hide CellStorage.Consecutive, CellStorage.ProductsFit, Job.Slot, SlotExact, ExcludedSlotInvalid, LabelGood;
    hide PartGood, SearchGood, PartHeld, Stored;
    var w, r := s.workers[c], AfterStoring(job, s, c);
    StoreKeepsPart(job, s, c);
    forall i: nat, j: nat | job.IsSlot(c, i, j) ensures SlotGood(job, r.vals, r.workers[c], c, i, j) {
      if i != w.row || j != w.column {
        SlotsDiffer(job, c, i, j, c, w.row, w.column);
        SlotKept(job, job.net, s.vals, r.vals, c, i, j, w);
        assert Done(r.workers[c], i, j) == Done(w, i, j);
      } else if w.part == 2 {
        StoredIsExact(job, r.vals, w.labels, c, i, j);
      } else {
        WorkIsAllowed(job, r.vals, c, i, j);
      }
    }
  }

  lemma OtherStepKeepsWorker(job: Job, start: MetricValues, s: State, r: State, c: nat)
    requires job.net.Shaped() && job.level <= |job.net.cells| && s.vals.Sized(|s.vals.weights|) && job.HasCell(c)
    requires WorkerGood(job, start, s, c) && r.vals == s.vals && c in r.workers && r.workers[c] == s.workers[c]
    ensures WorkerGood(job, start, r, c)
  {
    hide SlotGood, PlaceGood, PartGood;
  }

  /** Moving a worker on without writing: what counts as done must be exact already. */
  lemma MoveKeepsWorker(job: Job, start: MetricValues, s: State, c: nat, w': Worker)
    requires job.net.Shaped() && job.level <= |job.net.cells| && s.vals.Sized(|s.vals.weights|) && job.HasCell(c)
    requires WorkerGood(job, start, s, c) && PlaceGood(job, start, w', c) && (w'.Writing? ==> w'.part == 0)
    requires forall i: nat, j: nat :: job.IsSlot(c, i, j) ==>
               (Done(s.workers[c], i, j) <==> Done(w', i, j))
               || (Done(w', i, j) && SlotExact(job.storage, job.net, s.vals, job.level, c, i, j))
    ensures WorkerGood(job, start, s.(workers := s.workers[c := w']), c)
  {
    hide PlaceGood, SlotExact, ExcludedSlotInvalid;
    forall i: nat, j: nat | job.IsSlot(c, i, j) ensures SlotGood(job, s.vals, w', c, i, j) {
      assert SlotGood(job, s.vals, s.workers[c], c, i, j);
    }
  }

  /** The worker that takes the step stays good. */
  lemma StepKeepsOwn(job: Job, start: MetricValues, history: seq<State>, s: State, step: Step)
    requires job.Ready() && BelowExact(job.storage, job.net, start, job.level) && Good(job, start, s)
    requires forall t :: 0 <= t < |history| ==> SameOffLevel(job, start, history[t].vals)
    requires Enabled(job, history, s, step)
    ensures WorkerGood(job, start, Apply(job, history, s, step), step.c)
  {
    hide Setup, BelowExact, LaidOut, CellStorage.Consecutive, CellStorage.ProductsFit, CellStorage.Valid;
    hide Network.WellFormed;
    hide SeenDuring, IsRoundOn, SlotExact, ExcludedSlotInvalid, LabelGood, InLevel, Job.Slot, SearchDone, SearchGood;
    hide RelaxNodeLabels, FirstLabels, PartGood, AfterStoring;
    JobFacts(job);
    var c := step.c;
    var w := s.workers[c];
    assert WorkerGood(job, start, s, c);
    match step
    case Skip(_) =>
      forall j: nat | job.IsSlot(c, w.row, j) ensures SlotExact(job.storage, job.net, s.vals, job.level, c, w.row, j) {
        SourceInRange(job, c, w.row);
        assert SlotGood(job, s.vals, w, c, w.row, j);
        SkippedIsExact(job, s.vals, c, w.row, j);
      }
      MoveKeepsWorker(job, start, s, c, Between(w.row + 1));
    case Begin(_) =>
      SearchBegins(job, start, c, w.row);
      MoveKeepsWorker(job, start, s, c, Searching(w.row, FirstLabels(job.Sources(c)[w.row]), {}));
    case Settle(_, view, node, cliqueArcs, edgeArcs) =>
      ViewIsExactBelow(job, start, history, view);
      RoundKeepsSearch(job, start, view, c, w, Round(w.labels, w.removed, node, cliqueArcs, edgeArcs));
      var labels := RelaxNodeLabels(w.labels, node, cliqueArcs, edgeArcs);
      MoveKeepsWorker(job, start, s, c, Searching(w.row, labels, w.removed + {node}));
    case Finish(_) =>
      forall j: nat | j < |job.Destinations(c)| ensures LabelGood(job, w.labels, c, w.row, j) {
        OutcomeIsExact(job, start, c, w, j);
      }
      MoveKeepsWorker(job, start, s, c, Writing(w.row, 0, 0, w.labels));
    case Store(_) =>
      StoreKeepsOwn(job, start, s, c);
    case EndRow(_) =>
      MoveKeepsWorker(job, start, s, c, Between(w.row + 1));
  }

  lemma SourceInRange(job: Job, c: nat, i: nat)
    requires job.Ready() && job.HasCell(c) && i < |job.Sources(c)|
    ensures job.Sources(c)[i] < |job.net.allowed|
  {
    JobFacts(job);
    hide Setup, LaidOut, Network.WellFormed, Network.Boundary;
    ListedFacts(job.storage, job.net, job.level, c);
    assert BorderNode(job.net, job.level, c, job.Sources(c)[i]);
  }

  lemma StepKeepsOffLevel(job: Job, start: MetricValues, history: seq<State>, s: State, step: Step)
    requires SameOffLevel(job, start, s.vals) && Enabled(job, history, s, step)
    ensures SameOffLevel(job, start, Apply(job, history, s, step).vals)
  {
    hide CellSlot, InBlock, SeenDuring, IsRoundOn, SearchDone, RelaxNodeLabels;
    if step.Store? {
      var w := s.workers[step.c];
      var k := job.Slot(step.c, w.row, w.column);
      SlotInOwnBlock(job.storage, job.level, step.c, w.row, w.column);
      assert InLevel(job, k);
      hide InLevel;
      forall m: nat | m < |start.weights| && !InLevel(job, m)
        ensures SameAt(start, Apply(job, history, s, step).vals, m)
      {
        assert SameAt(start, s.vals, m) && m != k;
      }
    }
  }

  /** Every step of every worker keeps everything good. */
  lemma StepKeepsGood(job: Job, start: MetricValues, history: seq<State>, s: State, step: Step)
    requires job.Ready() && BelowExact(job.storage, job.net, start, job.level) && Good(job, start, s)
    requires forall t :: 0 <= t < |history| ==> SameOffLevel(job, start, history[t].vals)
    requires Enabled(job, history, s, step)
    ensures Good(job, start, Apply(job, history, s, step))
  {
    hide Setup, BelowExact, SeenDuring, IsRoundOn, SlotGood, InLevel, PlaceGood, PartGood, SearchDone;
    hide RelaxNodeLabels, AfterStoring;
    JobFacts(job);
    hide CellStorage.Consecutive, CellStorage.ProductsFit, CellStorage.Valid, Network.WellFormed, LaidOut;
    var r := Apply(job, history, s, step);
    StepKeepsOffLevel(job, start, history, s, step);
    StepKeepsOwn(job, start, history, s, step);
    forall c: nat | job.HasCell(c) ensures WorkerGood(job, start, r, c) {
      assert WorkerGood(job, start, s, c);
      if c != step.c {
        if step.Store? {
          StoreKeepsOthers(job, start, s, step.c, c);
          assert r == AfterStoring(job, s, step.c);
        } else {
          OtherStepKeepsWorker(job, start, s, r, c);
        }
      }
    }
  }

  // ---------- all interleavings ----------

  /** The values a level starts from: the level below is exact, rows of excluded sources are invalid. */
  ghost predicate StartsLevel(job: Job, start: MetricValues) {
    && job.Ready() && BelowExact(job.storage, job.net, start, job.level)
    && forall c: nat :: job.HasCell(c) ==> ExcludedRowsInvalid(job.storage, job.net, start, job.level, c, 0)
  }

  lemma StartIsGood(job: Job, s: State)
    requires StartsLevel(job, s.vals)
    requires forall c: nat :: job.HasCell(c) ==> c in s.workers && s.workers[c] == Between(0)
    ensures Good(job, s.vals, s)
  {
    hide Setup, LevelExact, InLevel, ExcludedSlotInvalid, SlotExact;
    JobFacts(job);
    hide CellStorage.Consecutive, CellStorage.ProductsFit, Network.WellFormed, LaidOut;
    forall c: nat | job.HasCell(c) ensures WorkerGood(job, s.vals, s, c) {
      assert ExcludedRowsInvalid(job.storage, job.net, s.vals, job.level, c, 0);
    }
  }

  /** Every state of every run is good. */
  lemma {:induction false} EveryStateIsGood(job: Job, run: seq<State>, n: nat)
    requires IsRun(job, run) && StartsLevel(job, run[0].vals) && n < |run|
    ensures forall i :: 0 <= i <= n ==> Good(job, run[0].vals, run[i])
    decreases n
  {
    hide Good, Enabled, Apply, Job.Ready, BelowExact, ExcludedRowsInvalid;
    if n == 0 {
      StartIsGood(job, run[0]);
    } else {
      EveryStateIsGood(job, run, n - 1);
      var start, history := run[0].vals, run[..n];
      assert IsStep(job, history, run[n - 1], run[n]);
      var step :| Enabled(job, history, run[n - 1], step) && run[n] == Apply(job, history, run[n - 1], step);
      forall t | 0 <= t < |history| ensures SameOffLevel(job, start, history[t].vals) {
        GoodIsOffLevel(job, start, run[t]);
      }
      StepKeepsGood(job, start, history, run[n - 1], step);
    }
  }

  lemma GoodIsOffLevel(job: Job, start: MetricValues, s: State)
    requires Good(job, start, s)
    ensures SameOffLevel(job, start, s.vals) && job.net.Shaped() && job.level <= |job.net.cells|
  {
  }

  /** When all workers are through, in whatever interleaving, the level is exact and no other value has changed. */
  lemma InterleavingIsExact(job: Job, run: seq<State>, start: MetricValues, end: MetricValues)
    requires IsFullRun(job, run, start, end) && StartsLevel(job, start)
    ensures job.storage.Valid() && job.net.Shaped() && 1 <= job.level <= |job.net.cells|
    ensures LevelExact(job.storage, job.net, end, job.level)
    ensures SameOffLevel(job, start, end) && BelowExact(job.storage, job.net, end, job.level)
  {
    var last := run[|run| - 1];
    hide IsRun, BelowExact, ExcludedRowsInvalid, SlotExact, ExcludedSlotInvalid, Setup, InLevel, PlaceGood, PartGood;
    EveryStateIsGood(job, run, |run| - 1);
    JobFacts(job);
    hide CellStorage.Consecutive, CellStorage.ProductsFit, Network.WellFormed, LaidOut, CellStorage.Valid;
    forall c: nat | job.storage.HasCell(job.level, c) ensures CellExact(job.storage, job.net, last.vals, job.level, c) {
      assert job.HasCell(c) && WorkerGood(job, start, last, c);
      forall i: nat, j: nat | job.IsSlot(c, i, j)
        ensures SlotExact(job.storage, job.net, last.vals, job.level, c, i, j)
      {
        assert SlotGood(job, last.vals, last.workers[c], c, i, j);
      }
    }
    BelowKept(job, run[0].vals, last.vals);
  }

  lemma BelowKept(job: Job, a: MetricValues, b: MetricValues)
    requires job.Ready() && BelowExact(job.storage, job.net, a, job.level) && SameOffLevel(job, a, b)
    ensures BelowExact(job.storage, job.net, b, job.level)
  {
    hide Setup, LevelExact, InLevel;
    JobFacts(job);
    hide Network.WellFormed, LaidOut;
    if job.level > 1 {
      OtherLevelsStayExact(job, a, b, job.level - 1);
    }
  }

  // ---------- the result is determined ----------

  lemma InLevelIsSlot(job: Job, k: nat) returns (c: nat, i: nat, j: nat)
    requires InLevel(job, k)
    ensures job.IsSlot(c, i, j) && job.Slot(c, i, j) == k
  {
    c :| job.HasCell(c) && InBlock(job.storage, job.level, c, k);
    var cell := job.storage.cells[job.storage.CellIndex(job.level, c)];
    assert |job.Sources(c)| == cell.source.count && |job.Destinations(c)| == cell.destination.count;
    i, j := AddressIsSlot(cell.source.count, cell.destination.count, k - cell.valueOffset);
  }

  /** Exact levels have the same values in every slot, whoever filled them. */
  lemma ExactSlotsAgree(storage: CellStorage, net: Network, a: MetricValues, b: MetricValues, level: nat, c: nat,
                        i: nat, j: nat)
    requires storage.Valid() && net.Shaped() && level <= |net.cells| && storage.HasCell(level, c)
    requires i < |storage.GetSourceNodes(level, c)| && j < |storage.GetDestinationNodes(level, c)|
    requires a.Sized(|a.weights|) && b.Sized(|a.weights|)
    requires LevelExact(storage, net, a, level) && LevelExact(storage, net, b, level)
    ensures CellSlot(storage, level, c, i, j) < |a.weights| && SameAt(a, b, CellSlot(storage, level, c, i, j))
  {
    hide Exact, CellStorage.Valid;
    assert CellExact(storage, net, a, level, c) && CellExact(storage, net, b, level, c);
    assert SlotExact(storage, net, a, level, c, i, j) && SlotExact(storage, net, b, level, c, i, j);
    var k := CellSlot(storage, level, c, i, j);
    ExactIsUnique(net.edges, net.Region(level, c), storage.GetSourceNodes(level, c)[i],
                  storage.GetDestinationNodes(level, c)[j], CostAt(a, k), CostAt(b, k));
  }

  /** Off the level nothing changed and on it everything is exact: that leaves one possibility. */
  lemma ExactLevelIsDetermined(job: Job, start: MetricValues, a: MetricValues, b: MetricValues)
    requires job.storage.Valid() && job.net.Shaped() && job.level <= |job.net.cells|
    requires SameOffLevel(job, start, a) && LevelExact(job.storage, job.net, a, job.level)
    requires SameOffLevel(job, start, b) && LevelExact(job.storage, job.net, b, job.level)
    ensures a == b
  {
    hide InLevel, LevelExact, CellStorage.Valid;
    forall k: nat | k < |start.weights|
      ensures a.weights[k] == b.weights[k] && a.durations[k] == b.durations[k] && a.distances[k] == b.distances[k]
    {
      if InLevel(job, k) {
        var c, i, j := InLevelIsSlot(job, k);
        ExactSlotsAgree(job.storage, job.net, a, b, job.level, c, i, j);
      } else {
        assert SameAt(start, a, k) && SameAt(start, b, k);
      }
    }
    assert a.weights == b.weights && a.durations == b.durations && a.distances == b.distances;
  }

  /** All finished interleavings of a level leave the same values. */
  lemma InterleavingDoesNotMatter(job: Job, run: seq<State>, other: seq<State>, start: MetricValues, a: MetricValues,
                                  b: MetricValues)
    requires StartsLevel(job, start) && IsFullRun(job, run, start, a) && IsFullRun(job, other, start, b)
    ensures a == b
  {
    hide IsFullRun, StartsLevel, SameOffLevel, LevelExact;
    InterleavingIsExact(job, run, start, a);
    InterleavingIsExact(job, other, start, b);
    ExactLevelIsDetermined(job, start, a, b);
  }

  // ---------- level after level ----------

  /** Everything there is to customize. */
  datatype Work = Work(mlp: MultiLevelPartition, graph: MultiLevelGraph, storage: CellStorage, net: Network)
  {
    ghost predicate Ready() {
      Setup(mlp, graph, storage, net)
    }

    function Level(level: nat): Job {
      Job(mlp, graph, storage, net, level)
    }
  }

  /** A parallel customization: on each level a full run, from the values that the level before has left. */
  ghost predicate IsWholeRun(work: Work, runs: seq<seq<State>>, vals: seq<MetricValues>) {
    && |runs| == |work.net.cells| && |vals| == |runs| + 1
    && forall l :: 0 <= l < |runs| ==> IsFullRun(work.Level(l + 1), runs[l], vals[l], vals[l + 1])
  }

  /** The first `n` levels are exact, and on the others the rows of excluded sources are invalid. */
  ghost predicate Customized(work: Work, vals: MetricValues, n: nat) {
    && work.storage.Valid() && work.net.Shaped() && n <= |work.net.cells|
    && vals.Sized(|vals.weights|) && work.storage.TotalSize() <= |vals.weights|
    && (forall l: nat :: 1 <= l <= n ==> LevelExact(work.storage, work.net, vals, l))
    && (forall l: nat, c: nat :: n < l <= |work.net.cells| && work.storage.HasCell(l, c) ==>
          ExcludedRowsInvalid(work.storage, work.net, vals, l, c, 0))
  }

  lemma NothingCustomized(work: Work, vals: MetricValues)
    requires work.Ready() && AllInvalid(vals) && work.storage.TotalSize() <= |vals.weights|
    ensures Customized(work, vals, 0)
  {
    SetupFacts(work.mlp, work.graph, work.storage, work.net);
    hide Setup, InBlock, CellSlot;
    forall l: nat, c: nat | 0 < l <= |work.net.cells| && work.storage.HasCell(l, c)
      ensures ExcludedRowsInvalid(work.storage, work.net, vals, l, c, 0)
    {
      UntouchedRowsInvalid(work.storage, work.net, vals, l, c);
    }
  }

  lemma LevelStarts(work: Work, vals: MetricValues, n: nat)
    requires work.Ready() && Customized(work, vals, n) && n < |work.net.cells|
    ensures StartsLevel(work.Level(n + 1), vals)
  {
    hide Setup, LevelExact, ExcludedRowsInvalid;
  }

  /** A full run of the next level keeps the levels below and leaves those above as they were. */
  lemma LevelFollows(work: Work, run: seq<State>, a: MetricValues, b: MetricValues, n: nat)
    requires work.Ready() && Customized(work, a, n) && n < |work.net.cells|
    requires IsFullRun(work.Level(n + 1), run, a, b)
    ensures Customized(work, b, n + 1)
  {
    hide Setup, IsFullRun, LevelExact, ExcludedRowsInvalid, StartsLevel, InLevel;
    var job := work.Level(n + 1);
    LevelStarts(work, a, n);
    InterleavingIsExact(job, run, a, b);
    SetupFacts(work.mlp, work.graph, work.storage, work.net);
    hide CellStorage.Consecutive, CellStorage.ProductsFit, CellStorage.Valid, Network.Shaped;
    forall l: nat | 1 <= l <= n ensures LevelExact(work.storage, work.net, b, l) {
      OtherLevelsStayExact(job, a, b, l);
    }
    forall l: nat, c: nat | n + 1 < l <= |work.net.cells| && work.storage.HasCell(l, c)
      ensures ExcludedRowsInvalid(work.storage, work.net, b, l, c, 0)
    {
      OtherRowsStay(job, a, b, l, c);
    }
  }

  lemma OtherRowsStay(job: Job, a: MetricValues, b: MetricValues, level: nat, c: nat)
    requires job.storage.Valid() && job.storage.Consecutive() && job.storage.ProductsFit()
    requires level != job.level && job.storage.HasCell(level, c) && SameOffLevel(job, a, b)
    requires ExcludedRowsInvalid(job.storage, job.net, a, level, c, 0)
    ensures ExcludedRowsInvalid(job.storage, job.net, b, level, c, 0)
  {
    hide CellStorage.Consecutive, CellStorage.ProductsFit, InLevel;
    forall i: nat, j: nat |
      i < |job.storage.GetSourceNodes(level, c)| && j < |job.storage.GetDestinationNodes(level, c)|
      ensures ExcludedSlotInvalid(job.storage, job.net, b, level, c, i, j)
    {
      assert ExcludedSlotInvalid(job.storage, job.net, a, level, c, i, j);
      OtherLevelsAreOff(job, level, c, i, j);
      assert CellSlot(job.storage, level, c, i, j) < |a.weights| ==>
          SameAt(a, b, CellSlot(job.storage, level, c, i, j));
    }
  }

  lemma {:induction false} LevelsFollow(work: Work, runs: seq<seq<State>>, vals: seq<MetricValues>, n: nat)
    requires work.Ready() && IsWholeRun(work, runs, vals) && n <= |runs|
    requires AllInvalid(vals[0]) && work.storage.TotalSize() <= |vals[0].weights|
    ensures Customized(work, vals[n], n)
    decreases n
  {
    hide Setup, IsFullRun, Customized, AllInvalid;
    if n == 0 {
      NothingCustomized(work, vals[0]);
    } else {
      LevelsFollow(work, runs, vals, n - 1);
      LevelFollows(work, runs[n - 1], vals[n - 1], vals[n], n - 1);
    }
  }

  /** A parallel customization of a metric that was just made leaves all levels exact, however it interleaves. */
  lemma ParallelCustomizationIsExact(work: Work, runs: seq<seq<State>>, vals: seq<MetricValues>)
    requires work.Ready() && IsWholeRun(work, runs, vals)
    requires AllInvalid(vals[0]) && work.storage.TotalSize() <= |vals[0].weights|
    ensures work.storage.Valid() && work.net.Shaped()
    ensures forall l: nat :: 1 <= l <= |work.net.cells| ==>
              && LevelExact(work.storage, work.net, vals[|runs|], l)
              && LevelCheapest(work.storage, work.net, vals[|runs|], l)
  {
    hide Setup, IsFullRun, AllInvalid, LevelExact, LevelCheapest;
    LevelsFollow(work, runs, vals, |runs|);
    forall l: nat | 1 <= l <= |work.net.cells| ensures LevelCheapest(work.storage, work.net, vals[|runs|], l) {
      LevelExactIsCheapest(work.storage, work.net, vals[|runs|], l);
    }
  }

  /** Two parallel customizations from the same values agree after every level. */
  lemma {:induction false} ParallelCustomizationsAgree(work: Work, runs: seq<seq<State>>, vals: seq<MetricValues>,
                                                       others: seq<seq<State>>, ends: seq<MetricValues>, n: nat)
    requires work.Ready() && IsWholeRun(work, runs, vals) && IsWholeRun(work, others, ends) && n <= |runs|
    requires AllInvalid(vals[0]) && work.storage.TotalSize() <= |vals[0].weights| && vals[0] == ends[0]
    ensures vals[n] == ends[n]
    decreases n
  {
    hide Setup, IsFullRun, Customized, AllInvalid, StartsLevel;
    if n > 0 {
      ParallelCustomizationsAgree(work, runs, vals, others, ends, n - 1);
      LevelsFollow(work, runs, vals, n - 1);
      LevelStarts(work, vals[n - 1], n - 1);
      InterleavingDoesNotMatter(work.Level(n), runs[n - 1], others[n - 1], vals[n - 1], vals[n], ends[n]);
    }
  }

  // ---------- the loops of a thread are steps ----------

  lemma Extend(job: Job, run: seq<State>, step: Step) returns (r: seq<State>)
    requires IsRun(job, run) && Enabled(job, run, run[|run| - 1], step)
    ensures IsRun(job, r) && |r| == |run| + 1 && r[0] == run[0]
    ensures r[|run|] == Apply(job, run, run[|run| - 1], step)
  {
    hide Enabled, Apply;
    r := run + [Apply(job, run, run[|run| - 1], step)];
    forall i | 0 < i < |r| ensures IsStep(job, r[..i], r[i - 1], r[i]) {
      if i < |run| {
        assert r[..i] == run[..i];
        assert IsStep(job, run[..i], run[i - 1], run[i]);
      } else {
        assert r[..i] == run;
      }
    }
  }

  ghost function Patched<T>(a: seq<T>, b: seq<T>, begin: nat, n: nat): (r: seq<T>)
    requires |a| == |b|
    ensures |r| == |a| && forall k :: 0 <= k < |a| ==> r[k] == if begin <= k < begin + n then b[k] else a[k]
  {
    seq(|a|, k requires 0 <= k < |a| => if begin <= k < begin + n then b[k] else a[k])
  }

  /** The values of `b` in the first `n` columns of the row at `begin`, those of `a` elsewhere. */
  ghost function Partly(a: MetricValues, b: MetricValues, begin: nat, n: nat): (r: MetricValues)
    requires a.Sized(|a.weights|) && b.Sized(|a.weights|)
    ensures r.Sized(|a.weights|)
  {
    MetricValues(Patched(a.weights, b.weights, begin, n), Patched(a.durations, b.durations, begin, n),
                 Patched(a.distances, b.distances, begin, n))
  }

  lemma PatchedGrows<T>(a: seq<T>, b: seq<T>, begin: nat, n: nat)
    requires |a| == |b| && begin + n < |a|
    ensures Patched(a, b, begin, n + 1) == Patched(a, b, begin, n)[begin + n := b[begin + n]]
  {
    hide Patched;
  }

  /** The three stores of a column. */
  lemma PartlyGrows(a: MetricValues, b: MetricValues, begin: nat, n: nat, cost: Option<Cost>)
    requires a.Sized(|a.weights|) && b.Sized(|a.weights|) && begin + n < |a.weights| && Holds(b, begin + n, cost)
    ensures var k := begin + n;
            Partly(a, b, begin, n + 1)
              == Stored(Stored(Stored(Partly(a, b, begin, n), k, cost, 0), k, cost, 1), k, cost, 2)
  {
    hide Patched;
    PatchedGrows(a.weights, b.weights, begin, n);
    PatchedGrows(a.durations, b.durations, begin, n);
    PatchedGrows(a.distances, b.distances, begin, n);
  }

  lemma NonePatched(a: MetricValues, b: MetricValues, begin: nat)
    requires a.Sized(|a.weights|) && b.Sized(|a.weights|)
    ensures Partly(a, b, begin, 0) == a
  {
  }

  lemma AllPatched(a: MetricValues, b: MetricValues, begin: nat, n: nat)
    requires SameOutside(a, b, begin, begin + n)
    ensures Partly(a, b, begin, n) == b
  {
    hide Patched;
    forall k: nat | k < |a.weights|
      ensures begin <= k < begin + n
              || (a.weights[k] == b.weights[k] && a.durations[k] == b.durations[k] && a.distances[k] == b.distances[k])
    {
      assert !(begin <= k < begin + n) ==> SameAt(a, b, k);
    }
    PatchedAll(a.weights, b.weights, begin, n);
    PatchedAll(a.durations, b.durations, begin, n);
    PatchedAll(a.distances, b.distances, begin, n);
  }

  lemma PatchedAll<T>(a: seq<T>, b: seq<T>, begin: nat, n: nat)
    requires |a| == |b| && forall k :: 0 <= k < |a| ==> begin <= k < begin + n || a[k] == b[k]
    ensures Patched(a, b, begin, n) == b
  {
    hide Patched;
  }

  lemma SlotOfColumn(job: Job, c: nat, row: nat, j: nat)
    requires job.HasCell(c)
    ensures job.Slot(c, row, j) == job.Slot(c, row, 0) + j
  {
  }

  /** Where a run has got to. */
  ghost predicate Reaches(job: Job, run: seq<State>, start: MetricValues, s: State) {
    run != [] && IsRun(job, run) && run[0].vals == start && run[|run| - 1] == s
  }

  /** Storing one column is three steps. */
  lemma ColumnIsSteps(job: Job, run: seq<State>, start: MetricValues, s: State, c: nat) returns (r: seq<State>)
    requires Reaches(job, run, start, s) && Stores(job, s, c) && s.workers[c].part == 0
    ensures var w := s.workers[c];
            var k, cost := job.Slot(c, w.row, w.column), LabelSlot(w.labels, job.Destinations(c)[w.column]);
            Reaches(job, r, start, State(Stored(Stored(Stored(s.vals, k, cost, 0), k, cost, 1), k, cost, 2),
                                         s.workers[c := w.(column := w.column + 1)]))
  {
    hide IsRun, Stored, LabelSlot, Job.Slot;
    var w := s.workers[c];
    r := Extend(job, run, Store(c));
    r := Extend(job, r, Store(c));
    r := Extend(job, r, Store(c));
    assert s.workers[c := w.(part := 1)][c := w.(part := 2)][c := w.(column := w.column + 1)]
             == s.workers[c := w.(column := w.column + 1)];
  }

  /** Storing the first `n` columns of a row. */
  lemma {:induction false} WritesAreSteps(job: Job, run: seq<State>, start: MetricValues, s: State, c: nat, row: nat,
                                          t: RowTrace, n: nat)
    returns (r: seq<State>)
    requires Reaches(job, run, start, s) && job.HasCell(c) && row < |job.Sources(c)| && n <= |job.Destinations(c)|
    requires c in s.workers && s.workers[c] == Writing(row, 0, 0, t.labels) && s.vals == t.before
    requires RowHolds(job.storage, t.after, job.level, c, row, t.labels)
             && RowWritten(job.storage, t.before, t.after, job.level, c, row)
    ensures n > 0 ==> job.Slot(c, row, 0) + n <= |t.before.weights|
    ensures Reaches(job, r, start, State(Partly(t.before, t.after, job.Slot(c, row, 0), n),
                                         s.workers[c := Writing(row, n, 0, t.labels)]))
    decreases n
  {
    hide CellSlot, IsRun, Patched, CellStorage.Valid, Stored;
    if n == 0 {
      r := run;
      NonePatched(t.before, t.after, job.Slot(c, row, 0));
      assert s.workers[c := Writing(row, 0, 0, t.labels)] == s.workers;
    } else {
      var mid := WritesAreSteps(job, run, start, s, c, row, t, n - 1);
      SlotOfColumn(job, c, row, n - 1);
      assert SlotHolds(job.storage, t.after, job.level, c, row, n - 1, t.labels);
      PartlyGrows(t.before, t.after, job.Slot(c, row, 0), n - 1, LabelSlot(t.labels, job.Destinations(c)[n - 1]));
      r := ColumnIsSteps(job, mid, start, mid[|mid| - 1], c);
      assert s.workers[c := Writing(row, n - 1, 0, t.labels)][c := Writing(row, n, 0, t.labels)]
               == s.workers[c := Writing(row, n, 0, t.labels)];
    }
  }

  /** The rounds of a search that reads the present values are steps. */
  lemma {:induction false} RoundsAreSteps(job: Job, run: seq<State>, start: MetricValues, s: State, c: nat, row: nat,
                                          rounds: seq<Round>, labels: map<nat, Label>, removed: set<nat>)
    returns (r: seq<State>)
    requires Reaches(job, run, start, s) && job.HasCell(c) && row < |job.Sources(c)|
    requires job.Allowed(job.Sources(c)[row]) && s.vals.Sized(|s.vals.weights|)
    requires c in s.workers && s.workers[c] == Between(row)
    requires var q := Query(job.net, job.level, job.Sources(c)[row]);
             q.Valid() && SearchedBy(q, CliqueFrom(job, s.vals), rounds, labels, removed)
    ensures Reaches(job, r, start, s.(workers := s.workers[c := Searching(row, labels, removed)]))
    decreases |rounds|
  {
    hide IsRun, IsRound, Query.Valid, RelaxNodeLabels, FirstLabels, CellStorage.Valid, CliqueBelow, SeenDuring;
    if rounds == [] {
      r := Extend(job, run, Begin(c));
    } else {
      var last := rounds[|rounds| - 1];
      var mid := RoundsAreSteps(job, run, start, s, c, row, rounds[..|rounds| - 1], last.labels, last.removed);
      ReadsNow(job, mid, mid[|mid| - 1]);
      assert last == Round(last.labels, last.removed, last.node, last.cliqueArcs, last.edgeArcs);
      assert IsRoundOn(job, c, row, s.vals, last);
      r := Extend(job, mid, Settle(c, s.vals, last.node, last.cliqueArcs, last.edgeArcs));
      assert s.workers[c := Searching(row, last.labels, last.removed)][c := Searching(row, labels, removed)]
               == s.workers[c := Searching(row, labels, removed)];
    }
  }

  /** A row is a run of steps: skipped, or searched, stored and ended. */
  lemma RowIsSteps(job: Job, run: seq<State>, start: MetricValues, s: State, c: nat, row: nat, t: RowTrace)
    returns (r: seq<State>)
    requires Reaches(job, run, start, s) && job.HasCell(c) && row < |job.Sources(c)|
    requires c in s.workers && s.workers[c] == Between(row) && s.vals == t.before && s.vals.Sized(|s.vals.weights|)
    requires RowTraced(job.storage, job.net, job.level, c, row, t)
    ensures Reaches(job, r, start, State(t.after, s.workers[c := Between(row + 1)]))
  {
    hide CellSlot, IsRun, SearchedBy, SearchDone, Query.Valid, Partly, CellStorage.Valid, RowHolds, CliqueBelow;
    if !job.Allowed(job.Sources(c)[row]) {
      r := Extend(job, run, Skip(c));
    } else {
      r := RoundsAreSteps(job, run, start, s, c, row, t.rounds, t.labels, t.removed);
      r := Extend(job, r, Finish(c));
      var writing := r[|r| - 1];
      assert writing.workers[c] == Writing(row, 0, 0, t.labels);
      r := WritesAreSteps(job, r, start, writing, c, row, t, |job.Destinations(c)|);
      AllPatched(t.before, t.after, job.Slot(c, row, 0), |job.Destinations(c)|);
      r := Extend(job, r, EndRow(c));
      assert r[|r| - 1].workers == s.workers[c := Between(row + 1)];
    }
  }

  /** A search that reads everything at once sees the present values. */
  lemma ReadsNow(job: Job, run: seq<State>, s: State)
    requires run != [] && run[|run| - 1] == s && s.vals.Sized(|s.vals.weights|)
    ensures SeenDuring(s.vals, run, |s.vals.weights|)
  {
    var now := run[|run| - 1].vals;
    assert now == s.vals;
    forall k: nat | k < |s.vals.weights|
      ensures SeenWeight(run, k, s.vals.weights[k]) && SeenDuration(run, k, s.vals.durations[k])
      ensures SeenDistance(run, k, s.vals.distances[k])
    {
      assert now.weights[k] == s.vals.weights[k] && now.durations[k] == s.vals.durations[k];
      assert now.distances[k] == s.vals.distances[k];
    }
  }

  /** The rows of a cell, one after the other, are a run of steps. */
  lemma {:induction false} CellIsSteps(job: Job, run: seq<State>, start: MetricValues, s: State, c: nat,
                                       trace: seq<RowTrace>, n: nat)
    returns (r: seq<State>)
    requires Reaches(job, run, start, s) && job.HasCell(c) && c in s.workers && s.workers[c] == Between(0)
    requires trace != [] ==> s.vals == trace[0].before
    requires trace != [] ==> Traced(job.storage, job.net, job.level, c, trace, s.vals, trace[|trace| - 1].after)
    requires n <= |trace| && s.vals.Sized(|s.vals.weights|)
    ensures Reaches(job, r, start, State(if n == 0 then s.vals else trace[n - 1].after, s.workers[c := Between(n)]))
    ensures n > 0 ==> trace[n - 1].after.Sized(|trace[n - 1].after.weights|)
    decreases n
  {
    hide IsRun, RowTraced, CellStorage.Valid;
    if n == 0 {
      r := run;
      assert s.workers[c := Between(0)] == s.workers;
    } else {
      var mid := CellIsSteps(job, run, start, s, c, trace, n - 1);
      var at := State(if n == 1 then s.vals else trace[n - 2].after, s.workers[c := Between(n - 1)]);
      assert n > 1 ==> trace[n - 1].before == trace[n - 2].after;
      assert RowTraced(job.storage, job.net, job.level, c, n - 1, trace[n - 1]);
      r := RowIsSteps(job, mid, start, at, c, n - 1, trace[n - 1]);
      TracedIsSized(job.storage, job.net, job.level, c, n - 1, trace[n - 1]);
      assert at.workers[c := Between(n)] == s.workers[c := Between(n)];
    }
  }

  lemma TracedIsSized(storage: CellStorage, net: Network, level: nat, c: nat, row: nat, t: RowTrace)
    requires storage.Valid() && storage.HasCell(level, c) && row < |storage.GetSourceNodes(level, c)|
    requires RowTraced(storage, net, level, c, row, t) && t.before.Sized(|t.before.weights|)
    ensures t.after.Sized(|t.after.weights|)
  {
    hide SearchedBy, SearchDone, CellSlot;
  }

  lemma CellRun(job: Job, run: seq<State>, start: MetricValues, s: State, c: nat, trace: seq<RowTrace>,
                after: MetricValues)
    returns (r: seq<State>)
    requires Reaches(job, run, start, s) && job.HasCell(c) && c in s.workers && s.workers[c] == Between(0)
    requires |trace| == |job.Sources(c)| && Traced(job.storage, job.net, job.level, c, trace, s.vals, after)
    requires s.vals.Sized(|s.vals.weights|)
    ensures Reaches(job, r, start, State(after, s.workers[c := Between(|job.Sources(c)|)]))
  {
    hide RowTraced, IsRun, CellStorage.Valid;
    r := CellIsSteps(job, run, start, s, c, trace, |trace|);
  }

  /** One thread that takes the cells one after the other: a run, and every other one ends with its values. */
  method CustomizeLevel(ghost job: Job, mlp: MultiLevelPartition, g: MultiLevelGraph, storage: CellStorage,
                        allowed: seq<bool>, metric: CellMetric, heap: QueryHeap, level: nat, ghost net: Network)
    returns (ghost run: seq<State>)
    requires job == Job(mlp, g, storage, net, level) && StartsLevel(job, metric.Values())
    requires net.allowed == allowed && |heap.nodeIndex| == net.numNodes
    modifies heap, metric
    ensures IsFullRun(job, run, old(metric.Values()), metric.Values())
    ensures job.storage.Valid() && job.net.Shaped() && level <= |net.cells|
            && LevelExact(storage, net, metric.Values(), level)
    ensures SameOffLevel(job, old(metric.Values()), metric.Values())
    ensures forall other, end :: IsFullRun(job, other, old(metric.Values()), end) ==> end == metric.Values()
  {
    hide IsFullRun, Setup, BelowExact, CellExact, LevelExact, ExcludedRowsInvalid, SameOffLevel, SameOutsideCell;
    hide Traced, IsRun, Reaches, CellStorage.Consecutive, CellStorage.ProductsFit, CellStorage.Valid, LaidOut;
    hide Network.WellFormed, Network.Shaped;
    ghost var start := metric.Values();
    JobFacts(job);
    var todo := CellsOf(mlp, g, storage, level, net);
    ghost var workers: map<nat, Worker> := map c: nat | c in todo :: Between(0);
    run := FirstState(job, start, workers);
    while todo != {}
      invariant |heap.nodeIndex| == net.numNodes && forall c: nat :: c in todo ==> storage.HasCell(level, c)
      invariant BelowExact(storage, net, metric.Values(), level)
      invariant forall c: nat :: c in todo ==> ExcludedRowsInvalid(storage, net, metric.Values(), level, c, 0)
      invariant forall c: nat :: storage.HasCell(level, c) ==> c in workers && workers[c] == Place(job, c, todo)
      invariant Reaches(job, run, start, State(metric.Values(), workers))
      decreases todo
    {
      var id :| id in todo;
      ghost var before := metric.Values();
      BelowIsSized(storage, net, before, level);
      ghost var trace := CustomizeCell(mlp, g, storage, allowed, metric, heap, level, id, net);
      run := CellRun(job, run, start, State(before, workers), id, trace, metric.Values());
      workers := workers[id := Between(|job.Sources(id)|)];
      todo := todo - {id};
      RowsToDoStay(job, before, metric.Values(), id, todo);
    }
    AllThrough(job, run, start, State(metric.Values(), workers));
    OnlyResult(job, run, start, metric.Values());
  }

  /** What one full run leaves, all leave. */
  lemma OnlyResult(job: Job, run: seq<State>, start: MetricValues, end: MetricValues)
    requires StartsLevel(job, start) && IsFullRun(job, run, start, end)
    ensures job.storage.Valid() && job.net.Shaped() && job.level <= |job.net.cells|
    ensures LevelExact(job.storage, job.net, end, job.level) && SameOffLevel(job, start, end)
    ensures forall other, end' :: IsFullRun(job, other, start, end') ==> end' == end
  {
    hide IsFullRun, StartsLevel, LevelExact, SameOffLevel;
    InterleavingIsExact(job, run, start, end);
    forall other, end' | IsFullRun(job, other, start, end') ensures end' == end {
      InterleavingDoesNotMatter(job, other, run, start, end', end);
    }
  }

  /** Where the worker of a cell is when the cells of `todo` are still to do. */
  ghost function Place(job: Job, c: nat, todo: set<nat>): Worker
    requires job.HasCell(c)
  {
    Between(if c in todo then 0 else |job.Sources(c)|)
  }

  lemma FirstState(job: Job, start: MetricValues, workers: map<nat, Worker>) returns (run: seq<State>)
    requires forall c: nat :: job.HasCell(c) ==> c in workers && workers[c] == Between(0)
    ensures Reaches(job, run, start, State(start, workers))
  {
    run := [State(start, workers)];
  }

  lemma AllThrough(job: Job, run: seq<State>, start: MetricValues, s: State)
    requires Reaches(job, run, start, s)
    requires forall c: nat :: job.HasCell(c) ==> c in s.workers && s.workers[c] == Between(|job.Sources(c)|)
    ensures IsFullRun(job, run, start, s.vals)
  {
  }

  lemma BelowIsSized(storage: CellStorage, net: Network, vals: MetricValues, level: nat)
    requires BelowExact(storage, net, vals, level)
    ensures vals.Sized(|vals.weights|)
  {
    hide LevelExact;
  }

  lemma RowsToDoStay(job: Job, a: MetricValues, b: MetricValues, id: nat, todo: set<nat>)
    requires job.storage.Valid() && job.storage.Consecutive() && job.storage.ProductsFit()
    requires job.HasCell(id) && SameOutsideCell(job.storage, a, b, job.level, id)
    requires forall c: nat ::
               c in todo ==> job.HasCell(c) && c != id && ExcludedRowsInvalid(job.storage, job.net, a, job.level, c, 0)
    ensures forall c: nat ::
              c in todo ==> job.HasCell(c) && ExcludedRowsInvalid(job.storage, job.net, b, job.level, c, 0)
  {
    hide ExcludedRowsInvalid, SameOutsideCell, CellStorage.Consecutive, CellStorage.ProductsFit, CellStorage.Valid;
    forall c: nat | c in todo ensures ExcludedRowsInvalid(job.storage, job.net, b, job.level, c, 0) {
      ExcludedRowsStay(job.storage, job.net, a, b, job.level, c, id);
    }
  }

  lemma ExcludedRowsStay(storage: CellStorage, net: Network, a: MetricValues, b: MetricValues, level: nat, c: nat,
                         c': nat)
    requires storage.Valid() && storage.Consecutive() && storage.ProductsFit() && c != c'
    requires storage.HasCell(level, c) && storage.HasCell(level, c')
    requires ExcludedRowsInvalid(storage, net, a, level, c, 0) && SameOutsideCell(storage, a, b, level, c')
    ensures ExcludedRowsInvalid(storage, net, b, level, c, 0)
  {
    hide CellStorage.Consecutive, CellStorage.ProductsFit, InBlock;
    forall i: nat, j: nat | i < |storage.GetSourceNodes(level, c)| && j < |storage.GetDestinationNodes(level, c)|
      ensures ExcludedSlotInvalid(storage, net, b, level, c, i, j)
    {
      assert ExcludedSlotInvalid(storage, net, a, level, c, i, j);
      SlotNotInOtherBlock(storage, level, c, i, j, level, c');
      assert CellSlot(storage, level, c, i, j) < |a.weights| ==> SameAt(a, b, CellSlot(storage, level, c, i, j));
    }
  }
}
