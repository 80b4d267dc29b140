/**
 The store of live traffic data, the check at its entrance and the aggregation, which runs
 again whenever it snaps one of its own samples to the road network.
 */
module LiveDataStores {
  import opened RoadGraph
  import opened LiveTraffic
  import opened TrafficHistory

  /** Speeds of up to 300 km/h. */
  predicate Plausible(s: TrafficSample) {
    s.speed <= 300.0
  }

  ghost predicate PlausibleFactor(data: TrafficEdgeData) {
    1.0 / 6.0 <= data.weightFactor <= 10.0
  }

  class LiveDataStore {
    var segments: map<nat, TrafficEdgeData>
    var pending: seq<TrafficSample>

    /** Every waiting sample is plausible and every live factor lies between one sixth and ten. */
    ghost predicate Valid()
      reads this
    {
      (forall s :: s in pending ==> Plausible(s)) && (forall g :: g in segments ==> PlausibleFactor(segments[g]))
    }

    constructor ()
      ensures Valid() && segments == map[] && pending == []
    {
      segments, pending := map[], [];
    }

    method AddSample(sample: TrafficSample)
      modifies this`pending
      ensures pending == old(pending) + [sample]
      ensures old(Valid()) && Plausible(sample) ==> Valid()
    {
      pending := pending + [sample];
    }

    method TakePendingSamples() returns (taken: seq<TrafficSample>)
      modifies this`pending
      ensures taken == old(pending) && pending == []
      ensures old(Valid()) ==> Valid()
    {
      taken := pending;
      pending := [];
    }

    method Update(id: nat, data: TrafficEdgeData)
      modifies this`segments
      ensures segments == old(segments)[id := data]
      ensures old(Valid()) && PlausibleFactor(data) ==> Valid()
    {
      segments := segments[id := data];
    }

    function Get(id: nat): (r: Option<TrafficEdgeData>)
      reads this
      ensures r.Some? <==> id in segments
      ensures r.Some? ==> r.value == segments[id]
    {
      if id in segments then Some(segments[id]) else None
    }

    /** Erases while iterating: exactly the segments that are too old go. */
    method RemoveStaleSegments(now: int, staleSeconds: int)
      modifies this`segments
      ensures forall g ::
                g in segments <==> g in old(segments) && now - old(segments)[g].timestamp <= 1000 * staleSeconds
      ensures forall g :: g in segments ==> segments[g] == old(segments)[g]
      ensures old(Valid()) ==> Valid()
    {
      var left := segments.Keys;
      while left != {}
        invariant left <= segments.Keys
        invariant forall g :: g in segments ==> g in old(segments) && segments[g] == old(segments)[g]
        invariant forall g ::
                    g in old(segments) && (g in left || !IsStale(old(segments)[g].timestamp, now, staleSeconds)) ==>
                      g in segments
        invariant forall g :: g in segments && g !in left ==> !IsStale(segments[g].timestamp, now, staleSeconds)
        decreases left
      {
        var g :| g in left;
        left := left - {g};
        if IsStale(segments[g].timestamp, now, staleSeconds) {
          segments := segments - {g};
        }
      }
    }
  }

  // ---------- the check at the entrance ----------

  /** A packet may come without a time: zero or less means "now". */
  function SampleOf(packet: TrafficSample, now: int): TrafficSample {
    if packet.timestamp > 0 then packet else packet.(timestamp := now)
  }

  method ProcessPacket(store: LiveDataStore, packet: TrafficSample, minSpeed: real, now: int, staleSeconds: int)
    requires store.Valid()
    modifies store
    ensures store.Valid() && store.segments == old(store.segments)
    ensures var admitted :=
              && minSpeed <= packet.speed <= 300.0 && -90.0 <= packet.latitude <= 90.0
              && -180.0 <= packet.longitude <= 180.0
              && (packet.timestamp <= 0 || now - packet.timestamp <= 1000 * staleSeconds);
            var n := |old(store.pending)|;
            if admitted then
              && |store.pending| == n + 1 && store.pending[..n] == old(store.pending)
              && var s := store.pending[n];
                 && s.userId == packet.userId && s.latitude == packet.latitude && s.longitude == packet.longitude
                 && s.speed == packet.speed && s.bearing == packet.bearing
                 && s.timestamp == if packet.timestamp > 0 then packet.timestamp else now
            else store.pending == old(store.pending)
    ensures forall s ::
              s in store.pending && s !in old(store.pending) && staleSeconds >= 0 ==> IsFresh(s, now, staleSeconds)
  {
    if packet.speed < minSpeed || packet.speed > 300.0 {
      return;
    }
    if packet.latitude < -90.0 || packet.latitude > 90.0 {
      return;
    }
    if packet.longitude < -180.0 || packet.longitude > 180.0 {
      return;
    }
    if packet.timestamp > 0 && now - packet.timestamp > staleSeconds * 1000 {
      return;
    }
    store.AddSample(SampleOf(packet, now));
  }

  // ---------- the aggregation ----------

  /** Samples that other threads add while the aggregation is snapping, one batch for each snap. */
  class Arrivals {
    var batches: seq<seq<TrafficSample>>

    ghost predicate Valid()
      reads this
    {
      forall b, s :: b in batches && s in b ==> Plausible(s)
    }

    constructor (batches: seq<seq<TrafficSample>>)
      ensures this.batches == batches
    {
      this.batches := batches;
    }
  }

  ghost function Flat(batches: seq<seq<TrafficSample>>): seq<TrafficSample> {
    if batches == [] then [] else batches[0] + Flat(batches[1..])
  }

  lemma NothingToCome(batches: seq<seq<TrafficSample>>)
    ensures batches == [] ==> Flat(batches) == []
  {
  }

  /** The samples that are waiting or still to come. */
  ghost function Unhandled(store: LiveDataStore, arrivals: Arrivals): seq<TrafficSample>
    reads store, arrivals
  {
    store.pending + Flat(arrivals.batches)
  }

  method ReadClock() returns (now: int) {
    now := *;
  }

  /** Other threads add a batch of samples. */
  method Arrive(store: LiveDataStore, arrivals: Arrivals)
    requires store.Valid() && arrivals.Valid()
    modifies store`pending, arrivals`batches
    ensures store.Valid() && arrivals.Valid() && Unhandled(store, arrivals) == old(Unhandled(store, arrivals))
    ensures old(arrivals.batches) != [] ==> arrivals.batches == old(arrivals.batches)[1..]
    ensures old(arrivals.batches) == [] ==> arrivals.batches == []
  {
    if arrivals.batches != [] {
      var batch := arrivals.batches[0];
      arrivals.batches := arrivals.batches[1..];
      store.pending := store.pending + batch;
    }
  }

  /** The calls handled exactly the samples that were unhandled before and are not any more. */
  ghost predicate Accounted(calls: seq<Call>, before: seq<TrafficSample>, after: seq<TrafficSample>) {
    multiset(Samples(calls)) + multiset(after) == multiset(before) && |Samples(calls)| + |after| == |before|
  }

  lemma AccountedConcat(a: seq<Call>, b: seq<Call>, x: seq<TrafficSample>, y: seq<TrafficSample>, z: seq<TrafficSample>)
    requires Accounted(a, x, y) && Accounted(b, y, z)
    ensures Accounted(a + b, x, z)
  {
    SamplesConcat(a, b);
  }

  lemma NothingAccounted(x: seq<TrafficSample>)
    ensures Accounted([], x, x)
  {
  }

  /** Each call drained something, by the same rules. */
  ghost predicate CallsOf(calls: seq<Call>, snap: (real, real) -> Snapped, staleSeconds: int) {
    forall i ::
      0 <= i < |calls| ==> calls[i].drained != [] && calls[i].snap == snap && calls[i].staleSeconds == staleSeconds
  }

  /** Snapping builds a phantom node if there is a road, and building it aggregates first. */
  method Snap(store: LiveDataStore, arrivals: Arrivals, snap: (real, real) -> Snapped, staleSeconds: int,
              latitude: real, longitude: real)
    returns (r: Snapped, ghost calls: seq<Call>)
    requires store.Valid() && arrivals.Valid() && store.pending == []
    modifies store, arrivals
    ensures r == snap(latitude, longitude)
    ensures store.Valid() && arrivals.Valid() && store.pending == []
    ensures CallsOf(calls, snap, staleSeconds) && store.segments == Replay(old(store.segments), calls)
    ensures Accounted(calls, old(Unhandled(store, arrivals)), Unhandled(store, arrivals))
    ensures |arrivals.batches| <= old(|arrivals.batches|)
    ensures !r.Nothing? && old(arrivals.batches) != [] ==> |arrivals.batches| < old(|arrivals.batches|)
    decreases |Unhandled(store, arrivals)|, 1
  {
    hide LiveDataStore.Valid, Arrivals.Valid, Flat, Effect;
    r, calls := snap(latitude, longitude), [];
    NothingAccounted(Unhandled(store, arrivals));
    if !r.Nothing? {
      Arrive(store, arrivals);
      var drained;
      drained, calls := AggregatePendingTrafficSamples(store, arrivals, snap, staleSeconds);
    }
  }

  /**
   Drains the waiting samples, groups and publishes them, then drops what is too old. The
   segments afterwards are those of the returned calls, one after the other: the nested ones
   that handled samples arriving meanwhile, and last the call itself.
   */
  method AggregatePendingTrafficSamples(store: LiveDataStore, arrivals: Arrivals, snap: (real, real) -> Snapped,
                                        staleSeconds: int)
    returns (drained: seq<TrafficSample>, ghost calls: seq<Call>)
    requires store.Valid() && arrivals.Valid()
    modifies store, arrivals
    ensures store.Valid() && arrivals.Valid() && drained == old(store.pending) && store.pending == []
    ensures CallsOf(calls, snap, staleSeconds) && store.segments == Replay(old(store.segments), calls)
    ensures Accounted(calls, old(Unhandled(store, arrivals)), Unhandled(store, arrivals))
    ensures drained == [] ==> calls == [] && arrivals.batches == old(arrivals.batches)
    ensures drained != [] ==> calls != [] && calls[|calls| - 1].drained == drained
    ensures drained != [] ==> forall g: nat :: g in store.segments ==> !calls[|calls| - 1].Drops(store.segments[g])
    ensures drained != [] ==> ShownByWaiting(store.segments, calls[..|calls| - 1], calls[|calls| - 1])
    ensures drained != [] ==> forall y :: y in FreshSamples(calls[..|calls| - 1]) ==> y in old(Flat(arrivals.batches))
    ensures drained != [] && old(arrivals.batches) == [] ==> |calls| == 1
    ensures |arrivals.batches| <= old(|arrivals.batches|)
    ensures drained != [] && old(arrivals.batches) != [] && MeetsRoad(drained, calls[|calls| - 1].At()) ==>
              |arrivals.batches| < old(|arrivals.batches|)
    decreases |Unhandled(store, arrivals)|, 0
  {
    hide LiveDataStore.Valid, Arrivals.Valid, Flat, Grouping, MeetsRoad, Effect, Replay, Samples, ShownByWaiting;
    hide FreshSamples;
    calls := [];
    NothingHappened(store.segments, [], Setting(0, staleSeconds, snap));
    PendingIsPlausible(store);
    ghost var before := Unhandled(store, arrivals);
    drained := store.TakePendingSamples();
    if drained == [] {
      NothingAccounted(before);
      assert before == Unhandled(store, arrivals);
      return;
    }
    ghost var rest := Unhandled(store, arrivals);
    assert before == drained + rest && rest == Flat(arrivals.batches);
    NothingToCome(arrivals.batches);
    var now := ReadClock();
    var groups;
    groups, calls := GroupSamples(store, arrivals, drained, now, staleSeconds, snap);
    GroupsAreUsable(groups, drained, Setting(now, staleSeconds, snap));
    ghost var own := PublishAndClean(store, groups, drained, now, staleSeconds, snap);
    OwnCallLast(old(store.segments), calls, own);
    OwnAccounted(calls, own, before, rest, Unhandled(store, arrivals));
    QuietMeansAlone(calls, rest, Unhandled(store, arrivals));
    WhatIsShown(old(store.segments), calls, own);
    NestedHandleArrivals(calls, rest, Unhandled(store, arrivals));
    assert (calls + [own])[..|calls|] == calls;
    calls := calls + [own];
  }

  /** A geometry that waiting samples are on shows them, and these are the latest of all exactly when nothing newer
      arrives. */
  ghost predicate ShownByWaiting(segments: Segments, nested: seq<Call>, own: Call) {
    forall g: nat :: Mentions(own, g) ==>
      && (g in segments ==> segments[g] == Shown(own, g))
      && (LatestOfAll(own.Groups()[g], nested + [own], g) <==> NothingNewerArrives(own, FreshSamples(nested), g))
  }

  lemma WhatIsShown(segments: Segments, nested: seq<Call>, own: Call)
    requires forall i :: 0 <= i < |nested| ==> nested[i].snap == own.snap
    ensures ShownByWaiting(Replay(segments, nested + [own]), nested, own)
  {
    hide Replay, Shown, LatestOfAll, NothingNewerArrives, FreshSamples, Call.Groups;
    forall g: nat | Mentions(own, g)
      ensures g in Replay(segments, nested + [own]) ==> Replay(segments, nested + [own])[g] == Shown(own, g)
      ensures LatestOfAll(own.Groups()[g], nested + [own], g) <==> NothingNewerArrives(own, FreshSamples(nested), g)
    {
      LastMentionDecides(segments, nested + [own], |nested|, g);
      OwnSegmentIsLatestIff(nested, own, g);
    }
  }

  lemma NestedHandleArrivals(nested: seq<Call>, arriving: seq<TrafficSample>, after: seq<TrafficSample>)
    requires Accounted(nested, arriving, after)
    ensures forall y :: y in FreshSamples(nested) ==> y in arriving
  {
    hide Samples;
    forall y | y in FreshSamples(nested) ensures y in arriving {
      var i :| 0 <= i < |nested| && y in nested[i].drained;
      DrainedIsSample(nested, i, y);
      assert y in multiset(arriving);
    }
  }

  /** Without arrivals there is no nested call. */
  lemma QuietMeansAlone(calls: seq<Call>, before: seq<TrafficSample>, after: seq<TrafficSample>)
    requires Accounted(calls, before, after) && forall i :: 0 <= i < |calls| ==> calls[i].drained != []
    ensures before == [] ==> calls == []
  {
  }

  /** The end of a call: its groups are written, and what is too old goes. */
  method PublishAndClean(store: LiveDataStore, groups: Groups, ghost drained: seq<TrafficSample>, ghost now: int,
                         staleSeconds: int, ghost snap: (real, real) -> Snapped)
    returns (ghost own: Call)
    requires store.Valid() && groups == Grouping(drained, Setting(now, staleSeconds, snap))
    requires forall g: nat :: g in groups ==> |groups[g]| > 0
    requires forall g: nat, u: nat :: g in groups && u in groups[g] ==> groups[g][u].speed <= 300.0
    modifies store`segments
    ensures store.Valid()
    ensures own.drained == drained && own.now == now && own.staleSeconds == staleSeconds && own.snap == snap
    ensures store.segments == Effect(old(store.segments), own)
    ensures forall g: nat :: g in store.segments ==> !own.Drops(store.segments[g])
  {
    hide LiveDataStore.Valid, Grouping, Written, SummaryOf, Effect;
    PublishAll(store, groups);
    var later := ReadClock();
    store.RemoveStaleSegments(later, staleSeconds);
    own := Call(drained, now, later, staleSeconds, snap);
    EffectIs(old(store.segments), own, store.segments);
  }

  /** Some sample is fresh and lies on a road. */
  ghost predicate MeetsRoad(samples: seq<TrafficSample>, at: Setting) {
    exists k :: 0 <= k < |samples| && OnRoad(samples[k], at)
  }

  ghost predicate OnRoad(s: TrafficSample, at: Setting) {
    IsFresh(s, at.now, at.staleSeconds) && !at.snap(s.latitude, s.longitude).Nothing?
  }

  lemma OwnCallLast(segments: Segments, calls: seq<Call>, own: Call)
    ensures Replay(segments, calls + [own]) == Effect(Replay(segments, calls), own)
  {
    hide Effect;
    assert (calls + [own])[..|calls|] == calls;
  }

  lemma OwnAccounted(calls: seq<Call>, own: Call, before: seq<TrafficSample>, rest: seq<TrafficSample>,
                     after: seq<TrafficSample>)
    requires before == own.drained + rest && Accounted(calls, rest, after)
    ensures Accounted(calls + [own], before, after)
  {
    assert [own][..0] == [] && Samples([]) == [];
    assert Samples([own]) == own.drained;
    SamplesConcat(calls, [own]);
  }

  /** Writing the groups and dropping what is too old is the effect of the call. */
  lemma EffectIs(before: Segments, call: Call, after: Segments)
    requires var written := Written(before, call.Groups());
             && (forall g: nat :: g in after <==> g in written && !call.Drops(written[g]))
             && (forall g: nat :: g in after ==> after[g] == written[g])
    ensures after == Effect(before, call)
    ensures forall g: nat :: g in after ==> !call.Drops(after[g])
  {
    hide Written, Call.Groups;
  }

  lemma PendingIsPlausible(store: LiveDataStore)
    requires store.Valid()
    ensures forall s :: s in store.pending ==> Plausible(s)
  {
  }

  /** The grouping loop: each drained sample is handled once, and its snap may aggregate newer ones. */
  method GroupSamples(store: LiveDataStore, arrivals: Arrivals, drained: seq<TrafficSample>, now: int,
                      staleSeconds: int, snap: (real, real) -> Snapped)
    returns (groups: Groups, ghost calls: seq<Call>)
    requires store.Valid() && arrivals.Valid() && store.pending == []
    modifies store, arrivals
    ensures store.Valid() && arrivals.Valid() && store.pending == []
    ensures groups == Grouping(drained, Setting(now, staleSeconds, snap))
    ensures CallsOf(calls, snap, staleSeconds) && store.segments == Replay(old(store.segments), calls)
    ensures Accounted(calls, old(Unhandled(store, arrivals)), Unhandled(store, arrivals))
    ensures |arrivals.batches| <= old(|arrivals.batches|)
    ensures old(arrivals.batches) != [] && MeetsRoad(drained, Setting(now, staleSeconds, snap)) ==>
              |arrivals.batches| < old(|arrivals.batches|)
    decreases |Unhandled(store, arrivals)|, 2
  {
    hide Grouping, Insert, LiveDataStore.Valid, Arrivals.Valid, Flat, Unhandled, Accounted, Replay;
    ghost var at := Setting(now, staleSeconds, snap);
    groups, calls := map[], [];
    NothingHappened(store.segments, Unhandled(store, arrivals), at);
    for i := 0 to |drained|
      invariant store.Valid() && arrivals.Valid() && store.pending == []
      invariant groups == Grouping(drained[..i], at)
      invariant CallsOf(calls, snap, staleSeconds) && store.segments == Replay(old(store.segments), calls)
      invariant Accounted(calls, old(Unhandled(store, arrivals)), Unhandled(store, arrivals))
      invariant |Unhandled(store, arrivals)| <= old(|Unhandled(store, arrivals)|)
      invariant |arrivals.batches| <= old(|arrivals.batches|)
      invariant old(arrivals.batches) != [] && (exists k :: 0 <= k < i && OnRoad(drained[k], at)) ==>
                  |arrivals.batches| < old(|arrivals.batches|)
    {
      var sample := drained[i];
      assert drained[..i + 1] == drained[..i] + [sample];
      GroupingGrows(drained[..i], sample, at);
      if sample.timestamp + staleSeconds * 1000 >= now {
        ghost var unhandled := Unhandled(store, arrivals);
        var road;
        ghost var nested;
        road, nested := Snap(store, arrivals, snap, staleSeconds, sample.latitude, sample.longitude);
        AccountedConcat(calls, nested, old(Unhandled(store, arrivals)), unhandled, Unhandled(store, arrivals));
        AccountedShrinks(nested, unhandled, Unhandled(store, arrivals));
        ReplayConcat(old(store.segments), calls, nested);
        calls := calls + nested;
        if road.OnGeometry? {
          groups := Insert(groups, sample, road.id);
        }
      }
    }
    assert drained[..|drained|] == drained;
  }

  lemma AccountedShrinks(calls: seq<Call>, before: seq<TrafficSample>, after: seq<TrafficSample>)
    requires Accounted(calls, before, after)
    ensures |after| <= |before|
  {
  }

  lemma NothingHappened(segments: Segments, unhandled: seq<TrafficSample>, at: Setting)
    ensures Replay(segments, []) == segments && Accounted([], unhandled, unhandled) && Grouping([], at) == map[]
  {
  }

  /** Writes the summary of every group into the store, in any order. */
  method PublishAll(store: LiveDataStore, groups: Groups)
    requires store.Valid() && forall g: nat :: g in groups ==> |groups[g]| > 0
    requires forall g: nat, u: nat :: g in groups && u in groups[g] ==> groups[g][u].speed <= 300.0
    modifies store`segments
    ensures store.Valid() && store.segments == Written(old(store.segments), groups)
  {
    var left := groups.Keys;
    NothingPublished(store.segments, groups);
    hide SummaryOf, LiveDataStore.Valid, PublishedSoFar, Written;
    while left != {}
      invariant store.Valid() && left <= groups.Keys
                && PublishedSoFar(old(store.segments), store.segments, groups, left)
      decreases left
    {
      var g :| g in left;
      PublishNext(store, groups, left, g, old(store.segments));
      left := left - {g};
    }
    AllPublished(old(store.segments), store.segments, groups);
  }

  lemma AllPublished(before: Segments, segments: Segments, groups: Groups)
    requires forall g: nat :: g in groups ==> |groups[g]| > 0
    requires PublishedSoFar(before, segments, groups, {})
    ensures segments == Written(before, groups)
  {
    hide SummaryOf, IsSummary;
    var written := Written(before, groups);
    forall g: nat ensures g in segments <==> g in written {
    }
    forall g: nat | g in segments ensures segments[g] == written[g] {
    }
  }

  lemma PublishStep(before: Segments, segments: Segments, groups: Groups, left: set<nat>, g: nat)
    requires forall h: nat :: h in groups ==> |groups[h]| > 0
    requires g in groups && g in left && PublishedSoFar(before, segments, groups, left)
    ensures PublishedSoFar(before, segments[g := SummaryOf(groups[g])], groups, left - {g})
  {
    hide SummaryOf, IsSummary;
  }

  lemma NothingPublished(segments: Segments, groups: Groups)
    requires forall g: nat :: g in groups ==> |groups[g]| > 0
    ensures PublishedSoFar(segments, segments, groups, groups.Keys)
  {
    hide SummaryOf;
  }

  ghost predicate PublishedSoFar(before: Segments, segments: Segments, groups: Groups, left: set<nat>)
    requires forall g: nat :: g in groups ==> |groups[g]| > 0
  {
    && (forall g: nat :: g in groups && g !in left ==> g in segments && segments[g] == SummaryOf(groups[g]))
    && (forall g: nat :: g !in groups || g in left ==> (g in segments <==> g in before))
    && (forall g: nat :: (g !in groups || g in left) && g in before && g in segments ==> segments[g] == before[g])
  }

  method PublishNext(store: LiveDataStore, groups: Groups, ghost left: set<nat>, g: nat, ghost before: Segments)
    requires store.Valid() && g in left && g in groups && forall h: nat :: h in groups ==> |groups[h]| > 0
    requires PublishedSoFar(before, store.segments, groups, left)
    requires forall u :: u in groups[g] ==> groups[g][u].speed <= 300.0
    modifies store`segments
    ensures store.Valid() && PublishedSoFar(before, store.segments, groups, left - {g})
  {
    hide LiveDataStore.Valid, IsSummary, SummaryOf, PublishedSoFar;
    PublishStep(before, store.segments, groups, left, g);
    var data := Summarise(groups[g]);
    AdmittedSpeedsBoundTheFactor(data, groups[g]);
    SummaryIsUnique(data, SummaryOf(groups[g]), groups[g]);
    store.Update(g, data);
  }

  lemma GroupsAreUsable(groups: Groups, samples: seq<TrafficSample>, at: Setting)
    requires groups == Grouping(samples, at) && forall s :: s in samples ==> Plausible(s)
    ensures forall g: nat :: g in groups ==> |groups[g]| > 0
    ensures forall g: nat, u: nat :: g in groups && u in groups[g] ==> groups[g][u].speed <= 300.0
  {
    GroupsAreFilled(samples, at);
    GroupingIsLatest(samples, at);
    forall g: nat, u: nat | g in groups && u in groups[g] ensures groups[g][u].speed <= 300.0 {
      assert HasEntry(groups, g, u);
    }
  }

  // ---------- a newer sample can be overwritten ----------

  /** Two samples of one user on one geometry: `y` is newer, arrives while `x` is snapped, and is published first. */
  lemma NewerSampleIsOverwritten(segments: Segments, calls: seq<Call>, x: TrafficSample, y: TrafficSample, g: nat)
    requires x.userId == y.userId && x.timestamp < y.timestamp
    requires |calls| == 2 && calls[0].drained == [y] && calls[1].drained == [x]
    requires Counts(calls[0], y, g, y.userId) && Counts(calls[1], x, g, x.userId)
    ensures Mentions(calls[1], g) && calls[1].Groups()[g] == map[x.userId := x]
    ensures !LatestOfAll(calls[1].Groups()[g], calls, g)
    ensures !calls[1].Drops(Shown(calls[1], g)) ==>
              g in Replay(segments, calls) && Replay(segments, calls)[g] == Shown(calls[1], g)
  {
    GroupingGrows([], x, calls[1].At());
    assert [] + [x] == [x] && Grouping([], calls[1].At()) == map[];
    assert calls[1].Groups() == map[g := map[x.userId := x]];
    hide Grouping, Shown;
    LastMentionDecides(segments, calls, 1, g);
    SegmentIsLatestIff(calls, 1, g);
    assert !Outdone(calls[1], y, g, y.userId);
  }

  /** The segment shows the older sample `x`, unless that was stale by the time the last call cleaned up. */
  ghost predicate ShowsOlder(segments: Segments, calls: seq<Call>, x: TrafficSample, g: nat) {
    && |calls| == 2 && Mentions(calls[1], g) && calls[1].Groups()[g] == map[x.userId := x]
    && !LatestOfAll(calls[1].Groups()[g], calls, g)
    && (!calls[1].Drops(Shown(calls[1], g)) ==> g in segments && segments[g] == Shown(calls[1], g))
  }

  lemma OuterCallWins(segments: Segments, calls: seq<Call>, x: TrafficSample, y: TrafficSample, g: nat,
                      staleSeconds: int, snap: (real, real) -> Snapped)
    requires |calls| == 2 && calls[0].drained == [y] && calls[1].drained == [x] && segments == Replay(map[], calls)
    requires CallsOf(calls, snap, staleSeconds) && forall a, b :: snap(a, b) == OnGeometry(g)
    requires x.userId == y.userId && x.timestamp < y.timestamp
    requires IsFresh(x, calls[1].now, staleSeconds) && IsFresh(y, calls[0].now, staleSeconds)
    ensures ShowsOlder(segments, calls, x, g)
  {
    hide Replay, LatestOfAll;
    NewerSampleIsOverwritten(map[], calls, x, y, g);
  }

  /** One sample waits and one batch of one sample is about to arrive. */
  method OneWaitingOneArriving(x: TrafficSample, y: TrafficSample) returns (store: LiveDataStore, arrivals: Arrivals)
    requires Plausible(x) && Plausible(y)
    ensures fresh(store) && fresh(arrivals) && store.Valid() && arrivals.Valid()
    ensures store.pending == [x] && store.segments == map[] && |arrivals.batches| == 1
    ensures Unhandled(store, arrivals) == [x, y]
  {
    store := new LiveDataStore();
    store.AddSample(x);
    arrivals := new Arrivals([[y]]);
    assert Flat([[y]]) == [y] + Flat([]) by { assert [[y]][1..] == []; }
  }

  /** From such a state the aggregation ends with the older sample. */
  method OverwriteNewer(x: TrafficSample, y: TrafficSample, g: nat, staleSeconds: int)
    returns (store: LiveDataStore, ghost calls: seq<Call>)
    requires Plausible(x) && Plausible(y)
    ensures calls != [] && calls[|calls| - 1].drained == [x] && store.segments == Replay(map[], calls)
    ensures IsFresh(x, calls[|calls| - 1].now, staleSeconds) ==> |calls| == 2 && calls[0].drained == [y]
    ensures x.userId == y.userId && x.timestamp < y.timestamp
            && IsFresh(x, calls[|calls| - 1].now, staleSeconds) && IsFresh(y, calls[0].now, staleSeconds) ==>
              ShowsOlder(store.segments, calls, x, g)
  {
    hide ShowsOlder, Replay, Accounted, Flat, LiveDataStore.Valid, Arrivals.Valid, Plausible, Call.Drops, IsFresh;
    var arrivals, drained;
    store, arrivals := OneWaitingOneArriving(x, y);
    var snap := (_: real, _: real) => OnGeometry(g);
    drained, calls := AggregatePendingTrafficSamples(store, arrivals, snap, staleSeconds);
    ghost var own := calls[|calls| - 1];
    if IsFresh(x, own.now, staleSeconds) {
      assert OnRoad(drained[0], own.At()) && MeetsRoad(drained, own.At());
      NothingToCome(arrivals.batches);
      assert Unhandled(store, arrivals) == [];
      OneNestedCall(calls, x, y);
      if x.userId == y.userId && x.timestamp < y.timestamp && IsFresh(y, calls[0].now, staleSeconds) {
        OuterCallWins(store.segments, calls, x, y, g, staleSeconds, snap);
      }
    }
  }

  lemma OneNestedCall(calls: seq<Call>, x: TrafficSample, y: TrafficSample)
    requires Accounted(calls, [x, y], []) && calls != [] && calls[|calls| - 1].drained == [x]
    requires forall i :: 0 <= i < |calls| ==> calls[i].drained != []
    ensures |calls| == 2 && calls[0].drained == [y]
  {
    var n := |calls| - 1;
    var nested := calls[..n];
    assert Samples(calls) == Samples(nested) + [x];
    CallsAreFew(nested);
    assert [calls[0]][..0] == [] && Samples([calls[0]]) == Samples([]) + calls[0].drained;
    assert nested == [calls[0]];
    OneLeft(calls[0].drained, x, y);
  }

  lemma OneLeft(rest: seq<TrafficSample>, x: TrafficSample, y: TrafficSample)
    requires multiset(rest + [x]) == multiset([x, y]) && |rest| == 1
    ensures rest == [y]
  {
    assert rest == [rest[0]];
    assert multiset([x, y]) == multiset{x} + multiset{y};
    assert multiset(rest) == multiset{y};
    assert rest[0] in multiset{y};
  }

  lemma {:induction false} CallsAreFew(calls: seq<Call>)
    requires forall i :: 0 <= i < |calls| ==> calls[i].drained != []
    ensures |calls| <= |Samples(calls)| && (calls == [] ==> Samples(calls) == [])
    decreases |calls|
  {
    if calls != [] {
      CallsAreFew(calls[..|calls| - 1]);
    }
  }

  // ---------- using the factor ----------

  /** `std::round` of a weight that is not negative. */
  function Scaled(weight: nat, factor: real): (r: nat)
    requires factor > 0.0
    ensures r as real - 0.5 <= weight as real * factor < r as real + 0.5
  {
    ScaledIsNatural(weight, factor);
    (weight as real * factor + 0.5).Floor
  }

  lemma ScaledIsNatural(weight: nat, factor: real)
    requires factor > 0.0
    ensures weight as real * factor >= 0.0
  {
  }

  /** Scaling keeps the order of weights; a positive weight vanishes exactly when it falls below one half. */
  lemma ScalingKeepsOrder(a: nat, b: nat, factor: real)
    requires factor > 0.0 && a <= b
    ensures Scaled(a, factor) <= Scaled(b, factor)
    ensures Scaled(a, factor) == 0 <==> a as real * factor < 0.5
  {
    hide Scaled;
    var x, y := a as real * factor, b as real * factor;
    var m, n := Scaled(a, factor), Scaled(b, factor);
    assert x <= y;
    assert m as real < (n + 1) as real;
    assert x < 0.5 ==> m as real < 1 as real;
  }

  /** A weight of one or two can become free: the source does not clamp what it scales. */
  lemma SmallWeightsVanish()
    ensures ComputeTrafficWeightFactor(300.0) > 0.0 && Scaled(2, ComputeTrafficWeightFactor(300.0)) == 0
  {
    var factor := ComputeTrafficWeightFactor(300.0);
    assert factor * 300.0 == 50.0;
    assert 2.0 * factor < 0.5;
    assert (2 as nat) as real == 2.0;
    ScalingKeepsOrder(2, 2, factor);
  }

  const INVALID_SEGMENT_WEIGHT: nat := 0x3F_FFFF

  /** Rounding gives `n` exactly for values within half a unit of it. */
  lemma ScaledIsIff(weight: nat, factor: real, n: nat)
    requires factor > 0.0
    ensures Scaled(weight, factor) == n <==> n as real - 0.5 <= weight as real * factor < n as real + 0.5
  {
    hide Scaled;
    var r, x := Scaled(weight, factor), weight as real * factor;
    assert r as real - 0.5 <= x < r as real + 0.5;
    if n as real - 0.5 <= x < n as real + 0.5 {
      assert r as real < (n + 1) as real && n as real < (r + 1) as real;
    }
  }

  /**
   A positive weight, in particular the marker of an unusable segment, survives scaling if and
   only if the factor differs from one by at most half a unit, relative to the weight.
   */
  lemma WeightSurvivesIff(weight: nat, factor: real)
    requires factor > 0.0 && weight > 0
    ensures Scaled(weight, factor) == weight <==> 1.0 - 0.5 / weight as real <= factor < 1.0 + 0.5 / weight as real
  {
    ScaledIsIff(weight, factor, weight);
    HalfUnit(weight as real, factor);
  }

  lemma HalfUnit(w: real, f: real)
    requires w > 0.0
    ensures w - 0.5 <= w * f <==> 1.0 - 0.5 / w <= f
    ensures w * f < w + 0.5 <==> f < 1.0 + 0.5 / w
  {
    var h := 0.5 / w;
    assert h * w == 0.5;
    assert w * (1.0 - h) == w - 0.5 && w * (1.0 + h) == w + 0.5;
    ScaleOrder(w, 1.0 - h, f);
    ScaleOrder(w, f, 1.0 + h);
  }

  lemma ScaleOrder(w: real, a: real, b: real)
    requires w > 0.0
    ensures w * a <= w * b <==> a <= b
    ensures w * a < w * b <==> a < b
  {
    assert w * (b - a) == w * b - w * a;
  }

  /** The marker at standstill: the segment gets an ordinary weight. */
  lemma InvalidMarkerIsScaled()
    ensures Scaled(INVALID_SEGMENT_WEIGHT, ComputeTrafficWeightFactor(0.1)) == 10 * INVALID_SEGMENT_WEIGHT
  {
    var w: nat := INVALID_SEGMENT_WEIGHT;
    assert w as real * 10.0 == (10 * w) as real;
  }

  method ApplyLiveTrafficToSegmentWeights(store: LiveDataStore, id: nat, weights: array<nat>)
    requires store.Valid()
    modifies weights
    ensures id in store.segments && store.segments[id].source == "live" ==>
              forall k ::
                0 <= k < weights.Length ==> weights[k] == Scaled(old(weights[k]), store.segments[id].weightFactor)
    ensures !(id in store.segments && store.segments[id].source == "live") ==> weights[..] == old(weights[..])
  {
    var live := store.Get(id);
    if live.None? || live.value.source != "live" {
      return;
    }
    for i := 0 to weights.Length
      invariant forall k :: 0 <= k < i ==> weights[k] == Scaled(old(weights[k]), live.value.weightFactor)
      invariant forall k :: i <= k < weights.Length ==> weights[k] == old(weights[k])
    {
      weights[i] := Scaled(weights[i], live.value.weightFactor);
    }
  }
}
