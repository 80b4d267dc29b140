/**
 What a sequence of aggregations does to the stored segments, and when the segment of a
 geometry shows the latest sample of every user.
 */
module TrafficHistory {
  import opened LiveTraffic

  /** One aggregation that drained something: what it drained, and its two readings of the clock. */
  datatype Call = Call(drained: seq<TrafficSample>, now: int, later: int, staleSeconds: int,
                       snap: (real, real) -> Snapped)
  {
    ghost function At(): Setting {
      Setting(now, staleSeconds, snap)
    }

    ghost function Groups(): (r: Groups)
      ensures forall g: nat :: g in r ==> |r[g]| > 0
    {
      GroupsAreFilled(drained, At());
      Grouping(drained, At())
    }

    predicate Drops(data: TrafficEdgeData) {
      IsStale(data.timestamp, later, staleSeconds)
    }
  }

  type Segments = map<nat, TrafficEdgeData>

  lemma GroupsAreFilled(samples: seq<TrafficSample>, at: Setting)
    ensures forall g: nat :: g in Grouping(samples, at) ==> |Grouping(samples, at)[g]| > 0
  {
    GroupingIsLatest(samples, at);
    var groups := Grouping(samples, at);
    forall g: nat | g in groups ensures |groups[g]| > 0 {
      var u: nat :| u in groups[g];
      assert groups[g].Keys != {};
    }
  }

  /** The segments once the groups of a call are written. */
  ghost function Written(segments: Segments, groups: Groups): Segments
    requires forall g: nat :: g in groups ==> |groups[g]| > 0
  {
    map g: nat | g in segments.Keys + groups.Keys :: if g in groups then SummaryOf(groups[g]) else segments[g]
  }

  /** The segments after a call: its groups written, then what is too old dropped. */
  ghost function Effect(segments: Segments, call: Call): Segments {
    var written := Written(segments, call.Groups());
    map g: nat | g in written.Keys && !call.Drops(written[g]) :: written[g]
  }

  /** The segments after several calls. */
  ghost function Replay(segments: Segments, calls: seq<Call>): Segments {
    if calls == [] then segments else Effect(Replay(segments, calls[..|calls| - 1]), calls[|calls| - 1])
  }

  lemma {:induction false} ReplayConcat(segments: Segments, a: seq<Call>, b: seq<Call>)
    ensures Replay(segments, a + b) == Replay(Replay(segments, a), b)
    decreases |b|
  {
    hide Effect;
    if b == [] {
      assert a + b == a;
    } else {
      var n := |b| - 1;
      assert (a + b)[..|a| + n] == a + b[..n] && (a + b)[|a| + n] == b[n];
      ReplayConcat(segments, a, b[..n]);
    }
  }

  /** Everything the calls have drained. */
  ghost function Samples(calls: seq<Call>): seq<TrafficSample> {
    if calls == [] then [] else Samples(calls[..|calls| - 1]) + calls[|calls| - 1].drained
  }

  lemma {:induction false} SamplesConcat(a: seq<Call>, b: seq<Call>)
    ensures Samples(a + b) == Samples(a) + Samples(b)
    decreases |b|
  {
    hide Samples;
    if b == [] {
      assert a + b == a;
      NoSamples();
    } else {
      var n := |b| - 1;
      assert a + b == (a + b[..n]) + [b[n]] && b == b[..n] + [b[n]];
      SamplesConcat(a, b[..n]);
      SamplesStep(a + b[..n], b[n]);
      SamplesStep(b[..n], b[n]);
    }
  }

  lemma NoSamples()
    ensures Samples([]) == []
  {
  }

  lemma SamplesStep(calls: seq<Call>, call: Call)
    ensures Samples(calls + [call]) == Samples(calls) + call.drained
  {
    assert (calls + [call])[..|calls|] == calls;
  }

  lemma {:induction false} DrainedIsSample(calls: seq<Call>, i: nat, y: TrafficSample)
    requires i < |calls| && y in calls[i].drained
    ensures y in Samples(calls)
    decreases |calls|
  {
    if i < |calls| - 1 {
      DrainedIsSample(calls[..|calls| - 1], i, y);
    }
  }

  // ---------- where a segment comes from ----------

  ghost predicate Mentions(call: Call, g: nat) {
    g in call.Groups()
  }

  /** What a call writes for a geometry it mentions. */
  ghost function Shown(call: Call, g: nat): TrafficEdgeData
    requires Mentions(call, g)
  {
    SummaryOf(call.Groups()[g])
  }

  lemma EffectOfMention(segments: Segments, call: Call, g: nat)
    ensures var after := Effect(segments, call);
            if Mentions(call, g) then
              (g in after <==> !call.Drops(Shown(call, g))) && (g in after ==> after[g] == Shown(call, g))
            else
              && (g in after <==> g in segments && !call.Drops(segments[g]))
              && (g in after ==> after[g] == segments[g])
  {
    hide SummaryOf, Grouping;
  }

  /** A segment no call mentions is the old one, and it goes exactly when some call finds it too old. */
  lemma {:induction false} UnmentionedSegmentStays(segments: Segments, calls: seq<Call>, g: nat)
    requires forall i :: 0 <= i < |calls| ==> !Mentions(calls[i], g)
    ensures g in Replay(segments, calls)
       <==> g in segments && forall i :: 0 <= i < |calls| ==> !calls[i].Drops(segments[g])
    ensures g in Replay(segments, calls) ==> Replay(segments, calls)[g] == segments[g]
    decreases |calls|
  {
    hide Effect, Mentions, Shown, Call.Drops;
    if calls != [] {
      var n := |calls| - 1;
      UnmentionedSegmentStays(segments, calls[..n], g);
      EffectOfMention(Replay(segments, calls[..n]), calls[n], g);
      assert forall i :: 0 <= i < n ==> calls[..n][i] == calls[i];
    }
  }

  /** The last call to mention a geometry decides its segment. */
  lemma {:induction false} LastMentionDecides(segments: Segments, calls: seq<Call>, j: nat, g: nat)
    requires j < |calls| && Mentions(calls[j], g) && forall i :: j < i < |calls| ==> !Mentions(calls[i], g)
    ensures var data := Shown(calls[j], g);
            && (g in Replay(segments, calls) <==> forall i :: j <= i < |calls| ==> !calls[i].Drops(data))
            && (g in Replay(segments, calls) ==> Replay(segments, calls)[g] == data)
    decreases |calls|
  {
    hide Effect, Mentions, Shown, Call.Drops;
    var n := |calls| - 1;
    EffectOfMention(Replay(segments, calls[..n]), calls[n], g);
    if j < n {
      assert forall i :: 0 <= i < n ==> calls[..n][i] == calls[i];
      LastMentionDecides(segments, calls[..n], j, g);
    }
  }

  /** What a call does to the segment of a geometry, in terms of the samples it drained. */
  lemma CallMeans(segments: Segments, call: Call, g: nat)
    ensures Mentions(call, g) <==> exists s, u :: s in call.drained && CountsOn(s, call.At(), g, u)
    ensures var after := Effect(segments, call);
            && (g in after ==> call.later - after[g].timestamp <= 1000 * call.staleSeconds)
            && (Mentions(call, g) ==>
                  && (g in after <==> call.later - Shown(call, g).timestamp <= 1000 * call.staleSeconds)
                  && (g in after ==> after[g] == Shown(call, g)) && IsSummary(Shown(call, g), call.Groups()[g]))
            && (!Mentions(call, g) ==>
                  && (g in after <==> g in segments && call.later - segments[g].timestamp <= 1000 * call.staleSeconds)
                  && (g in after ==> after[g] == segments[g]))
  {
    EffectOfMention(segments, call, g);
    MentionMeans(call, g);
    hide Effect, Mentions, CountsOn, IsSummary, Call.Groups;
  }

  lemma MentionMeans(call: Call, g: nat)
    ensures Mentions(call, g) <==> exists s, u :: s in call.drained && CountsOn(s, call.At(), g, u)
    ensures Mentions(call, g) ==> IsSummary(Shown(call, g), call.Groups()[g])
  {
    hide Grouping, CountsOn;
    if Mentions(call, g) {
      var users := call.Groups()[g];
      assert users.Keys != {};
      var u :| u in users;
      GroupsMean(call.drained, call.At(), g, u);
      var s :| s in call.drained && CountsOn(s, call.At(), g, u);
    } else {
      forall s, u: nat | s in call.drained ensures !CountsOn(s, call.At(), g, u) {
        GroupsMean(call.drained, call.At(), g, u);
      }
    }
  }

  // ---------- the latest samples of all calls ----------

  /** A sample a call drained counts for user `u` on geometry `g`. */
  ghost predicate Counts(call: Call, x: TrafficSample, g: nat, u: nat) {
    x in call.drained && Relevant(x, call.At(), g, u)
  }

  ghost predicate CountsSomewhere(calls: seq<Call>, x: TrafficSample, g: nat, u: nat) {
    exists i :: 0 <= i < |calls| && Counts(calls[i], x, g, u)
  }

  /** `users` holds, for every user with a sample in any of the calls, a latest one. */
  ghost predicate LatestOfAll(users: map<nat, TrafficSample>, calls: seq<Call>, g: nat) {
    && (forall u: nat :: u in users ==> CountsSomewhere(calls, users[u], g, u))
    && (forall y, u: nat :: CountsSomewhere(calls, y, g, u) ==> u in users && y.timestamp <= users[u].timestamp)
  }

  /** A sample of an earlier call is matched by one of call `j` that is at least as late. */
  ghost predicate Outdone(call: Call, y: TrafficSample, g: nat, u: nat) {
    exists x :: Counts(call, x, g, u) && y.timestamp <= x.timestamp
  }

  /** Every sample of the other calls on `g` is from a user who has one at least as late in call `j`. */
  ghost predicate NothingNewerElsewhere(calls: seq<Call>, j: nat, g: nat)
    requires j < |calls|
  {
    forall i: nat, y, u: nat :: i < j && Counts(calls[i], y, g, u) ==> Outdone(calls[j], y, g, u)
  }

  /**
   The segment of `g`, written by the last call that mentions it, shows every user's latest
   sample of all calls if and only if no sample of an earlier call is newer than what that
   user has in the last one.
   */
  lemma SegmentIsLatestIff(calls: seq<Call>, j: nat, g: nat)
    requires j < |calls| && Mentions(calls[j], g) && forall i :: j < i < |calls| ==> !Mentions(calls[i], g)
    ensures LatestOfAll(calls[j].Groups()[g], calls, g) <==> NothingNewerElsewhere(calls, j, g)
  {
    var users := calls[j].Groups()[g];
    CallGroups(calls[j], g);
    forall i, y, u: nat | j < i < |calls| ensures !Counts(calls[i], y, g, u) {
      NoCountNoMention(calls[i], y, g, u);
    }
    hide Mentions, Counts;
    if NothingNewerElsewhere(calls, j, g) {
      forall y, u: nat | CountsSomewhere(calls, y, g, u) ensures u in users && y.timestamp <= users[u].timestamp {
        var i :| 0 <= i < |calls| && Counts(calls[i], y, g, u);
        if i < j {
          assert Outdone(calls[j], y, g, u);
        }
      }
    }
    if LatestOfAll(users, calls, g) {
      forall i: nat, y, u: nat | i < j && Counts(calls[i], y, g, u) ensures Outdone(calls[j], y, g, u) {
        assert CountsSomewhere(calls, y, g, u);
        assert Counts(calls[j], users[u], g, u);
      }
    }
  }

  /** The samples that were fresh when their call handled them. */
  ghost function FreshSamples(calls: seq<Call>): set<TrafficSample> {
    set i, y | 0 <= i < |calls| && y in calls[i].drained && IsFresh(y, calls[i].now, calls[i].staleSeconds) :: y
  }

  /** No arriving sample on `g` is newer than what its user has among the samples that `own` found waiting. */
  ghost predicate NothingNewerArrives(own: Call, arriving: set<TrafficSample>, g: nat) {
    forall y ::
      y in arriving && own.snap(y.latitude, y.longitude) == OnGeometry(g) ==> Outdone(own, y, g, y.userId)
  }

  /** The same for a call and those nested in it, in terms of waiting and arriving samples. */
  lemma OwnSegmentIsLatestIff(nested: seq<Call>, own: Call, g: nat)
    requires forall i :: 0 <= i < |nested| ==> nested[i].snap == own.snap
    requires Mentions(own, g)
    ensures LatestOfAll(own.Groups()[g], nested + [own], g) <==> NothingNewerArrives(own, FreshSamples(nested), g)
  {
    var calls := nested + [own];
    SegmentIsLatestIff(calls, |nested|, g);
    hide LatestOfAll, Mentions, Outdone;
    if NothingNewerArrives(own, FreshSamples(nested), g) {
      forall i: nat, y, u: nat | i < |nested| && Counts(calls[i], y, g, u) ensures Outdone(own, y, g, u) {
        assert calls[i] == nested[i];
        assert y in FreshSamples(nested);
      }
    }
    if NothingNewerElsewhere(calls, |nested|, g) {
      forall y | y in FreshSamples(nested) && own.snap(y.latitude, y.longitude) == OnGeometry(g)
        ensures Outdone(own, y, g, y.userId)
      {
        var i :| 0 <= i < |nested| && y in nested[i].drained && IsFresh(y, nested[i].now, nested[i].staleSeconds);
        assert Counts(calls[i], y, g, y.userId);
      }
    }
  }

  /** The group of a call holds a latest counting sample for every user who has one. */
  lemma CallGroups(call: Call, g: nat)
    requires Mentions(call, g)
    ensures forall u: nat :: u in call.Groups()[g] ==> Counts(call, call.Groups()[g][u], g, u)
    ensures forall y, u: nat ::
              Counts(call, y, g, u) ==> u in call.Groups()[g] && y.timestamp <= call.Groups()[g][u].timestamp
  {
    GroupingIsLatest(call.drained, call.At());
    var groups := call.Groups();
    forall u: nat | u in groups[g] ensures Counts(call, groups[g][u], g, u) {
      assert HasEntry(groups, g, u);
    }
    forall y, u: nat | Counts(call, y, g, u) ensures u in groups[g] && y.timestamp <= groups[g][u].timestamp {
      assert HasEntry(groups, g, u);
    }
  }

  lemma NoCountNoMention(call: Call, y: TrafficSample, g: nat, u: nat)
    requires !Mentions(call, g)
    ensures !Counts(call, y, g, u)
  {
    GroupingIsLatest(call.drained, call.At());
  }
}
