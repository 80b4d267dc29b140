/**
 Live traffic: position samples are collected, snapped to road geometries and averaged into
 a speed factor for each geometry.
 */
module LiveTraffic {

  datatype TrafficSample = TrafficSample(userId: nat, latitude: real, longitude: real, speed: real, bearing: real,
                                         timestamp: int)

  datatype TrafficEdgeData = TrafficEdgeData(speed: real, weightFactor: real, bearing: real, latitude: real,
                                             longitude: real, timestamp: int, sampleCount: nat, source: string)

  // ---------- the factor ----------

  const REFERENCE_SPEED: real := 50.0

  function ComputeTrafficWeightFactor(speed: real): (factor: real)
    ensures factor <= 10.0 && (1.0 / 6.0 <= factor <==> speed <= 300.0)
    ensures 5.0 <= speed ==> factor * speed == 50.0
    ensures speed < 5.0 ==> factor == 10.0
  {
    if speed <= 0.5 then 10.0
    else
      FactorBounds(speed);
      var factor := REFERENCE_SPEED / speed;
      if factor > 10.0 then 10.0 else factor
  }

  lemma FactorBounds(speed: real)
    requires speed > 0.5
    ensures speed <= 300.0 <==> REFERENCE_SPEED / speed >= 1.0 / 6.0
    ensures REFERENCE_SPEED / speed > 10.0 <==> speed < 5.0
    ensures (REFERENCE_SPEED / speed) * speed == REFERENCE_SPEED
  {
    var factor := REFERENCE_SPEED / speed;
    assert factor * speed == 50.0;
    assert speed < 5.0 ==> 10.0 * speed < factor * speed;
    assert speed >= 5.0 ==> 10.0 * speed >= factor * speed;
    assert speed <= 300.0 ==> speed / 6.0 <= factor * speed;
    assert speed > 300.0 ==> speed / 6.0 > factor * speed;
  }

  // ---------- which sample counts ----------

  /** What snapping finds at a coordinate: no road, a road without a forward segment, or a geometry. */
  datatype Snapped = Nothing | Disabled | OnGeometry(id: nat)

  predicate IsStale(timestamp: int, now: int, staleSeconds: int) {
    now - timestamp > staleSeconds * 1000
  }

  predicate IsFresh(s: TrafficSample, now: int, staleSeconds: int) {
    s.timestamp + staleSeconds * 1000 >= now
  }

  /** The settings of one aggregation. */
  datatype Setting = Setting(now: int, staleSeconds: int, snap: (real, real) -> Snapped)

  ghost predicate Relevant(s: TrafficSample, at: Setting, g: nat, u: nat) {
    IsFresh(s, at.now, at.staleSeconds) && at.snap(s.latitude, s.longitude) == OnGeometry(g) && s.userId == u
  }

  ghost predicate IsLatest(x: TrafficSample, samples: seq<TrafficSample>, at: Setting, g: nat, u: nat) {
    && x in samples && Relevant(x, at, g, u)
    && forall y :: y in samples && Relevant(y, at, g, u) ==> y.timestamp <= x.timestamp
  }

  type Groups = map<nat, map<nat, TrafficSample>>

  predicate HasEntry(grouped: Groups, g: nat, u: nat) {
    g in grouped && u in grouped[g]
  }

  /** For each geometry and user the latest relevant sample, and nothing else. */
  ghost predicate GroupsLatest(grouped: Groups, samples: seq<TrafficSample>, at: Setting) {
    && (forall g: nat :: g in grouped ==> exists u: nat :: u in grouped[g])
    && (forall g: nat, u: nat :: HasEntry(grouped, g, u) ==> IsLatest(grouped[g][u], samples, at, g, u))
    && (forall y, g: nat, u: nat :: y in samples && Relevant(y, at, g, u) ==> HasEntry(grouped, g, u))
  }

  /** One turn of the grouping loop. */
  function Insert(grouped: Groups, s: TrafficSample, g: nat): Groups {
    var users := if g in grouped then grouped[g] else map[];
    if s.userId !in users
       || s.timestamp >= users[s.userId].timestamp then grouped[g := users[s.userId := s]] else grouped
  }

  /** `Insert` touches one entry and keeps the later of two samples there. */
  lemma InsertEntry(grouped: Groups, s: TrafficSample, g: nat, g': nat, u: nat)
    ensures HasEntry(Insert(grouped, s, g), g', u) <==> HasEntry(grouped, g', u) || (g' == g && u == s.userId)
    ensures HasEntry(grouped, g', u) && !(g' == g && u == s.userId) ==> Insert(grouped, s, g)[g'][u] == grouped[g'][u]
    ensures HasEntry(Insert(grouped, s, g), g, s.userId)
    ensures Insert(grouped, s, g)[g][s.userId] ==
            if HasEntry(grouped, g, s.userId)
               && s.timestamp < grouped[g][s.userId].timestamp then grouped[g][s.userId] else s
    ensures g' in Insert(grouped, s, g) <==> g' in grouped || g' == g
  {
  }

  lemma InsertKeepsLatest(grouped: Groups, samples: seq<TrafficSample>, at: Setting, s: TrafficSample, g: nat)
    requires GroupsLatest(grouped, samples, at) && Relevant(s, at, g, s.userId)
    ensures GroupsLatest(Insert(grouped, s, g), samples + [s], at)
  {
    hide Insert, Relevant;
    var r, all := Insert(grouped, s, g), samples + [s];
    assert forall y :: y in all <==> y in samples || y == s;
    RelevantOnce(s, at, g);
    forall g': nat, u: nat | HasEntry(r, g', u) ensures IsLatest(r[g'][u], all, at, g', u) {
      InsertEntry(grouped, s, g, g', u);
      if HasEntry(grouped, g', u) {
        assert IsLatest(grouped[g'][u], samples, at, g', u);
      }
    }
    forall y, g': nat, u: nat | y in all && Relevant(y, at, g', u) ensures HasEntry(r, g', u) {
      InsertEntry(grouped, s, g, g', u);
      assert y in samples ==> HasEntry(grouped, g', u);
    }
    forall g': nat | g' in r ensures exists u: nat :: u in r[g'] {
      var u: nat := s.userId;
      InsertEntry(grouped, s, g, g', u);
      if g' in grouped {
        u :| u in grouped[g'];
        InsertEntry(grouped, s, g, g', u);
      }
    }
  }

  /** A sample is relevant for one geometry and one user only. */
  lemma RelevantOnce(s: TrafficSample, at: Setting, g: nat)
    requires Relevant(s, at, g, s.userId)
    ensures forall g': nat, u: nat :: Relevant(s, at, g', u) <==> g' == g && u == s.userId
  {
  }

  lemma SkipKeepsLatest(grouped: Groups, samples: seq<TrafficSample>, at: Setting, s: TrafficSample)
    requires GroupsLatest(grouped, samples, at) && forall g: nat, u: nat :: !Relevant(s, at, g, u)
    ensures GroupsLatest(grouped, samples + [s], at)
  {
    var all := samples + [s];
    assert forall y :: y in all <==> y in samples || y == s;
    forall g: nat, u: nat | HasEntry(grouped, g, u) ensures IsLatest(grouped[g][u], all, at, g, u) {
      assert IsLatest(grouped[g][u], samples, at, g, u);
    }
  }

  /** What the grouping loop computes. */
  ghost function Grouping(samples: seq<TrafficSample>, at: Setting): Groups {
    if samples == [] then map[]
    else
      var last, before := samples[|samples| - 1], Grouping(samples[..|samples| - 1], at);
      var road := at.snap(last.latitude, last.longitude);
      if IsFresh(last, at.now, at.staleSeconds) && road.OnGeometry? then Insert(before, last, road.id) else before
  }

  lemma GroupingGrows(samples: seq<TrafficSample>, s: TrafficSample, at: Setting)
    ensures var road := at.snap(s.latitude, s.longitude);
            Grouping(samples + [s], at) ==
            if IsFresh(s, at.now, at.staleSeconds) && road.OnGeometry? then Insert(Grouping(samples, at), s, road.id)
            else Grouping(samples, at)
  {
    assert (samples + [s])[..|samples|] == samples;
  }

  /** The loop keeps, for each geometry and user, a relevant sample of the latest time. */
  lemma {:induction false} GroupingIsLatest(samples: seq<TrafficSample>, at: Setting)
    ensures GroupsLatest(Grouping(samples, at), samples, at)
    decreases |samples|
  {
    if samples != [] {
      var n := |samples| - 1;
      var last := samples[n];
      GroupingIsLatest(samples[..n], at);
      assert samples == samples[..n] + [last];
      var road := at.snap(last.latitude, last.longitude);
      hide GroupsLatest, Insert;
      if IsFresh(last, at.now, at.staleSeconds) && road.OnGeometry? {
        InsertKeepsLatest(Grouping(samples[..n], at), samples[..n], at, last, road.id);
      } else {
        SkipKeepsLatest(Grouping(samples[..n], at), samples[..n], at, last);
      }
    }
  }

  /** The sample counts on geometry `g` for user `u`: it is not older than allowed and lies on the geometry. */
  ghost predicate CountsOn(s: TrafficSample, at: Setting, g: nat, u: nat) {
    && at.now - s.timestamp <= 1000 * at.staleSeconds && s.userId == u
    && at.snap(s.latitude, s.longitude) == OnGeometry(g)
  }

  /** A user is in a group if and only if a sample of theirs counts there, and then with a latest such sample. */
  lemma GroupsMean(samples: seq<TrafficSample>, at: Setting, g: nat, u: nat)
    ensures var groups := Grouping(samples, at);
            && (g in groups && u in groups[g] <==> exists s :: s in samples && CountsOn(s, at, g, u))
            && (g in groups && u in groups[g] ==>
                  && groups[g][u] in samples && CountsOn(groups[g][u], at, g, u)
                  && forall s :: s in samples && CountsOn(s, at, g, u) ==> s.timestamp <= groups[g][u].timestamp)
  {
    GroupingIsLatest(samples, at);
    var groups := Grouping(samples, at);
    hide Grouping;
    assert forall s :: CountsOn(s, at, g, u) <==> Relevant(s, at, g, u);
    if HasEntry(groups, g, u) {
      assert IsLatest(groups[g][u], samples, at, g, u);
    }
    if s :| s in samples && CountsOn(s, at, g, u) {
      assert Relevant(s, at, g, u);
      assert HasEntry(groups, g, u);
    }
  }

  /** No two different relevant samples of one user on one geometry share the latest time. */
  ghost predicate UniqueLatest(samples: seq<TrafficSample>, at: Setting) {
    forall x, y, g: nat, u: nat :: IsLatest(x, samples, at, g, u) && IsLatest(y, samples, at, g, u) ==> x == y
  }

  lemma SameSamplesSameLatest(a: seq<TrafficSample>, b: seq<TrafficSample>, at: Setting, x: TrafficSample, g: nat,
                              u: nat)
    requires multiset(a) == multiset(b)
    ensures IsLatest(x, a, at, g, u) <==> IsLatest(x, b, at, g, u)
  {
    forall y ensures y in a <==> y in b {
      assert y in a <==> y in multiset(a);
      assert y in b <==> y in multiset(b);
    }
  }

  lemma UniqueLatestFixesGroups(samples: seq<TrafficSample>, shuffled: seq<TrafficSample>, at: Setting)
    requires multiset(samples) == multiset(shuffled) && UniqueLatest(samples, at)
    ensures Grouping(shuffled, at) == Grouping(samples, at)
  {
    var a, b := Grouping(samples, at), Grouping(shuffled, at);
    GroupingIsLatest(samples, at);
    GroupingIsLatest(shuffled, at);
    hide Grouping;
    forall x ensures x in samples <==> x in shuffled {
      assert x in samples <==> x in multiset(samples);
      assert x in shuffled <==> x in multiset(shuffled);
    }
    forall g: nat, u: nat
      ensures HasEntry(a, g, u) <==> HasEntry(b, g, u)
      ensures HasEntry(a, g, u) && HasEntry(b, g, u) ==> a[g][u] == b[g][u]
    {
      if HasEntry(a, g, u) {
        assert IsLatest(a[g][u], samples, at, g, u);
      }
      if HasEntry(b, g, u) {
        assert IsLatest(b[g][u], shuffled, at, g, u);
        SameSamplesSameLatest(samples, shuffled, at, b[g][u], g, u);
      }
    }
    SameEntriesSameGroups(a, b);
  }

  /** A latest sample that arrives last is the one that is kept. */
  lemma LastLatestIsKept(before: seq<TrafficSample>, x: TrafficSample, at: Setting, g: nat, u: nat)
    requires IsLatest(x, before + [x], at, g, u)
    ensures HasEntry(Grouping(before + [x], at), g, u) && Grouping(before + [x], at)[g][u] == x
  {
    GroupingGrows(before, x, at);
    GroupingIsLatest(before, at);
    var kept := Grouping(before, at);
    hide Grouping;
    InsertEntry(kept, x, g, g, u);
    if HasEntry(kept, g, u) {
      assert IsLatest(kept[g][u], before, at, g, u);
      assert kept[g][u] in before + [x];
    }
  }

  /** Nothing that counts there came later in time before position `i`, or at least as late after it. */
  ghost predicate LastOfTheLatest(samples: seq<TrafficSample>, at: Setting, g: nat, u: nat, i: nat) {
    && i < |samples| && CountsOn(samples[i], at, g, u)
    && forall j :: 0 <= j < |samples| && CountsOn(samples[j], at, g, u) ==>
         if j <= i then samples[j].timestamp <= samples[i].timestamp else samples[j].timestamp < samples[i].timestamp
  }

  /** Of several latest samples the one that arrived last is kept. */
  lemma {:induction false} LastOfTheLatestIsKept(samples: seq<TrafficSample>, at: Setting, g: nat, u: nat, i: nat)
    requires LastOfTheLatest(samples, at, g, u, i)
    ensures g in Grouping(samples, at) && u in Grouping(samples, at)[g] && Grouping(samples, at)[g][u] == samples[i]
    decreases |samples|
  {
    var n := |samples| - 1;
    var before, x := samples[..n], samples[n];
    assert samples == before + [x];
    hide Grouping, Insert;
    if i == n {
      assert IsLatest(x, before + [x], at, g, u);
      LastLatestIsKept(before, x, at, g, u);
    } else {
      LastOfTheLatestIsKept(before, at, g, u, i);
      GroupingGrows(before, x, at);
      match at.snap(x.latitude, x.longitude)
      case OnGeometry(h) => InsertEntry(Grouping(before, at), x, h, g, u);
      case _ =>
    }
  }

  /** Every order in which the same samples arrive gives the same groups. */
  ghost predicate OrderIsIrrelevant(samples: seq<TrafficSample>, at: Setting) {
    forall shuffled :: multiset(shuffled) == multiset(samples) ==> Grouping(shuffled, at) == Grouping(samples, at)
  }

  /** The same samples, with the one at `i` moved to the end. */
  function MovedLast(samples: seq<TrafficSample>, i: nat): (r: seq<TrafficSample>)
    requires i < |samples|
    ensures |r| == |samples| && r == r[..|samples| - 1] + [samples[i]] && multiset(r) == multiset(samples)
  {
    assert samples == samples[..i] + [samples[i]] + samples[i + 1..];
    samples[..i] + samples[i + 1..] + [samples[i]]
  }

  /**
   All orders of arrival give the same groups if and only if every user's latest relevant
   sample on every geometry is unique.
   */
  lemma ArrivalOrderDoesNotMatterIff(samples: seq<TrafficSample>, at: Setting)
    ensures OrderIsIrrelevant(samples, at) <==> UniqueLatest(samples, at)
  {
    if UniqueLatest(samples, at) {
      forall shuffled | multiset(shuffled) == multiset(samples)
        ensures Grouping(shuffled, at) == Grouping(samples, at)
      {
        UniqueLatestFixesGroups(samples, shuffled, at);
      }
    }
    if OrderIsIrrelevant(samples, at) {
      forall x, y, g: nat, u: nat | IsLatest(x, samples, at, g, u) && IsLatest(y, samples, at, g, u) ensures x == y {
        KeptWhenLast(samples, at, x, g, u);
        KeptWhenLast(samples, at, y, g, u);
      }
    }
  }

  lemma KeptWhenLast(samples: seq<TrafficSample>, at: Setting, x: TrafficSample, g: nat, u: nat)
    requires IsLatest(x, samples, at, g, u)
    requires OrderIsIrrelevant(samples, at)
    ensures HasEntry(Grouping(samples, at), g, u) && Grouping(samples, at)[g][u] == x
  {
    var i: nat :| i < |samples| && samples[i] == x;
    var shuffled := MovedLast(samples, i);
    SameSamplesSameLatest(samples, shuffled, at, x, g, u);
    LastLatestIsKept(shuffled[..|samples| - 1], x, at, g, u);
  }

  lemma SameEntriesSameGroups(a: Groups, b: Groups)
    requires forall g: nat :: g in a ==> exists u: nat :: u in a[g]
    requires forall g: nat :: g in b ==> exists u: nat :: u in b[g]
    requires forall g: nat, u: nat :: HasEntry(a, g, u) <==> HasEntry(b, g, u)
    requires forall g: nat, u: nat :: HasEntry(a, g, u) && HasEntry(b, g, u) ==> a[g][u] == b[g][u]
    ensures a == b
  {
    forall g: nat ensures g in a <==> g in b {
      if g in a {
        var u: nat :| u in a[g];
        assert HasEntry(a, g, u);
      }
      if g in b {
        var u: nat :| u in b[g];
        assert HasEntry(b, g, u);
      }
    }
    forall g: nat | g in a ensures a[g] == b[g] {
      forall u: nat ensures u in a[g] <==> u in b[g] {
        assert HasEntry(a, g, u) <==> HasEntry(b, g, u);
      }
      forall u: nat | u in a[g] ensures a[g][u] == b[g][u] {
        assert HasEntry(a, g, u);
      }
    }
  }

  // ---------- the mean ----------

  datatype Quantity = Speed | Bearing | Latitude | Longitude

  ghost function Value(s: TrafficSample, q: Quantity): real {
    match q
    case Speed => s.speed
    case Bearing => s.bearing
    case Latitude => s.latitude
    case Longitude => s.longitude
  }

  /** Sums over a set of users, in increasing order of their ids. */
  ghost function Total(users: map<nat, TrafficSample>, ids: set<nat>, q: Quantity): real
    requires ids <= users.Keys
    decreases |ids|
  {
    if ids == {} then 0.0
    else
      var u := Least(ids);
      Value(users[u], q) + Total(users, ids - {u}, q)
  }

  ghost function Least(ids: set<nat>): (u: nat)
    requires ids != {}
    ensures IsLeast(u, ids)
  {
    LeastExists(ids);
    var u: nat :| IsLeast(u, ids);
    u
  }

  ghost predicate IsLeast(u: nat, ids: set<nat>) {
    u in ids && forall v :: v in ids ==> u <= v
  }

  lemma {:induction false} LeastExists(ids: set<nat>)
    requires ids != {}
    ensures exists u: nat :: IsLeast(u, ids)
    decreases |ids|
  {
    var x: nat :| x in ids;
    var rest := ids - {x};
    if rest == {} {
      assert ids == {x} && IsLeast(x, ids);
    } else {
      LeastExists(rest);
      var u: nat :| IsLeast(u, rest);
      LeastOfTwo(ids, x, u);
    }
  }

  lemma LeastOfTwo(ids: set<nat>, x: nat, u: nat)
    requires x in ids && IsLeast(u, ids - {x})
    ensures IsLeast(if u < x then u else x, ids)
  {
    forall v | v in ids && v != x ensures u <= v {
      assert v in ids - {x};
    }
  }

  /** The sum does not depend on which user is taken first. */
  lemma {:induction false} TotalFromAny(users: map<nat, TrafficSample>, ids: set<nat>, q: Quantity, u: nat)
    requires ids <= users.Keys && u in ids
    ensures Total(users, ids, q) == Value(users[u], q) + Total(users, ids - {u}, q)
    decreases |ids|
  {
    var least := Least(ids);
    if u != least {
      TotalFromAny(users, ids - {least}, q, u);
      TotalFromAny(users, ids - {u}, q, least);
      assert ids - {least} - {u} == ids - {u} - {least};
    }
  }

  lemma {:induction false} SpeedTotalBounds(users: map<nat, TrafficSample>, ids: set<nat>)
    requires ids <= users.Keys && forall u :: u in ids ==> users[u].speed <= 300.0
    ensures Total(users, ids, Speed) <= 300.0 * (|ids| as real)
    decreases |ids|
  {
    if ids != {} {
      var u := Least(ids);
      SpeedTotalBounds(users, ids - {u});
      assert |ids - {u}| == |ids| - 1;
    }
  }

  /** The latest time among the users, at least zero. */
  ghost predicate IsLatestTime(users: map<nat, TrafficSample>, ids: set<nat>, t: int) {
    && t >= 0 && (forall u :: u in ids && u in users ==> users[u].timestamp <= t)
    && (t == 0 || exists u :: u in ids && u in users && users[u].timestamp == t)
  }

  ghost predicate IsMean(users: map<nat, TrafficSample>, q: Quantity, mean: real) {
    mean * (|users| as real) == Total(users, users.Keys, q)
  }

  ghost predicate IsSummary(data: TrafficEdgeData, users: map<nat, TrafficSample>) {
    && IsMean(users, Speed, data.speed) && IsMean(users, Bearing, data.bearing)
    && IsMean(users, Latitude, data.latitude) && IsMean(users, Longitude, data.longitude)
    && data.weightFactor == ComputeTrafficWeightFactor(data.speed)
    && IsLatestTime(users, users.Keys, data.timestamp)
    && data.sampleCount == |users| && data.source == "live"
  }

  ghost predicate Sums(users: map<nat, TrafficSample>, ids: set<nat>, speed: real, bearing: real, latitude: real,
                       longitude: real)
    requires ids <= users.Keys
  {
    && speed == Total(users, ids, Speed) && bearing == Total(users, ids, Bearing)
    && latitude == Total(users, ids, Latitude) && longitude == Total(users, ids, Longitude)
  }

  lemma SumsGrow(users: map<nat, TrafficSample>, ids: set<nat>, u: nat, speed: real, bearing: real, latitude: real,
                 longitude: real)
    requires ids <= users.Keys && u in users && u !in ids && Sums(users, ids, speed, bearing, latitude, longitude)
    ensures var s := users[u];
            Sums(users, ids + {u}, speed + s.speed, bearing + s.bearing, latitude + s.latitude, longitude + s.longitude)
  {
    hide Total;
    assert ids + {u} - {u} == ids;
    TotalFromAny(users, ids + {u}, Speed, u);
    TotalFromAny(users, ids + {u}, Bearing, u);
    TotalFromAny(users, ids + {u}, Latitude, u);
    TotalFromAny(users, ids + {u}, Longitude, u);
  }

  /** Adds up the samples of one geometry, visiting the users in any order. */
  method AddUp(users: map<nat, TrafficSample>)
    returns (speedSum: real, latSum: real, lonSum: real, bearingSum: real, latest: int)
    ensures Sums(users, users.Keys, speedSum, bearingSum, latSum, lonSum) && IsLatestTime(users, users.Keys, latest)
  {
    speedSum, latSum, lonSum, bearingSum, latest := 0.0, 0.0, 0.0, 0.0, 0;
    var left := users.Keys;
    ghost var done: set<nat> := {};
    assert Sums(users, {}, 0.0, 0.0, 0.0, 0.0);
    hide Sums;
    while left != {}
      invariant left + done == users.Keys && left !! done
      invariant Sums(users, done, speedSum, bearingSum, latSum, lonSum) && IsLatestTime(users, done, latest)
      decreases left
    {
      var u :| u in left;
      var sample := users[u];
      SumsGrow(users, done, u, speedSum, bearingSum, latSum, lonSum);
      LatestGrows(users, done, u, latest);
      speedSum, latSum := speedSum + sample.speed, latSum + sample.latitude;
      lonSum, bearingSum := lonSum + sample.longitude, bearingSum + sample.bearing;
      latest := if latest < sample.timestamp then sample.timestamp else latest;
      left := left - {u};
      done := done + {u};
    }
    assert done == users.Keys;
  }

  lemma LatestGrows(users: map<nat, TrafficSample>, ids: set<nat>, u: nat, t: int)
    requires u in users && IsLatestTime(users, ids, t)
    ensures IsLatestTime(users, ids + {u}, if t < users[u].timestamp then users[u].timestamp else t)
  {
    if t != 0 {
      var v :| v in ids && v in users && users[v].timestamp == t;
      assert v in ids + {u};
    }
    assert u in ids + {u};
  }

  /** The data of one geometry. */
  method Summarise(users: map<nat, TrafficSample>) returns (data: TrafficEdgeData)
    requires |users| > 0
    ensures IsSummary(data, users)
  {
    hide IsLatestTime, Total;
    var speedSum, latSum, lonSum, bearingSum, latest := AddUp(users);
    var count := |users| as real;
    Quotient(speedSum, count);
    Quotient(bearingSum, count);
    Quotient(latSum, count);
    Quotient(lonSum, count);
    data := TrafficEdgeData(speedSum / count, ComputeTrafficWeightFactor(speedSum / count), bearingSum / count,
                            latSum / count, lonSum / count, latest, |users|, "live");
  }

  lemma Quotient(total: real, n: real)
    requires n > 0.0
    ensures (total / n) * n == total
  {
  }

  ghost function LatestTime(users: map<nat, TrafficSample>, ids: set<nat>): int
    requires ids <= users.Keys
    decreases |ids|
  {
    if ids == {} then 0
    else
      var u := Least(ids);
      var rest := LatestTime(users, ids - {u});
      if rest < users[u].timestamp then users[u].timestamp else rest
  }

  lemma {:induction false} LatestTimeIsLatest(users: map<nat, TrafficSample>, ids: set<nat>)
    requires ids <= users.Keys
    ensures IsLatestTime(users, ids, LatestTime(users, ids))
    decreases |ids|
  {
    if ids != {} {
      var u := Least(ids);
      LatestTimeIsLatest(users, ids - {u});
      LatestGrows(users, ids - {u}, u, LatestTime(users, ids - {u}));
      assert ids - {u} + {u} == ids;
    }
  }

  /** The one summary of a group. */
  ghost function SummaryOf(users: map<nat, TrafficSample>): (data: TrafficEdgeData)
    requires |users| > 0
    ensures IsSummary(data, users)
  {
    var n := |users| as real;
    var speed := Total(users, users.Keys, Speed) / n;
    LatestTimeIsLatest(users, users.Keys);
    TrafficEdgeData(speed, ComputeTrafficWeightFactor(speed), Total(users, users.Keys, Bearing) / n,
                    Total(users, users.Keys, Latitude) / n, Total(users, users.Keys, Longitude) / n,
                    LatestTime(users, users.Keys), |users|, "live")
  }

  /** A mean is unique, so the summary does not depend on the order of the users either. */
  lemma SummaryIsUnique(a: TrafficEdgeData, b: TrafficEdgeData, users: map<nat, TrafficSample>)
    requires |users| > 0 && IsSummary(a, users) && IsSummary(b, users)
    ensures a == b
  {
    MeanIsUnique(users, Speed, a.speed, b.speed);
    MeanIsUnique(users, Bearing, a.bearing, b.bearing);
    MeanIsUnique(users, Latitude, a.latitude, b.latitude);
    MeanIsUnique(users, Longitude, a.longitude, b.longitude);
    hide IsMean;
    assert a.timestamp == b.timestamp;
  }

  lemma MeanIsUnique(users: map<nat, TrafficSample>, q: Quantity, a: real, b: real)
    requires |users| > 0 && IsMean(users, q, a) && IsMean(users, q, b)
    ensures a == b
  {
    var n := |users| as real;
    assert (a - b) * n == 0.0;
  }

  // ---------- the same sample by sample ----------

  /** The users, each of them once, in some order. */
  ghost predicate ListsUsers(order: seq<nat>, users: map<nat, TrafficSample>) {
    && (forall k :: 0 <= k < |order| ==> order[k] in users)
    && (forall j, k :: 0 <= j < k < |order| ==> order[j] != order[k])
    && (forall u :: u in users ==> u in order)
  }

  ghost function Ids(order: seq<nat>): set<nat> {
    set u | u in order
  }

  ghost function SamplesOf(users: map<nat, TrafficSample>, order: seq<nat>): (r: seq<TrafficSample>)
    requires forall k :: 0 <= k < |order| ==> order[k] in users
    ensures |r| == |order| && forall k :: 0 <= k < |order| ==> r[k] == users[order[k]]
  {
    seq(|order|, k requires 0 <= k < |order| => users[order[k]])
  }

  ghost function SpeedSum(list: seq<TrafficSample>): real {
    if list == [] then 0.0 else SpeedSum(list[..|list| - 1]) + list[|list| - 1].speed
  }

  ghost function BearingSum(list: seq<TrafficSample>): real {
    if list == [] then 0.0 else BearingSum(list[..|list| - 1]) + list[|list| - 1].bearing
  }

  ghost function LatitudeSum(list: seq<TrafficSample>): real {
    if list == [] then 0.0 else LatitudeSum(list[..|list| - 1]) + list[|list| - 1].latitude
  }

  ghost function LongitudeSum(list: seq<TrafficSample>): real {
    if list == [] then 0.0 else LongitudeSum(list[..|list| - 1]) + list[|list| - 1].longitude
  }

  ghost predicate UsersOnce(order: seq<nat>, users: map<nat, TrafficSample>) {
    && (forall k :: 0 <= k < |order| ==> order[k] in users)
    && (forall j, k :: 0 <= j < k < |order| ==> order[j] != order[k])
  }

  lemma LastUser(users: map<nat, TrafficSample>, order: seq<nat>)
    requires UsersOnce(order, users) && order != []
    ensures var n, u := |order| - 1, order[|order| - 1];
            && UsersOnce(order[..n], users) && u in users && (forall k :: 0 <= k < |order| ==> order[k] in users)
            && u in Ids(order) && Ids(order) - {u} == Ids(order[..n])
            && Ids(order) <= users.Keys && |Ids(order)| == |Ids(order[..n])| + 1
            && SamplesOf(users, order)[..n] == SamplesOf(users, order[..n]) && SamplesOf(users, order)[n] == users[u]
  {
    hide SamplesOf, Ids;
    LastId(order);
    assert SamplesOf(users, order)[..|order| - 1] == SamplesOf(users, order[..|order| - 1]);
    IdsAreUsers(users, order);
  }

  lemma IdsAreUsers(users: map<nat, TrafficSample>, order: seq<nat>)
    requires forall k :: 0 <= k < |order| ==> order[k] in users
    ensures Ids(order) <= users.Keys
  {
  }

  lemma LastId(order: seq<nat>)
    requires order != [] && forall j, k :: 0 <= j < k < |order| ==> order[j] != order[k]
    ensures var n, u := |order| - 1, order[|order| - 1];
            u in Ids(order) && Ids(order) - {u} == Ids(order[..n]) && |Ids(order)| == |Ids(order[..n])| + 1
  {
    var n, u := |order| - 1, order[|order| - 1];
    forall v ensures v in order <==> v in order[..n] || v == u {
      assert order == order[..n] + [u];
    }
    assert Ids(order) == Ids(order[..n]) + {u};
  }

  lemma NoUsers(users: map<nat, TrafficSample>)
    ensures Ids([]) == {} && SamplesOf(users, []) == [] && forall q :: Total(users, {}, q) == 0.0
    ensures SpeedSum([]) == BearingSum([]) == LatitudeSum([]) == LongitudeSum([]) == 0.0
  {
  }

  lemma SumsStep(list: seq<TrafficSample>)
    requires list != []
    ensures var n, s := |list| - 1, list[|list| - 1];
            && SpeedSum(list) == SpeedSum(list[..n]) + s.speed
            && BearingSum(list) == BearingSum(list[..n]) + s.bearing
            && LatitudeSum(list) == LatitudeSum(list[..n]) + s.latitude
            && LongitudeSum(list) == LongitudeSum(list[..n]) + s.longitude
  {
  }

  lemma {:induction false} TotalsAreSums(users: map<nat, TrafficSample>, order: seq<nat>)
    requires UsersOnce(order, users)
    ensures var ids, list := Ids(order), SamplesOf(users, order);
            && ids <= users.Keys && |ids| == |order|
            && Total(users, ids, Speed) == SpeedSum(list) && Total(users, ids, Bearing) == BearingSum(list)
            && Total(users, ids, Latitude) == LatitudeSum(list) && Total(users, ids, Longitude) == LongitudeSum(list)
    decreases |order|
  {
    hide Total, Ids, UsersOnce, SamplesOf, SpeedSum, BearingSum, LatitudeSum, LongitudeSum;
    if order == [] {
      NoUsers(users);
    } else {
      LastUser(users, order);
      TotalsAreSums(users, order[..|order| - 1]);
      SumsStep(SamplesOf(users, order));
      var ids, u := Ids(order), order[|order| - 1];
      TotalFromAny(users, ids, Speed, u);
      TotalFromAny(users, ids, Bearing, u);
      TotalFromAny(users, ids, Latitude, u);
      TotalFromAny(users, ids, Longitude, u);
    }
  }

  /** However the users are listed, the summary holds the means of their samples. */
  lemma MeansOverAnyListing(data: TrafficEdgeData, users: map<nat, TrafficSample>, order: seq<nat>)
    requires IsSummary(data, users) && ListsUsers(order, users)
    ensures var n, list := |order| as real, SamplesOf(users, order);
            && data.speed * n == SpeedSum(list) && data.bearing * n == BearingSum(list)
            && data.latitude * n == LatitudeSum(list) && data.longitude * n == LongitudeSum(list)
            && data.sampleCount == |order|
  {
    hide Total, SpeedSum, BearingSum, LatitudeSum, LongitudeSum;
    AllUsers(users, order);
    TotalsAreSums(users, order);
  }

  lemma AllUsers(users: map<nat, TrafficSample>, order: seq<nat>)
    requires ListsUsers(order, users)
    ensures UsersOnce(order, users) && Ids(order) == users.Keys && |users.Keys| == |users|
  {
  }

  /** Speeds of at most 300 km/h give factors between one sixth and ten. */
  lemma AdmittedSpeedsBoundTheFactor(data: TrafficEdgeData, users: map<nat, TrafficSample>)
    requires |users| > 0 && IsSummary(data, users)
    requires forall u :: u in users ==> users[u].speed <= 300.0
    ensures data.speed <= 300.0 && 1.0 / 6.0 <= data.weightFactor <= 10.0
  {
    SpeedTotalBounds(users, users.Keys);
    assert |users.Keys| == |users|;
    MeanBounds(data.speed, |users| as real, Total(users, users.Keys, Speed));
  }

  lemma MeanBounds(mean: real, n: real, total: real)
    requires n > 0.0 && mean * n == total <= 300.0 * n
    ensures mean <= 300.0
  {
    assert (300.0 - mean) * n >= 0.0;
  }
}
