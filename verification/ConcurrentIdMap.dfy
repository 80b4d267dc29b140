/**
 A map that hands out consecutive ids, shared by many threads, and the arrays that turn
 lane descriptions are stored in under those ids.
 */
module ConcurrentIdMaps {
  /** A thread that looks for a key: before the reader lock, after a miss, or with its answer. */
  datatype Lookup<K> = Searching(key: K) | Missed(key: K) | Answered(key: K, id: nat)

  /** `order` lists the keys in the order they were added; ids are unsigned integers below `idRange`. */
  datatype State<K> = State(idRange: nat, data: map<K, nat>, threads: seq<Lookup<K>>, order: seq<K>)

  datatype Step<K> = Begin(key: K) | Read(t: nat) | Write(t: nat) | Again(t: nat, key: K)

  /** Conversion to an unsigned id type with `idRange` values. */
  function Wrap(n: nat, idRange: nat): (id: nat)
    requires idRange > 0
  {
    n % idRange
  }

  lemma WrapFacts(n: nat, idRange: nat)
    requires idRange > 0
    ensures n < idRange ==> Wrap(n, idRange) == n
    ensures Wrap(idRange, idRange) == Wrap(0, idRange) == 0
  {
  }

  // ---------- the steps ----------

  ghost predicate Enabled<K>(s: State<K>, step: Step<K>) {
    match step
    case Begin(_) => true
    case Read(t) => t < |s.threads| && s.threads[t].Searching?
    case Write(t) => t < |s.threads| && s.threads[t].Missed?
    case Again(t, _) => t < |s.threads| && s.threads[t].Answered?
  }

  /** Each step is one critical section. */
  ghost function Apply<K>(s: State<K>, step: Step<K>): State<K>
    requires s.idRange > 0 && Enabled(s, step)
  {
    match step
    case Begin(key) => s.(threads := s.threads + [Searching(key)])
    case Again(t, key) => s.(threads := s.threads[t := Searching(key)])
    case Read(t) =>
      var key := s.threads[t].key;
      s.(threads := s.threads[t := if key in s.data then Answered(key, s.data[key]) else Missed(key)])
    case Write(t) =>
      var key := s.threads[t].key;
      if key in s.data then s.(threads := s.threads[t := Answered(key, s.data[key])])
      else
        var id := Wrap(|s.data|, s.idRange);
        s.(data := s.data[key := id], threads := s.threads[t := Answered(key, id)], order := s.order + [key])
  }

  // ---------- what every interleaving keeps ----------

  ghost predicate Distinct<K>(order: seq<K>) {
    forall i, j :: 0 <= i < j < |order| ==> order[i] != order[j]
  }

  /** The `i`-th new key has id `i`, as far as ids reach. */
  ghost predicate Numbered<K(!new)>(data: map<K, nat>, order: seq<K>, idRange: nat) {
    && idRange > 0 && |data| == |order| && Distinct(order)
    && (forall k :: k in data <==> k in order)
    && (forall i :: 0 <= i < |order| ==> order[i] in data && data[order[i]] == Wrap(i, idRange))
  }

  ghost predicate AnswersHold<K>(s: State<K>) {
    forall t :: 0 <= t < |s.threads| && s.threads[t].Answered? ==>
      s.threads[t].key in s.data && s.data[s.threads[t].key] == s.threads[t].id
  }

  ghost predicate Safe<K(!new)>(s: State<K>) {
    Numbered(s.data, s.order, s.idRange) && AnswersHold(s)
  }

  lemma NumberedGrows<K(!new)>(data: map<K, nat>, order: seq<K>, idRange: nat, key: K)
    requires Numbered(data, order, idRange) && key !in data
    ensures Numbered(data[key := Wrap(|data|, idRange)], order + [key], idRange)
  {
    hide Wrap;
    var data', order' := data[key := Wrap(|data|, idRange)], order + [key];
    KeyAdded(data, key, Wrap(|data|, idRange));
    forall k ensures k in data' <==> k in order' {
      assert k in order' <==> k in order || k == key;
    }
    forall i | 0 <= i < |order'| ensures order'[i] in data' && data'[order'[i]] == Wrap(i, idRange) {
      if i < |order| {
        assert order[i] in order;
      }
    }
  }

  lemma KeyAdded<K>(data: map<K, nat>, key: K, id: nat)
    requires key !in data
    ensures |data[key := id]| == |data| + 1
  {
    assert data[key := id].Keys == data.Keys + {key};
  }

  /** Any step of any thread keeps the numbering and all answers given so far. */
  lemma StepKeepsSafe<K(!new)>(s: State<K>, step: Step<K>)
    requires Safe(s) && Enabled(s, step)
    ensures Safe(Apply(s, step))
    ensures forall k :: k in s.data ==> k in Apply(s, step).data && Apply(s, step).data[k] == s.data[k]
  {
    if step.Write? && s.threads[step.t].key !in s.data {
      NumberedGrows(s.data, s.order, s.idRange, s.threads[step.t].key);
      hide Numbered;
    }
  }

  /** The states a run of interleaved steps goes through. */
  ghost predicate IsRun<K(!new)>(run: seq<State<K>>) {
    && run != [] && run[0].idRange > 0 && run[0].data == map[] && run[0].order == [] && run[0].threads == []
    && forall i :: 0 < i < |run| ==> IsStep(run[i - 1], run[i])
  }

  ghost predicate IsStep<K(!new)>(s: State<K>, r: State<K>) {
    s.idRange > 0 && exists step :: Enabled(s, step) && r == Apply(s, step)
  }

  /** Every state of every interleaving is safe: the map stays numbered and all answers stay true. */
  lemma {:induction false} EveryInterleavingIsSafe<K(!new)>(run: seq<State<K>>, i: nat)
    requires IsRun(run) && i < |run|
    ensures Safe(run[i])
    decreases i
  {
    hide Apply, Enabled;
    if i > 0 {
      EveryInterleavingIsSafe(run, i - 1);
      hide Safe;
      assert IsStep(run[i - 1], run[i]);
      var step :| Enabled(run[i - 1], step) && run[i] == Apply(run[i - 1], step);
      StepKeepsSafe(run[i - 1], step);
    }
  }

  /** Two threads that asked for one key never disagree, whatever happened in between. */
  lemma AnswersAgree<K(!new)>(s: State<K>, t: nat, u: nat)
    requires Safe(s) && t < |s.threads| && u < |s.threads|
    requires s.threads[t].Answered? && s.threads[u].Answered? && s.threads[t].key == s.threads[u].key
    ensures s.threads[t].id == s.threads[u].id
  {
  }

  /** The keys are numbered 0 to n - 1, each number once. */
  ghost predicate Bijective<K(!new)>(data: map<K, nat>) {
    && (forall k :: k in data ==> data[k] < |data|)
    && (forall k, l :: k in data && l in data && data[k] == data[l] ==> k == l)
    && (forall i: nat :: i < |data| ==> HasId(data, i))
  }

  ghost predicate HasId<K(!new)>(data: map<K, nat>, i: nat) {
    exists k :: k in data && data[k] == i
  }

  /** In every state of every run the `i`-th new key has id `i`, and from the number of ids on the remainder. */
  lemma IdsAreArrivalNumbers<K(!new)>(run: seq<State<K>>, n: nat, i: nat)
    requires IsRun(run) && n < |run| && i < |run[n].order|
    ensures run[n].idRange > 0 && run[n].order[i] in run[n].data
    ensures run[n].data[run[n].order[i]] == i % run[n].idRange
    ensures i < run[n].idRange ==> run[n].data[run[n].order[i]] == i
  {
    hide IsRun, Wrap, Numbered;
    EveryInterleavingIsSafe(run, n);
    NumberedId(run[n].data, run[n].order, run[n].idRange, i);
    WrapMeans(i, run[n].idRange);
  }

  lemma NumberedId<K(!new)>(data: map<K, nat>, order: seq<K>, idRange: nat, i: nat)
    requires Numbered(data, order, idRange) && i < |order|
    ensures idRange > 0 && order[i] in data && data[order[i]] == Wrap(i, idRange)
  {
    hide Wrap;
  }

  lemma WrapMeans(i: nat, idRange: nat)
    requires idRange > 0
    ensures Wrap(i, idRange) == i % idRange && (i < idRange ==> Wrap(i, idRange) == i)
  {
  }

  /** The map is a bijection exactly as long as there are no more keys than ids. */
  lemma BijectiveIff<K(!new)>(data: map<K, nat>, order: seq<K>, idRange: nat)
    requires Numbered(data, order, idRange)
    ensures Bijective(data) <==> |data| <= idRange
  {
    hide Wrap;
    if |data| <= idRange {
      forall i: nat | i < |order| ensures data[order[i]] == i && HasId(data, i) {
        WrapFacts(i, idRange);
      }
      forall k | k in data ensures exists i :: 0 <= i < |order| && order[i] == k && data[k] == i {
        var i :| 0 <= i < |order| && order[i] == k;
      }
    } else {
      WrapFacts(0, idRange);
      assert data[order[0]] == data[order[idRange]] && order[0] != order[idRange];
    }
  }

  // ---------- running out of ids ----------

  lemma Extend<K(!new)>(run: seq<State<K>>, step: Step<K>) returns (r: seq<State<K>>)
    requires IsRun(run) && run[|run| - 1].idRange > 0 && Enabled(run[|run| - 1], step)
    ensures IsRun(r) && r != [] && r[|r| - 1] == Apply(run[|run| - 1], step)
  {
    hide Enabled, Apply;
    r := run + [Apply(run[|run| - 1], step)];
    assert IsStep(run[|run| - 1], Apply(run[|run| - 1], step));
    forall i | 0 < i < |r| ensures IsStep(r[i - 1], r[i]) {
      assert i < |run| ==> r[i - 1] == run[i - 1] && r[i] == run[i];
    }
  }

  /** A thread that asks for a new key gets it added. */
  lemma AskFor<K(!new)>(run: seq<State<K>>, key: K) returns (r: seq<State<K>>)
    requires IsRun(run) && run[|run| - 1].idRange > 0 && key !in run[|run| - 1].data
    ensures IsRun(r) && r[|r| - 1].order == run[|run| - 1].order + [key] && r[|r| - 1].idRange == run[|run| - 1].idRange
  {
    var t := |run[|run| - 1].threads|;
    hide IsRun;
    r := Extend(run, Begin(key));
    r := Extend(r, Read(t));
    r := Extend(r, Write(t));
  }

  /** Any different keys can be asked for, one after the other. */
  lemma {:induction false} AskForAll<K(!new)>(keys: seq<K>, idRange: nat) returns (run: seq<State<K>>)
    requires Distinct(keys) && idRange > 0
    ensures IsRun(run) && run[|run| - 1].order == keys && run[|run| - 1].idRange == idRange
    decreases |keys|
  {
    if keys == [] {
      run := [State(idRange, map[], [], [])];
    } else {
      var n := |keys| - 1;
      assert keys == keys[..n] + [keys[n]];
      run := AskForAll(keys[..n], idRange);
      EveryInterleavingIsSafe(run, |run| - 1);
      hide IsRun;
      assert keys[n] !in keys[..n];
      run := AskFor(run, keys[n]);
    }
  }

  /** More different keys than ids: a run after which two of them share an id. */
  lemma IdsRunOut<K(!new)>(keys: seq<K>, idRange: nat) returns (run: seq<State<K>>)
    requires Distinct(keys) && 0 < idRange < |keys|
    ensures IsRun(run) && run[|run| - 1].order == keys && run[|run| - 1].idRange == idRange
    ensures !Bijective(run[|run| - 1].data)
  {
    hide Bijective;
    run := AskForAll(keys, idRange);
    EveryInterleavingIsSafe(run, |run| - 1);
    hide IsRun;
    BijectiveIff(run[|run| - 1].data, keys, idRange);
  }

  // ---------- lane descriptions ----------

  newtype Mask = x: int | 0 <= x < 0x1_0000

  type Description = seq<Mask>

  /** The number of values of `LaneDescriptionID`. */
  const DESCRIPTION_IDS: nat := 0x1_0000

  /** There are more lane descriptions than ids for them. */
  lemma DescriptionIdsRunOut() returns (run: seq<State<Description>>)
    ensures IsRun(run) && run[|run| - 1].idRange == DESCRIPTION_IDS && |run[|run| - 1].order| == DESCRIPTION_IDS + 1
    ensures !Bijective(run[|run| - 1].data)
  {
    hide IsRun, Bijective;
    var keys: seq<Description> := seq(DESCRIPTION_IDS + 1, i requires 0 <= i => seq(i, _ => 0));
    assert forall i :: 0 <= i < |keys| ==> |keys[i]| == i;
    run := IdsRunOut(keys, DESCRIPTION_IDS);
  }

  /** Where description `i` starts when all descriptions are laid out one after the other. */
  ghost function Start(order: seq<Description>, i: nat): nat
    requires i <= |order|
  {
    if i == 0 then 0 else Start(order, i - 1) + |order[i - 1]|
  }

  lemma {:induction false} StartsAscend(order: seq<Description>, i: nat, j: nat)
    requires i <= j <= |order|
    ensures Start(order, i) <= Start(order, j)
    decreases j - i
  {
    if i < j {
      StartsAscend(order, i, j - 1);
    }
  }

  /** Ids are positions in `order`. */
  ghost predicate Lists(data: map<Description, nat>, order: seq<Description>) {
    && |order| == |data|
    && (forall d :: d in data ==> data[d] < |order| && order[data[d]] == d)
    && (forall i :: 0 <= i < |order| ==> order[i] in data && data[order[i]] == i)
  }

  /** Writes the length of each description behind its id, visiting the map in any order. */
  method StoreLengths(data: map<Description, nat>, offsets: array<nat>, ghost order: seq<Description>)
    requires Lists(data, order) && offsets.Length == |data| + 1 && offsets[0] == 0
    modifies offsets
    ensures offsets[0] == 0 && forall i :: 0 <= i < |order| ==> offsets[i + 1] == |order[i]|
  {
    var left := data.Keys;
    while left != {}
      invariant left <= data.Keys && offsets[0] == 0
      invariant forall i :: 0 <= i < |order| && order[i] !in left ==> offsets[i + 1] == |order[i]|
      decreases left
    {
      var d :| d in left;
      offsets[data[d] + 1] := |d|;
      left := left - {d};
    }
  }

  /** `std::partial_sum` in place. */
  method PartialSum(offsets: array<nat>, ghost order: seq<Description>)
    requires offsets.Length == |order| + 1 && offsets[0] == 0
             && forall i :: 0 <= i < |order| ==> offsets[i + 1] == |order[i]|
    modifies offsets
    ensures forall i :: 0 <= i <= |order| ==> offsets[i] == Start(order, i)
  {
    for k := 1 to offsets.Length
      invariant forall i :: 0 <= i < k ==> offsets[i] == Start(order, i)
      invariant forall i :: k <= i < offsets.Length ==> offsets[i] == |order[i - 1]|
    {
      offsets[k] := offsets[k - 1] + offsets[k];
    }
  }

  /** Copies one description to its place. */
  method CopyDescription(d: Description, masks: array<Mask>, at: nat)
    requires at + |d| <= masks.Length
    modifies masks
    ensures masks[at..at + |d|] == d
    ensures forall k :: 0 <= k < masks.Length && !(at <= k < at + |d|) ==> masks[k] == old(masks[k])
  {
    for k := 0 to |d|
      invariant forall j :: 0 <= j < k ==> masks[at + j] == d[j]
      invariant forall j :: 0 <= j < masks.Length && !(at <= j < at + |d|) ==> masks[j] == old(masks[j])
    {
      masks[at + k] := d[k];
    }
  }

  /** Description `i` is found between its offset and the next. */
  ghost predicate Stored(masks: seq<Mask>, order: seq<Description>, i: nat)
    requires i < |order|
  {
    Start(order, i + 1) <= |masks| && masks[Start(order, i)..Start(order, i + 1)] == order[i]
  }

  lemma StoredElsewhere(before: seq<Mask>, after: seq<Mask>, order: seq<Description>, i: nat, j: nat)
    requires i < |order| && j < |order| && i != j && |before| == |after| && Stored(before, order, i)
    requires forall k ::
               0 <= k < |before| && !(Start(order, j) <= k < Start(order, j) + |order[j]|) ==> after[k] == before[k]
    ensures Stored(after, order, i)
  {
    hide Start, Stored;
    StoredMeans(before, order, i);
    StartStep(order, i);
    StartStep(order, j);
    if i < j {
      StartsAscend(order, i + 1, j);
    } else {
      StartsAscend(order, j + 1, i);
    }
    SliceKept(before, after, Start(order, i), Start(order, i + 1), Start(order, j), Start(order, j) + |order[j]|);
    StoredHere(after, order, i);
  }

  lemma SliceKept(before: seq<Mask>, after: seq<Mask>, a: nat, b: nat, lo: nat, hi: nat)
    requires a <= b <= |before| == |after| && (b <= lo || hi <= a)
    requires forall k :: 0 <= k < |before| && !(lo <= k < hi) ==> after[k] == before[k]
    ensures after[a..b] == before[a..b]
  {
  }

  lemma StoredMeans(masks: seq<Mask>, order: seq<Description>, i: nat)
    requires i < |order| && Stored(masks, order, i)
    ensures Start(order, i) <= Start(order, i + 1) <= |masks| && masks[Start(order, i)..Start(order, i + 1)] == order[i]
  {
  }

  lemma StartStep(order: seq<Description>, i: nat)
    requires i < |order|
    ensures Start(order, i + 1) == Start(order, i) + |order[i]|
  {
  }

  method CopyAll(data: map<Description, nat>, offsets: array<nat>, masks: array<Mask>, ghost order: seq<Description>)
    requires Lists(data, order) && offsets.Length == |order| + 1 && masks.Length == Start(order, |order|)
    requires forall i :: 0 <= i <= |order| ==> offsets[i] == Start(order, i)
    modifies masks
    ensures forall i: nat :: i < |order| ==> Stored(masks[..], order, i)
  {
    hide Start, Stored;
    var left := data.Keys;
    while left != {}
      invariant left <= data.Keys
      invariant forall i: nat :: i < |order| && order[i] !in left ==> Stored(masks[..], order, i)
      decreases left
    {
      var d :| d in left;
      ghost var j, before := data[d], masks[..];
      StartStep(order, j);
      StartsAscend(order, j + 1, |order|);
      CopyDescription(d, masks, offsets[data[d]]);
      forall i: nat | i < |order| && order[i] !in left - {d} ensures Stored(masks[..], order, i) {
        if i == j {
          StoredHere(masks[..], order, j);
        } else {
          StoredElsewhere(before, masks[..], order, i, j);
        }
      }
      left := left - {d};
    }
  }

  lemma StoredHere(masks: seq<Mask>, order: seq<Description>, i: nat)
    requires i < |order| && Start(order, i) + |order[i]| <= |masks|
             && masks[Start(order, i)..Start(order, i) + |order[i]|] == order[i]
    ensures Stored(masks, order, i)
  {
  }

  /** Flattens the map. Every description is recovered from the two offsets at its id. */
  method TransformTurnLaneMapIntoArrays(data: map<Description, nat>, ghost order: seq<Description>)
    returns (turnLaneOffsets: seq<nat>, turnLaneMasks: seq<Mask>)
    requires Lists(data, order)
    ensures |turnLaneOffsets| == |data| + 1 && turnLaneOffsets[|data|] == |turnLaneMasks|
    ensures forall d :: d in data ==>
              && data[d] < |data|
              && turnLaneOffsets[data[d]] <= turnLaneOffsets[data[d] + 1] <= |turnLaneMasks|
              && turnLaneMasks[turnLaneOffsets[data[d]]..turnLaneOffsets[data[d] + 1]] == d
  {
    hide Start, Stored;
    var offsets := new nat[|data| + 1](_ => 0);
    StoreLengths(data, offsets, order);
    PartialSum(offsets, order);
    var masks := new Mask[offsets[|data|]](_ => 0);
    CopyAll(data, offsets, masks, order);
    turnLaneOffsets, turnLaneMasks := offsets[..], masks[..];
    assert forall i :: 0 <= i <= |order| ==> turnLaneOffsets[i] == Start(order, i);
    forall d | d in data
      ensures Start(order, data[d]) <= Start(order, data[d] + 1) <= |turnLaneMasks|
      ensures turnLaneMasks[Start(order, data[d])..Start(order, data[d] + 1)] == d
    {
      StoredMeans(turnLaneMasks, order, data[d]);
    }
  }

  /** What the threads have built can always be flattened, as long as the ids have not run out. */
  lemma MapCanBeFlattened(s: State<Description>)
    requires Safe(s) && |s.data| <= s.idRange
    ensures Lists(s.data, s.order)
  {
    hide Wrap;
    forall i: nat | i < |s.order| ensures s.data[s.order[i]] == i {
      WrapFacts(i, s.idRange);
    }
    forall d | d in s.data ensures s.data[d] < |s.order| && s.order[s.data[d]] == d {
      var i :| 0 <= i < |s.order| && s.order[i] == d;
    }
  }
}
