/**
 Permutations of node numbers and the permutation of a table in place, one cycle after the other.
 */
module Permutations {
  import opened NodeOrder

  /** `perm` gives every old number its new one, `order` the way back. */
  ghost predicate Inverse(perm: seq<nat>, order: seq<nat>) {
    && |perm| == |order|
    && (forall i :: 0 <= i < |perm| ==> perm[i] < |perm| && order[perm[i]] == i)
    && (forall i :: 0 <= i < |order| ==> order[i] < |perm| && perm[order[i]] == i)
  }

  /** `orderingToPermutation` */
  method OrderingToPermutation(order: seq<nat>) returns (perm: seq<nat>)
    requires IsPermutation(order, |order|)
    ensures Inverse(perm, order)
  {
    PermutationInRange(order, |order|);
    perm := seq(|order|, _ => 0);
    for index := 0 to |order|
      invariant |perm| == |order| && forall i :: 0 <= i < index ==> perm[order[i]] == i
    {
      forall i | 0 <= i < index ensures order[i] != order[index] {
        if order[i] == order[index] {
          PermutationInjective(order, |order|, i, index);
        }
      }
      perm := perm[order[index] := index];
    }
    forall v | 0 <= v < |perm| ensures perm[v] < |perm| && order[perm[v]] == v {
      var k := PermutationPosition(order, |order|, v);
    }
  }

  // ---------- following the cycles ----------

  /** Marked elements have been moved to their place; at all other places nothing has changed. */
  ghost predicate Moved<T>(before: seq<T>, now: seq<T>, order: seq<nat>, marked: seq<bool>) {
    && |before| == |now| == |order| == |marked| && InRange(order, |order|)
    && forall p :: 0 <= p < |order| ==> now[p] == if marked[order[p]] then before[order[p]] else before[p]
  }

  /** Marks come in whole cycles, but the cycle through `index` is marked only from there up to before `last`. */
  ghost predicate OpenCycle(perm: seq<nat>, order: seq<nat>, marked: seq<bool>, index: nat, last: nat) {
    && |perm| == |marked| == |order| && InRange(perm, |perm|) && InRange(order, |perm|)
    && index < |perm| && last < |perm| && !marked[last]
    && (forall j :: 0 <= j < |perm| && marked[j] ==> perm[j] == last || marked[perm[j]])
    && (forall j :: 0 <= j < |perm| && marked[perm[j]] ==> perm[j] == index || marked[j])
    && (last != index ==> marked[index] && marked[order[last]])
  }

  ghost predicate ClosedCycles(perm: seq<nat>, marked: seq<bool>) {
    && |perm| == |marked| && InRange(perm, |perm|)
    && forall j :: 0 <= j < |perm| ==> marked[j] == marked[perm[j]]
  }

  ghost predicate MarksMore(a: seq<bool>, b: seq<bool>) {
    |a| == |b| && forall j :: 0 <= j < |a| && a[j] ==> b[j]
  }

  lemma StartCycle<T>(before: seq<T>, now: seq<T>, perm: seq<nat>, order: seq<nat>, marked: seq<bool>, index: nat)
    requires Inverse(perm, order) && Moved(before, now, order, marked) && ClosedCycles(perm, marked)
    requires index < |perm| && !marked[index]
    ensures now[index] == before[index] && OpenCycle(perm, order, marked, index, index)
  {
    assert marked[order[index]] == marked[perm[order[index]]];
  }

  /** The buffered element goes to its place, which nothing has been moved to before. */
  lemma MoveOne<T>(before: seq<T>, now: seq<T>, perm: seq<nat>, order: seq<nat>, marked: seq<bool>, last: nat)
    requires Inverse(perm, order) && Moved(before, now, order, marked) && last < |perm| && !marked[last]
    ensures now[perm[last]] == before[perm[last]]
    ensures Moved(before, now[perm[last] := before[last]], order, marked[last := true])
  {
    assert order[perm[last]] == last;
  }

  lemma AdvanceCycle(perm: seq<nat>, order: seq<nat>, marked: seq<bool>, index: nat, last: nat)
    requires Inverse(perm, order) && OpenCycle(perm, order, marked, index, last) && perm[last] != index
    ensures OpenCycle(perm, order, marked[last := true], index, perm[last])
  {
    assert order[perm[last]] == last;
    assert !marked[perm[last]] && perm[last] != last;
  }

  lemma CloseCycle(perm: seq<nat>, order: seq<nat>, marked: seq<bool>, index: nat, last: nat)
    requires Inverse(perm, order) && OpenCycle(perm, order, marked, index, last) && perm[last] == index && last != index
    ensures ClosedCycles(perm, marked[last := true]) && marked[index]
  {
    assert order[index] == last;
  }

  ghost function Unmarked(marked: seq<bool>): set<int> {
    set j | 0 <= j < |marked| && !marked[j]
  }

  lemma MarkingShrinks(marked: seq<bool>, k: nat)
    requires k < |marked| && !marked[k]
    ensures Unmarked(marked[k := true]) < Unmarked(marked)
  {
    assert k in Unmarked(marked) && k !in Unmarked(marked[k := true]);
  }

  /** One cycle, starting and ending at `index`, with one buffered element. */
  method FollowCycle<T>(a: array<T>, perm: seq<nat>, done: seq<bool>, index: nat, ghost order: seq<nat>,
                        ghost before: seq<T>)
    returns (marked: seq<bool>)
    requires |perm| == a.Length == |done| && Inverse(perm, order) && index < |perm| && !done[index]
             && perm[index] != index
    requires Moved(before, a[..], order, done) && ClosedCycles(perm, done)
    modifies a
    ensures Moved(before, a[..], order, marked) && ClosedCycles(perm, marked) && MarksMore(done, marked)
            && marked[index]
  {
    marked := done;
    StartCycle(before, a[..], perm, order, marked, index);
    assert |before| == a.Length;
    var buffer := a[index];
    var oldIndex := index;
    var newIndex := perm[oldIndex];
    while newIndex != index
      invariant |marked| == a.Length && oldIndex < a.Length && newIndex == perm[oldIndex] && !marked[oldIndex]
      invariant Moved(before, a[..], order, marked) && OpenCycle(perm, order, marked, index, oldIndex)
      invariant buffer == before[oldIndex] && MarksMore(done, marked)
      decreases Unmarked(marked)
    {
      hide Moved, OpenCycle, ClosedCycles;
      MarkingShrinks(marked, oldIndex);
      MoveOne(before, a[..], perm, order, marked, oldIndex);
      AdvanceCycle(perm, order, marked, index, oldIndex);
      OpenEnd(perm, order, marked[oldIndex := true], index, newIndex);
      ghost var now := a[..];
      marked := marked[oldIndex := true];
      buffer, a[newIndex] := a[newIndex], buffer;
      assert a[..] == now[newIndex := before[oldIndex]];
      oldIndex, newIndex := newIndex, perm[newIndex];
    }
    hide Moved, OpenCycle, ClosedCycles;
    MoveOne(before, a[..], perm, order, marked, oldIndex);
    CloseCycle(perm, order, marked, index, oldIndex);
    ghost var now := a[..];
    marked := marked[oldIndex := true];
    a[index] := buffer;
    assert a[..] == now[index := before[oldIndex]];
  }

  lemma OpenEnd(perm: seq<nat>, order: seq<nat>, marked: seq<bool>, index: nat, last: nat)
    requires OpenCycle(perm, order, marked, index, last)
    ensures last < |marked| == |perm| && !marked[last]
  {
  }

  /** `inplacePermutation`: every element ends up at its new number. */
  method InplacePermutation<T>(a: array<T>, perm: seq<nat>, ghost order: seq<nat>)
    requires |perm| == a.Length && Inverse(perm, order)
    modifies a
    ensures forall i :: 0 <= i < a.Length ==> perm[i] < a.Length && a[perm[i]] == old(a[i])
  {
    ghost var before := a[..];
    var marked := seq(a.Length, _ => false);
    for index := 0 to a.Length
      invariant |marked| == a.Length && Moved(before, a[..], order, marked) && ClosedCycles(perm, marked)
      invariant forall j :: 0 <= j < index ==> marked[j]
    {
      if !marked[index] {
        if perm[index] == index {
          FixedPoint(before, a[..], perm, order, marked, index);
          marked := marked[index := true];
        } else {
          hide Moved, ClosedCycles;
          marked := FollowCycle(a, perm, marked, index, order, before);
          assert |marked| == a.Length;
        }
      }
    }
    forall i | 0 <= i < a.Length ensures perm[i] < a.Length && a[perm[i]] == before[i] {
      assert order[perm[i]] == i && a[..][perm[i]] == a[perm[i]];
    }
  }

  lemma FixedPoint<T>(before: seq<T>, now: seq<T>, perm: seq<nat>, order: seq<nat>, marked: seq<bool>, index: nat)
    requires Inverse(perm, order) && Moved(before, now, order, marked) && ClosedCycles(perm, marked)
    requires index < |perm| && !marked[index] && perm[index] == index
    ensures Moved(before, now, order, marked[index := true]) && ClosedCycles(perm, marked[index := true])
  {
    assert order[index] == index;
  }
}
