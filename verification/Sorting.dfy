/**
 `std::sort` and `tbb::parallel_sort`: some arrangement of the same elements in which no
 later element is smaller than an earlier one. Nothing is promised about ties.
 */
module Sorting {

  ghost predicate Total<T(!new)>(leq: (T, T) -> bool) {
    && (forall a, b :: leq(a, b) || leq(b, a))
    && (forall a, b, c :: leq(a, b) && leq(b, c) ==> leq(a, c))
  }

  ghost predicate Sorted<T>(s: seq<T>, leq: (T, T) -> bool) {
    forall i, j :: 0 <= i < j < |s| ==> leq(s[i], s[j])
  }

  /** `std::pair` comparison. */
  predicate PairAtMost(a: (int, int), b: (int, int)) {
    a.0 < b.0 || (a.0 == b.0 && a.1 <= b.1)
  }

  lemma InsertedInOrder<T(!new)>(s: seq<T>, k: nat, x: T, leq: (T, T) -> bool)
    requires Total(leq) && Sorted(s, leq) && k <= |s|
    requires k > 0 ==> leq(s[k - 1], x)
    requires forall i :: k <= i < |s| ==> leq(x, s[i])
    ensures Sorted(s[..k] + [x] + s[k..], leq)
  {
    var r := s[..k] + [x] + s[k..];
    forall i | 0 <= i < k ensures leq(s[i], x) {
      assert i < k - 1 ==> leq(s[i], s[k - 1]);
    }
    forall i, j | 0 <= i < j < |r| ensures leq(r[i], r[j]) {
      var i', j' := if i <= k then i else i - 1, if j <= k then j else j - 1;
    }
  }

  method InsertSorted<T(!new)>(s: seq<T>, x: T, leq: (T, T) -> bool) returns (r: seq<T>)
    requires Total(leq) && Sorted(s, leq)
    ensures Sorted(r, leq) && multiset(r) == multiset(s) + multiset{x}
  {
    var k := |s|;
    while k > 0 && !leq(s[k - 1], x)
      invariant 0 <= k <= |s|
      invariant forall i :: k <= i < |s| ==> leq(x, s[i])
    {
      k := k - 1;
    }
    assert s == s[..k] + s[k..];
    r := s[..k] + [x] + s[k..];
    InsertedInOrder(s, k, x, leq);
  }

  method Sort<T(!new)>(s: seq<T>, leq: (T, T) -> bool) returns (r: seq<T>)
    requires Total(leq)
    ensures Sorted(r, leq) && multiset(r) == multiset(s)
  {
    r := [];
    for k := 0 to |s|
      invariant Sorted(r, leq) && multiset(r) == multiset(s[..k])
    {
      assert s[..k + 1] == s[..k] + [s[k]];
      r := InsertSorted(r, s[k], leq);
    }
    assert s[..|s|] == s;
  }

  lemma SameLength<T>(a: seq<T>, b: seq<T>)
    requires multiset(a) == multiset(b)
    ensures |a| == |b|
  {
    assert |multiset(a)| == |a| && |multiset(b)| == |b|;
  }

  lemma SameMembers<T>(a: seq<T>, b: seq<T>, x: T)
    requires multiset(a) == multiset(b)
    ensures x in a <==> x in b
  {
    assert x in a <==> x in multiset(a);
    assert x in b <==> x in multiset(b);
  }

  ghost function Mapped<T, U>(s: seq<T>, f: T -> U): (r: seq<U>)
    ensures |r| == |s| && forall i :: 0 <= i < |s| ==> r[i] == f(s[i])
  {
    seq(|s|, i requires 0 <= i < |s| => f(s[i]))
  }

  lemma RemoveAt<T>(s: seq<T>, k: nat)
    requires k < |s|
    ensures multiset(s[..k] + s[k + 1..]) == multiset(s) - multiset{s[k]}
    ensures multiset(s) == multiset(s[..k] + s[k + 1..]) + multiset{s[k]}
  {
    assert s == s[..k] + [s[k]] + s[k + 1..];
  }

  lemma MappedRemoveAt<T, U>(s: seq<T>, k: nat, f: T -> U)
    requires k < |s|
    ensures Mapped(s, f)[..k] + Mapped(s, f)[k + 1..] == Mapped(s[..k] + s[k + 1..], f)
  {
  }

  lemma MappedSplit<T, U>(s: seq<T>, k: nat, f: T -> U)
    requires k < |s|
    ensures multiset(Mapped(s, f)) == multiset(Mapped(s[..k] + s[k + 1..], f)) + multiset{f(s[k])}
  {
    MappedRemoveAt(s, k, f);
    RemoveAt(Mapped(s, f), k);
  }

  /** An element of one arrangement sits somewhere in the other. */
  lemma MatchFirst<T>(a: seq<T>, b: seq<T>) returns (k: nat)
    requires multiset(a) == multiset(b) && a != []
    ensures k < |b| && b[k] == a[0] && multiset(a[..0] + a[1..]) == multiset(b[..k] + b[k + 1..])
  {
    SameMembers(a, b, a[0]);
    k :| 0 <= k < |b| && b[k] == a[0];
    RemoveAt(a, 0);
    RemoveAt(b, k);
  }

  /** Rearranging a sequence rearranges its image. */
  lemma {:induction false} MappedPermutation<T, U>(a: seq<T>, b: seq<T>, f: T -> U)
    requires multiset(a) == multiset(b)
    ensures multiset(Mapped(a, f)) == multiset(Mapped(b, f))
    decreases |a|
  {
    SameLength(a, b);
    if a != [] {
      var k := MatchFirst(a, b);
      MappedSplit(a, 0, f);
      MappedSplit(b, k, f);
      MappedPermutation(a[..0] + a[1..], b[..k] + b[k + 1..], f);
    }
  }
}
