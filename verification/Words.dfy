/**
 64-bit words as their bits, least significant first, and the operators the packed
 partition uses on them.
 */
module Words {

  const WORD_BITS: nat := 64

  type Word = w: seq<bool> | |w| == WORD_BITS witness seq(WORD_BITS, _ => false)

  function Pow2(k: nat): (p: nat)
    ensures p > 0
  {
    if k == 0 then 1 else 2 * Pow2(k - 1)
  }

  /** The number written by the bits. */
  function Value(bits: seq<bool>): nat {
    if bits == [] then 0 else (if bits[0] then 1 else 0) + 2 * Value(bits[1..])
  }

  /** The lowest `width` bits of `k`. */
  function Bits(k: nat, width: nat): (bits: seq<bool>)
    ensures |bits| == width
    decreases width, k
  {
    if width == 0 then [] else [k % 2 == 1] + Bits(k / 2, width - 1)
  }

  function FromNat(k: nat): Word {
    Bits(k, WORD_BITS)
  }

  function And(a: Word, b: Word): Word { seq(WORD_BITS, i requires 0 <= i < WORD_BITS => a[i] && b[i]) }

  function Or(a: Word, b: Word): Word { seq(WORD_BITS, i requires 0 <= i < WORD_BITS => a[i] || b[i]) }

  function Xor(a: Word, b: Word): Word { seq(WORD_BITS, i requires 0 <= i < WORD_BITS => a[i] != b[i]) }

  function Not(a: Word): Word { seq(WORD_BITS, i requires 0 <= i < WORD_BITS => !a[i]) }

  function Shl(a: Word, k: nat): Word
    requires k < WORD_BITS
  {
    seq(WORD_BITS, i requires 0 <= i < WORD_BITS => if i < k then false else a[i - k])
  }

  function Shr(a: Word, k: nat): Word
    requires k < WORD_BITS
  {
    seq(WORD_BITS, i requires 0 <= i < WORD_BITS => if i + k < WORD_BITS then a[i + k] else false)
  }

  ghost predicate AllZero(bits: seq<bool>) {
    forall i :: 0 <= i < |bits| ==> !bits[i]
  }

  /** Ones exactly on the positions from `lo` up to `hi`. */
  ghost predicate OnesBetween(bits: seq<bool>, lo: nat, hi: nat) {
    forall i :: 0 <= i < |bits| ==> bits[i] == (lo <= i < hi)
  }

  /** The bits needed to write every number up to and including `n`. */
  function BitLength(n: nat): (b: nat)
    ensures n < Pow2(b)
    ensures b > 0 ==> Pow2(b - 1) <= n
  {
    if n == 0 then 0 else 1 + BitLength(n / 2)
  }

  lemma {:induction false} Pow2Monotone(a: nat, b: nat)
    requires a <= b
    ensures Pow2(a) <= Pow2(b)
    decreases b - a
  {
    if a < b {
      Pow2Monotone(a + 1, b);
    }
  }

  /** A number that fits is read back unchanged. */
  lemma {:induction false} ValueOfBits(k: nat, width: nat)
    requires k < Pow2(width)
    ensures Value(Bits(k, width)) == k
    decreases width
  {
    if width > 0 {
      ValueOfBits(k / 2, width - 1);
      assert Bits(k, width)[1..] == Bits(k / 2, width - 1);
    }
  }

  lemma {:induction false} BitsOfValue(bits: seq<bool>)
    ensures Bits(Value(bits), |bits|) == bits
  {
    if bits != [] {
      BitsOfValue(bits[1..]);
      assert bits == [bits[0]] + bits[1..];
    }
  }

  lemma ValueInjective(a: seq<bool>, b: seq<bool>)
    requires |a| == |b| && Value(a) == Value(b)
    ensures a == b
  {
    BitsOfValue(a);
    BitsOfValue(b);
  }

  /** The low `k` bits and the rest. */
  lemma {:induction false} ValueSplits(bits: seq<bool>, k: nat)
    requires k <= |bits|
    ensures Value(bits) == Value(bits[..k]) + Pow2(k) * Value(bits[k..]) && Value(bits[..k]) < Pow2(k)
    decreases k
  {
    if k == 0 {
      assert bits[..0] == [] && bits[0..] == bits;
    } else {
      var rest := bits[1..];
      ValueSplits(rest, k - 1);
      assert bits[..k][1..] == rest[..k - 1] && bits[k..] == rest[k - 1..];
      var high := Value(rest[k - 1..]);
      assert 2 * (Pow2(k - 1) * high) == Pow2(k) * high;
    }
  }

  lemma ProductGrows(p: nat, q: int, q': int)
    requires q < q'
    ensures p * q + p <= p * q'
  {
    assert p * (q' - q) == p * q' - p * q;
    assert q' - q >= 1;
  }

  lemma QuotientIsUnique(p: nat, q: int, r: nat, q': int, r': nat)
    requires p * q + r == p * q' + r' && r < p && r' < p
    ensures q == q' && r == r'
  {
    if q < q' {
      ProductGrows(p, q, q');
    } else if q' < q {
      ProductGrows(p, q', q);
    }
  }

  lemma QuotientAndRemainder(a: nat, p: nat, b: nat)
    requires a < p
    ensures (a + p * b) / p == b && (a + p * b) % p == a
  {
    var x := a + p * b;
    QuotientIsUnique(p, b, a, x / p, x % p);
  }

  /** Bits `lo` to `hi` of a number, by division. */
  lemma FieldByDivision(bits: seq<bool>, lo: nat, hi: nat)
    requires lo <= hi <= |bits|
    ensures Value(bits[lo..hi]) == (Value(bits) / Pow2(lo)) % Pow2(hi - lo)
  {
    hide Value, Pow2;
    ValueSplits(bits, lo);
    QuotientAndRemainder(Value(bits[..lo]), Pow2(lo), Value(bits[lo..]));
    ValueSplits(bits[lo..], hi - lo);
    QuotientAndRemainder(Value(bits[lo..][..hi - lo]), Pow2(hi - lo), Value(bits[lo..][hi - lo..]));
    assert bits[lo..][..hi - lo] == bits[lo..hi];
  }

  lemma {:induction false} ValueOfZeros(bits: seq<bool>)
    requires AllZero(bits)
    ensures Value(bits) == 0
  {
    if bits != [] {
      ValueOfZeros(bits[1..]);
    }
  }

  lemma {:induction false} ValueIgnoresLeadingZeros(bits: seq<bool>, zeros: seq<bool>)
    requires AllZero(zeros)
    ensures Value(bits + zeros) == Value(bits)
    decreases |bits|
  {
    if bits == [] {
      assert bits + zeros == zeros;
      ValueOfZeros(zeros);
    } else {
      ValueIgnoresLeadingZeros(bits[1..], zeros);
      assert (bits + zeros)[1..] == bits[1..] + zeros;
    }
  }

  lemma PrependedSlices(first: seq<bool>, rest: seq<bool>, b: nat)
    requires |first| == 1 && 1 <= b <= |rest| + 1
    ensures (first + rest)[b..] == rest[b - 1..] && (first + rest)[..b] == first + rest[..b - 1]
  {
    forall i | 0 <= i < |rest| + 1 - b ensures (first + rest)[b..][i] == rest[b - 1..][i] {
    }
  }

  lemma {:induction false} BitsHighZero(k: nat, width: nat, b: nat)
    requires k < Pow2(b) && b <= width
    ensures AllZero(Bits(k, width)[b..])
    ensures Bits(k, width)[..b] == Bits(k, b)
    decreases width
  {
    if width > 0 && b == 0 {
      BitsHighZero(0, width - 1, 0);
      assert Bits(k, width) == [false] + Bits(0, width - 1);
    } else if width > 0 {
      assert k / 2 < Pow2(b - 1);
      BitsHighZero(k / 2, width - 1, b - 1);
      var first, rest := [k % 2 == 1], Bits(k / 2, width - 1);
      assert Bits(k, width) == first + rest && Bits(k, b) == first + Bits(k / 2, b - 1);
      hide Bits, Pow2;
      PrependedSlices(first, rest, b);
    }
  }

  lemma {:induction false} BitsOfOnes(k: nat, width: nat)
    requires k <= width
    ensures OnesBetween(Bits(Pow2(k) - 1, width), 0, k)
    decreases width
  {
    if k == 0 {
      BitsHighZero(0, width, 0);
      assert Bits(0, width) == Bits(0, width)[0..];
    } else {
      BitsOfOnes(k - 1, width - 1);
      assert (Pow2(k) - 1) / 2 == Pow2(k - 1) - 1 && (Pow2(k) - 1) % 2 == 1;
      assert Bits(Pow2(k) - 1, width) == [true] + Bits(Pow2(k - 1) - 1, width - 1);
    }
  }

  // ---------- fields ----------

  function One(): Word { seq(WORD_BITS, i => i == 0) }

  function AllOnes(): Word { seq(WORD_BITS, _ => true) }

  /** `w - 1` in unsigned arithmetic. */
  function Predecessor(w: Word): Word {
    if Value(w) == 0 then AllOnes() else FromNat(Value(w) - 1)
  }

  /** `k` ones at the low end. The separate case is needed because shifting by 64 is undefined. */
  function LowMask(k: nat): Word
    requires k <= WORD_BITS
  {
    if k == WORD_BITS then AllOnes() else Predecessor(Shl(One(), k))
  }

  lemma {:induction false} ValueOfSingleBit(bits: seq<bool>, k: nat)
    requires k < |bits| && forall i :: 0 <= i < |bits| ==> bits[i] == (i == k)
    ensures Value(bits) == Pow2(k)
    decreases k
  {
    if k == 0 {
      ValueOfZeros(bits[1..]);
    } else {
      ValueOfSingleBit(bits[1..], k - 1);
    }
  }

  lemma LowMaskBits(k: nat)
    requires k <= WORD_BITS
    ensures OnesBetween(LowMask(k), 0, k)
  {
    hide Bits, Value, Pow2;
    if k < WORD_BITS {
      BitsOfOnes(k, WORD_BITS);
      ValueOfSingleBit(Shl(One(), k), k);
    }
  }

  function FieldMask(lo: nat, hi: nat): Word
    requires lo <= hi <= WORD_BITS
  {
    Xor(LowMask(hi), LowMask(lo))
  }

  lemma FieldMaskBits(lo: nat, hi: nat)
    requires lo <= hi <= WORD_BITS
    ensures OnesBetween(FieldMask(lo, hi), lo, hi)
  {
    hide LowMask;
    LowMaskBits(lo);
    LowMaskBits(hi);
  }

  /** Masking and shifting reads the number stored in the field. */
  lemma ReadField(w: Word, lo: nat, hi: nat)
    requires lo < hi <= WORD_BITS
    ensures Value(Shr(And(w, FieldMask(lo, hi)), lo)) == Value(w[lo..hi])
  {
    hide FieldMask, Value;
    FieldMaskBits(lo, hi);
    var s := Shr(And(w, FieldMask(lo, hi)), lo);
    assert s == w[lo..hi] + s[hi - lo..];
    ValueIgnoresLeadingZeros(w[lo..hi], s[hi - lo..]);
  }

  function WriteField(w: Word, lo: nat, hi: nat, k: nat): Word
    requires lo < hi <= WORD_BITS
  {
    Or(And(w, Not(FieldMask(lo, hi))), Shl(FromNat(k), lo))
  }

  /** Clearing and or-ing writes the field and nothing else, if the number fits. */
  lemma WriteFieldBits(w: Word, lo: nat, hi: nat, k: nat)
    requires lo < hi <= WORD_BITS && k < Pow2(hi - lo)
    ensures WriteField(w, lo, hi, k)[lo..hi] == Bits(k, hi - lo)
    ensures forall i :: 0 <= i < WORD_BITS && !(lo <= i < hi) ==> WriteField(w, lo, hi, k)[i] == w[i]
  {
    hide FieldMask, Bits, Pow2;
    FieldMaskBits(lo, hi);
    BitsHighZero(k, WORD_BITS, hi - lo);
    var f := FromNat(k);
    forall i | 0 <= i < WORD_BITS
      ensures lo <= i < hi ==> WriteField(w, lo, hi, k)[i] == f[..hi - lo][i - lo]
      ensures !(lo <= i < hi) ==> WriteField(w, lo, hi, k)[i] == w[i]
    {
      if hi <= i {
        assert f[hi - lo..][i - hi] == f[i - lo];
      }
    }
    var field := WriteField(w, lo, hi, k)[lo..hi];
    forall j | 0 <= j < hi - lo ensures field[j] == Bits(k, hi - lo)[j] {
      assert field[j] == WriteField(w, lo, hi, k)[lo + j];
      assert f[..hi - lo][j] == Bits(k, hi - lo)[j];
    }
  }

  // ---------- most significant bit ----------

  /** The position of the highest one below position `k`. */
  function HighestOneBelow(w: Word, k: nat): (m: nat)
    requires k <= WORD_BITS && exists i :: 0 <= i < k && w[i]
    ensures m < k && w[m] && forall i :: m < i < k ==> !w[i]
  {
    if w[k - 1] then k - 1 else HighestOneBelow(w, k - 1)
  }

  function Msb(w: Word): (m: nat)
    requires exists i :: 0 <= i < WORD_BITS && w[i]
    ensures m < WORD_BITS && w[m] && forall i :: m < i < WORD_BITS ==> !w[i]
  {
    HighestOneBelow(w, WORD_BITS)
  }
}
