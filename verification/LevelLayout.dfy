/**
 How the cell ids of all levels share one 64-bit word: offsets, masks and the table from
 bit positions to levels.
 */
module LevelLayout {
  import opened RoadGraph
  import opened Words

  datatype LevelData = LevelData(numLevel: nat, offsets: seq<nat>, masks: seq<Word>, bitToLevel: seq<nat>)
  {
    /** Level `l` occupies the bits from `Lo(l)` up to `Hi(l)`. */
    function Lo(l: nat): nat
      requires 1 <= l <= |offsets|
    {
      offsets[l - 1]
    }

    function Hi(l: nat): nat
      requires l < |offsets|
    {
      offsets[l]
    }

    ghost predicate IsLevel(l: nat) {
      1 <= l < numLevel
    }

    ghost predicate Valid() {
      && numLevel >= 1 && |offsets| == numLevel && offsets[0] == 0
      && Increasing()
      && |masks| == numLevel - 1
      && (forall l :: 0 <= l < |masks| ==> masks[l] == FieldMask(offsets[l], offsets[l + 1]))
      && |bitToLevel| == WORD_BITS
      && (forall i, l :: 0 <= i < WORD_BITS && StartsAt(offsets, numLevel, i, l) ==> bitToLevel[i] == l)
    }

    /** Offsets rise strictly and stay within the word. */
    ghost predicate Increasing()
      requires |offsets| == numLevel
    {
      && (forall a, b :: 0 <= a < b < numLevel ==> offsets[a] < offsets[b])
      && (forall a :: 0 <= a < numLevel ==> offsets[a] <= WORD_BITS)
    }
  }

  /** `l` is the highest of the levels below `bound` whose bits begin at or below position `i`. */
  predicate StartsAt(offsets: seq<nat>, bound: nat, i: int, l: int)
    requires bound <= |offsets|
  {
    1 <= l < bound && offsets[l - 1] <= i && (l + 1 == bound || i < offsets[l])
  }

  /** Bits used by the first `k` levels. */
  function BitsUsed(numCells: seq<nat>, k: nat): nat
    requires k <= |numCells|
  {
    if k == 0 then 0 else BitsUsed(numCells, k - 1) + BitLength(numCells[k - 1])
  }

  lemma {:induction false} BitsUsedMonotone(numCells: seq<nat>, a: nat, b: nat)
    requires a <= b <= |numCells|
    ensures BitsUsed(numCells, a) <= BitsUsed(numCells, b)
    ensures (forall c :: c in numCells ==> c >= 1) && a < b ==> BitsUsed(numCells, a) < BitsUsed(numCells, b)
    decreases b
  {
    if a < b {
      BitsUsedMonotone(numCells, a, b - 1);
      assert numCells[b - 1] in numCells;
    }
  }

  lemma BitsUsedStep(numCells: seq<nat>, k: nat)
    requires k < |numCells|
    ensures BitsUsed(numCells, k + 1) == BitsUsed(numCells, k) + BitLength(numCells[k])
  {
  }

  // ---------- the least number of bits ----------

  /** Fields of these widths hold all ids of the levels and their sentinels. */
  ghost predicate WidthsHold(widths: seq<nat>, numCells: seq<nat>) {
    |widths| == |numCells| && forall l :: 0 <= l < |numCells| ==> numCells[l] < Pow2(widths[l])
  }

  ghost function WidthTotal(widths: seq<nat>, k: nat): nat
    requires k <= |widths|
  {
    if k == 0 then 0 else WidthTotal(widths, k - 1) + widths[k - 1]
  }

  lemma BitLengthIsLeast(n: nat, width: nat)
    requires n < Pow2(width)
    ensures BitLength(n) <= width
  {
    hide Pow2, BitLength;
    if BitLength(n) > width {
      Pow2Monotone(width, BitLength(n) - 1);
    }
  }

  lemma {:induction false} NoLayoutIsSmaller(widths: seq<nat>, numCells: seq<nat>, k: nat)
    requires WidthsHold(widths, numCells) && k <= |numCells|
    ensures BitsUsed(numCells, k) <= WidthTotal(widths, k)
  {
    if k > 0 {
      NoLayoutIsSmaller(widths, numCells, k - 1);
      BitLengthIsLeast(numCells[k - 1], widths[k - 1]);
    }
  }

  ghost function BitLengths(numCells: seq<nat>): (r: seq<nat>)
    ensures |r| == |numCells| && forall l :: 0 <= l < |numCells| ==> r[l] == BitLength(numCells[l])
  {
    seq(|numCells|, l requires 0 <= l < |numCells| => BitLength(numCells[l]))
  }

  lemma {:induction false} BitLengthsTotal(numCells: seq<nat>, k: nat)
    requires k <= |numCells|
    ensures WidthTotal(BitLengths(numCells), k) == BitsUsed(numCells, k)
  {
    if k > 0 {
      BitLengthsTotal(numCells, k - 1);
    }
  }

  /** Some layout of all ids fits into a word. */
  ghost predicate LayoutExists(numCells: seq<nat>) {
    exists widths :: WidthsHold(widths, numCells) && WidthTotal(widths, |widths|) <= 64
  }

  /** The bits used are the least any layout can do with. */
  lemma BitsSufficeIff(numCells: seq<nat>)
    ensures BitsUsed(numCells, |numCells|) <= WORD_BITS <==> LayoutExists(numCells)
  {
    hide BitLength, BitLengths;
    if widths :| WidthsHold(widths, numCells) && WidthTotal(widths, |widths|) <= 64 {
      NoLayoutIsSmaller(widths, numCells, |numCells|);
    }
    BitLengthsTotal(numCells, |numCells|);
    assert WidthsHold(BitLengths(numCells), numCells);
  }

  /** The offsets of the levels and a sentinel, or nothing when the word is too small: `None` stands for the
      exception. */
  method MakeLevelOffsets(numCells: seq<nat>) returns (r: Option<seq<nat>>)
    ensures r.Some? <==> BitsUsed(numCells, |numCells|) <= WORD_BITS
    ensures r.Some? ==> OffsetsUpTo(numCells, r.value, |numCells|)
  {
    assert BitsUsed(numCells, 0) == 0;
    hide Words.BitLength, Words.Pow2, BitsUsed;
    var offsets: seq<nat>, sumBits: nat := [], 0;
    var lidx := 0;
    while lidx < |numCells| && sumBits <= WORD_BITS
      invariant lidx <= |numCells| && sumBits == BitsUsed(numCells, lidx)
      invariant OffsetsUpTo(numCells, offsets + [sumBits], lidx)
    {
      BitsUsedStep(numCells, lidx);
      offsets := offsets + [sumBits];
      sumBits := sumBits + BitLength(numCells[lidx]);
      lidx := lidx + 1;
    }
    BitsUsedMonotone(numCells, lidx, |numCells|);
    return if sumBits > WORD_BITS then None else Some(offsets + [sumBits]);
  }

  ghost predicate OffsetsUpTo(numCells: seq<nat>, offsets: seq<nat>, k: nat)
    requires k <= |numCells|
  {
    |offsets| == k + 1 && forall i :: 0 <= i <= k ==> offsets[i] == BitsUsed(numCells, i)
  }

  /** Offsets rise strictly, and each level has room for its ids and for their number. */
  lemma OffsetsFit(numCells: seq<nat>, offsets: seq<nat>)
    requires (forall c :: c in numCells ==> c >= 1) && BitsUsed(numCells, |numCells|) <= WORD_BITS
    requires OffsetsUpTo(numCells, offsets, |numCells|)
    ensures offsets[0] == 0 && |offsets| == |numCells| + 1
    ensures forall a, b :: 0 <= a < b < |offsets| ==> offsets[a] < offsets[b] <= WORD_BITS
    ensures forall l :: 1 <= l <= |numCells| ==> numCells[l - 1] < Pow2(offsets[l] - offsets[l - 1])
  {
    assert offsets[0] == BitsUsed(numCells, 0) == 0;
    hide Words.Pow2, BitsUsed, Words.BitLength;
    forall a, b | 0 <= a < b < |offsets| ensures offsets[a] < offsets[b] <= WORD_BITS {
      BitsUsedMonotone(numCells, a, b);
      BitsUsedMonotone(numCells, b, |numCells|);
    }
    forall l | 1 <= l <= |numCells| ensures numCells[l - 1] < Pow2(offsets[l] - offsets[l - 1]) {
      BitsUsedStep(numCells, l - 1);
    }
  }

  method MakeLevelMasks(offsets: seq<nat>) returns (masks: seq<Word>)
    requires |offsets| >= 1
    requires forall a, b :: 0 <= a < b < |offsets| ==> offsets[a] < offsets[b] <= WORD_BITS
    ensures |masks| == |offsets| - 1
    ensures forall l :: 0 <= l < |masks| ==> masks[l] == FieldMask(offsets[l], offsets[l + 1])
    ensures forall l :: 0 <= l < |masks| ==> OnesBetween(masks[l], offsets[l], offsets[l + 1])
  {
    hide OnesBetween, LowMask, Xor;
    masks := [];
    for l := 0 to |offsets| - 1
      invariant |masks| == l
      invariant forall k :: 0 <= k < l ==> masks[k] == FieldMask(offsets[k], offsets[k + 1])
    {
      assert offsets[l] < offsets[l + 1];
      var mask, nextMask := LowMask(offsets[l]), LowMask(offsets[l + 1]);
      masks := masks + [Xor(nextMask, mask)];
    }
    forall l | 0 <= l < |masks| ensures OnesBetween(masks[l], offsets[l], offsets[l + 1]) {
      assert offsets[l] < offsets[l + 1];
      FieldMaskBits(offsets[l], offsets[l + 1]);
    }
  }

  /** Each level overwrites the table from its own offset upwards, so the last writer is the highest level that
      starts there. */
  method MakeBitToLevel(offsets: seq<nat>) returns (table: seq<nat>)
    requires |offsets| >= 1
    requires forall a, b :: 0 <= a < b < |offsets| ==> offsets[a] < offsets[b] <= WORD_BITS
    ensures |table| == WORD_BITS
    ensures forall i, l :: 0 <= i < WORD_BITS && StartsAt(offsets, |offsets|, i, l) ==> table[i] == l
  {
    table := seq(WORD_BITS, _ => 0);
    var l := 1;
    while l < |offsets|
      invariant 1 <= l <= |offsets| && |table| == WORD_BITS
      invariant forall i, m :: 0 <= i < WORD_BITS && StartsAt(offsets, l, i, m) ==> table[i] == m
    {
      ghost var before := table;
      var idx := offsets[l - 1];
      while idx < WORD_BITS
        invariant offsets[l - 1] <= idx && |table| == WORD_BITS
        invariant forall i :: 0 <= i < WORD_BITS ==>
          table[i] == if offsets[l - 1] <= i < idx then l else before[i]
      {
        table := table[idx := l];
        idx := idx + 1;
      }
      var next := l + 1;
      forall i, m | 0 <= i < WORD_BITS && StartsAt(offsets, next, i, m) ensures table[i] == m {
        assert m < l ==> StartsAt(offsets, l, i, m) && offsets[m] <= offsets[l - 1];
      }
      l := next;
    }
  }

  /** Succeeds exactly when the ids of all levels fit into one word. */
  method MakeLevelData(numCells: seq<nat>) returns (r: Option<LevelData>)
    requires forall c :: c in numCells ==> c >= 1
    ensures r.Some? <==> BitsUsed(numCells, |numCells|) <= WORD_BITS
    ensures r.Some? <==> LayoutExists(numCells)
    ensures r.Some? ==> r.value.Valid() && r.value.numLevel == |numCells| + 1
    ensures r.Some? ==> forall l :: 1 <= l <= |numCells| ==> numCells[l - 1] < Pow2(r.value.Hi(l) - r.value.Lo(l))
  {
    hide Words.FieldMask, Words.Pow2, LayoutExists;
    BitsSufficeIff(numCells);
    var o := MakeLevelOffsets(numCells);
    if o.None? { return None; }
    var offsets := o.value;
    OffsetsFit(numCells, offsets);
    hide OffsetsUpTo;
    var masks := MakeLevelMasks(offsets);
    var table := MakeBitToLevel(offsets);
    r := Some(LevelData(|numCells| + 1, offsets, masks, table));
  }

  // ---------- one packed word ----------

  /** A cell id is read from the word as a number: shift right by division, cut off by remainder. */
  lemma ReadCellByDivision(data: LevelData, l: nat, w: Word)
    requires data.Valid() && data.IsLevel(l)
    ensures data.offsets[l - 1] < data.offsets[l]
    ensures ReadCell(data, l, w) == (Value(w) / Pow2(data.offsets[l - 1])) % Pow2(data.offsets[l] - data.offsets[l - 1])
  {
    ReadCellIsField(data, l, w);
    hide Value, Pow2, ReadCell;
    FieldByDivision(w, data.offsets[l - 1], data.offsets[l]);
  }

  /** The cell id of level `l` stored in `w`. */
  ghost function Field(data: LevelData, l: nat, w: Word): nat
    requires data.Valid() && data.IsLevel(l)
  {
    Value(w[data.Lo(l)..data.Hi(l)])
  }

  function ReadCell(data: LevelData, l: nat, w: Word): nat
    requires data.Valid() && data.IsLevel(l)
  {
    assert data.offsets[l - 1] < data.offsets[l];
    Value(Shr(And(w, data.masks[l - 1]), data.offsets[l - 1]))
  }

  lemma ReadCellIsField(data: LevelData, l: nat, w: Word)
    requires data.Valid() && data.IsLevel(l)
    ensures ReadCell(data, l, w) == Field(data, l, w)
  {
    hide Words.FieldMask, Words.Value;
    ReadField(w, data.Lo(l), data.Hi(l));
  }

  function WriteCell(data: LevelData, l: nat, w: Word, id: nat): Word
    requires data.Valid() && data.IsLevel(l)
  {
    assert data.offsets[l - 1] < data.offsets[l];
    Or(And(w, Not(data.masks[l - 1])), Shl(FromNat(id), data.offsets[l - 1]))
  }

  /** No bit above the last level is set. */
  ghost predicate Tidy(data: LevelData, w: Word)
    requires data.Valid()
  {
    AllZero(w[data.offsets[data.numLevel - 1]..])
  }

  /** Writing one level stores the id and disturbs no other level. */
  lemma WriteCellFields(data: LevelData, l: nat, w: Word, id: nat)
    requires data.Valid() && data.IsLevel(l) && id < Pow2(data.Hi(l) - data.Lo(l))
    ensures Field(data, l, WriteCell(data, l, w, id)) == id
    ensures forall m :: data.IsLevel(m) && m != l ==> Field(data, m, WriteCell(data, l, w, id)) == Field(data, m, w)
    ensures Tidy(data, w) ==> Tidy(data, WriteCell(data, l, w, id))
  {
    hide Words.FieldMask, Words.Value, Words.Bits, Words.Pow2;
    var lo, hi := data.Lo(l), data.Hi(l);
    var w' := WriteCell(data, l, w, id);
    assert w' == WriteField(w, lo, hi, id);
    WriteFieldBits(w, lo, hi, id);
    ValueOfBits(id, hi - lo);
    forall m | data.IsLevel(m) && m != l ensures Field(data, m, w') == Field(data, m, w) {
      assert w'[data.Lo(m)..data.Hi(m)] == w[data.Lo(m)..data.Hi(m)];
    }
    if Tidy(data, w) {
      var top := data.offsets[data.numLevel - 1];
      assert w'[top..] == w[top..];
    }
  }

  // ---------- the highest level at which two words differ ----------

  function HighestDifferentLevel(data: LevelData, a: Word, b: Word): nat
    requires data.Valid()
  {
    if a == b then 0
    else
      assert exists i :: 0 <= i < WORD_BITS && Xor(a, b)[i] by {
        var i :| 0 <= i < WORD_BITS && a[i] != b[i];
        assert Xor(a, b)[i];
      }
      data.bitToLevel[Msb(Xor(a, b))]
  }

  /** Some level covers any bit position below the last offset. */
  lemma {:induction false} LevelOfBit(data: LevelData, i: nat, top: nat) returns (l: nat)
    requires data.Valid() && 1 <= top < data.numLevel && i < data.Hi(top)
    ensures data.IsLevel(l) && l <= top && data.Lo(l) <= i < data.Hi(l)
    decreases top
  {
    if data.Lo(top) <= i {
      l := top;
    } else {
      l := LevelOfBit(data, i, top - 1);
    }
  }

  lemma FieldsAgreeOnBits(data: LevelData, l: nat, a: Word, b: Word)
    requires data.Valid() && data.IsLevel(l)
    ensures Field(data, l, a) == Field(data, l, b) <==> forall i :: data.Lo(l) <= i < data.Hi(l) ==> a[i] == b[i]
  {
    hide Words.FieldMask, Words.Value;
    var x, y := a[data.Lo(l)..data.Hi(l)], b[data.Lo(l)..data.Hi(l)];
    if Field(data, l, a) == Field(data, l, b) {
      ValueInjective(x, y);
      forall i | data.Lo(l) <= i < data.Hi(l) ensures a[i] == b[i] {
        assert x[i - data.Lo(l)] == a[i] && y[i - data.Lo(l)] == b[i];
      }
    } else {
      assert x != y;
    }
  }

  lemma TidyAgree(data: LevelData, a: Word, b: Word)
    requires data.Valid() && Tidy(data, a) && Tidy(data, b)
    ensures forall i :: data.offsets[data.numLevel - 1] <= i < WORD_BITS ==> a[i] == b[i]
  {
    var top := data.offsets[data.numLevel - 1];
    forall i | top <= i < WORD_BITS ensures a[i] == b[i] {
      assert a[top..][i - top] == a[i] && b[top..][i - top] == b[i];
    }
  }

  ghost predicate HighestDifference(data: LevelData, a: Word, b: Word, h: nat)
    requires data.Valid()
  {
    && h < data.numLevel
    && (h > 0 ==> Field(data, h, a) != Field(data, h, b))
    && (forall l: nat :: data.IsLevel(l) && l > h ==> Field(data, l, a) == Field(data, l, b))
  }

  /** The most significant differing bit names the highest level whose ids differ. */
  lemma HighestDifferentLevelIsHighest(data: LevelData, a: Word, b: Word)
    requires data.Valid() && Tidy(data, a) && Tidy(data, b)
    ensures HighestDifference(data, a, b, HighestDifferentLevel(data, a, b))
  {
    hide Words.FieldMask, Field;
    if a == b {
      forall l | data.IsLevel(l) ensures Field(data, l, a) == Field(data, l, b) {
        FieldsAgreeOnBits(data, l, a, b);
      }
    } else {
      TidyAgree(data, a, b);
      var i :| 0 <= i < WORD_BITS && a[i] != b[i];
      assert Xor(a, b)[i];
      var m := Msb(Xor(a, b));
      assert a[m] != b[m];
      var h := LevelOfBit(data, m, data.numLevel - 1);
      assert StartsAt(data.offsets, data.numLevel, m, h);
      FieldsAgreeOnBits(data, h, a, b);
      forall l | data.IsLevel(l) && l > h ensures Field(data, l, a) == Field(data, l, b) {
        forall j | data.Lo(l) <= j < data.Hi(l) ensures a[j] == b[j] {
          assert !Xor(a, b)[j];
        }
        FieldsAgreeOnBits(data, l, a, b);
      }
    }
  }
}
