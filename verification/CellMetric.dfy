/**
 The flat value arrays of one metric and the addresses of the matrix slots in them.
 */
module CellMetrics {
  import opened RoadGraph
  import opened CellBoundaries
  import opened CellStorages

  /** `std::find`: the first position of `v`, or the length. */
  function Find(s: seq<nat>, v: nat): (k: nat)
    ensures k <= |s|
    ensures k < |s| ==> s[k] == v
    ensures forall i :: 0 <= i < k ==> s[i] != v
    ensures k < |s| <==> v in s
  {
    if s == [] then 0
    else if s[0] == v then 0
    else
      assert s == [s[0]] + s[1..];
      1 + Find(s[1..], v)
  }

  lemma FindInAscending(s: seq<nat>, i: nat)
    requires Ascending(s) && i < |s|
    ensures Find(s, s[i]) == i
  {
  }

  // ---------- addresses ----------

  function SlotOf(cell: CellData, row: nat, column: nat): nat {
    cell.valueOffset + row * cell.destination.count + column
  }

  /** A contiguous range of addresses. */
  datatype RowRange = RowRange(begin: nat, end: nat)

  /** Addresses `begin`, `begin + stride`, ... */
  datatype ColumnRange = ColumnRange(begin: nat, stride: nat, count: nat)

  /** The values leaving `node`; empty if the node is no source of the cell. */
  function GetOutRange(storage: CellStorage, level: nat, id: nat, node: nat): RowRange
    requires storage.Valid() && storage.HasCell(level, id)
  {
    var cell := storage.cells[storage.CellIndex(level, id)];
    var row := Find(storage.GetSourceNodes(level, id), node);
    if row == cell.source.count then RowRange(cell.valueOffset, cell.valueOffset)
    else
      var begin := cell.valueOffset + cell.destination.count * row;
      RowRange(begin, begin + cell.destination.count)
  }

  /** The values entering `node`; empty if the node is no destination of the cell. */
  function GetInRange(storage: CellStorage, level: nat, id: nat, node: nat): ColumnRange
    requires storage.Valid() && storage.HasCell(level, id)
  {
    var cell := storage.cells[storage.CellIndex(level, id)];
    var column := Find(storage.GetDestinationNodes(level, id), node);
    if column == cell.destination.count then ColumnRange(0, 1, 0)
    else ColumnRange(cell.valueOffset + column, cell.destination.count, cell.source.count)
  }

  /** Row and column views of a cell meet in one slot. */
  lemma RowAndColumnMeet(storage: CellStorage, level: nat, id: nat, i: nat, j: nat)
    requires storage.Valid() && storage.HasCell(level, id)
    requires Ascending(storage.GetSourceNodes(level, id)) && Ascending(storage.GetDestinationNodes(level, id))
    requires i < |storage.GetSourceNodes(level, id)| && j < |storage.GetDestinationNodes(level, id)|
    ensures var sources, destinations := storage.GetSourceNodes(level, id), storage.GetDestinationNodes(level, id);
            var row, column := GetOutRange(storage, level, id, sources[i]), GetInRange(storage, level, id,
                                                                                       destinations[j]);
            && row.end - row.begin == |destinations| && column.count == |sources|
            && row.begin + j == column.begin + i * column.stride
              == SlotOf(storage.cells[storage.CellIndex(level, id)], i, j)
  {
    FindInAscending(storage.GetSourceNodes(level, id), i);
    FindInAscending(storage.GetDestinationNodes(level, id), j);
    var cell := storage.cells[storage.CellIndex(level, id)];
    assert |storage.GetSourceNodes(level, id)| == cell.source.count
           && |storage.GetDestinationNodes(level, id)| == cell.destination.count;
    hide CellStorage.Valid, Find, Ascending, CellStorage.GetSourceNodes, CellStorage.GetDestinationNodes;
    assert cell.destination.count * i == i * cell.destination.count;
  }

  lemma SlotInBlock(rows: nat, columns: nat, i: nat, j: nat)
    requires i < rows && j < columns
    ensures i * columns + j < rows * columns
  {
    assert (i + 1) * columns <= rows * columns;
  }

  lemma SlotInjective(columns: nat, i: nat, j: nat, i': nat, j': nat)
    requires j < columns && j' < columns && i * columns + j == i' * columns + j'
    ensures i == i' && j == j'
  {
    assert i < i' ==> (i + 1) * columns <= i' * columns;
    assert i' < i ==> (i' + 1) * columns <= i * columns;
  }

  /** Every address of a block is a slot. */
  lemma AddressIsSlot(rows: nat, columns: nat, k: nat) returns (i: nat, j: nat)
    requires k < rows * columns
    ensures i < rows && j < columns && k == i * columns + j
  {
    i, j := k / columns, k % columns;
    assert k == columns * i + j;
    assert i >= rows ==> columns * i >= columns * rows;
  }

  /** If no product wraps around, blocks of different cells do not overlap and all lie within the arrays. */
  lemma {:induction false} BlocksAreDisjoint(storage: CellStorage, k: nat, m: nat)
    requires storage.Consecutive() && storage.ProductsFit() && k < |storage.cells| && k <= m < |storage.cells|
    ensures k < m ==> storage.cells[k].valueOffset + storage.BlockSize(k) <= storage.cells[m].valueOffset
    ensures storage.cells[k].valueOffset + storage.BlockSize(k) <= storage.TotalSize()
    decreases m - k, |storage.cells| - k
  {
    assert ValueCount(storage.cells[k]) == storage.BlockSize(k);
    if k < m {
      BlocksAreDisjoint(storage, k + 1, m);
    } else if k < |storage.cells| - 1 {
      BlocksAreDisjoint(storage, k + 1, k + 1);
    }
  }

  // ---------- exactly when blocks and slots are separate ----------

  ghost predicate Within(storage: CellStorage, k: nat, address: nat) {
    k < |storage.cells| && storage.cells[k].valueOffset <= address < storage.cells[k].valueOffset + storage.BlockSize(k)
  }

  /** No address lies in two blocks, and none outside the arrays. */
  ghost predicate BlocksSeparate(storage: CellStorage) {
    && (forall k: nat, address: nat :: Within(storage, k, address) ==> address < storage.TotalSize())
    && (forall k: nat, m: nat, address: nat :: Within(storage, k, address) && Within(storage, m, address) ==> k == m)
  }

  /** Behind a block the values of some later cell begin where its own, truncated, count says. */
  lemma {:induction false} NextBlock(storage: CellStorage, k: nat) returns (m: nat)
    requires storage.Consecutive() && k < |storage.cells|
    requires storage.cells[k].valueOffset + ValueCount(storage.cells[k]) < storage.TotalSize()
    ensures k < m < |storage.cells|
            && storage.cells[m].valueOffset == storage.cells[k].valueOffset + ValueCount(storage.cells[k])
    ensures ValueCount(storage.cells[m]) > 0
    decreases |storage.cells| - k
  {
    if ValueCount(storage.cells[k + 1]) > 0 {
      m := k + 1;
    } else {
      m := NextBlock(storage, k + 1);
    }
  }

  lemma CountIsAtMostSize(storage: CellStorage, k: nat)
    requires k < |storage.cells|
    ensures ValueCount(storage.cells[k]) <= storage.BlockSize(k)
    ensures ValueCount(storage.cells[k]) == storage.BlockSize(k) <==> storage.BlockSize(k) < UINT32_RANGE
  {
  }

  /** A block whose size wrapped around overlaps the next one or sticks out of the arrays. */
  lemma WrappedBlockIsNotSeparate(storage: CellStorage, k: nat)
    requires storage.Consecutive() && k < |storage.cells| && storage.BlockSize(k) >= UINT32_RANGE
    ensures !BlocksSeparate(storage)
  {
    hide CellStorage.BlockSize, ValueCount;
    CountIsAtMostSize(storage, k);
    var end := storage.cells[k].valueOffset + ValueCount(storage.cells[k]);
    assert Within(storage, k, end);
    if end < storage.TotalSize() {
      var m := NextBlock(storage, k);
      CountIsAtMostSize(storage, m);
      assert Within(storage, m, end);
    }
  }

  lemma FittingBlocksAreSeparate(storage: CellStorage, k: nat, m: nat, address: nat)
    requires storage.Consecutive() && storage.ProductsFit() && Within(storage, k, address)
    ensures address < storage.TotalSize() && (Within(storage, m, address) ==> k == m)
  {
    hide CellStorage.Consecutive, CellStorage.ProductsFit, CellStorage.BlockSize, CellStorage.TotalSize;
    BlocksAreDisjoint(storage, k, k);
    if Within(storage, m, address) {
      if k < m {
        BlocksAreDisjoint(storage, k, m);
      } else if m < k {
        BlocksAreDisjoint(storage, m, k);
      }
    }
  }

  /** Blocks are separate and within the arrays if and only if no product wraps around. */
  lemma BlocksAreSeparateIff(storage: CellStorage)
    requires storage.Consecutive()
    ensures BlocksSeparate(storage) <==> storage.ProductsFit()
  {
    hide CellStorage.Consecutive, CellStorage.BlockSize, CellStorage.TotalSize, Within;
    if storage.ProductsFit() {
      forall k: nat, m: nat, address: nat | Within(storage, k, address)
        ensures address < storage.TotalSize() && (Within(storage, m, address) ==> k == m)
      {
        FittingBlocksAreSeparate(storage, k, m, address);
      }
    } else {
      var k: nat :| k < |storage.cells| && storage.BlockSize(k) >= UINT32_RANGE;
      WrappedBlockIsNotSeparate(storage, k);
    }
  }

  /** Row `i` and column `j` of the `k`-th cell. */
  ghost predicate IsEntry(storage: CellStorage, k: nat, i: nat, j: nat) {
    k < |storage.cells| && i < storage.cells[k].source.count && j < storage.cells[k].destination.count
  }

  ghost predicate SlotsSeparate(storage: CellStorage) {
    && (forall k: nat, i: nat, j: nat ::
          IsEntry(storage, k, i, j) ==> SlotOf(storage.cells[k], i, j) < storage.TotalSize())
    && (forall k: nat, i: nat, j: nat, k': nat, i': nat, j': nat ::
          IsEntry(storage, k, i, j) && IsEntry(storage, k', i', j') ==>
          SlotOf(storage.cells[k], i, j) == SlotOf(storage.cells[k'], i', j') ==> k == k' && i == i' && j == j')
  }

  lemma EntryIsWithin(storage: CellStorage, k: nat, i: nat, j: nat)
    requires IsEntry(storage, k, i, j)
    ensures Within(storage, k, SlotOf(storage.cells[k], i, j))
  {
    SlotInBlock(storage.cells[k].source.count, storage.cells[k].destination.count, i, j);
  }

  lemma WithinIsEntry(storage: CellStorage, k: nat, address: nat) returns (i: nat, j: nat)
    requires Within(storage, k, address)
    ensures IsEntry(storage, k, i, j) && SlotOf(storage.cells[k], i, j) == address
  {
    var cell := storage.cells[k];
    i, j := AddressIsSlot(cell.source.count, cell.destination.count, address - cell.valueOffset);
  }

  lemma SeparateBlocksSeparateSlots(storage: CellStorage, k: nat, i: nat, j: nat, k': nat, i': nat, j': nat)
    requires BlocksSeparate(storage) && IsEntry(storage, k, i, j) && IsEntry(storage, k', i', j')
    ensures SlotOf(storage.cells[k], i, j) < storage.TotalSize()
    ensures SlotOf(storage.cells[k], i, j) == SlotOf(storage.cells[k'], i', j') ==> k == k' && i == i' && j == j'
  {
    hide CellStorage.BlockSize, CellStorage.TotalSize, Within, SlotOf;
    EntryIsWithin(storage, k, i, j);
    EntryIsWithin(storage, k', i', j');
    if SlotOf(storage.cells[k], i, j) == SlotOf(storage.cells[k'], i', j') {
      assert k == k';
      SameCellSameSlot(storage.cells[k], i, j, i', j');
    }
  }

  lemma SameCellSameSlot(cell: CellData, i: nat, j: nat, i': nat, j': nat)
    requires j < cell.destination.count && j' < cell.destination.count && SlotOf(cell, i, j) == SlotOf(cell, i', j')
    ensures i == i' && j == j'
  {
    SlotInjective(cell.destination.count, i, j, i', j');
  }

  lemma SlotsFromBlocks(storage: CellStorage)
    requires BlocksSeparate(storage)
    ensures SlotsSeparate(storage)
  {
    hide BlocksSeparate, CellStorage.TotalSize, SlotOf;
    forall k: nat, i: nat, j: nat | IsEntry(storage, k, i, j)
      ensures SlotOf(storage.cells[k], i, j) < storage.TotalSize()
    {
      SeparateBlocksSeparateSlots(storage, k, i, j, k, i, j);
    }
    forall k: nat, i: nat, j: nat, k': nat, i': nat, j': nat | IsEntry(storage, k, i, j) && IsEntry(storage, k', i', j')
      ensures SlotOf(storage.cells[k], i, j) == SlotOf(storage.cells[k'], i', j') ==> k == k' && i == i' && j == j'
    {
      SeparateBlocksSeparateSlots(storage, k, i, j, k', i', j');
    }
  }

  lemma BlocksFromSlots(storage: CellStorage)
    requires SlotsSeparate(storage)
    ensures BlocksSeparate(storage)
  {
    hide CellStorage.BlockSize, CellStorage.TotalSize, SlotOf, Within;
    forall k: nat, address: nat | Within(storage, k, address) ensures address < storage.TotalSize() {
      var i, j := WithinIsEntry(storage, k, address);
    }
    forall k: nat, m: nat, address: nat | Within(storage, k, address) && Within(storage, m, address) ensures k == m {
      var i, j := WithinIsEntry(storage, k, address);
      var i', j' := WithinIsEntry(storage, m, address);
    }
  }

  lemma ProductsFitIff(storage: CellStorage)
    ensures storage.ProductsFit()
       <==> forall k ::
              0 <= k < |storage.cells| ==>
                storage.cells[k].source.count * storage.cells[k].destination.count < 0x1_0000_0000
  {
    if storage.ProductsFit() {
      forall k | 0 <= k < |storage.cells|
        ensures storage.cells[k].source.count * storage.cells[k].destination.count < 0x1_0000_0000
      {
        assert storage.BlockSize(k) < UINT32_RANGE;
      }
    }
  }

  /** Every (cell, source, destination) has a slot of its own within the arrays if and only if no product wraps
      around. */
  lemma SlotsAreSeparateIff(storage: CellStorage)
    requires storage.Consecutive()
    ensures SlotsSeparate(storage) <==> storage.ProductsFit()
    ensures SlotsSeparate(storage)
       <==> forall k ::
              0 <= k < |storage.cells| ==>
                storage.cells[k].source.count * storage.cells[k].destination.count < 0x1_0000_0000
  {
    ProductsFitIff(storage);
    hide CellStorage.Consecutive, CellStorage.ProductsFit, BlocksSeparate, SlotsSeparate;
    BlocksAreSeparateIff(storage);
    if BlocksSeparate(storage) {
      SlotsFromBlocks(storage);
    }
    if SlotsSeparate(storage) {
      BlocksFromSlots(storage);
    }
  }

  // ---------- values ----------

  /** The three value arrays; a weight of `None` is `INVALID_EDGE_WEIGHT`. */
  datatype MetricValues = MetricValues(weights: seq<Option<int>>, durations: seq<int>, distances: seq<real>)
  {
    predicate Sized(n: nat) {
      |weights| == n && |durations| == n && |distances| == n
    }
  }

  class CellMetric {
    var weights: seq<Option<int>>
    var durations: seq<int>
    var distances: seq<real>

    ghost function Values(): MetricValues
      reads this
    {
      MetricValues(weights, durations, distances)
    }

    /** `CellStorage::MakeMetric`: one value per slot and one spare, all invalid. */
    constructor (storage: CellStorage)
      ensures storage.cells == [] ==> Values().Sized(0)
      ensures storage.cells != [] ==> Values().Sized(storage.TotalSize() + 1)
      ensures AllInvalid(Values())
    {
      var size := if storage.cells == [] then 0 else storage.TotalSize() + 1;
      weights := seq(size, _ => None);
      durations := seq(size, _ => MAXIMAL_EDGE_DURATION);
      distances := seq(size, _ => INVALID_EDGE_DISTANCE);
    }
  }

  ghost predicate InvalidAt(vals: MetricValues, k: nat)
    requires vals.Sized(|vals.weights|) && k < |vals.weights|
  {
    vals.weights[k].None? && vals.durations[k] == MAXIMAL_EDGE_DURATION && vals.distances[k] == INVALID_EDGE_DISTANCE
  }

  ghost predicate AllInvalid(vals: MetricValues) {
    vals.Sized(|vals.weights|) && forall k: nat :: k < |vals.weights| ==> InvalidAt(vals, k)
  }

  /** The cost stored in a slot; invalid slots also carry the invalid duration and distance. */
  ghost predicate Holds(vals: MetricValues, k: nat, c: Option<Cost>)
    requires vals.Sized(|vals.weights|) && k < |vals.weights|
  {
    match c
    case None => InvalidAt(vals, k)
    case Some(x) => vals.weights[k] == Some(x.weight) && vals.durations[k] == x.duration
                    && vals.distances[k] == x.distance
  }

  ghost function CostAt(vals: MetricValues, k: nat): Option<Cost>
    requires vals.Sized(|vals.weights|) && k < |vals.weights|
  {
    match vals.weights[k]
    case None => None
    case Some(w) => Some(Cost(w, vals.durations[k], vals.distances[k]))
  }
}
