// Row partitioning (the worker set-up loop in main of gol.c): contiguous
// row ranges in rank order, the first height % numWorkers workers taking
// one row more than the others.

module Partition {
  import opened Arith

  /** A worker's rank and its inclusive range of rows (the row fields of ThreadArgs). */
  datatype Partition = Partition(rank: nat, startRow: int, endRow: int)

  function RowCount(p: Partition): (n: int) {
    p.endRow - p.startRow + 1
  }

  predicate Owns(p: Partition, row: int) {
    p.startRow <= row <= p.endRow
  }

  /**
   * The ranges tile rows 0..height-1: the first starts at row 0, each
   * starts one row after the previous one ends, none is empty and the last
   * ends at row height-1.
   */
  predicate Tiles(parts: seq<Partition>, height: int) {
    |parts| >= 1 &&
    parts[0].startRow == 0 &&
    parts[|parts| - 1].endRow == height - 1 &&
    (forall i | 0 <= i < |parts| :: parts[i].startRow <= parts[i].endRow) &&
    (forall i | 0 < i < |parts| :: parts[i].startRow == parts[i - 1].endRow + 1)
  }

  /** In a tiling, a lower-ranked range ends before a higher-ranked one starts. */
  lemma {:induction false} TilesOrdered(parts: seq<Partition>, height: int, i: int, j: int)
    requires Tiles(parts, height) && 0 <= i < j < |parts|
    ensures parts[i].endRow < parts[j].startRow
    decreases j - i
  {
    if i + 1 < j {
      TilesOrdered(parts, height, i + 1, j);
    }
  }

  /** Every range of a tiling lies within rows 0..height-1. */
  lemma TilesInRange(parts: seq<Partition>, height: int, i: int)
    requires Tiles(parts, height) && 0 <= i < |parts|
    ensures 0 <= parts[i].startRow && parts[i].endRow <= height - 1
  {
    if i > 0 {
      TilesOrdered(parts, height, 0, i);
    }
    if i < |parts| - 1 {
      TilesOrdered(parts, height, i, |parts| - 1);
    }
  }

  lemma {:induction false} OwnerAtOrBelow(parts: seq<Partition>, height: int, row: int, i: int)
    requires Tiles(parts, height) && 0 <= i < |parts|
    requires 0 <= row <= parts[i].endRow
    ensures exists j | 0 <= j <= i :: Owns(parts[j], row)
    decreases i
  {
    if parts[i].startRow <= row {
      assert Owns(parts[i], row);
    } else {
      OwnerAtOrBelow(parts, height, row, i - 1);
    }
  }

  /** A tiling covers exactly the rows 0..height-1 ... */
  lemma TilesCover(parts: seq<Partition>, height: int, row: int)
    requires Tiles(parts, height)
    ensures (0 <= row < height) <==> exists i | 0 <= i < |parts| :: Owns(parts[i], row)
  {
    if 0 <= row < height {
      OwnerAtOrBelow(parts, height, row, |parts| - 1);
    }
    forall i | 0 <= i < |parts| && Owns(parts[i], row)
      ensures 0 <= row < height
    {
      TilesInRange(parts, height, i);
    }
  }

  /** ... and no row belongs to two workers. */
  lemma TilesDisjoint(parts: seq<Partition>, height: int, i: int, j: int, row: int)
    requires Tiles(parts, height) && 0 <= i < |parts| && 0 <= j < |parts|
    requires Owns(parts[i], row) && Owns(parts[j], row)
    ensures i == j
  {
    if i < j {
      TilesOrdered(parts, height, i, j);
    } else if j < i {
      TilesOrdered(parts, height, j, i);
    }
  }

  /**
   * First row of worker t when every worker gets `perWorker` rows and the
   * first `extra` workers one row more.
   */
  function FirstRow(perWorker: int, extra: int, t: nat): (row: int) {
    if t == 0 then 0 else FirstRow(perWorker, extra, t - 1) + perWorker + (if t - 1 < extra then 1 else 0)
  }

  /** Closed form: t full shares plus one extra row for each of the first `extra` workers before t. */
  lemma {:induction false} FirstRowClosed(perWorker: int, extra: int, t: nat)
    requires extra >= 0
    ensures FirstRow(perWorker, extra, t) == t * perWorker + (if t < extra then t else extra)
  {
    if t > 0 {
      FirstRowClosed(perWorker, extra, t - 1);
      MulSucc(t - 1, perWorker);
    }
  }

  /**
   * The set-up loop of main: rows_per_thread = height / numWorkers, and
   * while remainder = height % numWorkers is positive a worker takes one
   * extra row and the remainder goes down by one.
   */
  method PartitionRows(height: int, numWorkers: int) returns (parts: seq<Partition>)
    requires 1 <= numWorkers <= height
    ensures |parts| == numWorkers
    ensures Tiles(parts, height)
    ensures forall i | 0 <= i < numWorkers :: parts[i].rank == i
    ensures forall i | 0 <= i < numWorkers ::
      parts[i].startRow == i * (height / numWorkers) + (if i < height % numWorkers then i else height % numWorkers)
    ensures forall i | 0 <= i < numWorkers ::
      RowCount(parts[i]) == height / numWorkers + (if i < height % numWorkers then 1 else 0)
  {
    var remainder := height % numWorkers;
    var currentRow := 0;
    var rowsPerThread := height / numWorkers;
    DivideRows(height, numWorkers);
    ghost var extra := remainder;
    parts := [];
    var i := 0;
    while i < numWorkers
      invariant 0 <= i <= numWorkers && |parts| == i
      invariant remainder == if i < extra then extra - i else 0
      invariant currentRow == FirstRow(rowsPerThread, extra, i)
      invariant forall t {:trigger parts[t]} | 0 <= t < i ::
        parts[t].rank == t &&
        parts[t].startRow == FirstRow(rowsPerThread, extra, t) &&
        RowCount(parts[t]) == rowsPerThread + (if t < extra then 1 else 0)
    {
      if remainder > 0 {
        parts := parts + [Partition(i, currentRow, currentRow + rowsPerThread)];
        remainder := remainder - 1;
      } else {
        parts := parts + [Partition(i, currentRow, currentRow + rowsPerThread - 1)];
      }
      currentRow := parts[i].endRow + 1;
      i := i + 1;
    }
    FirstRowClosed(rowsPerThread, extra, numWorkers);
    FirstRowsTile(parts, height, rowsPerThread, extra);
    forall t | 0 <= t < numWorkers
      ensures parts[t].startRow == t * rowsPerThread + (if t < extra then t else extra)
    {
      FirstRowClosed(rowsPerThread, extra, t);
    }
  }

  /** Ranges laid out by FirstRow, with at least one row each, tile the rows they reach. */
  lemma FirstRowsTile(parts: seq<Partition>, height: int, perWorker: int, extra: int)
    requires |parts| >= 1 && perWorker >= 1 && extra >= 0
    requires FirstRow(perWorker, extra, |parts|) == height
    requires forall t {:trigger parts[t]} | 0 <= t < |parts| ::
      parts[t].startRow == FirstRow(perWorker, extra, t) &&
      RowCount(parts[t]) == perWorker + (if t < extra then 1 else 0)
    ensures Tiles(parts, height)
  {
    assert parts[|parts| - 1].endRow == FirstRow(perWorker, extra, |parts|) - 1;
  }

  /** Range sizes differ by at most one row. */
  lemma Balanced(parts: seq<Partition>, height: int, numWorkers: int, i: int, j: int)
    requires 1 <= numWorkers <= height && |parts| == numWorkers
    requires forall t | 0 <= t < numWorkers ::
      RowCount(parts[t]) == height / numWorkers + (if t < height % numWorkers then 1 else 0)
    requires 0 <= i < numWorkers && 0 <= j < numWorkers
    ensures -1 <= RowCount(parts[i]) - RowCount(parts[j]) <= 1
    ensures i < j ==> RowCount(parts[j]) <= RowCount(parts[i])
  {
  }
}
