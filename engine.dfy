// The workers' turn (threadDoTurn), the turn loop (threadSimulate) and the
// sequential part of main, with the threads of one turn run one after
// another in the order the barriers allow: every worker copies the world
// before any worker writes to it, and every write of a turn happens before
// the next turn's copies are taken.

module Engine {
  import opened Arith
  import opened Grid
  import opened Life
  import opened World
  import opened Partition

  /** Storage index k lies in rows startRow..endRow of a world `width` cells wide. */
  predicate InRows(k: int, width: int, startRow: int, endRow: int) {
    startRow * width <= k < (endRow + 1) * width
  }

  /** The row-range test on storage indices agrees with the row of the index. */
  lemma InRowsIsRow(k: int, width: int, height: int, startRow: int, endRow: int)
    requires ValidDims(width, height) && 0 <= k < width * height
    ensures InRows(k, width, startRow, endRow) <==> startRow <= k / width <= endRow
  {
    RowColumn(k, width, height);
    var y, x := k / width, k % width;
    if startRow <= y {
      Distrib(startRow, y, width);
      MulAtLeast(1, width);
      assert y * width - startRow * width >= 0 by {
        if y > startRow { MulAtLeast(y - startRow, width); }
      }
    } else {
      Distrib(y, startRow, width);
      MulAtLeast(startRow - y, width);
    }
    if y <= endRow {
      Distrib(y, endRow + 1, width);
      MulAtLeast(endRow + 1 - y, width);
    } else {
      Distrib(endRow + 1, y, width);
      assert y * width - (endRow + 1) * width >= 0 by {
        if y > endRow + 1 { MulAtLeast(y - endRow - 1, width); }
      }
    }
  }

  /** The copy loop of threadDoTurn: a fresh array holding the same cells. */
  method Snapshot(world: array<int>) returns (copy: array<int>)
    ensures fresh(copy)
    ensures copy[..] == world[..]
  {
    copy := new int[world.Length];
    for i := 0 to world.Length
      invariant copy[..i] == world[..i]
    {
      copy[i] := world[i];
    }
  }

  /**
   * The nested loops of threadDoTurn: computeCell on every cell of rows
   * startRow..endRow, left to right, reading `snap` and writing `world`.
   * Cells outside those rows keep their values; cells inside hold what
   * computeCell writes over their previous value.
   */
  method ApplyRows(snap: array<int>, world: array<int>, width: int, height: int, startRow: int, endRow: int)
    requires ValidDims(width, height) && snap != world
    requires snap.Length == width * height && world.Length == width * height
    requires 0 <= startRow <= endRow + 1 && endRow < height
    modifies world
    ensures forall k | 0 <= k < world.Length ::
      world[k] == if InRows(k, width, startRow, endRow)
                  then Written(snap[..], width, height, k, old(world[k]))
                  else old(world[k])
  {
    ghost var s := snap[..];
    var j := startRow;
    while j <= endRow
      invariant startRow <= j <= endRow + 1
      invariant forall k | 0 <= k < world.Length ::
        world[k] == if startRow * width <= k < j * width
                    then Written(s, width, height, k, old(world[k]))
                    else old(world[k])
    {
      var i := 0;
      while i < width
        invariant 0 <= i <= width
        invariant forall k | 0 <= k < world.Length ::
          world[k] == if startRow * width <= k < j * width + i
                      then Written(s, width, height, k, old(world[k]))
                      else old(world[k])
      {
        ComputeCell(snap, world, i, j, width, height);
        assert ComputeIndex(i, j, width, height) == j * width + i;
        MulMonotone(startRow, j, width);
        i := i + 1;
      }
      MulSucc(j, width);
      j := j + 1;
    }
  }

  /**
   * threadDoTurn of one worker run on its own: copy the whole world, then
   * recompute the worker's rows from the copy. Each cell of those rows gets
   * its next generation's value; every other cell is unchanged.
   */
  method DoTurn(world: array<int>, width: int, height: int, startRow: int, endRow: int)
    requires ValidDims(width, height) && world.Length == width * height
    requires 0 <= startRow <= endRow + 1 && endRow < height
    modifies world
    ensures forall k | 0 <= k < world.Length ::
      world[k] == if InRows(k, width, startRow, endRow)
                  then Step(old(world[..]), width, height)[k]
                  else old(world[k])
  {
    var copy := Snapshot(world);
    ApplyRows(copy, world, width, height, startRow, endRow);
  }

  /** Rows handed out to workers 0..w-1 of a tiling, as the first row not yet handed out. */
  function RowsDone(parts: seq<Partition>, w: int): (row: int)
    requires 0 <= w <= |parts|
  {
    if w == 0 then 0 else parts[w - 1].endRow + 1
  }

  /** The cells of rows before `done` hold the next generation of `s0`; the others still hold `s0`. */
  ghost predicate RowsStepped(cur: seq<int>, s0: seq<int>, width: int, height: int, done: int)
    requires ValidDims(width, height) && |s0| == width * height
  {
    |cur| == |s0| &&
    forall k | 0 <= k < |cur| :: cur[k] == if k < done * width then Step(s0, width, height)[k] else s0[k]
  }

  /** Once every row is done, the world is the next generation. */
  lemma AllRowsStepped(cur: seq<int>, s0: seq<int>, width: int, height: int)
    requires ValidDims(width, height) && |s0| == width * height
    requires RowsStepped(cur, s0, width, height, height)
    ensures cur == Step(s0, width, height)
  {
    assert height * width == width * height;
  }

  /**
   * After the worker owning rows startRow..endRow has written its rows, every
   * row before endRow + 1 holds the next generation and the rest are as
   * they were.
   */
  lemma NextRowsDone(s0: seq<int>, prev: seq<int>, next: seq<int>, width: int, height: int, startRow: int, endRow: int)
    requires ValidDims(width, height) && |s0| == width * height
    requires |next| == |s0| && startRow <= endRow + 1
    requires RowsStepped(prev, s0, width, height, startRow)
    requires forall k | 0 <= k < |next| ::
      next[k] == if InRows(k, width, startRow, endRow) then Written(s0, width, height, k, prev[k]) else prev[k]
    ensures RowsStepped(next, s0, width, height, endRow + 1)
  {
    MulMonotone(startRow, endRow + 1, width);
  }

  /**
   * Phase one of a turn: every worker takes its own copy of the world.
   * The barrier in threadDoTurn after the copy loop (gol.c:417) keeps any
   * worker from writing before all of these copies exist, so all of them are of the same generation.
   */
  method TakeSnapshots(world: array<int>, n: nat) returns (copies: seq<array<int>>)
    ensures |copies| == n
    ensures forall t | 0 <= t < n :: fresh(copies[t]) && copies[t][..] == world[..]
  {
    copies := [];
    while |copies| < n
      invariant |copies| <= n
      invariant forall t | 0 <= t < |copies| :: fresh(copies[t]) && copies[t][..] == world[..]
    {
      var copy := Snapshot(world);
      copies := copies + [copy];
    }
  }

  /**
   * Phase two of a turn: each worker in rank order recomputes its own rows
   * from its own copy. With copies of one generation and ranges that tile
   * the rows, the world ends up holding the next generation.
   */
  method RunWorkers(copies: seq<array<int>>, world: array<int>, width: int, height: int, parts: seq<Partition>)
    requires ValidDims(width, height) && world.Length == width * height
    requires Tiles(parts, height) && |copies| == |parts|
    requires forall t | 0 <= t < |copies| :: copies[t] != world && copies[t][..] == world[..]
    modifies world
    ensures world[..] == Step(old(world[..]), width, height)
  {
    ghost var s0 := world[..];
    var w := 0;
    while w < |parts|
      invariant 0 <= w <= |parts|
      invariant RowsStepped(world[..], s0, width, height, RowsDone(parts, w))
    {
      TilesInRange(parts, height, w);
      var startRow, endRow := parts[w].startRow, parts[w].endRow;
      assert RowsDone(parts, w) == startRow;
      ghost var prev := world[..];
      assert copies[w][..] == s0;
      ApplyRows(copies[w], world, width, height, startRow, endRow);
      NextRowsDone(s0, prev, world[..], width, height, startRow, endRow);
      w := w + 1;
      assert RowsDone(parts, w) == endRow + 1;
    }
    assert RowsDone(parts, |parts|) == height;
    AllRowsStepped(world[..], s0, width, height);
  }

  /**
   * One turn of all workers (threadDoTurn in every worker between two
   * barriers): whatever the tiling, and so whatever the number of workers,
   * the world becomes the next generation.
   */
  method Generation(world: array<int>, width: int, height: int, parts: seq<Partition>)
    requires ValidDims(width, height) && world.Length == width * height
    requires Tiles(parts, height)
    modifies world
    ensures world[..] == Step(old(world[..]), width, height)
  {
    var copies := TakeSnapshots(world, |parts|);
    RunWorkers(copies, world, width, height, parts);
  }

  /**
   * threadSimulate's do-while: a turn, then another while the turn counter
   * is at most numIters, so numIters + 1 turns in all.
   */
  method Simulate(world: array<int>, width: int, height: int, numIters: nat, parts: seq<Partition>)
    returns (turns: nat)
    requires ValidDims(width, height) && world.Length == width * height
    requires Tiles(parts, height)
    modifies world
    ensures turns == numIters + 1
    ensures world[..] == Evolve(old(world[..]), width, height, numIters + 1)
  {
    ghost var s0 := world[..];
    turns := 0;
    while true
      invariant turns <= numIters
      invariant world[..] == Evolve(s0, width, height, turns)
      decreases numIters - turns
    {
      Generation(world, width, height, parts);
      turns := turns + 1;
      if !(turns <= numIters) {
        break;
      }
    }
  }

  /** The number of values of threadSimulate's C `unsigned` turn counter. */
  const U32: int := 0x1_0000_0000

  /**
   * The do-while test of threadSimulate as written, after `turns` turns:
   * the counter holds turns modulo 2^32 and is compared with numIters.
   */
  predicate ContinuesAsWritten(turns: nat, numIters: nat) {
    turns % U32 <= numIters
  }

  /**
   * For every iteration count below the largest unsigned value, the wrapped
   * test stops the loop exactly where Simulate stops it, after numIters + 1
   * turns.
   */
  lemma ContinuesAsWrittenBelowMax(turns: nat, numIters: nat)
    requires numIters < U32 - 1 && 1 <= turns <= numIters + 1
    ensures ContinuesAsWritten(turns, numIters) <==> turns <= numIters
  {
  }

  /**
   * With numIters the largest unsigned value the test never fails: after
   * 2^32 turns the counter wraps to 0 and the loop goes on for ever.
   */
  lemma MaxIterationsNeverStop(turns: nat)
    ensures ContinuesAsWritten(turns, U32 - 1)
  {
  }

  /** Why main refuses a configuration. */
  datatype ConfigError = ThreadCountNotPositive | TooManyThreads

  datatype Result<T> = Success(value: T) | Failure(error: ConfigError)

  /**
   * main after the configuration has been read: a non-positive thread count
   * is refused, then the world is built, then more threads than rows is
   * refused; otherwise the rows are partitioned and the workers run
   * numIters + 1 turns.
   */
  method Run(width: nat, height: nat, numIters: nat, initSet: seq<int>, numWorkers: int)
    returns (result: Result<array<int>>)
    requires width >= 1
    requires forall i | 0 <= i < |initSet| :: 0 <= initSet[i] < width * height
    ensures result.Failure? <==> numWorkers <= 0 || numWorkers > height
    ensures result.Failure? ==> result.error == if numWorkers <= 0 then ThreadCountNotPositive else TooManyThreads
    ensures result.Success? ==>
      fresh(result.value) &&
      result.value[..] == Evolve(InitialWorld(width * height, initSet), width, height, numIters + 1)
  {
    if numWorkers <= 0 {
      return Failure(ThreadCountNotPositive);
    }
    var world := InitWorld(width, height, initSet);
    if numWorkers > height {
      return Failure(TooManyThreads);
    }
    var parts := PartitionRows(height, numWorkers);
    var turns := Simulate(world, width, height, numIters, parts);
    return Success(world);
  }
}
