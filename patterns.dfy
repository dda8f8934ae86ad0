// Two classic patterns, worked out through the model's own generation on
// every world large enough that the torus does not fold them onto
// themselves: the blinker, which alternates between a horizontal and a
// vertical bar of three cells, and the block, a 2 x 2 square that never
// changes.

module Patterns {
  import opened Rule
  import opened Arith
  import opened Grid
  import opened Life

  /** A coordinate within one period outside 0..n-1, brought back into it as computeIndex does. */
  function Wrap(v: int, n: int): (r: int)
    requires n >= 1 && -n <= v < 2 * n
    ensures 0 <= r < n
  {
    if v < 0 then v + n else if v >= n then v - n else v
  }

  /** The world whose LIVE cells are exactly those in columns x0..x1 of rows y0..y1. */
  function Rect(width: int, height: int, x0: int, x1: int, y0: int, y1: int): (s: seq<int>)
    requires ValidDims(width, height)
    ensures |s| == width * height
  {
    MulAtLeast(height, width);
    seq(width * height, k => if x0 <= k % width <= x1 && y0 <= k / width <= y1 then LIVE else DEAD)
  }

  /** The cell computeIndex picks for (x, y) is LIVE exactly when (x, y), wrapped, lies in the rectangle. */
  lemma RectAt(width: int, height: int, x0: int, x1: int, y0: int, y1: int, x: int, y: int)
    requires ValidDims(width, height)
    requires -width <= x < 2 * width && -height <= y < 2 * height
    ensures 0 <= ComputeIndex(x, y, width, height) < width * height
    ensures Rect(width, height, x0, x1, y0, y1)[ComputeIndex(x, y, width, height)] ==
      if InRect(x, y, width, height, x0, x1, y0, y1) == 1 then LIVE else DEAD
    ensures LiveAt(Rect(width, height, x0, x1, y0, y1), ComputeIndex(x, y, width, height)) ==
      InRect(x, y, width, height, x0, x1, y0, y1)
  {
    IndexRowColumn(Wrap(x, width), Wrap(y, height), width, height);
  }

  /** The cell (x, y) of a rectangle world and its eight neighbours, each LIVE exactly when it lies in the rectangle. */
  lemma RectAround(width: int, height: int, x0: int, x1: int, y0: int, y1: int, x: int, y: int)
    requires ValidDims(width, height)
    requires 0 <= x < width && 0 <= y < height
    ensures 0 <= ComputeIndex(x, y, width, height) < width * height
    ensures Rect(width, height, x0, x1, y0, y1)[ComputeIndex(x, y, width, height)] ==
      if x0 <= x <= x1 && y0 <= y <= y1 then LIVE else DEAD
    ensures LiveAt(Rect(width, height, x0, x1, y0, y1), ComputeIndex(x - 1, y - 1, width, height)) ==
      InRect(x - 1, y - 1, width, height, x0, x1, y0, y1)
    ensures LiveAt(Rect(width, height, x0, x1, y0, y1), ComputeIndex(x - 1, y, width, height)) ==
      InRect(x - 1, y, width, height, x0, x1, y0, y1)
    ensures LiveAt(Rect(width, height, x0, x1, y0, y1), ComputeIndex(x - 1, y + 1, width, height)) ==
      InRect(x - 1, y + 1, width, height, x0, x1, y0, y1)
    ensures LiveAt(Rect(width, height, x0, x1, y0, y1), ComputeIndex(x, y - 1, width, height)) ==
      InRect(x, y - 1, width, height, x0, x1, y0, y1)
    ensures LiveAt(Rect(width, height, x0, x1, y0, y1), ComputeIndex(x, y + 1, width, height)) ==
      InRect(x, y + 1, width, height, x0, x1, y0, y1)
    ensures LiveAt(Rect(width, height, x0, x1, y0, y1), ComputeIndex(x + 1, y - 1, width, height)) ==
      InRect(x + 1, y - 1, width, height, x0, x1, y0, y1)
    ensures LiveAt(Rect(width, height, x0, x1, y0, y1), ComputeIndex(x + 1, y, width, height)) ==
      InRect(x + 1, y, width, height, x0, x1, y0, y1)
    ensures LiveAt(Rect(width, height, x0, x1, y0, y1), ComputeIndex(x + 1, y + 1, width, height)) ==
      InRect(x + 1, y + 1, width, height, x0, x1, y0, y1)
  {
    RectAt(width, height, x0, x1, y0, y1, x, y);
    RectAt(width, height, x0, x1, y0, y1, x - 1, y - 1);
    RectAt(width, height, x0, x1, y0, y1, x - 1, y);
    RectAt(width, height, x0, x1, y0, y1, x - 1, y + 1);
    RectAt(width, height, x0, x1, y0, y1, x, y - 1);
    RectAt(width, height, x0, x1, y0, y1, x, y + 1);
    RectAt(width, height, x0, x1, y0, y1, x + 1, y - 1);
    RectAt(width, height, x0, x1, y0, y1, x + 1, y);
    RectAt(width, height, x0, x1, y0, y1, x + 1, y + 1);
  }

  /**
   * The next state of cell (x, y) of a rectangle world, from the nine cells
   * around it, each LIVE exactly when its wrapped coordinates lie in the
   * rectangle.
   */
  lemma RectStep(width: int, height: int, x0: int, x1: int, y0: int, y1: int, x: int, y: int)
    requires ValidDims(width, height)
    requires 0 <= x < width && 0 <= y < height
    ensures 0 <= ComputeIndex(x, y, width, height) < width * height
    ensures Step(Rect(width, height, x0, x1, y0, y1), width, height)[ComputeIndex(x, y, width, height)] ==
      Apply(Decide(if x0 <= x <= x1 && y0 <= y <= y1 then LIVE else DEAD,
        InRect(x - 1, y - 1, width, height, x0, x1, y0, y1) + InRect(x - 1, y, width, height, x0, x1, y0, y1) +
        InRect(x - 1, y + 1, width, height, x0, x1, y0, y1) + InRect(x, y - 1, width, height, x0, x1, y0, y1) +
        InRect(x, y + 1, width, height, x0, x1, y0, y1) + InRect(x + 1, y - 1, width, height, x0, x1, y0, y1) +
        InRect(x + 1, y, width, height, x0, x1, y0, y1) + InRect(x + 1, y + 1, width, height, x0, x1, y0, y1)),
        if x0 <= x <= x1 && y0 <= y <= y1 then LIVE else DEAD)
  {
    StepUnrolled(Rect(width, height, x0, x1, y0, y1), width, height, x, y);
    RectAround(width, height, x0, x1, y0, y1, x, y);
  }

  /** 1 when the wrapped (x, y) lies in columns x0..x1 of rows y0..y1, 0 otherwise. */
  function InRect(x: int, y: int, width: int, height: int, x0: int, x1: int, y0: int, y1: int): (n: int)
    requires ValidDims(width, height)
    requires -width <= x < 2 * width && -height <= y < 2 * height
    ensures n == 0 || n == 1
  {
    if x0 <= Wrap(x, width) <= x1 && y0 <= Wrap(y, height) <= y1 then 1 else 0
  }

  /** Two worlds of the same size that agree at every in-range (x, y) are equal. */
  lemma SameAtEveryCell(a: seq<int>, b: seq<int>, width: int, height: int)
    requires ValidDims(width, height) && |a| == width * height && |b| == width * height
    requires forall x, y | 0 <= x < width && 0 <= y < height ::
      a[ComputeIndex(x, y, width, height)] == b[ComputeIndex(x, y, width, height)]
    ensures a == b
  {
    forall k | 0 <= k < |a|
      ensures a[k] == b[k]
    {
      RowColumn(k, width, height);
      assert ComputeIndex(k % width, k / width, width, height) == k;
    }
  }

  /** A horizontal bar of three LIVE cells, at (1, 2), (2, 2) and (3, 2). */
  function BlinkerH(width: int, height: int): (s: seq<int>)
    requires ValidDims(width, height)
    ensures |s| == width * height
  {
    Rect(width, height, 1, 3, 2, 2)
  }

  /** The same bar turned vertical, at (2, 1), (2, 2) and (2, 3). */
  function BlinkerV(width: int, height: int): (s: seq<int>)
    requires ValidDims(width, height)
    ensures |s| == width * height
  {
    Rect(width, height, 2, 2, 1, 3)
  }

  /** A 2 x 2 block of LIVE cells at (1, 1), (2, 1), (1, 2) and (2, 2). */
  function Block(width: int, height: int): (s: seq<int>)
    requires ValidDims(width, height)
    ensures |s| == width * height
  {
    Rect(width, height, 1, 2, 1, 2)
  }

  /** Cell (x, y) of the next generation of the horizontal bar is cell (x, y) of the vertical bar. */
  lemma BlinkerHCell(width: int, height: int, x: int, y: int)
    requires width >= 5 && height >= 5
    requires 0 <= x < width && 0 <= y < height
    ensures 0 <= ComputeIndex(x, y, width, height) < width * height
    ensures Step(BlinkerH(width, height), width, height)[ComputeIndex(x, y, width, height)] ==
      BlinkerV(width, height)[ComputeIndex(x, y, width, height)]
  {
    RectStep(width, height, 1, 3, 2, 2, x, y);
    RectAt(width, height, 2, 2, 1, 3, x, y);
  }

  /** Cell (x, y) of the next generation of the vertical bar is cell (x, y) of the horizontal bar. */
  lemma BlinkerVCell(width: int, height: int, x: int, y: int)
    requires width >= 5 && height >= 5
    requires 0 <= x < width && 0 <= y < height
    ensures 0 <= ComputeIndex(x, y, width, height) < width * height
    ensures Step(BlinkerV(width, height), width, height)[ComputeIndex(x, y, width, height)] ==
      BlinkerH(width, height)[ComputeIndex(x, y, width, height)]
  {
    RectStep(width, height, 2, 2, 1, 3, x, y);
    RectAt(width, height, 1, 3, 2, 2, x, y);
  }

  /** Cell (x, y) of the next generation of the block is cell (x, y) of the block. */
  lemma BlockCell(width: int, height: int, x: int, y: int)
    requires width >= 4 && height >= 4
    requires 0 <= x < width && 0 <= y < height
    ensures 0 <= ComputeIndex(x, y, width, height) < width * height
    ensures Step(Block(width, height), width, height)[ComputeIndex(x, y, width, height)] ==
      Block(width, height)[ComputeIndex(x, y, width, height)]
  {
    RectStep(width, height, 1, 2, 1, 2, x, y);
    RectAt(width, height, 1, 2, 1, 2, x, y);
  }

  /** On every world at least 5 x 5, one generation turns the horizontal bar into the vertical one ... */
  lemma BlinkerTurnsVertical(width: int, height: int)
    requires width >= 5 && height >= 5
    ensures Step(BlinkerH(width, height), width, height) == BlinkerV(width, height)
  {
    forall x, y | 0 <= x < width && 0 <= y < height
      ensures Step(BlinkerH(width, height), width, height)[ComputeIndex(x, y, width, height)] ==
        BlinkerV(width, height)[ComputeIndex(x, y, width, height)]
    {
      BlinkerHCell(width, height, x, y);
    }
    SameAtEveryCell(Step(BlinkerH(width, height), width, height), BlinkerV(width, height), width, height);
  }

  /** ... and the vertical bar back into the horizontal one. */
  lemma BlinkerTurnsHorizontal(width: int, height: int)
    requires width >= 5 && height >= 5
    ensures Step(BlinkerV(width, height), width, height) == BlinkerH(width, height)
  {
    forall x, y | 0 <= x < width && 0 <= y < height
      ensures Step(BlinkerV(width, height), width, height)[ComputeIndex(x, y, width, height)] ==
        BlinkerH(width, height)[ComputeIndex(x, y, width, height)]
    {
      BlinkerVCell(width, height, x, y);
    }
    SameAtEveryCell(Step(BlinkerV(width, height), width, height), BlinkerH(width, height), width, height);
  }

  /** On every world at least 4 x 4, one generation leaves the block as it is. */
  lemma BlockUnchanged(width: int, height: int)
    requires width >= 4 && height >= 4
    ensures Step(Block(width, height), width, height) == Block(width, height)
  {
    forall x, y | 0 <= x < width && 0 <= y < height
      ensures Step(Block(width, height), width, height)[ComputeIndex(x, y, width, height)] ==
        Block(width, height)[ComputeIndex(x, y, width, height)]
    {
      BlockCell(width, height, x, y);
    }
    SameAtEveryCell(Step(Block(width, height), width, height), Block(width, height), width, height);
  }

  /** The blinker has period two: the horizontal bar is back after every even number of generations, the vertical one after every odd number. */
  lemma BlinkerOscillates(width: int, height: int, g: nat)
    requires width >= 5 && height >= 5
    ensures Evolve(BlinkerH(width, height), width, height, 2 * g) == BlinkerH(width, height)
    ensures Evolve(BlinkerH(width, height), width, height, 2 * g + 1) == BlinkerV(width, height)
  {
    BlinkerTurnsVertical(width, height);
    BlinkerTurnsHorizontal(width, height);
    OscillatorEven(BlinkerH(width, height), width, height, g);
    OscillatorOdd(BlinkerH(width, height), width, height, g);
  }

  /** The block is a still life: it is unchanged after any number of generations. */
  lemma BlockIsStill(width: int, height: int, g: nat)
    requires width >= 4 && height >= 4
    ensures Evolve(Block(width, height), width, height, g) == Block(width, height)
  {
    BlockUnchanged(width, height);
    StillLife(Block(width, height), width, height, g);
  }
}
