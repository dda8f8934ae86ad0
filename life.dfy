// One cell's update (computeCell in gol.c) and the generation it belongs to:
// the next state of every cell, computed against one snapshot.

module Life {
  import opened Rule
  import opened Arith
  import opened Grid

  /**
   * The value a destination cell holding `prior` has after computeCell has
   * run on storage index k against snapshot `s`.
   */
  function Written(s: seq<int>, width: int, height: int, k: int, prior: int): (v: int)
    requires ValidDims(width, height) && |s| == width * height && 0 <= k < |s|
  {
    RowColumn(k, width, height);
    Apply(Decide(s[k], LiveNeighbors(s, k % width, k / width, width, height)), prior)
  }

  /**
   * The value cell k has after computeCell, when the destination still held
   * the snapshot's own value.
   */
  function NextCell(s: seq<int>, width: int, height: int, k: int): (v: int)
    requires ValidDims(width, height) && |s| == width * height && 0 <= k < |s|
  {
    Written(s, width, height, k, s[k])
  }

  /** One generation of the whole world, every cell read from the snapshot `s`. */
  function Step(s: seq<int>, width: int, height: int): (r: seq<int>)
    requires ValidDims(width, height) && |s| == width * height
    ensures |r| == |s|
  {
    seq(|s|, k requires 0 <= k < |s| => NextCell(s, width, height, k))
  }

  /** On a LIVE/DEAD world, a generation is Conway's rule applied to every cell. */
  lemma StepIsConway(s: seq<int>, width: int, height: int, x: int, y: int)
    requires ValidDims(width, height) && |s| == width * height && Binary(s)
    requires 0 <= x < width && 0 <= y < height
    ensures 0 <= ComputeIndex(x, y, width, height) < |Step(s, width, height)|
    ensures Step(s, width, height)[ComputeIndex(x, y, width, height)]
         == CellOf(ConwayNext(s[ComputeIndex(x, y, width, height)] == LIVE, LiveNeighbors(s, x, y, width, height)))
  {
    var k := ComputeIndex(x, y, width, height);
    IndexRowColumn(x, y, width, height);
    RuleIsConway(s[k], LiveNeighbors(s, x, y, width, height));
  }

  /**
   * The next state of cell (x, y): computeCell's decision for the cell, its
   * eight neighbours' states added up, applied over the cell's own value.
   */
  lemma StepUnrolled(s: seq<int>, width: int, height: int, x: int, y: int)
    requires ValidDims(width, height) && |s| == width * height
    requires 0 <= x < width && 0 <= y < height
    ensures 0 <= ComputeIndex(x, y, width, height) < |s|
    ensures Step(s, width, height)[ComputeIndex(x, y, width, height)] ==
      Apply(Decide(s[ComputeIndex(x, y, width, height)],
        LiveAt(s, ComputeIndex(x - 1, y - 1, width, height)) + LiveAt(s, ComputeIndex(x - 1, y, width, height)) +
        LiveAt(s, ComputeIndex(x - 1, y + 1, width, height)) + LiveAt(s, ComputeIndex(x, y - 1, width, height)) +
        LiveAt(s, ComputeIndex(x, y + 1, width, height)) + LiveAt(s, ComputeIndex(x + 1, y - 1, width, height)) +
        LiveAt(s, ComputeIndex(x + 1, y, width, height)) + LiveAt(s, ComputeIndex(x + 1, y + 1, width, height))), s[ComputeIndex(x, y, width, height)])
  {
    IndexRowColumn(x, y, width, height);
    LiveNeighborsUnrolled(s, x, y, width, height);
  }

  /** A generation keeps a LIVE/DEAD world LIVE/DEAD. */
  lemma StepBinary(s: seq<int>, width: int, height: int)
    requires ValidDims(width, height) && |s| == width * height && Binary(s)
    ensures Binary(Step(s, width, height))
  {
    forall k | 0 <= k < |s|
      ensures IsCell(Step(s, width, height)[k])
    {
      RowColumn(k, width, height);
      RuleIsConway(s[k], LiveNeighbors(s, k % width, k / width, width, height));
    }
  }

  /** The world after g generations. */
  function Evolve(s: seq<int>, width: int, height: int, g: nat): (r: seq<int>)
    requires ValidDims(width, height) && |s| == width * height
    ensures |r| == |s|
    decreases g
  {
    if g == 0 then s else Step(Evolve(s, width, height, g - 1), width, height)
  }

  /** Every generation of a LIVE/DEAD world is LIVE/DEAD. */
  lemma {:induction false} EvolveBinary(s: seq<int>, width: int, height: int, g: nat)
    requires ValidDims(width, height) && |s| == width * height && Binary(s)
    ensures Binary(Evolve(s, width, height, g))
    decreases g
  {
    if g > 0 {
      EvolveBinary(s, width, height, g - 1);
      StepBinary(Evolve(s, width, height, g - 1), width, height);
    }
  }

  /** A world that one generation leaves unchanged stays unchanged for ever. */
  lemma {:induction false} StillLife(s: seq<int>, width: int, height: int, g: nat)
    requires ValidDims(width, height) && |s| == width * height
    requires Step(s, width, height) == s
    ensures Evolve(s, width, height, g) == s
    decreases g
  {
    if g > 0 {
      StillLife(s, width, height, g - 1);
    }
  }

  /** A world that two generations bring back is back after every even number of generations ... */
  lemma {:induction false} OscillatorEven(s: seq<int>, width: int, height: int, g: nat)
    requires ValidDims(width, height) && |s| == width * height
    requires Step(Step(s, width, height), width, height) == s
    ensures Evolve(s, width, height, 2 * g) == s
    decreases g
  {
    if g > 0 {
      OscillatorEven(s, width, height, g - 1);
      var e := Evolve(s, width, height, 2 * g - 2);
      assert Evolve(s, width, height, 2 * g) == Step(Step(e, width, height), width, height);
    }
  }

  /** ... and in its other phase after every odd number. */
  lemma OscillatorOdd(s: seq<int>, width: int, height: int, g: nat)
    requires ValidDims(width, height) && |s| == width * height
    requires Step(Step(s, width, height), width, height) == s
    ensures Evolve(s, width, height, 2 * g + 1) == Step(s, width, height)
  {
    OscillatorEven(s, width, height, g);
  }

  /**
   * computeCell: counts the live neighbours of (x, y) in `curr` and then
   * writes DEAD, writes LIVE or writes nothing into `next` at the same index.
   * Only that one cell of `next` can change; when it still held the
   * current generation's value, it now holds the next generation's.
   */
  method ComputeCell(curr: array<int>, next: array<int>, x: int, y: int, width: int, height: int)
    requires ValidDims(width, height)
    requires curr.Length == width * height && next.Length == width * height
    requires 0 <= x < width && 0 <= y < height
    modifies next
    ensures 0 <= ComputeIndex(x, y, width, height) < next.Length
    ensures next[..] == old(next[..])[ComputeIndex(x, y, width, height) :=
      Written(old(curr[..]), width, height, ComputeIndex(x, y, width, height), old(next[ComputeIndex(x, y, width, height)]))]
    ensures old(next[ComputeIndex(x, y, width, height)]) == old(curr[ComputeIndex(x, y, width, height)]) ==>
      next[ComputeIndex(x, y, width, height)] == NextCell(old(curr[..]), width, height, ComputeIndex(x, y, width, height))
  {
    var index := ComputeIndex(x, y, width, height);
    IndexRowColumn(x, y, width, height);
    var numLiveNeighbors := CountLiveNeighbors(curr, x, y, width, height);
    if curr[index] == LIVE && (numLiveNeighbors < 2 || numLiveNeighbors > 3) {
      next[index] := DEAD;
    } else if numLiveNeighbors == 3 {
      next[index] := LIVE;
    }
  }
}
