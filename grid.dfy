// Toroidal coordinate resolution and neighbour counting (computeIndex and
// getNumLiveNeighbors in gol.c).

module Grid {
  import opened Rule
  import opened Arith

  /** A world of `width` columns and `height` rows, as main builds it. */
  predicate ValidDims(width: int, height: int) {
    width >= 1 && height >= 1
  }

  /**
   * computeIndex: wraps x and y by at most one period and linearises the
   * result row by row. Every call in the core passes coordinates within one
   * period of the world.
   */
  function ComputeIndex(x: int, y: int, width: int, height: int): (r: int)
    requires ValidDims(width, height)
    requires -width <= x < 2 * width && -height <= y < 2 * height
    ensures 0 <= r < width * height
    ensures 0 <= x < width && 0 <= y < height ==> r == y * width + x
  {
    var x' := if x < 0 then x + width else if x >= width then x - width else x;
    var y' := if y < 0 then y + height else if y >= height then y - height else y;
    IndexInRange(x', y', width, height);
    y' * width + x'
  }

  /** computeIndex resolves (x, y) to the cell (x mod W, y mod H) of the torus. */
  lemma ComputeIndexIsModular(x: int, y: int, width: int, height: int)
    requires ValidDims(width, height)
    requires -width <= x < 2 * width && -height <= y < 2 * height
    ensures ComputeIndex(x, y, width, height) == (y % height) * width + x % width
  {
    ModOnePeriod(x, width);
    ModOnePeriod(y, height);
  }

  /**
   * The eight Moore offsets (dx, dy), in the order the nested loops of
   * getNumLiveNeighbors visit them: dx outer, dy inner, (0, 0) skipped.
   */
  const Offsets: seq<(int, int)> :=
    [(-1, -1), (-1, 0), (-1, 1), (0, -1), (0, 1), (1, -1), (1, 0), (1, 1)]

  /** Position of offset (dx, dy) in Offsets. */
  function OffsetPos(dx: int, dy: int): (p: int) {
    3 * (dx + 1) + (dy + 1) - (if dx > 0 || (dx == 0 && dy > 0) then 1 else 0)
  }

  lemma OffsetAt(dx: int, dy: int)
    requires -1 <= dx <= 1 && -1 <= dy <= 1 && !(dx == 0 && dy == 0)
    ensures 0 <= OffsetPos(dx, dy) < 8 && Offsets[OffsetPos(dx, dy)] == (dx, dy)
  {
  }

  /** The eight offsets are distinct and each lies in -1..1 on both axes. */
  lemma OffsetsDistinct(k: int, l: int)
    requires 0 <= k < l < 8
    ensures Offsets[k] != Offsets[l]
    ensures -1 <= Offsets[k].0 <= 1 && -1 <= Offsets[k].1 <= 1
    ensures -1 <= Offsets[l].0 <= 1 && -1 <= Offsets[l].1 <= 1
  {
  }

  /** The storage indices of the eight neighbours of (x, y), wrapped toroidally. */
  function NeighbourIndices(x: int, y: int, width: int, height: int): (r: seq<int>)
    requires ValidDims(width, height) && 0 <= x < width && 0 <= y < height
    ensures |r| == 8
    ensures forall k | 0 <= k < 8 :: 0 <= r[k] < width * height
  {
    seq(8, k requires 0 <= k < 8 => ComputeIndex(x + Offsets[k].0, y + Offsets[k].1, width, height))
  }

  /** 1 when cell k of `s` is LIVE, 0 otherwise. */
  function LiveAt(s: seq<int>, k: int): (n: nat)
    requires 0 <= k < |s|
    ensures n <= 1 && (n == 1 <==> s[k] == LIVE)
  {
    if s[k] == LIVE then 1 else 0
  }

  /** Number of LIVE cells of `s` at the storage indices `at`, counted with multiplicity. */
  function CountLiveAt(s: seq<int>, at: seq<int>): (n: nat)
    requires forall k | 0 <= k < |at| :: 0 <= at[k] < |s|
    ensures n <= |at|
  {
    if at == [] then 0
    else CountLiveAt(s, at[..|at| - 1]) + LiveAt(s, at[|at| - 1])
  }

  /** The live-neighbour count of (x, y) in snapshot `s`: a value in [0, 8]. */
  function LiveNeighbors(s: seq<int>, x: int, y: int, width: int, height: int): (n: nat)
    requires ValidDims(width, height) && |s| == width * height
    requires 0 <= x < width && 0 <= y < height
    ensures n <= 8
  {
    CountLiveAt(s, NeighbourIndices(x, y, width, height))
  }

  /** Counting depends only on the cells at the counted indices. */
  lemma {:induction false} CountLiveAtFrame(s: seq<int>, t: seq<int>, at: seq<int>)
    requires |s| == |t|
    requires forall k | 0 <= k < |at| :: 0 <= at[k] < |s| && s[at[k]] == t[at[k]]
    ensures CountLiveAt(s, at) == CountLiveAt(t, at)
  {
    if at != [] {
      CountLiveAtFrame(s, t, at[..|at| - 1]);
    }
  }

  /** Extending the counted prefix by one index adds that cell's state. */
  lemma CountLiveAtStep(s: seq<int>, at: seq<int>, m: int)
    requires 0 <= m < |at| && forall k | 0 <= k < |at| :: 0 <= at[k] < |s|
    ensures CountLiveAt(s, at[..m + 1]) == CountLiveAt(s, at[..m]) + LiveAt(s, at[m])
  {
    assert at[..m + 1][..m] == at[..m];
  }

  /**
   * The live-neighbour count written out as the sum of the eight
   * neighbouring cells' states, in the order the loops visit them.
   */
  lemma LiveNeighborsUnrolled(s: seq<int>, x: int, y: int, width: int, height: int)
    requires ValidDims(width, height) && |s| == width * height
    requires 0 <= x < width && 0 <= y < height
    ensures LiveNeighbors(s, x, y, width, height) ==
      LiveAt(s, ComputeIndex(x - 1, y - 1, width, height)) + LiveAt(s, ComputeIndex(x - 1, y, width, height)) +
      LiveAt(s, ComputeIndex(x - 1, y + 1, width, height)) + LiveAt(s, ComputeIndex(x, y - 1, width, height)) +
      LiveAt(s, ComputeIndex(x, y + 1, width, height)) + LiveAt(s, ComputeIndex(x + 1, y - 1, width, height)) +
      LiveAt(s, ComputeIndex(x + 1, y, width, height)) + LiveAt(s, ComputeIndex(x + 1, y + 1, width, height))
  {
    var nb := NeighbourIndices(x, y, width, height);
    assert nb[..0] == [];
    CountLiveAtStep(s, nb, 0);
    CountLiveAtStep(s, nb, 1);
    CountLiveAtStep(s, nb, 2);
    CountLiveAtStep(s, nb, 3);
    CountLiveAtStep(s, nb, 4);
    CountLiveAtStep(s, nb, 5);
    CountLiveAtStep(s, nb, 6);
    CountLiveAtStep(s, nb, 7);
    assert nb[..8] == nb;
  }

  /**
   * Visiting (i, j) in the loops of getNumLiveNeighbors moves the counted
   * prefix of the neighbour list past (i, j), adding its state unless (i, j)
   * is the centre.
   */
  lemma VisitStep(s: seq<int>, x: int, y: int, i: int, j: int, width: int, height: int)
    requires ValidDims(width, height) && |s| == width * height
    requires 0 <= x < width && 0 <= y < height
    requires x - 1 <= i <= x + 1 && y - 1 <= j <= y + 1
    ensures 0 <= OffsetPos(i - x, j - y) <= OffsetPos(i - x, j + 1 - y) <= 8
    ensures CountLiveAt(s, NeighbourIndices(x, y, width, height)[..OffsetPos(i - x, j + 1 - y)])
         == CountLiveAt(s, NeighbourIndices(x, y, width, height)[..OffsetPos(i - x, j - y)])
            + (if !(i == x && j == y) && s[ComputeIndex(i, j, width, height)] == LIVE then 1 else 0)
  {
    var nb := NeighbourIndices(x, y, width, height);
    var p := OffsetPos(i - x, j - y);
    if !(i == x && j == y) {
      OffsetAt(i - x, j - y);
      assert OffsetPos(i - x, j + 1 - y) == p + 1;
      assert nb[p] == ComputeIndex(i, j, width, height);
      CountLiveAtStep(s, nb, p);
    } else {
      assert OffsetPos(i - x, j + 1 - y) == p;
    }
  }

  /**
   * getNumLiveNeighbors: the nested loops over x-1..x+1 and y-1..y+1,
   * skipping the centre, reading a read-only snapshot.
   */
  method CountLiveNeighbors(world: array<int>, x: int, y: int, width: int, height: int)
    returns (sum: nat)
    requires ValidDims(width, height) && world.Length == width * height
    requires 0 <= x < width && 0 <= y < height
    ensures sum == LiveNeighbors(world[..], x, y, width, height)
    ensures sum <= 8
  {
    ghost var s := world[..];
    ghost var nb := NeighbourIndices(x, y, width, height);
    ghost var m := 0;
    sum := 0;
    var i := x - 1;
    while i <= x + 1
      invariant x - 1 <= i <= x + 2
      invariant m == OffsetPos(i - x, -1) && 0 <= m <= 8
      invariant sum == CountLiveAt(s, nb[..m])
    {
      var j := y - 1;
      while j <= y + 1
        invariant y - 1 <= j <= y + 2
        invariant m == OffsetPos(i - x, j - y) && 0 <= m <= 8
        invariant sum == CountLiveAt(s, nb[..m])
      {
        VisitStep(s, x, y, i, j, width, height);
        if !(i == x && j == y) {
          var index := ComputeIndex(i, j, width, height);
          if world[index] == LIVE {
            sum := sum + 1;
          }
        }
        m := OffsetPos(i - x, j + 1 - y);
        j := j + 1;
      }
      assert OffsetPos(i - x, 2) == OffsetPos(i + 1 - x, -1);
      i := i + 1;
    }
    assert nb[..8] == nb;
  }

  /** Shifting a column or row by different amounts in -1..1 lands on different cells. */
  lemma ShiftDistinct(x: int, dx: int, ex: int, w: int)
    requires 0 <= x < w && -1 <= dx <= 1 && -1 <= ex <= 1 && dx != ex
    requires w >= 3 || (w >= 2 && (dx == 0 || ex == 0))
    ensures (x + dx) % w != (x + ex) % w
  {
    ModOnePeriod(x + dx, w);
    ModOnePeriod(x + ex, w);
  }

  /** Neighbours reached by different offsets are different cells when the offsets differ modulo the world's size. */
  lemma NeighbourPairDistinct(x: int, y: int, width: int, height: int, dx: int, dy: int, ex: int, ey: int)
    requires ValidDims(width, height) && 0 <= x < width && 0 <= y < height
    requires -1 <= dx <= 1 && -1 <= dy <= 1 && -1 <= ex <= 1 && -1 <= ey <= 1
    requires (x + dx) % width != (x + ex) % width || (y + dy) % height != (y + ey) % height
    ensures ComputeIndex(x + dx, y + dy, width, height) != ComputeIndex(x + ex, y + ey, width, height)
  {
    ComputeIndexIsModular(x + dx, y + dy, width, height);
    ComputeIndexIsModular(x + ex, y + ey, width, height);
    if ComputeIndex(x + dx, y + dy, width, height) == ComputeIndex(x + ex, y + ey, width, height) {
      LinearUnique((y + dy) % height, (x + dx) % width, (y + ey) % height, (x + ex) % width, width);
    }
  }

  /**
   * On a world at least two cells wide and high, no neighbour offset
   * resolves to the centre cell.
   */
  lemma CentreNotNeighbour(x: int, y: int, width: int, height: int)
    requires width >= 2 && height >= 2 && 0 <= x < width && 0 <= y < height
    ensures ComputeIndex(x, y, width, height) !in NeighbourIndices(x, y, width, height)
  {
    var nb := NeighbourIndices(x, y, width, height);
    forall k | 0 <= k < 8
      ensures nb[k] != ComputeIndex(x, y, width, height)
    {
      var (dx, dy) := Offsets[k];
      if dx != 0 {
        ShiftDistinct(x, dx, 0, width);
      } else {
        ShiftDistinct(y, dy, 0, height);
      }
      NeighbourPairDistinct(x, y, width, height, dx, dy, 0, 0);
    }
  }

  /** So the centre cell's own value never enters its count. */
  lemma LiveNeighborsIgnoresCentre(s: seq<int>, v: int, x: int, y: int, width: int, height: int)
    requires width >= 2 && height >= 2 && |s| == width * height
    requires 0 <= x < width && 0 <= y < height
    ensures LiveNeighbors(s[ComputeIndex(x, y, width, height) := v], x, y, width, height) == LiveNeighbors(s, x, y, width, height)
  {
    IndexInRange(x, y, width, height);
    CentreNotNeighbour(x, y, width, height);
    CountLiveAtFrame(s[ComputeIndex(x, y, width, height) := v], s, NeighbourIndices(x, y, width, height));
  }

  /**
   * On a world one cell wide, the horizontal offsets wrap back onto the
   * centre: the centre cell is counted twice among its own neighbours.
   */
  lemma NarrowWorldCountsCentre(y: int, height: int)
    requires height >= 1 && 0 <= y < height
    ensures NeighbourIndices(0, y, 1, height)[1] == y
    ensures NeighbourIndices(0, y, 1, height)[6] == y
  {
  }

  /**
   * On a world at least three cells wide and high, the eight neighbours are
   * eight distinct cells, as in Conway's game on a torus.
   */
  lemma NeighboursDistinct(x: int, y: int, width: int, height: int)
    requires width >= 3 && height >= 3 && 0 <= x < width && 0 <= y < height
    ensures forall k, l | 0 <= k < l < 8 ::
      NeighbourIndices(x, y, width, height)[k] != NeighbourIndices(x, y, width, height)[l]
  {
    var nb := NeighbourIndices(x, y, width, height);
    forall k, l | 0 <= k < l < 8
      ensures nb[k] != nb[l]
    {
      OffsetsDistinct(k, l);
      var (dx, dy) := Offsets[k];
      var (ex, ey) := Offsets[l];
      if dx != ex {
        ShiftDistinct(x, dx, ex, width);
      } else {
        ShiftDistinct(y, dy, ey, height);
      }
      NeighbourPairDistinct(x, y, width, height, dx, dy, ex, ey);
    }
  }

  /**
   * Wrap-around at the corner (0, 0): its neighbours include the opposite
   * corner (W-1, H-1), the end of the first row (W-1, 0) and the start of
   * the last row (0, H-1).
   */
  lemma CornerNeighbours(width: int, height: int)
    requires ValidDims(width, height)
    ensures (height - 1) * width + (width - 1) in NeighbourIndices(0, 0, width, height)
    ensures width - 1 in NeighbourIndices(0, 0, width, height)
    ensures (height - 1) * width in NeighbourIndices(0, 0, width, height)
  {
    var nb := NeighbourIndices(0, 0, width, height);
    assert nb[0] == (height - 1) * width + (width - 1);
    assert nb[1] == width - 1;
    assert nb[3] == (height - 1) * width;
  }
}
