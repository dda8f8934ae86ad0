// Cell states and the transition rule of gol.c.
//
// The world is an array of C `int`s holding LIVE (1) or DEAD (0); the rule
// reads a cell of the current generation and its live-neighbour count and
// decides between three outcomes: write DEAD, write LIVE, or leave the
// destination untouched.

module Rule {

  const LIVE: int := 1
  const DEAD: int := 0

  predicate IsCell(v: int) {
    v == LIVE || v == DEAD
  }

  /** Every cell of the grid holds LIVE or DEAD. */
  predicate Binary(s: seq<int>) {
    forall k | 0 <= k < |s| :: IsCell(s[k])
  }

  /** The cell value that encodes a boolean state. */
  function CellOf(alive: bool): (v: int)
    ensures IsCell(v)
    ensures (v == LIVE) == alive
  {
    if alive then LIVE else DEAD
  }

  /**
   * Conway's rule B3/S23, the reference the source's rule is compared with:
   * a live cell survives with two or three live neighbours, a dead cell is
   * born with exactly three.
   */
  function ConwayNext(alive: bool, n: nat): (next: bool) {
    if alive then n == 2 || n == 3 else n == 3
  }

  /** The three ways computeCell can treat the destination cell. */
  datatype Outcome = WriteDead | WriteLive | Untouched

  /**
   * The decision of computeCell for a cell whose current value is `cell`
   * and which has `n` live neighbours. A write always writes the Conway
   * next state; the no-write branch is taken only where the Conway next
   * state equals the current state.
   */
  function Decide(cell: int, n: nat): (o: Outcome)
    ensures o == Untouched ==> ConwayNext(cell == LIVE, n) == (cell == LIVE)
    ensures o != Untouched ==> o == (if ConwayNext(cell == LIVE, n) then WriteLive else WriteDead)
    ensures o == WriteDead ==> cell == LIVE
  {
    if cell == LIVE && (n < 2 || n > 3) then WriteDead
    else if n == 3 then WriteLive
    else Untouched
  }

  /** What the destination holds after the decision, given what it held before. */
  function Apply(o: Outcome, prior: int): (v: int) {
    match o
    case WriteDead => DEAD
    case WriteLive => LIVE
    case Untouched => prior
  }

  /**
   * The three-way rule equals Conway's rule when the destination still
   * holds the cell's current value.
   */
  lemma RuleIsConway(cell: int, n: nat)
    requires IsCell(cell)
    ensures Apply(Decide(cell, n), cell) == CellOf(ConwayNext(cell == LIVE, n))
  {
  }

  /**
   * Without that precondition the rule can go wrong: a destination holding a
   * stale LIVE where the rule leaves the cell untouched keeps the stale value
   * although Conway's rule says DEAD.
   */
  lemma UntouchedNeedsPrior(n: nat)
    requires n != 3
    ensures Apply(Decide(DEAD, n), LIVE) != CellOf(ConwayNext(false, n))
  {
  }
}
