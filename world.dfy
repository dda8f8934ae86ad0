// World initialisation (initWorld in gol.c): a zero-filled world of
// width * height cells in which every listed storage index is set LIVE.

module World {
  import opened Rule

  /**
   * The world initWorld builds, stated the way its loop builds it: all DEAD,
   * then each listed index set LIVE in turn.
   */
  function InitialWorld(size: nat, initSet: seq<int>): (s: seq<int>)
    requires forall i | 0 <= i < |initSet| :: 0 <= initSet[i] < size
    ensures |s| == size
  {
    if initSet == [] then seq(size, _ => DEAD)
    else InitialWorld(size, initSet[..|initSet| - 1])[initSet[|initSet| - 1] := LIVE]
  }

  /** Cell k of the initial world is LIVE exactly when k is listed, and DEAD otherwise. */
  lemma {:induction false} InitialWorldCells(size: nat, initSet: seq<int>, k: int)
    requires forall i | 0 <= i < |initSet| :: 0 <= initSet[i] < size
    requires 0 <= k < size
    ensures InitialWorld(size, initSet)[k] == if k in initSet then LIVE else DEAD
  {
    if initSet != [] {
      var front := initSet[..|initSet| - 1];
      InitialWorldCells(size, front, k);
      assert initSet == front + [initSet[|initSet| - 1]];
    }
  }

  /** The initial world is LIVE/DEAD. */
  lemma InitialWorldBinary(size: nat, initSet: seq<int>)
    requires forall i | 0 <= i < |initSet| :: 0 <= initSet[i] < size
    ensures Binary(InitialWorld(size, initSet))
  {
    forall k | 0 <= k < size
      ensures IsCell(InitialWorld(size, initSet)[k])
    {
      InitialWorldCells(size, initSet, k);
    }
  }

  /**
   * Only the set of listed indices matters: listing an index twice, or
   * listing the indices in another order, builds the same world.
   */
  lemma InitialWorldDependsOnSet(size: nat, a: seq<int>, b: seq<int>)
    requires forall i | 0 <= i < |a| :: 0 <= a[i] < size
    requires forall i | 0 <= i < |b| :: 0 <= b[i] < size
    requires forall k :: k in a <==> k in b
    ensures InitialWorld(size, a) == InitialWorld(size, b)
  {
    forall k | 0 <= k < size
      ensures InitialWorld(size, a)[k] == InitialWorld(size, b)[k]
    {
      InitialWorldCells(size, a, k);
      InitialWorldCells(size, b, k);
    }
  }

  /**
   * initWorld: calloc'd storage (every cell DEAD), then one LIVE write per
   * listed index.
   */
  method InitWorld(width: nat, height: nat, initSet: seq<int>) returns (world: array<int>)
    requires forall i | 0 <= i < |initSet| :: 0 <= initSet[i] < width * height
    ensures fresh(world)
    ensures world[..] == InitialWorld(width * height, initSet)
  {
    world := new int[width * height](_ => DEAD);
    for i := 0 to |initSet|
      invariant world[..] == InitialWorld(width * height, initSet[..i])
    {
      assert initSet[..i + 1][..i] == initSet[..i];
      world[initSet[i]] := LIVE;
    }
    assert initSet[..|initSet|] == initSet;
  }
}
