/** The colour source: Phaser.Math.Between(0, gemColors - 1) seen as a fixed
    stream of draws, numbered from 0. */
module Draws {
  import opened Board

  /** Every draw lies in the palette 0 .. GemColors - 1. */
  ghost predicate InPalette(rng: nat -> int)
  {
    forall k: nat :: 0 <= rng(k) < GemColors
  }

  /** From draw k on, some draw differs from both a and b. */
  ghost predicate Avoids(rng: nat -> int, k: nat, a: int, b: int)
  {
    exists m: nat :: k <= m && rng(m) != a && rng(m) != b
  }

  /** The stream never gets stuck on two colours: at most two colours are
      rejected at any cell, so every do-while of drawField ends. */
  ghost predicate Fair(rng: nat -> int)
  {
    forall k: nat, a: int, b: int :: Avoids(rng, k, a, b)
  }

  /** A stream that cycles through the palette. */
  function Cycle(k: nat): int
  {
    k % GemColors
  }

  /** The requirements on the colour source can be met: with five colours,
      three consecutive draws of Cycle are distinct, so one avoids any two. */
  lemma CycleIsFair()
    ensures InPalette(Cycle) && Fair(Cycle)
  {
    forall k: nat, a: int, b: int
      ensures Avoids(Cycle, k, a, b)
    {
      var x, y, z := Cycle(k), Cycle(k + 1), Cycle(k + 2);
      assert x != y && y != z && x != z;
      if x != a && x != b {
        assert Cycle(k) == x;
      } else if y != a && y != b {
        assert Cycle(k + 1) == y;
      } else {
        assert Cycle(k + 2) == z;
      }
    }
  }
}
