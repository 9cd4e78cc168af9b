/** Holes, gravity and refill on the columns of the field: the specification
    that makeGemsFall, holesBelow, replenishField and holesInCol are proved
    against. */
module Gravity {
  import opened Board
  import opened Draws

  /** Number of empty cells of column col in rows from .. FieldSize - 1. */
  function CountHoles(g: Grid, col: int, from: int): (n: int)
    requires IsGrid(g) && 0 <= col < FieldSize && 0 <= from <= FieldSize
    ensures 0 <= n <= FieldSize - from
    decreases FieldSize - from
  {
    if from == FieldSize then 0
    else (if g[from][col].isEmpty then 1 else 0) + CountHoles(g, col, from + 1)
  }

  /** Colours of the non-empty cells of column col in rows from .., top to bottom. */
  function GemsFrom(g: Grid, col: int, from: int): (s: seq<int>)
    requires IsGrid(g) && 0 <= col < FieldSize && 0 <= from <= FieldSize
    ensures |s| == FieldSize - from - CountHoles(g, col, from)
    decreases FieldSize - from
  {
    if from == FieldSize then []
    else (if g[from][col].isEmpty then [] else [g[from][col].gemColor]) + GemsFrom(g, col, from + 1)
  }

  /** If, from row t down, exactly the first h cells of a column are empty,
      the column has h holes from row t. */
  lemma {:induction false} HolesOnTop(g: Grid, col: int, t: int, h: int)
    requires IsGrid(g) && 0 <= col < FieldSize && 0 <= t <= FieldSize && 0 <= h <= FieldSize - t
    requires forall r :: t <= r < FieldSize ==> (g[r][col].isEmpty <==> r < t + h)
    ensures CountHoles(g, col, t) == h
    decreases FieldSize - t
  {
    if t < FieldSize {
      HolesOnTop(g, col, t + 1, if h > 0 then h - 1 else 0);
    }
  }

  /** Two grids whose column col has the same occupancy from row t count the same holes. */
  lemma {:induction false} HolesSameColumn(g: Grid, h: Grid, col: int, t: int)
    requires IsGrid(g) && IsGrid(h) && 0 <= col < FieldSize && 0 <= t <= FieldSize
    requires forall r :: t <= r < FieldSize ==> g[r][col].isEmpty == h[r][col].isEmpty
    ensures CountHoles(g, col, t) == CountHoles(h, col, t)
    decreases FieldSize - t
  {
    if t < FieldSize {
      HolesSameColumn(g, h, col, t + 1);
    }
  }

  /** holesBelow: the row a gem of row r falls to, r plus the holes under it. */
  function FallTarget(g: Grid, col: int, r: int): (t: int)
    requires IsGrid(g) && 0 <= col < FieldSize && 0 <= r < FieldSize
    ensures r <= t < FieldSize
  {
    r + CountHoles(g, col, r + 1)
  }

  /** Column col of n is column col of o once gravity has settled rows t and
      below: rows above t are untouched, rows from t down are holes first and
      gems after, and every gem of o from row t down (moved or not) sits
      holesBelow cells lower than before. */
  ghost predicate FallenFrom(o: Grid, n: Grid, col: int, t: int)
    requires IsGrid(o) && IsGrid(n) && 0 <= col < FieldSize && 0 <= t <= FieldSize
  {
    (forall r :: 0 <= r < t ==> n[r][col] == o[r][col]) &&
    (forall r :: t <= r < FieldSize ==> (n[r][col].isEmpty <==> r < t + CountHoles(o, col, t))) &&
    (forall r {:trigger FallTarget(o, col, r)} :: t <= r < FieldSize && !o[r][col].isEmpty ==>
       n[FallTarget(o, col, r)][col] == o[r][col])
  }

  /** Every column of n has settled from row t down. */
  ghost predicate FallenBelow(o: Grid, n: Grid, t: int)
    requires IsGrid(o) && IsGrid(n) && 0 <= t <= FieldSize
  {
    forall col :: 0 <= col < FieldSize ==> FallenFrom(o, n, col, t)
  }

  /** n is o after makeGemsFall: every column has settled. */
  ghost predicate Fallen(o: Grid, n: Grid)
    requires IsGrid(o) && IsGrid(n)
  {
    FallenBelow(o, n, 0)
  }

  /** One step of makeGemsFall at cell (i, col): a gem with holes below it
      moves down over them and leaves an emptied cell behind. */
  function FallOne(g: Grid, i: int, col: int): (n: Grid)
    requires IsGrid(g) && 0 <= i < FieldSize && 0 <= col < FieldSize
    ensures IsGrid(n)
    ensures forall r, c :: InBounds(r, c) && c != col ==> n[r][c] == g[r][c]
    ensures forall r :: 0 <= r < i ==> n[r][col] == g[r][col]
  {
    if g[i][col].isEmpty then g
    else
      var f := CountHoles(g, col, i + 1);
      if f == 0 then g
      else
        var g1 := g[i + f := g[i + f][col := Gem(g[i][col].gemColor, false)]];
        g1[i := g1[i][col := g1[i][col].(isEmpty := true)]]
  }

  /** The bottom row is settled before the pass starts. */
  lemma FallStart(o: Grid, col: int)
    requires IsGrid(o) && 0 <= col < FieldSize
    ensures FallenFrom(o, o, col, FieldSize - 1)
  {
  }

  /** Cell (i, col) that makeGemsFall leaves in place (a hole, or a gem with
      no hole below it) is settled as it stands. */
  lemma FallStay(o: Grid, n: Grid, col: int, i: int)
    requires IsGrid(o) && IsGrid(n) && 0 <= col < FieldSize && 0 <= i < FieldSize - 1
    requires FallenFrom(o, n, col, i + 1)
    requires o[i][col].isEmpty || CountHoles(o, col, i + 1) == 0
    ensures FallenFrom(o, n, col, i)
  {
    assert n[i][col] == o[i][col];
  }

  /** Column col after FallOne moves the gem at (i, col) over its h holes:
      the gem sits at row i + h, row i is a hole, every other cell is kept. */
  lemma FallOneCells(n: Grid, col: int, i: int, h: int)
    requires IsGrid(n) && 0 <= col < FieldSize && 0 <= i < FieldSize
    requires !n[i][col].isEmpty && h == CountHoles(n, col, i + 1) && h > 0
    ensures i + h < FieldSize
    ensures FallOne(n, i, col)[i][col].isEmpty
    ensures FallOne(n, i, col)[i + h][col] == Gem(n[i][col].gemColor, false)
    ensures forall r :: 0 <= r < FieldSize && r != i && r != i + h ==> FallOne(n, i, col)[r][col] == n[r][col]
  {
  }

  /** The gems already settled below row i stay where they landed when only
      rows i and i + h of the column change, i + h being a hole. */
  lemma SettledGemsStay(o: Grid, n: Grid, n2: Grid, col: int, i: int, h: int)
    requires IsGrid(o) && IsGrid(n) && IsGrid(n2) && 0 <= col < FieldSize && 0 <= i && 0 < h && i + h < FieldSize
    requires forall r {:trigger FallTarget(o, col, r)} :: i < r < FieldSize && !o[r][col].isEmpty ==>
               n[FallTarget(o, col, r)][col] == o[r][col]
    requires forall r :: i < r < FieldSize ==> (n[r][col].isEmpty <==> r <= i + h)
    requires forall r :: 0 <= r < FieldSize && r != i && r != i + h ==> n2[r][col] == n[r][col]
    ensures forall r {:trigger FallTarget(o, col, r)} :: i < r < FieldSize && !o[r][col].isEmpty ==>
              n2[FallTarget(o, col, r)][col] == o[r][col]
  {
    forall r | i < r < FieldSize && !o[r][col].isEmpty
      ensures n2[FallTarget(o, col, r)][col] == o[r][col]
    {
      var p := FallTarget(o, col, r);
      assert !n[p][col].isEmpty;
    }
  }

  /** A gem at (i, col) with h > 0 holes below it lands h rows lower, and its
      cell becomes a hole. */
  lemma FallMove(o: Grid, n: Grid, col: int, i: int)
    requires IsGrid(o) && IsGrid(n) && 0 <= col < FieldSize && 0 <= i < FieldSize - 1
    requires FallenFrom(o, n, col, i + 1)
    requires !o[i][col].isEmpty && CountHoles(o, col, i + 1) > 0
    ensures FallenFrom(o, FallOne(n, i, col), col, i)
  {
    var h := CountHoles(o, col, i + 1);
    HolesOnTop(n, col, i + 1, h);
    assert n[i][col] == o[i][col];
    FallOneCells(n, col, i, h);
    var n2: Grid := FallOne(n, i, col);
    assert CountHoles(o, col, i) == h;
    forall r | i <= r < FieldSize
      ensures n2[r][col].isEmpty <==> r < i + h
    {
      if r != i && r != i + h {
        assert n2[r][col] == n[r][col];
      }
    }
    SettledGemsStay(o, n, n2, col, i, h);
    assert FallTarget(o, col, i) == i + h;
  }

  /** One step of makeGemsFall changes column col only and keeps every colour
      in the palette. */
  lemma FallOneFrame(n: Grid, col: int, i: int)
    requires IsGrid(n) && 0 <= col < FieldSize && 0 <= i < FieldSize
    ensures forall r, c :: InBounds(r, c) && c != col ==> FallOne(n, i, col)[r][c] == n[r][c]
    ensures ColorsInRange(n) ==> ColorsInRange(FallOne(n, i, col))
  {
    var n2: Grid := FallOne(n, i, col);
    if ColorsInRange(n) {
      forall r, c | InBounds(r, c)
        ensures 0 <= n2[r][c].gemColor < GemColors
      {
        if c == col && !n[i][col].isEmpty && r == i + CountHoles(n, col, i + 1) {
          assert n2[r][c].gemColor == n[i][col].gemColor;
        }
      }
    }
  }

  /** Processing cell (i, col) bottom-up extends the settled part of the
      column by one row. */
  lemma FallStep(o: Grid, n: Grid, col: int, i: int)
    requires IsGrid(o) && IsGrid(n) && 0 <= col < FieldSize && 0 <= i < FieldSize - 1
    requires FallenFrom(o, n, col, i + 1)
    ensures FallenFrom(o, FallOne(n, i, col), col, i)
  {
    if o[i][col].isEmpty || CountHoles(o, col, i + 1) == 0 {
      FallStay(o, n, col, i);
      assert n[i][col] == o[i][col];
      assert FallOne(n, i, col) == n by {
        if !n[i][col].isEmpty {
          HolesOnTop(n, col, i + 1, CountHoles(o, col, i + 1));
        }
      }
    } else {
      FallMove(o, n, col, i);
    }
  }

  /** The row from which column c has settled once makeGemsFall has passed
      the cells of row i before column j. */
  function SettledFrom(i: int, j: int, c: int): int
  {
    if c < j then i else i + 1
  }

  /** makeGemsFall part way: row i has been processed up to column j. */
  ghost predicate FallenPart(o: Grid, n: Grid, i: int, j: int)
    requires IsGrid(o) && IsGrid(n) && 0 <= i < FieldSize
  {
    forall c :: 0 <= c < FieldSize ==> FallenFrom(o, n, c, SettledFrom(i, j, c))
  }

  /** Processing cell (i, j) moves the pass on by one cell and keeps the
      colours in the palette. */
  lemma FallPartStep(o: Grid, n: Grid, i: int, j: int)
    requires IsGrid(o) && IsGrid(n) && 0 <= i < FieldSize - 1 && 0 <= j < FieldSize
    requires FallenPart(o, n, i, j)
    ensures FallenPart(o, FallOne(n, i, j), i, j + 1)
    ensures ColorsInRange(n) ==> ColorsInRange(FallOne(n, i, j))
  {
    assert FallenFrom(o, n, j, SettledFrom(i, j, j));
    FallStep(o, n, j, i);
    FallOneFrame(n, j, i);
    var n2, next := FallOne(n, i, j), j + 1;
    forall c | 0 <= c < FieldSize
      ensures FallenFrom(o, n2, c, SettledFrom(i, next, c))
    {
      if c != j {
        assert FallenFrom(o, n, c, SettledFrom(i, j, c));
        ColumnFrame(o, n, n2, c, SettledFrom(i, j, c));
      }
    }
  }

  /** A row starts where the row below it ended. */
  lemma FallRowStart(o: Grid, n: Grid, i: int)
    requires IsGrid(o) && IsGrid(n) && 0 <= i < FieldSize - 1
    requires FallenBelow(o, n, i + 1)
    ensures FallenPart(o, n, i, 0)
  {
    forall c | 0 <= c < FieldSize
      ensures FallenFrom(o, n, c, SettledFrom(i, 0, c))
    {
      assert FallenFrom(o, n, c, i + 1);
    }
  }

  /** A row is done once every column has been passed. */
  lemma FallRowDone(o: Grid, n: Grid, i: int)
    requires IsGrid(o) && IsGrid(n) && 0 <= i < FieldSize - 1
    requires FallenPart(o, n, i, FieldSize)
    ensures FallenBelow(o, n, i)
  {
    forall c | 0 <= c < FieldSize
      ensures FallenFrom(o, n, c, i)
    {
      assert FallenFrom(o, n, c, SettledFrom(i, FieldSize, c));
    }
  }

  /** Gravity keeps the number of holes in every column. */
  lemma FallKeepsHoles(o: Grid, n: Grid, col: int)
    requires IsGrid(o) && IsGrid(n) && 0 <= col < FieldSize
    requires FallenFrom(o, n, col, 0)
    ensures CountHoles(n, col, 0) == CountHoles(o, col, 0)
  {
    HolesOnTop(n, col, 0, CountHoles(o, col, 0));
  }

  /** Rows t .. t + h - 1 of the column are holes and contribute no gem. */
  lemma {:induction false} SkipHoles(g: Grid, col: int, t: int, h: int)
    requires IsGrid(g) && 0 <= col < FieldSize && 0 <= t && 0 <= h && t + h <= FieldSize
    requires forall r :: t <= r < t + h ==> g[r][col].isEmpty
    ensures GemsFrom(g, col, t) == GemsFrom(g, col, t + h)
    decreases h
  {
    if h > 0 {
      SkipHoles(g, col, t + 1, h - 1);
    }
  }

  /** A gem of o at row t that has landed at row p of n heads the gems of n
      from row p. */
  lemma LandedHeads(o: Grid, n: Grid, col: int, t: int, p: int)
    requires IsGrid(o) && IsGrid(n) && 0 <= col < FieldSize && 0 <= t < FieldSize && 0 <= p < FieldSize
    requires !o[t][col].isEmpty && n[p][col] == o[t][col]
    ensures GemsFrom(n, col, p) == [o[t][col].gemColor] + GemsFrom(n, col, p + 1)
  {
  }

  /** The gems of o from row t down are, in order, the gems of n from the
      row they have fallen to. */
  lemma {:induction false} FallSuffix(o: Grid, n: Grid, col: int, t: int)
    requires IsGrid(o) && IsGrid(n) && 0 <= col < FieldSize && 0 <= t <= FieldSize
    requires forall r {:trigger FallTarget(o, col, r)} :: 0 <= r < FieldSize && !o[r][col].isEmpty ==>
               n[FallTarget(o, col, r)][col] == o[r][col]
    ensures t + CountHoles(o, col, t) <= FieldSize
    ensures GemsFrom(n, col, t + CountHoles(o, col, t)) == GemsFrom(o, col, t)
    decreases FieldSize - t
  {
    if t < FieldSize {
      FallSuffix(o, n, col, t + 1);
      if !o[t][col].isEmpty {
        var p := FallTarget(o, col, t);
        LandedHeads(o, n, col, t, p);
      }
    }
  }

  /** Gravity keeps the top-to-bottom order of the colours in every column. */
  lemma FallKeepsOrder(o: Grid, n: Grid, col: int)
    requires IsGrid(o) && IsGrid(n) && 0 <= col < FieldSize
    requires FallenFrom(o, n, col, 0)
    ensures GemsFrom(n, col, 0) == GemsFrom(o, col, 0)
  {
    FallSuffix(o, n, col, 0);
    SkipHoles(n, col, 0, CountHoles(o, col, 0));
  }

  /** The bottom row never moves, and after gravity the gems of a column fill
      exactly its bottom FieldSize - holes rows. */
  lemma FallSettles(o: Grid, n: Grid, col: int)
    requires IsGrid(o) && IsGrid(n) && 0 <= col < FieldSize
    requires FallenFrom(o, n, col, 0)
    ensures !o[FieldSize - 1][col].isEmpty ==> n[FieldSize - 1][col] == o[FieldSize - 1][col]
    ensures forall r :: 0 <= r < FieldSize ==>
              (!n[r][col].isEmpty <==> CountHoles(n, col, 0) <= r)
  {
    FallKeepsHoles(o, n, col);
    var bottom := FallTarget(o, col, FieldSize - 1);
  }

  /** The settled part of column c only depends on column c. */
  lemma ColumnFrame(o: Grid, n: Grid, n2: Grid, c: int, t: int)
    requires IsGrid(o) && IsGrid(n) && IsGrid(n2) && 0 <= c < FieldSize && 0 <= t <= FieldSize
    requires forall r :: 0 <= r < FieldSize ==> n2[r][c] == n[r][c]
    requires FallenFrom(o, n, c, t)
    ensures FallenFrom(o, n2, c, t)
  {
  }

  /** Holes in the columns before col: the draws replenishField makes before it
      reaches column col. */
  function HolesBefore(g: Grid, col: int): (n: int)
    requires IsGrid(g) && 0 <= col <= FieldSize
    ensures 0 <= n <= col * FieldSize
  {
    if col == 0 then 0 else HolesBefore(g, col - 1) + CountHoles(g, col - 1, 0)
  }

  /** n is o after replenishField has drawn from rng starting at draw number
      start: in each column the top holesInCol cells get fresh gems, drawn
      column by column and top to bottom, and every other cell is left alone. */
  ghost predicate Refilled(o: Grid, n: Grid, rng: nat -> int, start: nat)
    requires IsGrid(o) && IsGrid(n)
  {
    forall r, c {:trigger n[r][c]} :: InBounds(r, c) ==>
      n[r][c] == if r < CountHoles(o, c, 0) then Gem(rng(start + HolesBefore(o, c) + r), false)
                 else o[r][c]
  }

  /** The holes of every column, left to right. */
  function HoleCounts(o: Grid): (h: seq<nat>)
    requires IsGrid(o)
    ensures |h| == FieldSize
    ensures forall c :: 0 <= c < FieldSize ==> h[c] == CountHoles(o, c, 0)
  {
    seq(FieldSize, c requires 0 <= c < FieldSize => CountHoles(o, c, 0))
  }

  /** The draw offset of every column, HolesBefore(o, 0) .. HolesBefore(o, FieldSize). */
  function DrawOffsets(o: Grid): (b: seq<nat>)
    requires IsGrid(o)
    ensures |b| == FieldSize + 1
    ensures forall c :: 0 <= c <= FieldSize ==> b[c] == HolesBefore(o, c)
  {
    seq(FieldSize + 1, c requires 0 <= c <= FieldSize => HolesBefore(o, c))
  }

  /** replenishField part way, with the hole counts and draw offsets of the
      columns given as holes and offsets: the columns before j and the first i
      cells of column j have been refilled, and every other cell is as in o. */
  ghost predicate RefilledUpTo(o: Grid, n: Grid, rng: nat -> int, start: nat,
                               holes: seq<nat>, offsets: seq<nat>, j: int, i: int)
    requires IsGrid(o) && IsGrid(n) && |holes| == FieldSize && |offsets| > FieldSize
  {
    forall r, c {:trigger n[r][c]} :: InBounds(r, c) ==>
      n[r][c] == if (c < j && r < holes[c]) || (c == j && r < i)
                 then Gem(rng(start + offsets[c] + r), false)
                 else o[r][c]
  }

  /** Before the first column nothing has been refilled. */
  lemma RefillStart(o: Grid, rng: nat -> int, start: nat, holes: seq<nat>, offsets: seq<nat>)
    requires IsGrid(o) && |holes| == FieldSize && |offsets| > FieldSize
    ensures RefilledUpTo(o, o, rng, start, holes, offsets, 0, 0)
  {
  }

  /** While column j has not been reached, its cells are as in o, so it has
      the same holes. */
  lemma RefillColumnUntouched(o: Grid, n: Grid, rng: nat -> int, start: nat,
                              holes: seq<nat>, offsets: seq<nat>, j: int)
    requires IsGrid(o) && IsGrid(n) && |holes| == FieldSize && |offsets| > FieldSize && 0 <= j < FieldSize
    requires RefilledUpTo(o, n, rng, start, holes, offsets, j, 0)
    ensures CountHoles(n, j, 0) == CountHoles(o, j, 0)
  {
    forall r | 0 <= r < FieldSize
      ensures n[r][j].isEmpty == o[r][j].isEmpty
    {
      assert n[r][j] == o[r][j];
    }
    HolesSameColumn(n, o, j, 0);
  }

  /** Refilling cell (i, j) with the next draw extends the refilled part by one cell. */
  lemma RefillStep(o: Grid, n: Grid, rng: nat -> int, start: nat,
                   holes: seq<nat>, offsets: seq<nat>, j: int, i: int, color: int)
    requires IsGrid(o) && IsGrid(n) && |holes| == FieldSize && |offsets| > FieldSize
    requires 0 <= j < FieldSize && 0 <= i < FieldSize && i < holes[j]
    requires RefilledUpTo(o, n, rng, start, holes, offsets, j, i)
    requires color == rng(start + offsets[j] + i)
    ensures RefilledUpTo(o, n[i := n[i][j := Gem(color, false)]], rng, start, holes, offsets, j, i + 1)
  {
    var n2 := n[i := n[i][j := Gem(color, false)]];
    forall r, c | InBounds(r, c)
      ensures n2[r][c] == if (c < j && r < holes[c]) || (c == j && r < i + 1)
                          then Gem(rng(start + offsets[c] + r), false)
                          else o[r][c]
    {
      if r != i || c != j {
        assert n2[r][c] == n[r][c];
      }
    }
  }

  /** A column whose holes have all been refilled is done. */
  lemma RefillColumnDone(o: Grid, n: Grid, rng: nat -> int, start: nat,
                         holes: seq<nat>, offsets: seq<nat>, j: int)
    requires IsGrid(o) && IsGrid(n) && |holes| == FieldSize && |offsets| > FieldSize && 0 <= j < FieldSize
    requires RefilledUpTo(o, n, rng, start, holes, offsets, j, holes[j])
    ensures RefilledUpTo(o, n, rng, start, holes, offsets, j + 1, 0)
  {
  }

  /** Once every column is done, n is o refilled. */
  lemma RefillDone(o: Grid, n: Grid, rng: nat -> int, start: nat)
    requires IsGrid(o) && IsGrid(n)
    requires RefilledUpTo(o, n, rng, start, HoleCounts(o), DrawOffsets(o), FieldSize, 0)
    ensures Refilled(o, n, rng, start)
  {
    var holes, offsets := HoleCounts(o), DrawOffsets(o);
    forall r, c | InBounds(r, c)
      ensures n[r][c] == if r < CountHoles(o, c, 0) then Gem(rng(start + HolesBefore(o, c) + r), false)
                         else o[r][c]
    {
      assert holes[c] == CountHoles(o, c, 0) && offsets[c] == HolesBefore(o, c);
    }
  }

  /** Refilling after gravity leaves no hole, and only palette colours. */
  lemma RefillAfterFallIsFull(o: Grid, f: Grid, n: Grid, rng: nat -> int, start: nat)
    requires IsGrid(o) && IsGrid(f) && IsGrid(n)
    requires Fallen(o, f) && Refilled(f, n, rng, start) && InPalette(rng)
    requires ColorsInRange(f)
    ensures Full(n) && ColorsInRange(n)
  {
    forall r, c | InBounds(r, c)
      ensures !n[r][c].isEmpty
    {
      assert FallenFrom(o, f, c, 0);
      FallKeepsHoles(o, f, c);
    }
    forall r, c | InBounds(r, c)
      ensures 0 <= n[r][c].gemColor < GemColors
    {
      if r < CountHoles(f, c, 0) {
        assert n[r][c].gemColor == rng(start + HolesBefore(f, c) + r);
      }
    }
  }
}
