/** The field of gems and the queries over it: bounds, neighbour matches,
    swapping two cells and adjacency of two cells. */
module Board {

  /** Side of the square field (gameOptions.fieldSize). */
  const FieldSize: int := 6
  /** Number of gem colours (gameOptions.gemColors); colours are 0 .. GemColors - 1. */
  const GemColors: int := 5

  datatype Option<T> = None | Some(value: T)

  /** One cell of the field. An emptied cell keeps its last colour. */
  datatype Gem = Gem(gemColor: int, isEmpty: bool)

  /** A grid coordinate: row counted from the top, column from the left. */
  datatype Pos = Pos(row: int, col: int)

  type Grid = seq<seq<Gem>>

  /** A FieldSize x FieldSize matrix, indexed [row][col]. */
  predicate IsGrid<T>(g: seq<seq<T>>)
  {
    |g| == FieldSize && forall i :: 0 <= i < FieldSize ==> |g[i]| == FieldSize
  }

  predicate InBounds(row: int, col: int)
  {
    0 <= row < FieldSize && 0 <= col < FieldSize
  }

  predicate Inside(p: Pos)
  {
    InBounds(p.row, p.col)
  }

  ghost predicate ColorsInRange(g: Grid)
    requires IsGrid(g)
  {
    forall r, c :: InBounds(r, c) ==> 0 <= g[r][c].gemColor < GemColors
  }

  /** No cell is empty. */
  ghost predicate Full(g: Grid)
    requires IsGrid(g)
  {
    forall r, c :: InBounds(r, c) ==> !g[r][c].isEmpty
  }

  /** gemAt: the gem at (row, col), or None (null) off the field. */
  function GemAt(g: Grid, row: int, col: int): (o: Option<Gem>)
    requires IsGrid(g)
    ensures o == None <==> !InBounds(row, col)
    ensures o != None ==> o.value == g[row][col]
  {
    if row < 0 || row >= FieldSize || col < 0 || col >= FieldSize then None
    else Some(g[row][col])
  }

  /** gemAt(row, col)?.gemColor, where None plays the part of undefined. */
  function ColorAt(g: Grid, row: int, col: int): (o: Option<int>)
    requires IsGrid(g)
    ensures o == None <==> !InBounds(row, col)
    ensures o != None ==> o.value == g[row][col].gemColor
  {
    match GemAt(g, row, col)
    case None => None
    case Some(gem) => Some(gem.gemColor)
  }

  /** The cell and the two cells to its left have equal colours. */
  predicate IsHorizontalMatch(g: Grid, row: int, col: int): (b: bool)
    requires IsGrid(g)
    ensures InBounds(row, col) && col < 2 ==> !b
  {
    ColorAt(g, row, col) == ColorAt(g, row, col - 1) &&
    ColorAt(g, row, col) == ColorAt(g, row, col - 2)
  }

  /** The cell and the two cells above it have equal colours. */
  predicate IsVerticalMatch(g: Grid, row: int, col: int): (b: bool)
    requires IsGrid(g)
    ensures InBounds(row, col) && row < 2 ==> !b
  {
    ColorAt(g, row, col) == ColorAt(g, row - 1, col) &&
    ColorAt(g, row, col) == ColorAt(g, row - 2, col)
  }

  /** isMatch: a horizontal or a vertical match; no cell of the top-left
      two-by-two corner has the two predecessors either needs. */
  predicate IsMatch(g: Grid, row: int, col: int): (b: bool)
    requires IsGrid(g)
    ensures InBounds(row, col) && row < 2 && col < 2 ==> !b
  {
    IsHorizontalMatch(g, row, col) || IsVerticalMatch(g, row, col)
  }

  /** What matchInBoard computes: some cell of the field completes a match. */
  ghost predicate HasMatch(g: Grid)
    requires IsGrid(g)
  {
    exists r, c :: InBounds(r, c) && IsMatch(g, r, c)
  }

  /** For a cell on the field, a match needs two real cells to the left or two
      real cells above with its colour: neighbours off the field never match. */
  lemma MatchAtIff(g: Grid, row: int, col: int)
    requires IsGrid(g) && InBounds(row, col)
    ensures IsHorizontalMatch(g, row, col) <==>
              2 <= col && g[row][col - 1].gemColor == g[row][col].gemColor
                       && g[row][col - 2].gemColor == g[row][col].gemColor
    ensures IsVerticalMatch(g, row, col) <==>
              2 <= row && g[row - 1][col].gemColor == g[row][col].gemColor
                       && g[row - 2][col].gemColor == g[row][col].gemColor
  {
  }

  /** A match at (row, col) depends only on the cell, the two cells to its left
      and the two above it; writing any later cell in row-major order keeps it. */
  lemma LaterWriteKeepsMatch(g: Grid, i: int, j: int, x: Gem, row: int, col: int)
    requires IsGrid(g) && InBounds(i, j) && InBounds(row, col)
    requires row < i || (row == i && col < j)
    ensures IsGrid(g[i := g[i][j := x]])
    ensures IsMatch(g[i := g[i][j := x]], row, col) == IsMatch(g, row, col)
  {
    var h := g[i := g[i][j := x]];
    assert ColorAt(h, row, col) == ColorAt(g, row, col);
    assert ColorAt(h, row, col - 1) == ColorAt(g, row, col - 1);
    assert ColorAt(h, row, col - 2) == ColorAt(g, row, col - 2);
    assert ColorAt(h, row - 1, col) == ColorAt(g, row - 1, col);
    assert ColorAt(h, row - 2, col) == ColorAt(g, row - 2, col);
  }

  /** The colour that the two cells left of (row, col) would complete into a
      match, or -1 when they are absent or differ. */
  function LeftPairColor(g: Grid, row: int, col: int): int
    requires IsGrid(g) && InBounds(row, col)
  {
    if col >= 2 && g[row][col - 1].gemColor == g[row][col - 2].gemColor then g[row][col - 1].gemColor
    else -1
  }

  /** The colour that the two cells above (row, col) would complete, or -1. */
  function AbovePairColor(g: Grid, row: int, col: int): int
    requires IsGrid(g) && InBounds(row, col)
  {
    if row >= 2 && g[row - 1][col].gemColor == g[row - 2][col].gemColor then g[row - 1][col].gemColor
    else -1
  }

  /** Placing a gem at (row, col) makes a match there for at most two colours:
      the one its left pair has and the one its upper pair has. */
  lemma OnlyPairColorsMatch(g: Grid, row: int, col: int, x: Gem)
    requires IsGrid(g) && InBounds(row, col) && 0 <= x.gemColor
    ensures IsGrid(g[row := g[row][col := x]])
    ensures IsMatch(g[row := g[row][col := x]], row, col) <==>
              x.gemColor == LeftPairColor(g, row, col) || x.gemColor == AbovePairColor(g, row, col)
  {
    var h := g[row := g[row][col := x]];
    MatchAtIff(h, row, col);
  }

  /** Writing one cell twice leaves only the second write. */
  lemma OverwriteCell(g: Grid, row: int, col: int, x: Gem, y: Gem)
    requires IsGrid(g) && InBounds(row, col)
    ensures var h := g[row := g[row][col := x]];
            h[row := h[row][col := y]] == g[row := g[row][col := y]]
  {
    var h := g[row := g[row][col := x]];
    assert h[row][col := y] == g[row][col := y];
  }

  /** Writing a palette colour into one cell keeps every colour in the palette. */
  lemma PlaceKeepsColors(g: Grid, row: int, col: int, x: Gem)
    requires IsGrid(g) && InBounds(row, col) && ColorsInRange(g) && 0 <= x.gemColor < GemColors
    ensures IsGrid(g[row := g[row][col := x]]) && ColorsInRange(g[row := g[row][col := x]])
  {
  }

  /** The grid with the colour at p replaced. */
  function SetColor(g: Grid, p: Pos, color: int): Grid
    requires IsGrid(g) && Inside(p)
  {
    g[p.row := g[p.row][p.col := g[p.row][p.col].(gemColor := color)]]
  }

  /** swapGems on the field: the colour of b goes to a, then the colour of a to b. */
  function Swapped(g: Grid, a: Pos, b: Pos): (s: Grid)
    requires IsGrid(g) && Inside(a) && Inside(b)
    ensures IsGrid(s)
    ensures s[a.row][a.col].gemColor == g[b.row][b.col].gemColor
    ensures s[b.row][b.col].gemColor == g[a.row][a.col].gemColor
    ensures forall r, c :: InBounds(r, c) ==> s[r][c].isEmpty == g[r][c].isEmpty
    ensures forall r, c :: InBounds(r, c) && Pos(r, c) != a && Pos(r, c) != b ==> s[r][c] == g[r][c]
  {
    var fromColor := g[a.row][a.col].gemColor;
    var toColor := g[b.row][b.col].gemColor;
    SetColor(SetColor(g, a, toColor), b, fromColor)
  }

  /** Two grids that agree on every cell are equal. */
  lemma GridExt(g: Grid, h: Grid)
    requires IsGrid(g) && IsGrid(h)
    requires forall r, c :: InBounds(r, c) ==> g[r][c] == h[r][c]
    ensures g == h
  {
    forall r | 0 <= r < FieldSize
      ensures g[r] == h[r]
    {
      assert forall c :: 0 <= c < FieldSize ==> g[r][c] == h[r][c];
    }
  }

  /** Swapping is symmetric in its two cells. */
  lemma SwapSymmetric(g: Grid, a: Pos, b: Pos)
    requires IsGrid(g) && Inside(a) && Inside(b)
    ensures Swapped(g, a, b) == Swapped(g, b, a)
  {
    var s: Grid, t: Grid := Swapped(g, a, b), Swapped(g, b, a);
    forall r, c | InBounds(r, c)
      ensures s[r][c] == t[r][c]
    {
      if Pos(r, c) == a || Pos(r, c) == b {
        assert s[r][c].isEmpty == t[r][c].isEmpty;
      }
    }
    GridExt(s, t);
  }

  /** A swap is its own inverse: swapping back restores the exact layout. */
  lemma SwapInvolution(g: Grid, a: Pos, b: Pos)
    requires IsGrid(g) && Inside(a) && Inside(b)
    ensures Swapped(Swapped(g, a, b), a, b) == g
  {
    var s: Grid := Swapped(Swapped(g, a, b), a, b);
    forall r, c | InBounds(r, c)
      ensures s[r][c] == g[r][c]
    {
      if Pos(r, c) == a || Pos(r, c) == b {
        assert s[r][c].isEmpty == g[r][c].isEmpty;
      }
    }
    GridExt(s, g);
  }

  /** A swap keeps the field full and the colours in the palette. */
  lemma SwapKeepsShape(g: Grid, a: Pos, b: Pos)
    requires IsGrid(g) && Inside(a) && Inside(b)
    ensures Full(g) ==> Full(Swapped(g, a, b))
    ensures ColorsInRange(g) ==> ColorsInRange(Swapped(g, a, b))
  {
    var s: Grid := Swapped(g, a, b);
    if ColorsInRange(g) {
      forall r, c | InBounds(r, c)
        ensures 0 <= s[r][c].gemColor < GemColors
      {
        if Pos(r, c) != a && Pos(r, c) != b {
        }
      }
    }
  }

  /** areTheSame: the two grid positions coincide. */
  predicate AreTheSame(p: Pos, q: Pos): (b: bool)
    ensures b <==> p == q
  {
    p.row == q.row && p.col == q.col
  }

  function Abs(x: int): int
  {
    if x < 0 then -x else x
  }

  /** areNext: Manhattan distance exactly 1. */
  predicate AreNext(p: Pos, q: Pos): (b: bool)
    ensures b <==> (p.row == q.row && Abs(p.col - q.col) == 1) ||
                   (p.col == q.col && Abs(p.row - q.row) == 1)
  {
    Abs(p.row - q.row) + Abs(p.col - q.col) == 1
  }

  /** The four directions a swipe can take. */
  datatype Move = Up | Down | Left | Right

  /** The cell one step from p in the given direction. */
  function Step(p: Pos, m: Move): (q: Pos)
    ensures AreNext(p, q)
  {
    match m
    case Up => Pos(p.row - 1, p.col)
    case Down => Pos(p.row + 1, p.col)
    case Left => Pos(p.row, p.col - 1)
    case Right => Pos(p.row, p.col + 1)
  }

  /** The two ways of picking a partner agree: a cell is next to p exactly
      when one swipe from p reaches it, and it is never p itself. */
  lemma NextIffStep(p: Pos, q: Pos)
    ensures AreNext(p, q) <==> exists m :: Step(p, m) == q
    ensures AreNext(p, q) ==> !AreTheSame(p, q)
  {
    if AreNext(p, q) {
      if q.row == p.row - 1 {
        assert Step(p, Up) == q;
      } else if q.row == p.row + 1 {
        assert Step(p, Down) == q;
      } else if q.col == p.col - 1 {
        assert Step(p, Left) == q;
      } else {
        assert Step(p, Right) == q;
      }
    }
  }
}
