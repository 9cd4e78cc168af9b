/** Runs of equal colours along one row or one column, the reference for what
    the marking pass of handleMatches must find. */
module Runs {
  import opened Board

  /** The two scanning directions of markMatches (HORIZONTAL = 1, VERTICAL = 2). */
  datatype Direction = Horizontal | Vertical

  /** First index of the maximal block of equal values that contains k. */
  function RunStart(s: seq<int>, k: int): (lo: int)
    requires 0 <= k < |s|
    ensures 0 <= lo <= k
    ensures forall m :: lo <= m <= k ==> s[m] == s[k]
    ensures lo == 0 || s[lo - 1] != s[k]
    decreases k
  {
    if k > 0 && s[k - 1] == s[k] then RunStart(s, k - 1) else k
  }

  /** One past the last index of the maximal block of equal values that contains k. */
  function RunEnd(s: seq<int>, k: int): (hi: int)
    requires 0 <= k < |s|
    ensures k < hi <= |s|
    ensures forall m :: k <= m < hi ==> s[m] == s[k]
    ensures hi == |s| || s[hi] != s[k]
    decreases |s| - k
  {
    if k + 1 < |s| && s[k + 1] == s[k] then RunEnd(s, k + 1) else k + 1
  }

  /** k lies in a maximal run of equal values of length at least three. */
  predicate Marked(s: seq<int>, k: int)
    requires 0 <= k < |s|
  {
    RunEnd(s, k) - RunStart(s, k) >= 3
  }

  /** s[lo..hi] holds one value. */
  ghost predicate Constant(s: seq<int>, lo: int, hi: int)
    requires 0 <= lo <= hi <= |s|
  {
    forall m :: lo <= m < hi ==> s[m] == s[lo]
  }

  /** A block that is constant and cannot be extended on either side is the
      run of each of its elements. */
  lemma RunBounds(s: seq<int>, lo: int, hi: int, k: int)
    requires 0 <= lo <= k < hi <= |s|
    requires Constant(s, lo, hi)
    requires lo == 0 || s[lo - 1] != s[lo]
    requires hi == |s| || s[hi] != s[hi - 1]
    ensures RunStart(s, k) == lo && RunEnd(s, k) == hi
  {
    var a, b := RunStart(s, k), RunEnd(s, k);
    assert s[lo] == s[k];
  }

  /** Marked is membership in a block of three or more equal values; the
      block need not be maximal. */
  lemma MarkedIffRun(s: seq<int>, k: int)
    requires 0 <= k < |s|
    ensures Marked(s, k) <==>
              exists lo, hi :: 0 <= lo <= k < hi <= |s| && hi - lo >= 3 && Constant(s, lo, hi)
  {
    var a, b := RunStart(s, k), RunEnd(s, k);
    if Marked(s, k) {
      assert Constant(s, a, b) by {
        forall m | a <= m < b ensures s[m] == s[a] {
          if m <= k {
          } else {
          }
        }
      }
    }
    forall lo, hi | 0 <= lo <= k < hi <= |s| && hi - lo >= 3 && Constant(s, lo, hi)
      ensures Marked(s, k)
    {
      assert s[lo] == s[k];
    }
  }

  /** The row [0, 0, 0, 1, 2, 3] has its first three cells marked and no other. */
  lemma ExampleRow()
    ensures forall k :: 0 <= k < 6 ==> (Marked([0, 0, 0, 1, 2, 3], k) <==> k < 3)
  {
    var s := [0, 0, 0, 1, 2, 3];
    forall k | 0 <= k < 6
      ensures Marked(s, k) <==> k < 3
    {
      if k < 3 {
        RunBounds(s, 0, 3, k);
      } else {
        RunBounds(s, k, k + 1, k);
      }
    }
  }

  /** (r, c) is visited by the marking pass along dir once it has finished the
      lines before line i and the cells of line i before index start. */
  predicate Visited(dir: Direction, i: int, start: int, r: int, c: int)
  {
    if dir == Horizontal then r < i || (r == i && c < start)
    else c < i || (c == i && r < start)
  }

  /** The index of cell (r, c) along its line in the given direction. */
  function Along(dir: Direction, r: int, c: int): int
  {
    if dir == Horizontal then c else r
  }

  /** (r, c) is one of the len cells of line i from index start. */
  predicate OnLine(dir: Direction, i: int, start: int, len: int, r: int, c: int)
  {
    if dir == Horizontal then r == i && start <= c < start + len
    else c == i && start <= r < start + len
  }

  /** The streak s[lo..hi] that markMatches has just closed is a maximal
      run: its cells are marked exactly when it has three or more. */
  lemma StreakIsRun(s: seq<int>, lo: int, hi: int)
    requires 0 <= lo < hi <= |s| && Constant(s, lo, hi)
    requires lo == 0 || s[lo - 1] != s[lo]
    requires hi == |s| || s[hi] != s[hi - 1]
    ensures forall k :: lo <= k < hi ==> (Marked(s, k) <==> hi - lo >= 3)
  {
    forall k | lo <= k < hi
      ensures Marked(s, k) <==> hi - lo >= 3
    {
      RunBounds(s, lo, hi, k);
    }
  }

  /** The streak variables of markMatches after the first j cells of a line
      with colours s: before the first cell they hold their initial values,
      afterwards s[start..j] is the maximal block of equal colours that ends
      at cell j - 1, of length count and colour color. */
  ghost predicate Streak(s: seq<int>, j: int, count: int, color: int, start: int)
    requires |s| == FieldSize && 0 <= j <= FieldSize
  {
    if j == 0 then count == 1 && color == -1 && start == 0
    else 0 <= start < j && count == j - start && color == s[j - 1] && Constant(s, start, j) &&
         (start == 0 || s[start - 1] != s[start])
  }

  /** A cell of the streak's colour lengthens the streak. Colours are never
      negative, so the first cell never continues the initial colour -1. */
  lemma StreakGrows(s: seq<int>, j: int, count: int, color: int, start: int)
    requires |s| == FieldSize && 0 <= j < FieldSize && Streak(s, j, count, color, start)
    requires 0 <= s[j] && s[j] == color
    ensures Streak(s, j + 1, count + 1, color, start)
  {
    assert 0 < j;
  }

  /** A cell of another colour closes the streak, which is then maximal, and
      starts a new one at j. */
  lemma StreakBreaks(s: seq<int>, j: int, count: int, color: int, start: int)
    requires |s| == FieldSize && 0 <= j < FieldSize && Streak(s, j, count, color, start)
    requires s[j] != color
    ensures 0 < j ==> 0 <= start < j && count == j - start && Constant(s, start, j) &&
                      (start == 0 || s[start - 1] != s[start]) && s[j] != s[j - 1]
    ensures Streak(s, j + 1, 1, s[j], j)
  {
  }

  /** markMatches part way along line i, whose colours are s: m is m0 plus one
      for every cell of the line before index start that s marks. */
  ghost predicate CountedTo(m0: seq<seq<int>>, m: seq<seq<int>>, s: seq<int>, dir: Direction, i: int, start: int)
    requires IsGrid(m0) && IsGrid(m) && |s| == FieldSize
  {
    forall r, c :: InBounds(r, c) ==>
      m[r][c] == m0[r][c] + (if OnLine(dir, i, 0, start, r, c) && Marked(s, Along(dir, r, c)) then 1 else 0)
  }

  /** Closing the streak s[lo..hi], and counting it when it has three or more
      cells, moves the count on to index hi. */
  lemma CountRun(m0: seq<seq<int>>, m: seq<seq<int>>, m2: seq<seq<int>>, s: seq<int>,
                 dir: Direction, i: int, lo: int, hi: int)
    requires IsGrid(m0) && IsGrid(m) && IsGrid(m2) && |s| == FieldSize && 0 <= i < FieldSize
    requires 0 <= lo < hi <= FieldSize && Constant(s, lo, hi)
    requires lo == 0 || s[lo - 1] != s[lo]
    requires hi == FieldSize || s[hi] != s[hi - 1]
    requires CountedTo(m0, m, s, dir, i, lo)
    requires forall r, c :: InBounds(r, c) ==>
               m2[r][c] == m[r][c] + (if hi - lo >= 3 && OnLine(dir, i, lo, hi - lo, r, c) then 1 else 0)
    ensures CountedTo(m0, m2, s, dir, i, hi)
  {
    StreakIsRun(s, lo, hi);
    forall r, c | InBounds(r, c)
      ensures m2[r][c] == m0[r][c] + (if OnLine(dir, i, 0, hi, r, c) && Marked(s, Along(dir, r, c)) then 1 else 0)
    {
      if OnLine(dir, i, lo, hi - lo, r, c) {
        assert Marked(s, Along(dir, r, c)) <==> hi - lo >= 3;
      }
    }
  }

  /** A whole line counted along its own colours is counted by MarkedAt. */
  lemma CountedLine(g: Grid, m0: seq<seq<int>>, m: seq<seq<int>>, dir: Direction, i: int)
    requires IsGrid(g) && IsGrid(m0) && IsGrid(m) && 0 <= i < FieldSize
    requires CountedTo(m0, m, Line(g, dir, i), dir, i, FieldSize)
    ensures forall r, c :: InBounds(r, c) ==>
              m[r][c] == m0[r][c] + (if OnLine(dir, i, 0, FieldSize, r, c) && MarkedAt(g, dir, r, c) then 1 else 0)
  {
    forall r, c | InBounds(r, c) && OnLine(dir, i, 0, FieldSize, r, c)
      ensures MarkedAt(g, dir, r, c) == Marked(Line(g, dir, i), Along(dir, r, c))
    {
    }
  }

  /** The colours of row i (Horizontal) or column i (Vertical), in scan order. */
  function Line(g: Grid, dir: Direction, i: int): (s: seq<int>)
    requires IsGrid(g) && 0 <= i < FieldSize
    ensures |s| == FieldSize
  {
    seq(FieldSize, k requires 0 <= k < FieldSize =>
      if dir == Horizontal then g[i][k].gemColor else g[k][i].gemColor)
  }

  /** (r, c) lies in a run of three or more along the given direction. */
  predicate MarkedAt(g: Grid, dir: Direction, r: int, c: int)
    requires IsGrid(g) && InBounds(r, c)
  {
    if dir == Horizontal then Marked(Line(g, Horizontal, r), c)
    else Marked(Line(g, Vertical, c), r)
  }

  /** In how many orientations (0, 1 or 2) the cell (r, c) is matched. */
  function Orientations(g: Grid, r: int, c: int): int
    requires IsGrid(g) && InBounds(r, c)
  {
    (if MarkedAt(g, Horizontal, r, c) then 1 else 0) +
    (if MarkedAt(g, Vertical, r, c) then 1 else 0)
  }

  /** A cell that completes a match with its left (upper) neighbours is itself
      in a horizontal (vertical) run of at least three. */
  lemma MatchIsMarked(g: Grid, r: int, c: int)
    requires IsGrid(g) && InBounds(r, c)
    ensures IsHorizontalMatch(g, r, c) ==> MarkedAt(g, Horizontal, r, c)
    ensures IsVerticalMatch(g, r, c) ==> MarkedAt(g, Vertical, r, c)
  {
    MatchAtIff(g, r, c);
    if IsHorizontalMatch(g, r, c) {
      var s := Line(g, Horizontal, r);
      assert s[c - 2] == s[c - 1] == s[c];
      assert RunStart(s, c) <= c - 2 by {
        assert RunStart(s, c) == RunStart(s, c - 1) == RunStart(s, c - 2);
      }
    }
    if IsVerticalMatch(g, r, c) {
      var s := Line(g, Vertical, c);
      assert s[r - 2] == s[r - 1] == s[r];
      assert RunStart(s, r) <= r - 2 by {
        assert RunStart(s, r) == RunStart(s, r - 1) == RunStart(s, r - 2);
      }
    }
  }

  /** A marked cell means a run of three, whose third cell matches with its
      two predecessors. */
  lemma MarkedHasMatch(g: Grid, dir: Direction, r: int, c: int)
    requires IsGrid(g) && InBounds(r, c) && MarkedAt(g, dir, r, c)
    ensures HasMatch(g)
  {
    var s := Line(g, dir, if dir == Horizontal then r else c);
    var k := if dir == Horizontal then c else r;
    var lo := RunStart(s, k);
    assert s[lo] == s[lo + 1] == s[lo + 2] == s[k];
    if dir == Horizontal {
      MatchAtIff(g, r, lo + 2);
      assert IsMatch(g, r, lo + 2);
    } else {
      MatchAtIff(g, lo + 2, c);
      assert IsMatch(g, lo + 2, c);
    }
  }

  /** The marking passes find something exactly when matchInBoard does. */
  lemma HasMatchIffMarked(g: Grid)
    requires IsGrid(g)
    ensures HasMatch(g) <==> exists r, c :: InBounds(r, c) && Orientations(g, r, c) > 0
  {
    if HasMatch(g) {
      var r, c :| InBounds(r, c) && IsMatch(g, r, c);
      MatchIsMarked(g, r, c);
      assert Orientations(g, r, c) > 0;
    }
    forall r, c | InBounds(r, c) && Orientations(g, r, c) > 0
      ensures HasMatch(g)
    {
      if MarkedAt(g, Horizontal, r, c) {
        MarkedHasMatch(g, Horizontal, r, c);
      } else {
        MarkedHasMatch(g, Vertical, r, c);
      }
    }
  }
}
