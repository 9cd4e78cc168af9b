/** The board engine of the Demo scene: the field, the removal map, the
    counters and the selection, with the operations that update them and the
    callbacks that the swap, destroy and fall animations end in, run here as
    ordinary calls. */
module Game {
  import opened Board
  import opened Runs
  import opened Draws
  import opened Gravity

  /** Where the engine stands between animations. Only Idle accepts input. */
  datatype Phase =
    | Idle
    | Swapping(gem1: Pos, gem2: Pos, swapBack: bool)
    | Destroying
    | Refilling

  /** The field before drawField has coloured it. */
  function Blank(): (g: Grid)
    ensures IsGrid(g) && ColorsInRange(g)
  {
    seq(FieldSize, i => seq(FieldSize, j => Gem(0, false)))
  }

  /** A removal map of zeros, as handleMatches allocates it. */
  function Zeros(): (m: seq<seq<int>>)
    ensures IsGrid(m) && forall r, c :: InBounds(r, c) ==> m[r][c] == 0
  {
    seq(FieldSize, i => seq(FieldSize, j => 0))
  }

  /** One pass of handleMatches on field g: map counts for each cell the
      orientations it is matched in, and h is g with exactly the counted cells
      emptied. */
  ghost predicate MatchesHandled(g: Grid, marks: seq<seq<int>>, h: Grid)
    requires IsGrid(g)
  {
    IsGrid(marks) && IsGrid(h) &&
    forall r, c :: InBounds(r, c) ==>
      marks[r][c] == Orientations(g, r, c) &&
      h[r][c] == if marks[r][c] > 0 then g[r][c].(isEmpty := true) else g[r][c]
  }

  /** The two marking passes over a zeroed map count each cell's orientations,
      and the map then has a positive entry exactly when the field has a match. */
  lemma PassesHandled(g: Grid, m0: seq<seq<int>>, m1: seq<seq<int>>, m2: seq<seq<int>>, h: Grid)
    requires IsGrid(g) && IsGrid(m0) && IsGrid(m1) && IsGrid(m2) && IsGrid(h)
    requires forall r, c :: InBounds(r, c) ==> m0[r][c] == 0
    requires forall r, c :: InBounds(r, c) ==>
               m1[r][c] == m0[r][c] + (if MarkedAt(g, Horizontal, r, c) then 1 else 0)
    requires forall r, c :: InBounds(r, c) ==>
               m2[r][c] == m1[r][c] + (if MarkedAt(g, Vertical, r, c) then 1 else 0)
    requires forall r, c :: InBounds(r, c) ==>
               h[r][c] == if m2[r][c] > 0 then g[r][c].(isEmpty := true) else g[r][c]
    ensures MatchesHandled(g, m2, h)
    ensures HasMatch(g) <==> exists r, c :: InBounds(r, c) && m2[r][c] > 0
  {
    HasMatchIffMarked(g);
    if HasMatch(g) {
      var r, c :| InBounds(r, c) && Orientations(g, r, c) > 0;
      assert m2[r][c] > 0;
    }
  }

  /** The step destroyGems takes on the score: with userScore == m / 3
      before, raising it exactly when the new count m + 1 is a multiple of 3
      leaves userScore == (m + 1) / 3, so the score stays matches / 3. */
  lemma ScoreStep(m: int)
    requires 0 <= m
    ensures (m + 1) / 3 == m / 3 + (if (m + 1) % 3 == 0 then 1 else 0)
  {
  }

  class Demo {
    /** Phaser.Math.Between(0, gemColors - 1), as a stream of draws. */
    const rng: nat -> int
    /** Number of draws taken from rng so far. */
    var drawn: nat
    var canPick: bool
    var dragging: bool
    var selectedGem: Option<Pos>
    var gameArray: Grid
    var removeMap: seq<seq<int>>
    var userScore: int
    var matches: int
    ghost var phase: Phase

    /** Shapes, ranges and counters that hold at every step. */
    ghost predicate Sound()
      reads this
    {
      IsGrid(gameArray) && IsGrid(removeMap) && ColorsInRange(gameArray) &&
      InPalette(rng) && Fair(rng) &&
      0 <= matches && userScore == matches / 3 &&
      (dragging ==> canPick) &&
      (selectedGem.Some? ==> Inside(selectedGem.value))
    }

    /** The engine invariant: input is accepted exactly when idle, and an idle
        field is full and has no match. */
    ghost predicate Valid()
      reads this
    {
      Sound() && (canPick <==> phase == Idle) &&
      match phase
      case Idle => Full(gameArray) && !HasMatch(gameArray)
      case Swapping(gem1, gem2, _) => Full(gameArray) && Inside(gem1) && Inside(gem2)
      case Destroying => true
      case Refilling => Full(gameArray)
    }

    /** The scene's initial fields and create(), which draws the field. */
    constructor (rng: nat -> int)
      requires InPalette(rng) && Fair(rng)
      ensures Valid() && phase == Idle && this.rng == rng
      ensures canPick && !dragging && selectedGem == None
      ensures matches == 0 && userScore == 0
    {
      this.rng := rng;
      drawn := 0;
      canPick := true;
      dragging := false;
      selectedGem := None;
      gameArray := Blank();
      removeMap := Zeros();
      userScore := 0;
      matches := 0;
      phase := Idle;
      new;
      DrawField();
    }

    /** drawField: fill the field in row-major order, redrawing each cell
        until it makes no match with the cells already placed. */
    method DrawField()
      requires Sound()
      modifies this`gameArray, this`drawn
      ensures Sound() && Full(gameArray) && !HasMatch(gameArray)
      ensures drawn >= old(drawn)
    {
      var i := 0;
      while i < FieldSize
        invariant 0 <= i <= FieldSize
        invariant Sound() && drawn >= old(drawn)
        invariant forall r, c :: InBounds(r, c) && r < i ==>
                    !gameArray[r][c].isEmpty && !IsMatch(gameArray, r, c)
      {
        var j := 0;
        while j < FieldSize
          invariant 0 <= j <= FieldSize
          invariant Sound() && drawn >= old(drawn)
          invariant forall r, c :: InBounds(r, c) && (r < i || (r == i && c < j)) ==>
                      !gameArray[r][c].isEmpty && !IsMatch(gameArray, r, c)
        {
          ghost var before := gameArray;
          DrawGem(i, j);
          forall r, c | InBounds(r, c) && (r < i || (r == i && c < j))
            ensures IsMatch(gameArray, r, c) == IsMatch(before, r, c)
          {
            LaterWriteKeepsMatch(before, i, j, gameArray[i][j], r, c);
          }
          j := j + 1;
        }
        i := i + 1;
      }
    }

    /** The do-while of drawField for cell (i, j): draw a colour, place it,
        and draw again while the cell completes a match. */
    method DrawGem(i: int, j: int)
      requires Sound() && InBounds(i, j)
      modifies this`gameArray, this`drawn
      ensures Sound() && drawn > old(drawn)
      ensures gameArray == old(gameArray)[i := old(gameArray)[i][j := Gem(rng(drawn - 1), false)]]
      ensures !IsMatch(gameArray, i, j)
      ensures forall k :: old(drawn) <= k < drawn - 1 ==>
                rng(k) == LeftPairColor(old(gameArray), i, j) || rng(k) == AbovePairColor(old(gameArray), i, j)
    {
      ghost var g := gameArray;
      ghost var left, above := LeftPairColor(g, i, j), AbovePairColor(g, i, j);
      assert Avoids(rng, drawn, left, above);
      ghost var m: nat :| drawn <= m && rng(m) != left && rng(m) != above;
      assert g[i := g[i][j := g[i][j]]] == g by {
        assert g[i][j := g[i][j]] == g[i];
      }
      var randomColor := PlaceGem(g, i, j);
      while IsMatch(gameArray, i, j)
        invariant old(drawn) < drawn <= m + 1
        invariant randomColor == rng(drawn - 1)
        invariant gameArray == g[i := g[i][j := Gem(randomColor, false)]]
        invariant Sound()
        invariant IsMatch(gameArray, i, j) <==> randomColor == left || randomColor == above
        invariant forall k :: old(drawn) <= k < drawn - 1 ==> rng(k) == left || rng(k) == above
        decreases m + 1 - drawn
      {
        OverwriteCell(g, i, j, Gem(randomColor, false), gameArray[i][j]);
        randomColor := PlaceGem(g, i, j);
      }
    }

    /** One round of the do-while of drawField: draw a colour and place a gem
        of it at (i, j) of the field g, whose other cells stand as they are. */
    method PlaceGem(ghost g: Grid, i: int, j: int) returns (randomColor: int)
      requires Sound() && IsGrid(g) && InBounds(i, j)
      requires gameArray == g[i := g[i][j := gameArray[i][j]]]
      modifies this`gameArray, this`drawn
      ensures Sound() && drawn == old(drawn) + 1 && randomColor == rng(old(drawn))
      ensures gameArray == g[i := g[i][j := Gem(randomColor, false)]]
      ensures IsMatch(gameArray, i, j) <==>
                randomColor == LeftPairColor(g, i, j) || randomColor == AbovePairColor(g, i, j)
    {
      randomColor := rng(drawn);
      drawn := drawn + 1;
      gameArray := gameArray[i := gameArray[i][j := Gem(randomColor, false)]];
      OverwriteCell(g, i, j, old(gameArray)[i][j], Gem(randomColor, false));
      OnlyPairColorsMatch(g, i, j, Gem(randomColor, false));
      PlaceKeepsColors(old(gameArray), i, j, Gem(randomColor, false));
    }

    /** matchInBoard: scan the field for a match. */
    method MatchInBoard() returns (found: bool)
      requires IsGrid(gameArray)
      ensures found == HasMatch(gameArray)
    {
      var i := 0;
      while i < FieldSize
        invariant 0 <= i <= FieldSize
        invariant forall r, c :: InBounds(r, c) && r < i ==> !IsMatch(gameArray, r, c)
      {
        var j := 0;
        while j < FieldSize
          invariant 0 <= j <= FieldSize
          invariant forall r, c :: InBounds(r, c) && (r < i || (r == i && c < j)) ==>
                      !IsMatch(gameArray, r, c)
        {
          if IsMatch(gameArray, i, j) {
            return true;
          }
          j := j + 1;
        }
        i := i + 1;
      }
      return false;
    }

    /** gemSelect, on grid coordinates. */
    method GemSelect(row: int, col: int)
      requires Valid()
      modifies this`canPick, this`dragging, this`selectedGem, this`gameArray, this`phase
      ensures Valid()
      ensures !old(canPick) ==>
                dragging == old(dragging) && canPick == old(canPick) &&
                selectedGem == old(selectedGem) && gameArray == old(gameArray) && phase == old(phase)
      ensures old(canPick) && !InBounds(row, col) ==>
                dragging && canPick && selectedGem == old(selectedGem) && gameArray == old(gameArray)
      ensures old(canPick) && InBounds(row, col) && old(selectedGem) == None ==>
                dragging && canPick && selectedGem == Some(Pos(row, col)) && gameArray == old(gameArray)
      ensures old(canPick) && InBounds(row, col) && old(selectedGem).Some? ==>
                var sel, picked := old(selectedGem).value, Pos(row, col);
                if AreTheSame(picked, sel) then
                  dragging && canPick && selectedGem == None && gameArray == old(gameArray)
                else if AreNext(picked, sel) then
                  !dragging && !canPick && selectedGem == old(selectedGem) &&
                  gameArray == Swapped(old(gameArray), sel, picked) && phase == Swapping(sel, picked, true)
                else
                  dragging && canPick && selectedGem == Some(picked) && gameArray == old(gameArray)
    {
      if canPick {
        dragging := true;
        var pickedGem := GemAt(gameArray, row, col);
        if pickedGem.Some? {
          var picked := Pos(row, col);
          if selectedGem == None {
            selectedGem := Some(picked);
          } else {
            if AreTheSame(picked, selectedGem.value) {
              selectedGem := None;
            } else if AreNext(picked, selectedGem.value) {
              SwapGems(selectedGem.value, picked, true);
            } else {
              selectedGem := Some(picked);
            }
          }
        }
      }
    }

    /** startSwipe once the drag has been read as a direction: swap the
        selected gem with its neighbour that way, if there is one. */
    method StartSwipe(move: Move)
      requires Valid()
      modifies this`canPick, this`dragging, this`gameArray, this`phase
      ensures Valid()
      ensures var sel := old(selectedGem);
              if old(dragging) && sel.Some? && Inside(Step(sel.value, move)) then
                !canPick && !dragging && phase == Swapping(sel.value, Step(sel.value, move), true) &&
                gameArray == Swapped(old(gameArray), sel.value, Step(sel.value, move))
              else
                canPick == old(canPick) && dragging == old(dragging) &&
                gameArray == old(gameArray) && phase == old(phase)
    {
      if dragging && selectedGem.Some? {
        var target := Step(selectedGem.value, move);
        var pickedGem := GemAt(gameArray, target.row, target.col);
        if pickedGem.Some? {
          SwapGems(selectedGem.value, target, true);
        }
      }
    }

    /** stopSwipe. */
    method StopSwipe()
      requires Valid()
      modifies this`dragging
      ensures Valid() && !dragging
    {
      dragging := false;
    }

    /** swapGems: lock input and exchange the colours of the two cells. */
    method SwapGems(gem1: Pos, gem2: Pos, swapBack: bool)
      requires Sound() && Full(gameArray) && Inside(gem1) && Inside(gem2)
      modifies this`canPick, this`dragging, this`gameArray, this`phase
      ensures Valid()
      ensures gameArray == Swapped(old(gameArray), gem1, gem2)
      ensures !canPick && !dragging && phase == Swapping(gem1, gem2, swapBack)
    {
      canPick := false;
      dragging := false;
      var fromColor := gameArray[gem1.row][gem1.col].gemColor;
      var toColor := gameArray[gem2.row][gem2.col].gemColor;
      gameArray := SetColor(gameArray, gem1, toColor);
      gameArray := SetColor(gameArray, gem2, fromColor);
      phase := Swapping(gem1, gem2, swapBack);
      SwapKeepsShape(old(gameArray), gem1, gem2);
    }

    /** The completion of both swap tweens: swap back a trial swap that made
        no match, otherwise resolve the matches or give input back. */
    method SwapSettled(gem1: Pos, gem2: Pos, swapBack: bool)
      requires Valid() && phase == Swapping(gem1, gem2, swapBack)
      modifies this`removeMap, this`gameArray, this`matches, this`userScore,
               this`canPick, this`dragging, this`selectedGem, this`phase
      ensures Valid()
      ensures !HasMatch(old(gameArray)) && swapBack ==>
                gameArray == Swapped(old(gameArray), gem1, gem2) && phase == Swapping(gem1, gem2, false) &&
                matches == old(matches) && removeMap == old(removeMap) && selectedGem == old(selectedGem)
      ensures !HasMatch(old(gameArray)) && !swapBack ==>
                gameArray == old(gameArray) && canPick && !dragging && selectedGem == None && phase == Idle &&
                matches == old(matches) && removeMap == old(removeMap)
      ensures HasMatch(old(gameArray)) ==>
                MatchesHandled(old(gameArray), removeMap, gameArray) && matches == old(matches) + 1 &&
                phase == Destroying && selectedGem == old(selectedGem)
    {
      var found := MatchInBoard();
      if !found && swapBack {
        SwapGems(gem1, gem2, false);
      } else {
        found := MatchInBoard();
        if found {
          HandleMatches();
        } else {
          EnablePicking();
        }
      }
    }

    /** A trial swap and the completions that follow it: a swap that makes
        no match is undone exactly once and input comes back; one that makes
        a match starts its resolution. */
    method TrySwap(gem1: Pos, gem2: Pos)
      requires Valid() && phase == Idle && Inside(gem1) && Inside(gem2)
      modifies this`removeMap, this`gameArray, this`matches, this`userScore,
               this`canPick, this`dragging, this`selectedGem, this`phase
      ensures Valid()
      ensures !HasMatch(Swapped(old(gameArray), gem1, gem2)) ==>
                gameArray == old(gameArray) && canPick && !dragging && selectedGem == None && phase == Idle &&
                matches == old(matches) && userScore == old(userScore) && removeMap == old(removeMap)
      ensures HasMatch(Swapped(old(gameArray), gem1, gem2)) ==>
                MatchesHandled(Swapped(old(gameArray), gem1, gem2), removeMap, gameArray) &&
                matches == old(matches) + 1 && !dragging && phase == Destroying &&
                selectedGem == old(selectedGem)
    {
      SwapGems(gem1, gem2, true);
      var found := MatchInBoard();
      SwapSettled(gem1, gem2, true);
      if !found {
        SwapInvolution(old(gameArray), gem1, gem2);
        SwapSettled(gem1, gem2, false);
      }
    }

    /** enablePicking. */
    method EnablePicking()
      requires Sound() && Full(gameArray) && !HasMatch(gameArray)
      modifies this`canPick, this`selectedGem, this`phase
      ensures Valid() && canPick && selectedGem == None && phase == Idle
    {
      canPick := true;
      selectedGem := None;
      phase := Idle;
    }

    /** handleMatches: count every cell's matches into a fresh removal map,
        rows first and columns second, then destroy the counted cells. */
    method HandleMatches()
      requires Valid() && !canPick
      modifies this`removeMap, this`gameArray, this`matches, this`userScore, this`phase
      ensures Valid() && phase == Destroying
      ensures MatchesHandled(old(gameArray), removeMap, gameArray)
      ensures matches == old(matches) + 1
      ensures userScore == old(userScore) + (if matches % 3 == 0 then 1 else 0)
      ensures HasMatch(old(gameArray)) <==> exists r, c :: InBounds(r, c) && removeMap[r][c] > 0
    {
      phase := Destroying;
      removeMap := Zeros();
      ghost var m0 := removeMap;
      MarkMatches(Horizontal);
      ghost var m1 := removeMap;
      MarkMatches(Vertical);
      DestroyGems();
      PassesHandled(old(gameArray), m0, m1, removeMap, gameArray);
      assert Sound() && !canPick && phase == Destroying;
    }

    /** markMatches: scan every line of the direction and count each streak
        of three or more into removeMap. */
    method MarkMatches(direction: Direction)
      requires Sound()
      modifies this`removeMap
      ensures Sound()
      ensures forall r, c :: InBounds(r, c) ==>
                removeMap[r][c] == old(removeMap)[r][c] + (if MarkedAt(gameArray, direction, r, c) then 1 else 0)
    {
      var i := 0;
      while i < FieldSize
        invariant 0 <= i <= FieldSize
        invariant Sound()
        invariant forall r, c :: InBounds(r, c) ==>
                    removeMap[r][c] == old(removeMap)[r][c] +
                      (if Visited(direction, i, 0, r, c) && MarkedAt(gameArray, direction, r, c) then 1 else 0)
      {
        MarkLine(direction, i);
        i := i + 1;
      }
    }

    /** One pass of the outer loop of markMatches, over line i: keep the
        length, colour and start of the current streak, and count the streak
        into removeMap when it breaks or the line ends, if it has three or
        more cells. */
    method MarkLine(direction: Direction, i: int)
      requires Sound() && 0 <= i < FieldSize
      modifies this`removeMap
      ensures Sound()
      ensures forall r, c :: InBounds(r, c) ==>
                removeMap[r][c] == old(removeMap)[r][c] +
                  (if OnLine(direction, i, 0, FieldSize, r, c) && MarkedAt(gameArray, direction, r, c) then 1 else 0)
    {
      ghost var s, m0 := Line(gameArray, direction, i), removeMap;
      var colorStreak, currentColor, startStreak := 1, -1, 0;
      var j := 0;
      while j < FieldSize
        invariant 0 <= j <= FieldSize
        invariant Sound()
        invariant Streak(s, j, colorStreak, currentColor, startStreak)
        invariant CountedTo(m0, removeMap, s, direction, i, startStreak)
      {
        var colorToWatch := if direction == Horizontal then gameArray[i][j].gemColor else gameArray[j][i].gemColor;
        assert colorToWatch == s[j] && 0 <= colorToWatch;
        if colorToWatch == currentColor {
          StreakGrows(s, j, colorStreak, currentColor, startStreak);
          colorStreak := colorStreak + 1;
        } else {
          StreakBreaks(s, j, colorStreak, currentColor, startStreak);
          ghost var before := removeMap;
          if colorStreak >= 3 {
            UpdateRemoveMap(i, startStreak, colorStreak, direction);
          }
          if 0 < j {
            CountRun(m0, before, removeMap, s, direction, i, startStreak, j);
          }
          startStreak := j;
          colorStreak := 1;
          currentColor := colorToWatch;
        }
        j := j + 1;
      }
      ghost var before := removeMap;
      if colorStreak >= 3 {
        UpdateRemoveMap(i, startStreak, colorStreak, direction);
      }
      CountRun(m0, before, removeMap, s, direction, i, startStreak, FieldSize);
      CountedLine(gameArray, m0, removeMap, direction, i);
    }

    /** updateRemoveMap: add one to each of the colorStreak cells of line i
        from index startStreak. */
    method UpdateRemoveMap(i: int, startStreak: int, colorStreak: int, direction: Direction)
      requires IsGrid(removeMap) && 0 <= i < FieldSize
      requires 0 <= startStreak && 0 <= colorStreak && startStreak + colorStreak <= FieldSize
      modifies this`removeMap
      ensures IsGrid(removeMap)
      ensures forall r, c :: InBounds(r, c) ==>
                removeMap[r][c] == old(removeMap)[r][c] +
                  (if OnLine(direction, i, startStreak, colorStreak, r, c) then 1 else 0)
    {
      var k := 0;
      while k < colorStreak
        invariant 0 <= k <= colorStreak && IsGrid(removeMap)
        invariant forall r, c :: InBounds(r, c) ==>
                    removeMap[r][c] == old(removeMap)[r][c] +
                      (if OnLine(direction, i, startStreak, k, r, c) then 1 else 0)
      {
        if direction == Horizontal {
          removeMap := removeMap[i := removeMap[i][startStreak + k := removeMap[i][startStreak + k] + 1]];
        } else {
          removeMap := removeMap[startStreak + k := removeMap[startStreak + k][i := removeMap[startStreak + k][i] + 1]];
        }
        k := k + 1;
      }
    }

    /** destroyGems: count one match pass, raise the score on every third,
        and empty every cell the removal map counts. */
    method DestroyGems()
      requires Sound()
      modifies this`gameArray, this`matches, this`userScore
      ensures Sound()
      ensures matches == old(matches) + 1
      ensures userScore == old(userScore) + (if matches % 3 == 0 then 1 else 0)
      ensures forall r, c :: InBounds(r, c) ==>
                gameArray[r][c] == if removeMap[r][c] > 0 then old(gameArray)[r][c].(isEmpty := true)
                                   else old(gameArray)[r][c]
    {
      ScoreStep(matches);
      matches := matches + 1;
      if matches % 3 == 0 {
        userScore := userScore + 1;
      }
      ghost var m, u := matches, userScore;
      var i := 0;
      while i < FieldSize
        invariant 0 <= i <= FieldSize
        invariant Sound() && matches == m && userScore == u
        invariant forall r, c :: InBounds(r, c) ==>
                    gameArray[r][c] == if r < i && removeMap[r][c] > 0 then old(gameArray)[r][c].(isEmpty := true)
                                       else old(gameArray)[r][c]
      {
        DestroyRow(i);
        i := i + 1;
      }
    }

    /** The inner loop of destroyGems over row i: empty each cell of the row
        that the removal map counts. */
    method DestroyRow(i: int)
      requires Sound() && 0 <= i < FieldSize
      modifies this`gameArray
      ensures Sound()
      ensures forall r, c :: InBounds(r, c) ==>
                gameArray[r][c] == if r == i && removeMap[r][c] > 0 then old(gameArray)[r][c].(isEmpty := true)
                                   else old(gameArray)[r][c]
    {
      var j := 0;
      while j < FieldSize
        invariant 0 <= j <= FieldSize
        invariant Sound()
        invariant forall r, c :: InBounds(r, c) ==>
                    gameArray[r][c] == if r == i && c < j && removeMap[r][c] > 0
                                       then old(gameArray)[r][c].(isEmpty := true)
                                       else old(gameArray)[r][c]
      {
        if removeMap[i][j] > 0 {
          gameArray := gameArray[i := gameArray[i][j := gameArray[i][j].(isEmpty := true)]];
        }
        j := j + 1;
      }
    }

    /** The completion of the last destroy tween: gravity, then refill. */
    method GemsDestroyed()
      requires Valid() && phase == Destroying
      modifies this`gameArray, this`drawn, this`phase
      ensures Valid() && phase == Refilling
      ensures exists f :: IsGrid(f) && Fallen(old(gameArray), f) && Refilled(f, gameArray, rng, old(drawn)) &&
                drawn == old(drawn) + HolesBefore(f, FieldSize)
    {
      MakeGemsFall();
      ghost var f := gameArray;
      ReplenishField();
      RefillAfterFallIsFull(old(gameArray), f, gameArray, rng, old(drawn));
      phase := Refilling;
    }

    /** makeGemsFall: from the second row from the bottom upwards, move each
        gem down over the holes below it. */
    method MakeGemsFall()
      requires Sound()
      modifies this`gameArray
      ensures Sound()
      ensures Fallen(old(gameArray), gameArray)
    {
      ghost var o, bottom := gameArray, FieldSize - 1;
      forall c | 0 <= c < FieldSize
        ensures FallenFrom(o, o, c, bottom)
      {
        FallStart(o, c);
      }
      var i := FieldSize - 2;
      while i >= 0
        invariant -1 <= i <= FieldSize - 2
        invariant Sound()
        invariant FallenBelow(o, gameArray, i + 1)
      {
        FallRowStart(o, gameArray, i);
        MakeRowFall(o, i);
        FallRowDone(o, gameArray, i);
        i := i - 1;
      }
    }

    /** The inner loop of makeGemsFall over row i: each gem of the row with
        holes below it moves down over them. */
    method MakeRowFall(ghost o: Grid, i: int)
      requires Sound() && IsGrid(o) && 0 <= i < FieldSize - 1
      requires FallenPart(o, gameArray, i, 0)
      modifies this`gameArray
      ensures Sound() && FallenPart(o, gameArray, i, FieldSize)
    {
      var j := 0;
      while j < FieldSize
        invariant 0 <= j <= FieldSize
        invariant Sound()
        invariant FallenPart(o, gameArray, i, j)
      {
        ghost var before := gameArray;
        if !gameArray[i][j].isEmpty {
          var fallTiles := HolesBelow(i, j);
          if fallTiles > 0 {
            gameArray := gameArray[i + fallTiles := gameArray[i + fallTiles][j := Gem(gameArray[i][j].gemColor, false)]];
            gameArray := gameArray[i := gameArray[i][j := gameArray[i][j].(isEmpty := true)]];
          }
        }
        assert gameArray == FallOne(before, i, j);
        FallPartStep(o, before, i, j);
        j := j + 1;
      }
    }

    /** holesBelow: the empty cells of column col under row row. */
    method HolesBelow(row: int, col: int) returns (result: int)
      requires IsGrid(gameArray) && InBounds(row, col)
      ensures result == CountHoles(gameArray, col, row + 1)
    {
      result := 0;
      var i := row + 1;
      while i < FieldSize
        invariant row + 1 <= i <= FieldSize
        invariant result + CountHoles(gameArray, col, i) == CountHoles(gameArray, col, row + 1)
      {
        if gameArray[i][col].isEmpty {
          result := result + 1;
        }
        i := i + 1;
      }
    }

    /** replenishField: column by column, give the top holesInCol cells fresh
        colours from the source, top to bottom. */
    method ReplenishField()
      requires Sound()
      modifies this`gameArray, this`drawn
      ensures Sound()
      ensures Refilled(old(gameArray), gameArray, rng, old(drawn))
      ensures drawn == old(drawn) + HolesBefore(old(gameArray), FieldSize)
    {
      ghost var o, start := gameArray, drawn;
      ghost var holes: seq<nat>, offsets: seq<nat> := HoleCounts(o), DrawOffsets(o);
      RefillStart(o, rng, start, holes, offsets);
      var j := 0;
      while j < FieldSize
        invariant 0 <= j <= FieldSize
        invariant Sound()
        invariant drawn == start + offsets[j]
        invariant RefilledUpTo(o, gameArray, rng, start, holes, offsets, j, 0)
      {
        RefillColumnUntouched(o, gameArray, rng, start, holes, offsets, j);
        var emptySpots := HolesInCol(j);
        ReplenishColumn(o, start, holes, offsets, j, emptySpots);
        assert offsets[j + 1] == offsets[j] + holes[j];
        RefillColumnDone(o, gameArray, rng, start, holes, offsets, j);
        j := j + 1;
      }
      assert drawn == start + HolesBefore(o, FieldSize);
      RefillDone(o, gameArray, rng, start);
      assert Sound();
    }

    /** The inner loop of replenishField: set up the top emptySpots cells of
        column j, top to bottom, one draw each. */
    method ReplenishColumn(ghost o: Grid, ghost start: nat, ghost holes: seq<nat>, ghost offsets: seq<nat>,
                           j: int, emptySpots: int)
      requires Sound() && IsGrid(o) && |holes| == FieldSize && |offsets| > FieldSize
      requires 0 <= j < FieldSize && 0 <= emptySpots <= FieldSize && emptySpots == holes[j]
      requires drawn == start + offsets[j]
      requires RefilledUpTo(o, gameArray, rng, start, holes, offsets, j, 0)
      modifies this`gameArray, this`drawn
      ensures Sound() && drawn == old(drawn) + emptySpots
      ensures RefilledUpTo(o, gameArray, rng, start, holes, offsets, j, emptySpots)
    {
      var i := 0;
      while i < emptySpots
        invariant 0 <= i <= emptySpots
        invariant Sound()
        invariant drawn == start + offsets[j] + i
        invariant RefilledUpTo(o, gameArray, rng, start, holes, offsets, j, i)
      {
        RefillStep(o, gameArray, rng, start, holes, offsets, j, i, rng(drawn));
        SetupGem(i, j);
        i := i + 1;
      }
    }

    /** setupGem: give cell (i, j) a fresh colour from the source and mark it full. */
    method SetupGem(i: int, j: int)
      requires Sound() && InBounds(i, j)
      modifies this`gameArray, this`drawn
      ensures Sound() && drawn == old(drawn) + 1
      ensures gameArray == old(gameArray)[i := old(gameArray)[i][j := Gem(rng(old(drawn)), false)]]
    {
      var randomColor := rng(drawn);
      drawn := drawn + 1;
      gameArray := gameArray[i := gameArray[i][j := gameArray[i][j].(gemColor := randomColor, isEmpty := false)]];
      PlaceKeepsColors(old(gameArray), i, j, Gem(randomColor, false));
    }

    /** holesInCol: the empty cells of column col. */
    method HolesInCol(col: int) returns (result: int)
      requires IsGrid(gameArray) && 0 <= col < FieldSize
      ensures result == CountHoles(gameArray, col, 0)
    {
      result := 0;
      var i := 0;
      while i < FieldSize
        invariant 0 <= i <= FieldSize
        invariant result + CountHoles(gameArray, col, i) == CountHoles(gameArray, col, 0)
      {
        if gameArray[i][col].isEmpty {
          result := result + 1;
        }
        i := i + 1;
      }
    }

    /** The completion of the last refill tween: cascade if the new field has
        a match, otherwise give input back. */
    method FieldReplenished()
      requires Valid() && phase == Refilling
      modifies this`removeMap, this`gameArray, this`matches, this`userScore,
               this`canPick, this`selectedGem, this`phase
      ensures Valid()
      ensures !HasMatch(old(gameArray)) ==>
                canPick && selectedGem == None && phase == Idle && gameArray == old(gameArray) &&
                matches == old(matches) && removeMap == old(removeMap)
      ensures HasMatch(old(gameArray)) ==>
                MatchesHandled(old(gameArray), removeMap, gameArray) && matches == old(matches) + 1 &&
                phase == Destroying && selectedGem == old(selectedGem)
    {
      var found := MatchInBoard();
      if found {
        HandleMatches();
      } else {
        canPick := true;
        selectedGem := None;
        phase := Idle;
      }
    }
  }
}
