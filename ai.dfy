/** The computer opponent: the three difficulty levels and the dispatch between them. */
module Ai {
  import opened Grid
  import opened Result
  import opened AiHelper

  // ---------------------------------------------------------------- easy

  /** What the easy level may return: some empty cell, and None only on a full board. */
  predicate EasyChoice(b: Board, r: Option<Pos>) {
    (r.Some? ==> ValidPos(r.value) && At(b, r.value) == None)
    && (r.None? <==> Empties(b) == 0)
  }

  /** The easy level: random.choice over the empty cells in row-major order, or None when
      there are none. */
  method Easy(b: Board) returns (r: Option<Pos>)
    ensures EasyChoice(b, r)
    ensures r.Some? ==> r.value in AllPositions
  {
    FullBoard(b);
    r := ChooseEmpty(b, AllPositions);
  }

  // ---------------------------------------------------------------- medium

  /** The medium level's rule chain, first applicable rule first: win, block, fork, block a
      fork, centre, opposite corner, an empty corner, an empty side, and last the easy
      level. The two random rules fix only which cells may come out. */
  ghost predicate MediumChoice(b: Board, player: Mark, ai: Mark, r: Option<Pos>) {
    if TwoInRow(b, ai).Some? then r == TwoInRow(b, ai)
    else if TwoInRow(b, player).Some? then r == TwoInRow(b, player)
    else if ForkCell(b, ai).Some? then r == ForkCell(b, ai)
    else if ForkCell(b, player).Some? then r == ForkCell(b, player)
    else if Centre(b).Some? then r == Centre(b)
    else if OppositeCorner(b, player).Some? then r == OppositeCorner(b, player)
    else if exists c :: c in Corners && At(b, c) == None then r.Some? && r.value in Corners && At(b, r.value) == None
    else if exists c :: c in Sides && At(b, c) == None then r.Some? && r.value in Sides && At(b, r.value) == None
    else EasyChoice(b, r)
  }

  /** The medium level on the shared grid; the fork rules write into the grid and clear
      what they wrote, so the grid ends as it started. */
  method Medium(grid: array<Cell>, player: Mark, ai: Mark) returns (move: Option<Pos>)
    requires grid.Length == 9
    modifies grid
    ensures grid[..] == old(grid[..])
    ensures MediumChoice(old(grid[..]), player, ai, move)
  {
    move := TwoInRow(grid[..], ai);
    if move.Some? { return; }
    move := TwoInRow(grid[..], player);
    if move.Some? { return; }
    move := Fork(grid, ai);
    if move.Some? { return; }
    move := Fork(grid, player);
    if move.Some? { return; }
    move := Centre(grid[..]);
    if move.Some? { return; }
    move := OppositeCorner(grid[..], player);
    if move.Some? { return; }
    move := EmptyCorner(grid[..]);
    if move.Some? { return; }
    move := EmptySide(grid[..]);
    if move.Some? { return; }
    move := Easy(grid[..]);
  }

  /** The medium level always names an empty cell, and returns None exactly when the
      board is full. Its last rule is never needed: a board whose centre, corners and sides
      are all taken is full. */
  lemma MediumMoveIsLegal(b: Board, player: Mark, ai: Mark, r: Option<Pos>)
    requires MediumChoice(b, player, ai, r)
    ensures r.Some? ==> ValidPos(r.value) && At(b, r.value) == None
    ensures r.None? <==> Empties(b) == 0
  {
    if Centre(b).None? && !(exists c :: c in Corners && At(b, c) == None) && !(exists c :: c in Sides && At(b, c) == None) {
      CentreCornersSidesCover(b);
    }
  }

  /** On a board nobody has won, when the computer can win at once the medium level plays
      a winning move. */
  lemma MediumTakesWin(b: Board, player: Mark, ai: Mark, r: Option<Pos>)
    requires MediumChoice(b, player, ai, r) && Winner(b) == None
    requires exists p :: WinningMove(b, p, ai)
    ensures r.Some? && WinningMove(b, r.value, ai)
  {
    TwoInRowFindsWin(b, ai);
  }

  /** On a board nobody has won, when the computer cannot win at once but the opponent
      could, the medium level plays on the opponent's winning cell. */
  lemma MediumBlocks(b: Board, player: Mark, ai: Mark, r: Option<Pos>)
    requires MediumChoice(b, player, ai, r) && Winner(b) == None
    requires !(exists p :: WinningMove(b, p, ai)) && exists p :: WinningMove(b, p, player)
    ensures r.Some? && WinningMove(b, r.value, player)
  {
    TwoInRowFindsWin(b, ai);
    TwoInRowFindsWin(b, player);
  }

  // ---------------------------------------------------------------- hard

  /** The score the hard level gives the empty cell i: the computer's mark is placed
      there and the minimax search runs on the opponent's turn, at depth 0. */
  function RootScore(b: Board, player: Mark, ai: Mark, i: int): int
    requires 0 <= i < 9 && b[i] == None
  {
    MinimaxScore(b[i := Some(ai)], player, ai, false, 0)
  }

  /** The scores the hard level's loop meets in row-major order, None for a filled cell. */
  function RootScores(b: Board, player: Mark, ai: Mark): (s: seq<Option<int>>)
    ensures |s| == 9
  {
    seq(9, i requires 0 <= i < 9 => if b[i] == None then Some(RootScore(b, player, ai, i)) else None)
  }

  /** The position of the first strictly greatest score, None when there is no score:
      the loop replaces its candidate only on a strictly greater score, starting from
      minus infinity. */
  function BestIndex(scores: seq<Option<int>>): (r: Option<nat>)
    ensures r.Some? ==> r.value < |scores| && scores[r.value].Some?
    ensures r.None? <==> forall i :: 0 <= i < |scores| ==> scores[i].None?
  {
    if scores == [] then None
    else
      var best := BestIndex(scores[..|scores| - 1]);
      var last := scores[|scores| - 1];
      if last.Some? && (best.None? || last.value > scores[best.value].value) then Some(|scores| - 1)
      else best
  }

  /** The chosen position holds a greatest score, and every earlier score is strictly
      smaller. */
  lemma {:induction false} BestIndexIsFirstMax(scores: seq<Option<int>>)
    ensures var r := BestIndex(scores);
            r.Some? ==> forall i :: 0 <= i < |scores| && scores[i].Some? ==>
              scores[i].value <= scores[r.value].value && (i < r.value ==> scores[i].value < scores[r.value].value)
  {
    if scores != [] {
      var init := scores[..|scores| - 1];
      BestIndexIsFirstMax(init);
      assert forall i :: 0 <= i < |init| ==> init[i] == scores[i];
    }
  }

  /** The cell the hard level plays on board b. */
  function HardMove(b: Board, player: Mark, ai: Mark): (r: Option<Pos>)
    ensures r.Some? ==> ValidPos(r.value) && At(b, r.value) == None
  {
    match BestIndex(RootScores(b, player, ai))
    case None => None
    case Some(i) => Some(PosAt(i))
  }

  /** The hard level on the shared grid: each empty cell gets the computer's mark, is
      scored by the search, and is cleared again; the first cell with the greatest score is
      returned, None when no cell is empty. */
  method Hard(grid: array<Cell>, player: Mark, ai: Mark) returns (bestMove: Option<Pos>)
    requires grid.Length == 9
    modifies grid
    ensures grid[..] == old(grid[..])
    ensures bestMove == HardMove(old(grid[..]), player, ai)
  {
    ghost var b: Board := grid[..];
    ghost var scores := RootScores(b, player, ai);
    ghost var best: Option<nat> := None;
    var bestScore: Option<int> := None;
    bestMove := None;
    for i := 0 to 9
      invariant grid[..] == b
      invariant best == BestIndex(scores[..i])
      invariant bestMove == (if best.Some? then Some(PosAt(best.value)) else None)
      invariant bestScore == (if best.Some? then scores[best.value] else None)
    {
      assert scores[..i + 1][..i] == scores[..i];
      if grid[i] != None {
        continue;
      }
      grid[i] := Some(ai);
      assert grid[..] == b[i := Some(ai)];
      var currentScore := Minimax(grid, player, ai, false, 0);
      grid[i] := None;
      assert grid[..] == b;
      if bestScore.None? || currentScore > bestScore.value {
        bestMove, bestScore := Some(PosAt(i)), Some(currentScore);
        best := Some(i);
      }
    }
    assert scores[..9] == scores;
  }

  /** The hard level plays an empty cell whose root score is the greatest over all empty
      cells, and every empty cell before it in row-major order scores strictly less. */
  lemma HardMoveIsFirstBest(b: Board, player: Mark, ai: Mark)
    requires HardMove(b, player, ai).Some?
    ensures var k := Index(HardMove(b, player, ai).value);
            b[k] == None &&
            forall j :: 0 <= j < 9 && b[j] == None ==>
              RootScore(b, player, ai, j) <= RootScore(b, player, ai, k)
              && (j < k ==> RootScore(b, player, ai, j) < RootScore(b, player, ai, k))
  {
    var scores := RootScores(b, player, ai);
    BestIndexIsFirstMax(scores);
    var k := BestIndex(scores).value;
    assert Index(HardMove(b, player, ai).value) == k;
    forall j | 0 <= j < 9 && b[j] == None
      ensures RootScore(b, player, ai, j) <= RootScore(b, player, ai, k)
      ensures j < k ==> RootScore(b, player, ai, j) < RootScore(b, player, ai, k)
    {
      assert scores[j] == Some(RootScore(b, player, ai, j));
    }
  }

  /** The hard level returns None exactly when the board is full. */
  lemma HardMoveNoneIffFull(b: Board, player: Mark, ai: Mark)
    ensures HardMove(b, player, ai).None? <==> Empties(b) == 0
  {
    var scores := RootScores(b, player, ai);
    assert forall i :: 0 <= i < 9 ==> (scores[i].None? <==> b[i] != None);
  }

  /** A root score is at most 10, and it is 10 exactly when the computer's mark on cell i
      wins at once: any other child is scored from depth 1 on and so stays below 10. */
  lemma RootScoreTenIffWin(b: Board, player: Mark, ai: Mark, i: int)
    requires 0 <= i < 9 && b[i] == None
    ensures RootScore(b, player, ai, i) <= 10
    ensures RootScore(b, player, ai, i) == 10 <==> Winner(b[i := Some(ai)]) == Some(ai)
  {
    var c := b[i := Some(ai)];
    EmptiesPlace(b, i, ai);
    MinimaxBounded(c, player, ai, false, 0);
    if Winner(c) != Some(ai) && Winner(c) != Some(player) && !Tie(c) {
      MinimaxIsExtremum(c, player, ai, false, 0);
      var j :| 0 <= j < 9 && c[j] == None && MinimaxScore(c, player, ai, false, 0) == ChildScore(c, player, ai, false, 0, j);
      ChildBounded(c, player, ai, false, 0, j);
    }
  }

  /** When the computer can win at once, the hard level plays a winning move. */
  lemma HardTakesWin(b: Board, player: Mark, ai: Mark)
    requires exists p :: WinningMove(b, p, ai)
    ensures HardMove(b, player, ai).Some? && WinningMove(b, HardMove(b, player, ai).value, ai)
  {
    var p :| WinningMove(b, p, ai);
    var scores := RootScores(b, player, ai);
    var w := Index(p);
    assert Put(b, p, Some(ai)) == b[w := Some(ai)];
    RootScoreTenIffWin(b, player, ai, w);
    assert scores[w] == Some(10);
    var k := BestIndex(scores).value;
    BestIndexIsFirstMax(scores);
    RootScoreTenIffWin(b, player, ai, k);
    assert Winner(b[k := Some(ai)]) == Some(ai);
    var q := PosAt(k);
    assert HardMove(b, player, ai) == Some(q);
    assert Index(q) == k;
    assert Put(b, q, Some(ai)) == b[k := Some(ai)];
  }

  // ---------------------------------------------------------------- dispatch

  /** The move for the chosen difficulty level: "easy", "medium" or "hard". */
  method AiMove(grid: array<Cell>, player: Mark, ai: Mark, difficultyLevel: string) returns (move: Option<Pos>)
    requires grid.Length == 9
    requires difficultyLevel == "easy" || difficultyLevel == "medium" || difficultyLevel == "hard"
    modifies grid
    ensures grid[..] == old(grid[..])
    ensures difficultyLevel == "easy" ==> EasyChoice(old(grid[..]), move)
    ensures difficultyLevel == "medium" ==> MediumChoice(old(grid[..]), player, ai, move)
    ensures difficultyLevel == "hard" ==> move == HardMove(old(grid[..]), player, ai)
  {
    if difficultyLevel == "easy" {
      move := Easy(grid[..]);
    } else if difficultyLevel == "medium" {
      move := Medium(grid, player, ai);
    } else {
      move := Hard(grid, player, ai);
    }
  }

  /** Whatever the level, the computer names an empty cell, and None exactly when the
      board is full. */
  lemma AiMoveIsLegal(b: Board, player: Mark, ai: Mark, difficultyLevel: string, r: Option<Pos>)
    requires difficultyLevel == "easy" ==> EasyChoice(b, r)
    requires difficultyLevel == "medium" ==> MediumChoice(b, player, ai, r)
    requires difficultyLevel == "hard" ==> r == HardMove(b, player, ai)
    requires difficultyLevel == "easy" || difficultyLevel == "medium" || difficultyLevel == "hard"
    ensures r.Some? ==> ValidPos(r.value) && At(b, r.value) == None
    ensures r.None? <==> Empties(b) == 0
  {
    if difficultyLevel == "medium" {
      MediumMoveIsLegal(b, player, ai, r);
    } else if difficultyLevel == "hard" {
      HardMoveNoneIffFull(b, player, ai);
    }
  }
}
