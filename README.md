# Tic-tac-toe computer opponent, modelled in Dafny

This project models the computer opponent of a pygame Tic-tac-toe game. The model covers:

- the 3x3 grid the game creates;
- the result evaluator, which reports the winner and whether the game is a tie;
- the three opponent levels, and the dispatch between them:
  - "easy" plays a random empty cell;
  - "medium" follows a fixed rule chain: win, block, fork, block a fork, centre, opposite corner, empty corner, empty side, random;
  - "hard" runs an exhaustive minimax search.

The grid is a dictionary from `(row, col)` to a symbol or `None`. It is filled in row-major order, so it is also iterated in that order. The model stores it in two forms:

- a nine-slot `array<Cell>`, where `(row, col)` is slot `3 * row + col`. The routines that write into the grid take this form: fork, minimax, hard, medium and the dispatcher.
- a `Board` value (a nine-element sequence). The read-only scans take this form: winner, tie, two in a row, centre, opposite corner, empty corner, empty side and easy.

Each routine that writes into the grid is a method. It is proved to leave the grid as it found it. Its result is proved equal to a specification function on boards. Where a random choice is made (medium, and the dispatcher for easy and medium), the result is instead proved to satisfy a specification predicate. The lemmas state what the source promises about those functions and predicates.

Modules:

- `Grid`: the board, coordinates, marks, the corners and sides, and the table of eight winning lines.
- `Initialise`: grid creation.
- `Result`: the winner and tie tests.
- `AiHelper`: the rules the opponents are built from, and minimax.
- `Ai`: the easy, medium and hard levels and the dispatcher.

## Model

| member | source | states |
|---|---|---|
| Initialise.MakeGrid | Tic-tac-toe.py:135-144 | returns a new grid in which all nine cells, `(r, c)` with `r, c` in 0..2, hold None |
| Initialise.EmptyBoardReadsEmpty | Tic-tac-toe.py:135-144 | every coordinate of a new grid reads empty, and the grid has nine empty cells |
| Grid.FullBoard | Tic-tac-toe.py:264-269 | the list of empty cells that easy builds is empty exactly when the board is full |
| Grid.CentreCornersSidesCover | Tic-tac-toe.py:378-416 | the centre, corners and sides cover the board: if all are taken, the board is full |
| Grid.Put | Tic-tac-toe.py:316-318 | writing a cell (`grid[position] = ...`) changes that cell to the written value and leaves every other cell as it was |
| Grid.IndexPosAt | Tic-tac-toe.py:140-142 | the nine coordinates and the nine row-major slots correspond one to one |
| Result.Tie | Tic-tac-toe.py:176-179 | tie holds exactly when no cell is empty |
| Result.TieIgnoresWinner | Tic-tac-toe.py:176-179 | tie does not look at lines: every full board is a tie whoever has won it, and a full board that X has won exists |
| Result.Winner | Tic-tac-toe.py:181-194 | the winner test; it has no contract of its own, and what it returns is stated by Result.WinnerScansLines and Result.WinnerMeaning |
| Result.WinnerScansLines | Tic-tac-toe.py:181-194 | winner checks the rows top to bottom, then the columns left to right, then the main diagonal, then the anti-diagonal from (2, 0); it returns the mark of the first line whose three cells are equal and not None |
| Result.WinnerFromMeaning | Tic-tac-toe.py:181-194 | the line scan returns a mark only if that mark fills a line, and returns None exactly when no line is filled by one mark |
| Result.FirstCompletedLineWins | Tic-tac-toe.py:181-194 | when several lines are complete, the first line in scan order decides |
| Result.WinnerMeaning | Tic-tac-toe.py:181-194 | winner returns m only if some row, column or diagonal holds m three times, and returns None exactly when no such line exists |
| Result.LineOwner | Tic-tac-toe.py:186-191 | the per-line test returns m exactly when all three cells of the line hold m |
| AiHelper.Gap | Tic-tac-toe.py:345-347 | the per-line test of twoInRow: the line's values contain the symbol twice and None once, and the result is the line's empty cell |
| AiHelper.TwoInRow | Tic-tac-toe.py:337-350 | twoInRow returns an empty cell of a line in which the symbol holds the other two cells; it returns None exactly when no line has two of the symbol and one empty cell |
| AiHelper.TwoInRowFromMeaning | Tic-tac-toe.py:343-350 | the scan over the line list returns the gap of a threatened line, and None exactly when no line is threatened |
| AiHelper.FirstThreatWins | Tic-tac-toe.py:343-350 | the gap returned is that of the first qualifying line in the fixed eight-line order |
| AiHelper.TwoInRowFindsWin | Tic-tac-toe.py:337-350 | on a board nobody has won, twoInRow finds a cell exactly when the symbol has a move that wins at once, and the cell it returns is such a move |
| AiHelper.NewWinThroughMove | Tic-tac-toe.py:337-350 | on a board nobody has won, placing a mark can only produce a win for that mark, along a line through the cell |
| AiHelper.CountWinningCells | Tic-tac-toe.py:361-372 | fork's inner loop probes each empty cell and clears it again; it counts the cells, not the lines, that give the board a winner, and the grid ends unchanged |
| AiHelper.CountSetIsSize | Tic-tac-toe.py:361-372 | the running counter equals the number of cells whose probe gave a winner |
| AiHelper.Fork | Tic-tac-toe.py:352-376 | fork returns the first empty cell in row-major order such that, with the symbol placed there, exactly two empty cells would each give a winner; it returns None if no cell qualifies; the grid ends unchanged |
| AiHelper.FirstForkFrom | Tic-tac-toe.py:355-376 | the outer scan of fork from a row-major position on: a result is a cell at or after that position that creates a fork, and None exactly when no such cell does |
| AiHelper.ForkCell | Tic-tac-toe.py:352-376 | the cell fork picks is empty and creates a fork (CreatesFork: with the symbol placed there, exactly two empty cells each give the board a winner of either mark, WinsAt); None exactly when no cell creates a fork |
| AiHelper.FirstForkIsFirst | Tic-tac-toe.py:355-376 | fork's result is the first fork-creating cell in row-major order |
| AiHelper.Centre | Tic-tac-toe.py:378-381 | centre yields (1, 1) exactly when that cell is empty |
| AiHelper.OppositeCornerFromMeaning | Tic-tac-toe.py:386-392 | the corner scan yields the opposite of a corner that holds the symbol and whose opposite is empty; it yields None exactly when no corner qualifies |
| AiHelper.FirstAnswerWins | Tic-tac-toe.py:386-392 | the first qualifying corner of (0,0), (0,2), (2,0), (2,2) decides |
| AiHelper.OppositeCorner | Tic-tac-toe.py:383-392 | oppositeCorner yields an empty corner whose opposite holds the symbol, and None exactly when no corner qualifies |
| AiHelper.ChooseEmpty | Tic-tac-toe.py:394-416 | builds the list of empty candidates in order; the random choice from it is an empty candidate, and None exactly when no candidate is empty |
| AiHelper.EmptyCorner | Tic-tac-toe.py:394-404 | emptyCorner returns an empty corner, and None exactly when every corner is taken |
| AiHelper.EmptySide | Tic-tac-toe.py:406-416 | emptySide returns an empty side cell, and None exactly when every side cell is taken |
| AiHelper.FoldBest | Tic-tac-toe.py:428-450 | the running max/min starting from -inf/+inf has a value exactly when some cell was scored |
| AiHelper.FoldBestIsExtremum | Tic-tac-toe.py:428-450 | the running max (min) ends at one of the scores met, and at least (at most) every one of them |
| AiHelper.MinimaxScore | Tic-tac-toe.py:418-452 | the minimax score as a function of the board; it has no contract of its own, and its properties are stated by AiHelper.MinimaxIsExtremum, AiHelper.MinimaxBounded and AiHelper.Minimax |
| AiHelper.Minimax | Tic-tac-toe.py:418-452 | minimax on the grid returns the score MinimaxScore gives the board: 10 - depth when ai has won, -10 + depth when player has won, 0 on a full board, otherwise the max (isMax) or min over the children at depth + 1; the grid ends unchanged |
| AiHelper.SearchChildren | Tic-tac-toe.py:428-450 | the search loop fills each empty cell with the mover, searches one level deeper, clears the cell, and keeps the max or min; the grid ends unchanged |
| AiHelper.MinimaxIsExtremum | Tic-tac-toe.py:428-452 | on a board with no winner that is not full, the score equals one child's score and is at least (isMax) or at most every child's score |
| AiHelper.MinimaxBounded | Tic-tac-toe.py:418-452 | when depth + empty cells <= 10, the score lies within [-(10 - depth), 10 - depth]; at the root it lies in [-10, 10], so the infinite starting values never come out |
| AiHelper.ChildBounded | Tic-tac-toe.py:432-449 | a child is searched with one empty cell fewer at depth + 1, so its score lies within 10 - depth - 1 of zero |
| Ai.Easy | Tic-tac-toe.py:264-269 | easy returns an empty cell, and None exactly when the board is full |
| Ai.Medium | Tic-tac-toe.py:271-306 | medium returns the result of the first rule in the chain that yields a cell (win, block, fork, block fork, centre, opposite corner, empty corner, empty side, random); the grid ends unchanged |
| Ai.MediumMoveIsLegal | Tic-tac-toe.py:271-306 | medium always returns an empty cell, and None exactly when the board is full |
| Ai.MediumTakesWin | Tic-tac-toe.py:274-276 | on a board nobody has won, if the computer can win at once, medium plays a winning move |
| Ai.MediumBlocks | Tic-tac-toe.py:278-280 | if the computer cannot win at once but the opponent can, medium plays on a cell where the opponent would win |
| Ai.RootScore | Tic-tac-toe.py:316-317 | the score hard gives an empty cell: `minimax(grid, player, ai, False, 0)` with the computer's mark placed there; it has no contract of its own, and its bound and meaning are stated by Ai.RootScoreTenIffWin |
| Ai.BestIndex | Tic-tac-toe.py:311-321 | the strict-greater loop starting from -inf picks a position holding a score, and None exactly when no position holds one |
| Ai.BestIndexIsFirstMax | Tic-tac-toe.py:311-321 | the chosen score is the greatest, and every earlier score is strictly smaller |
| Ai.HardMove | Tic-tac-toe.py:308-323 | the cell hard chooses is an empty cell |
| Ai.Hard | Tic-tac-toe.py:308-323 | hard places the computer's mark on each empty cell, scores it by minimax(False, 0), clears it, and returns HardMove; the grid ends unchanged |
| Ai.HardMoveIsFirstBest | Tic-tac-toe.py:308-323 | hard's cell is empty and has the greatest minimax(False, 0) score over all empty cells; every earlier empty cell in row-major order scores strictly less |
| Ai.HardMoveNoneIffFull | Tic-tac-toe.py:308-323 | hard returns None exactly when the board is full |
| Ai.RootScoreTenIffWin | Tic-tac-toe.py:314-318 | a root score is at most 10, and it is 10 exactly when the computer's mark on that cell wins at once |
| Ai.HardTakesWin | Tic-tac-toe.py:308-323 | when the computer can win at once, hard plays a winning move |
| Ai.AiMove | Tic-tac-toe.py:326-333 | aiMove dispatches "easy", "medium" and "hard" to the matching level; the grid ends unchanged |
| Ai.AiMoveIsLegal | Tic-tac-toe.py:326-333 | whatever the level, the move is an empty cell, and None exactly when the board is full |

## Left out

- The pygame menu, drawing, game loop, scoreboard and mode selection are not modelled. They are user interface and I/O only.
- `random.choice` (in easy, emptyCorner and emptySide) is modelled as an arbitrary choice from the candidate list. The model states that the choice is a member of that list, not that it is uniform.
- The `-inf`/`+inf` starting values of hard and minimax are modelled as `None` in an `Option<int>`. There is no floating-point arithmetic.
- AiMove: a difficulty other than "easy", "medium" or "hard" fails in the source because `move` is never assigned. The model makes the three names a precondition.
- The grid dictionary is modelled as a nine-slot array in the dictionary's insertion order, which is row-major. Aliasing between the grid and other objects that hold it is not modelled.
- Ai.Hard: only the per-move property is proved. Hard plays the first empty cell with the greatest minimax(False, 0) score, and it takes an immediate win. The claim that hard never loses against any opponent is not proved. The value of the empty board under perfect play is not proved either. Both would need a lemma about whole games, which the model does not state.
- Ai.Easy takes the board by value. It only reads the grid.
- AiHelper.CountWinningCells and AiHelper.SearchChildren are the inner loops of fork and minimax. They are separate methods here, but they probe and clear in the same order as the source.
- Ai.Medium states which cells the two random rules (empty corner, empty side) may return, not which one they do return.
- Marks are not required to differ. Where the computer and the opponent use the same symbol, the model gives the source's answer: minimax tests `winner == ai` first.
- Where the source and its documentation differ, the model follows the source:
  - hard scores each child at depth 0, not depth 1;
  - tie reports a full board even when it has a winner;
  - fork counts winning cells, not lines, and wants exactly two.
