# Four-in-a-row and tic-tac-toe: boards and game-tree searches

This project models the game logic of the PJarbas/games repository in Dafny and proves
properties about it. It covers four parts.

- **The four-in-a-row board** (`fourplay.py`): a `rows x columns` dict of discs, and the
  `Frontier`. The Frontier holds one entry per column, naming the disc a player can drop into,
  or `None` when the column is full.
  - `set` and `clear` place and lift a disc and move the column's entry.
  - `score` crawls along the four axes through a disc, looking for four in a row.
  - `build` and `reset` rebuild the board and recompute the frontier.
- **The four-in-a-row search** (`BreadthFirstSearchAI.play` in `fourplay.py`, and `_play` in
  `fourplay/ai.py`). It is a depth-first negamax with a fail-hard alpha-beta window and a
  cut-off at depth 8. It tries the shuffled frontier in place on the shared board.
- **The tic-tac-toe board and its minimax** (`tictactoe.py`, and `best_move` in
  `tictactoe/ai.py`): nine tiles with two turn pointers.
  - `set` and `clear` raise on an inconsistent tile and otherwise toggle both pointers.
  - `score` checks the row, the column and the diagonals through the tile just played. The
    diagonal check is modelled as written: at the centre it looks only at the main diagonal (see
    Findings).
  - The search tries every empty tile and keeps the first strictly best one. It divides a
    finished game's score by its depth.
- **The tic-tac-toe Monte Carlo tree search** (`MonteCarloSearchAI` in `tictactoe/ai.py`). Its
  memo table maps the rendering of a board to `(wins, visits, tile)`.
  - Each of 1000 rounds selects a path through the table, expands one unvisited board, plays
    the game out at random, and credits the result back.
  - The move played is the most visited one.

Each board is a `class` whose dict or list is a `map` or `seq` field. Its methods are specified
against pure functions on a value snapshot (`Model()`):

- `FourPlay`/`Frontier` use `Board`, `SetDisc`, `ClearDisc` and `FrontierReset`;
- `TicTacToe` uses `Game`, `SetTile` and `ClearTile`.

Each search is an imperative method that works on the shared board. It is proved to restore the
board, and to compute a pure specification function:

- `Negamax`, for four-in-a-row, inside the alpha-beta window;
- `Search`, for tic-tac-toe;
- `Unvisited`, `Optimal`, `Credit`, `Chain` and `Trail`, for the Monte Carlo bookkeeping.

The properties of those functions are then proved as lemmas.

Random choices are handled as follows:

- The shuffle of `Frontier.choices` is any permutation. The four-in-a-row search is proved
  correct for every order.
- The random tiles of the Monte Carlo search are arbitrary choices (`:|`). Its properties hold
  whatever is picked.

## Model

| member | source | states |
|---|---|---|
| Common.WinAt | fourplay.py:128-130 | a win found at depth `level` is worth 1/level, in (0, 1], and worth exactly 1 only at the root |
| Common.Reciprocals | fourplay.py:128-130 | a win one level deeper is worth strictly less; the cut-off score -1/level is minus a win at that level |
| FourPlayBoard.CrawlRun | fourplay.py:40-49 | crawl (`Crawl`) counts exactly the run of cells owned by `who` from the disc along a direction: every counted cell is owned, and the next one is off the board or not owned |
| FourPlayBoard.CrawlAtLeast | fourplay.py:40-49 | a run of k owned cells from the disc makes crawl at least k |
| FourPlayBoard.ChoicesOf | fourplay.py:88-89 | the unshuffled choices are exactly the discs the frontier names, one per non-None entry |
| FourPlayBoard.ChoicesOrdered | fourplay.py:88-89 | the unshuffled choices lie in strictly increasing columns, so no disc appears twice |
| FourPlayBoard.SameChoices | fourplay.py:90-91 | a shuffled list of choices holds the same discs |
| FourPlayBoard.ChoicesOnBoard | fourplay.py:88-89 | every choice is a disc of the board |
| FourPlayBoard.SetDisc | fourplay.py:192-194 | placing a disc keeps the set of discs and keeps every frontier entry on the board |
| FourPlayBoard.ClearDisc | fourplay.py:197-199 | lifting a disc keeps the set of discs and keeps every frontier entry on the board |
| FourPlayBoard.SetThenClear | fourplay.py:192-200 | clear after set on the frontier's disc gives back the board, both the cells and the frontier |
| FourPlayBoard.SetKeepsOpenAbove | fourplay.py:67-74 | after a drop on a frontier disc, every cell at or above every entry is still empty |
| FourPlayBoard.EmptyRun | fourplay.py:96-102 | the length of a column's top run of empty cells: those cells are empty, and the run ends at the bottom edge or at an occupied cell |
| FourPlayBoard.ResetIsOpenAbove | fourplay.py:94-102 | the frontier reset computes keeps entries inside the grid, with nothing but empty cells at or above them |
| FourPlayBoard.SetKeepsSettled | fourplay.py:67-74 | increase keeps the frontier equal to what reset would compute, with no floating disc |
| FourPlayBoard.ClearTopKeepsSettled | fourplay.py:76-86 | decrease after lifting a column's top disc keeps the frontier equal to what reset would compute |
| FourPlayBoard.ConnectedMeansFour | fourplay.py:203-206 | the two crawls along an axis add up to at least four exactly when a four-cell segment of the disc's owner passes through the disc on that axis |
| FourPlayBoard.AxesMeanFour | fourplay.py:202-210 | the four axes score checks find four connected exactly when the disc lies on four in a row |
| FourPlayBoard.ScoreMeaning | fourplay.py:202-213 | score (`Score`) is 1 exactly when the disc lies on four in a row; otherwise 0 exactly when no column is open; otherwise None |
| FourPlayBoard.Raised | fourplay.py:67-74 | increase changes only the column's entry, and a raised entry is the row above the old one |
| FourPlayBoard.Lowered | fourplay.py:76-86 | decrease changes only the column's entry, which stays on the board, and a lowered entry that was open is the row below the old one |
| FourPlayBoard.Frontier.constructor | fourplay.py:58-59 | a new frontier is empty |
| FourPlayBoard.Frontier.Increase | fourplay.py:67-74 | the column's entry moves up one row, to None off row 0; a full column stays full |
| FourPlayBoard.Frontier.Decrease | fourplay.py:76-86 | a full column gets its top disc back; otherwise the entry moves down one row, to None off the bottom |
| FourPlayBoard.Frontier.Choices | fourplay.py:88-92 | the result is a permutation of the frontier's discs |
| FourPlayBoard.Frontier.Reset | fourplay.py:94-102 | each column's entry becomes the last empty cell of its top run of empty cells, or None when row 0 is occupied |
| FourPlayBoard.FourPlay.constructor | fourplay.py:143-153 | a rows x columns board of empty discs, players ◯ and ☓, each column open at its bottom row |
| FourPlayBoard.FourPlay.Set | fourplay.py:192-195 | the board becomes SetDisc of the old board: the disc takes the player and its column's entry is raised |
| FourPlayBoard.FourPlay.Clear | fourplay.py:197-200 | the board becomes ClearDisc of the old board: the disc is emptied and its column's entry is lowered |
| FourPlayBoard.FourPlay.ScoreDisc | fourplay.py:202-213 | the score is the verdict on the disc: 1 for four in a row, otherwise 0 when no column is open, otherwise None |
| FourPlayBoard.FourPlay.Build | fourplay.py:166-176 | each named disc takes the player, the AI or nobody by its symbol; other discs are kept; the frontier is reset |
| FourPlayBoard.FourPlay.Reset | fourplay.py:215-220 | every disc is emptied and the frontier is reset, which leaves a settled board |
| FourPlayBoard.EmptyBoardSettled | fourplay.py:94-102 | on an empty board the reset frontier opens every column at its bottom row |
| FourPlaySearch.BestOfAtLeast | fourplay.py:133-134 | the best result kept so far is at least the value of every candidate tried |
| FourPlaySearch.BestOfAttained | fourplay.py:133-134 | the best result is the -2 sentinel or the value of one of the candidates tried |
| FourPlaySearch.BestOfOrderFree | fourplay.py:117 | the order of the candidates does not change their best value, so the shuffle cannot change the search's value |
| FourPlaySearch.NegamaxAtLeast | fourplay.py:115-138 | a position is worth at least each of its moves |
| FourPlaySearch.MoveValueBound | fourplay.py:119-130 | a move at depth `level` is worth between a loss and a win at that depth, ±1/level |
| FourPlaySearch.ChildValueBound | fourplay.py:118-130 | dropping a disc at depth `level` is worth between ±1/level |
| FourPlaySearch.NegamaxBound | fourplay.py:115-138 | with a move available, the position at depth `level` is worth between ±1/level |
| FourPlaySearch.RootMoveBound | fourplay.py:115-138 | at the root every move is worth between -1 and 1 |
| FourPlaySearch.RootBound | fourplay.py:115-138 | at the root the position is worth between -1 and 1 |
| FourPlaySearch.ClampNegate | fourplay.py:122-126 | searching the child in the negated, swapped window and negating its answer is the parent's clamped value |
| FourPlaySearch.TerminalValue | fourplay.py:129-130 | a move that ends the game is worth its score divided by the depth |
| FourPlaySearch.CutoffValue | fourplay.py:127-128 | an undecided move at the depth limit is worth -1/8 |
| FourPlaySearch.ReplyValue | fourplay.py:120-126 | inside the window, an undecided move is worth the negated best reply one level deeper |
| FourPlaySearch.LoopStep | fourplay.py:133-136 | one candidate updates the best in step with the unpruned best, or proves that the cut is reached |
| FourPlaySearch.LoopDone | fourplay.py:117-138 | a loop that ran through every candidate without a cut agrees with the negamax value inside the window |
| FourPlaySearch.LoopCut | fourplay.py:135-136 | a loop cut at the opponent's bound agrees with the negamax value inside the window |
| FourPlaySearch.Reply | fourplay.py:120-128 | the reply search, or the -1/8 cut-off, restores the board and agrees with the move's true value inside the window |
| FourPlaySearch.TryDisc | fourplay.py:118-131 | set, score, reply and clear restore the board and agree with the drop's true value inside the window |
| FourPlaySearch.Consider | fourplay.py:118-136 | one iteration keeps the best equal to the unpruned best of the candidates so far, or cuts with the negamax value inside the window |
| FourPlaySearch.Play | fourplay.py:115-138 | the board is restored; the result is the window's lower end when nothing beats it, otherwise a frontier disc; the score agrees with Negamax, and with the chosen disc's value, inside the window (fourplay/ai.py:14-38 is the same loop as `_play`) |
| FourPlaySearch.ChooseMove | fourplay/ai.py:9-12 | from the root window: no move exactly when every column is full; otherwise a frontier disc whose value equals the position's negamax value, between -1 and 1 |
| FourPlaySearch.WinValue | fourplay.py:129-130 | a drop that makes four in a row is worth 1 at the root |
| FourPlaySearch.NoWinValue | fourplay.py:119-130 | any other drop is worth less than 1 at the root |
| FourPlaySearch.OnlyWinIsChosen | fourplay.py:115-138 | when one disc alone wins on the spot, the position is worth 1 and that disc is the only move with the position's value |
| FourPlaySearch.FinishHasOneChoice | fourplay/ai.py:43-49 | on the `Finish` position, built as the test builds it, the only open disc is (0,6) |
| FourPlaySearch.PlayFinish | fourplay/ai.py:43-49 | on `Finish` the AI plays (0,6), the disc the test marks with `#` (also fourplay/ai.py:87-92) |
| FourPlaySearch.Answer | fourplay.py:185-190 | the AI drops on a frontier disc of optimal negamax value; its score is reported negated |
| FourPlaySearch.Round | fourplay.py:178-190 | the human's disc drops on the column's entry; a win or draw ends the round; otherwise the AI answers optimally and a result of its move is reported negated; a full column changes nothing |
| TicTacToeBoard.ChoicesMeans | tictactoe.py:238-239 | choices holds exactly the empty tiles |
| TicTacToeBoard.ChoicesOrdered | tictactoe.py:238-239 | choices lists the tiles in the dict's row-major insertion order, each once |
| TicTacToeBoard.VacanciesCount | tictactoe.py:238-239 | choices has one entry per empty tile |
| TicTacToeBoard.VacanciesShrink | tictactoe.py:199-202 | setting an empty tile leaves one empty tile fewer |
| TicTacToeBoard.VacanciesGrow | tictactoe.py:208-211 | clearing a taken tile leaves one empty tile more, never more than nine |
| TicTacToeBoard.RowMeans | tictactoe.py:25-27 | completeRow (`CompleteRow`) holds exactly when the tile's row is filled by the tile's owner |
| TicTacToeBoard.ColumnMeans | tictactoe.py:29-31 | completeColumn (`CompleteColumn`) holds exactly when the tile's column is filled by the tile's owner |
| TicTacToeBoard.DiagonalsMean | tictactoe.py:33-38 | each diagonal comparison holds exactly when that diagonal is filled by the given cell |
| TicTacToeBoard.CompleteMeans | tictactoe.py:25-38 | with the corrected diagonal check (`CompleteDiagonal`), the three checks find a complete line through the tile exactly when there is one |
| TicTacToeBoard.AsWrittenSound | tictactoe.py:33-38 | the diagonal check as written (`CompleteDiagonalAsWritten`) never reports a line that is not there |
| TicTacToeBoard.AntiDiagonalMissed | tictactoe.py:33-38 | on a board whose anti-diagonal is complete through the centre, the check as written reports nothing, while the corrected check finds the line |
| TicTacToeBoard.AsWrittenMeans | tictactoe.py:25-38 | the three checks as written find a line exactly when a line they look at is filled by the tile's owner: the row, the column, and the diagonals through the tile except the anti-diagonal at the centre |
| TicTacToeBoard.ScoredUnlessCentreAnti | tictactoe.py:33-38 | every line the checks report is complete, and the only complete line they miss is the anti-diagonal through the centre |
| TicTacToeBoard.NoChoicesFull | tictactoe.py:218-222 | choices is empty exactly when every tile is taken, the `complete` test of score (also tictactoe.py:238-239) |
| TicTacToeBoard.ScoreMeaning | tictactoe.py:217-236 | score (`Score`, as written) is None for an empty tile; ±1, by owner, exactly when the tile fills a line the checks look at (not the anti-diagonal at the centre); otherwise 0 exactly when no tile is empty; otherwise None |
| TicTacToeBoard.ScoreIntendedMeaning | tictactoe.py:217-236 | the corrected score (`ScoreIntended`) reports ±1 exactly when the tile completes any line through it, 0 exactly when the board is full, None otherwise |
| TicTacToeBoard.CentreWinUnscored | tictactoe.py:33-38 | X on (0,2), (1,1), (2,0) and O on (0,0), (0,1): the game is won at the centre, yet score as written reports it undecided, while the corrected score reports the win (also tictactoe.py:226-236) |
| TicTacToeBoard.SetTile | tictactoe.py:199-204 | setting a tile keeps a board of nine tiles |
| TicTacToeBoard.ClearTile | tictactoe.py:208-213 | clearing a tile keeps a board of nine tiles |
| TicTacToeBoard.ToggleTwice | tictactoe.py:203-204 | a toggle hands the turn to the other player, and two toggles give it back |
| TicTacToeBoard.SetThenClear | tictactoe.py:199-215 | clear after set on an empty tile gives back the tiles and both turn pointers |
| TicTacToeBoard.RenderAt | tictactoe.py:177-183 | the rendering (`Render`) is 12 characters: each tile's glyph in row-major order, and a newline after each row |
| TicTacToeBoard.RenderMeans | tictactoe.py:174-183 | two boards render alike exactly when every tile shows the same glyph |
| TicTacToeBoard.RenderInjective | tictactoe.py:171-183 | with distinct, non-blank player symbols, two boards render alike exactly when their tiles are equal, so the memo keys tell boards apart |
| TicTacToeBoard.BuiltTiles | tictactoe.py:185-195 | build always yields a board of nine tiles |
| TicTacToeBoard.TicTacToe.constructor | tictactoe.py:153-163 | nine empty tiles, the player to move and the AI as previous player |
| TicTacToeBoard.TicTacToe.Set | tictactoe.py:199-206 | raises exactly when the tile is taken, changing nothing; otherwise the tile takes nextPlayer and both pointers toggle |
| TicTacToeBoard.TicTacToe.Clear | tictactoe.py:208-215 | raises exactly when the tile is empty, changing nothing; otherwise the tile is emptied and both pointers toggle |
| TicTacToeBoard.TicTacToe.Reset | tictactoe.py:254-262 | every tile is emptied; the player is to move and the AI is previous |
| TicTacToeBoard.TicTacToe.Build | tictactoe.py:185-197 | the tiles are the ones the symbols name, other tiles empty; nextPlayer is the given player and previousPlayer toggles from the reset's AI to the player |
| TicTacToeBoard.TicTacToe.Equals | tictactoe.py:174-175 | two boards are equal exactly when every tile shows the same glyph |
| TicTacToeSearch.UnsettledHasChoices | tictactoe.py:234-236 | a position that score leaves undecided still has an empty tile, so the recursion always finds a reply |
| TicTacToeSearch.Undecided | tictactoe.py:226-236 | a taken tile with no checked line complete is undecided while some tile is empty |
| TicTacToeSearch.Won | tictactoe.py:226-233 | a taken tile with a checked line complete is scored 1 for its owner |
| TicTacToeSearch.NotWon | tictactoe.py:226-236 | a tile with no checked line complete is not scored a win |
| TicTacToeSearch.OwnScore | tictactoe.py:226-233 | scored for its own owner, a tile is a win, a draw or undecided, never a loss |
| TicTacToeSearch.BestOf | tictactoe.py:59-70 | after n candidates the loop holds no move exactly when n is 0, and otherwise one of those candidates |
| TicTacToeSearch.Search | tictactoe.py:58-73 | the search, over score as written, finds no move exactly when no tile is empty, and otherwise an empty tile |
| TicTacToeSearch.BestOfChosen | tictactoe.py:69-70 | the kept tile's value is at least every candidate's, and strictly above every earlier candidate's, so it is the first strictly best |
| TicTacToeSearch.MoveValueBound | tictactoe.py:63-68 | a move at depth `level` is worth between ±1/level |
| TicTacToeSearch.ChildValueBound | tictactoe.py:62-68 | playing an empty tile at depth `level` is worth between ±1/level |
| TicTacToeSearch.SearchBound | tictactoe.py:58-73 | a position with an empty tile is worth between ±1/level |
| TicTacToeSearch.TerminalValue | tictactoe.py:67-68 | a tile that ends the game is worth its score divided by the depth |
| TicTacToeSearch.ReplyValue | tictactoe.py:64-66 | any other tile is worth the negated best reply one level deeper |
| TicTacToeSearch.WinValue | tictactoe.py:67-68 | a tile that score as written reports as a win is worth 1 at the root |
| TicTacToeSearch.NoWinValue | tictactoe.py:63-68 | any other tile is worth less than 1 at the root |
| TicTacToeSearch.FirstWinChosen | tictactoe.py:58-73 | the first tile in the board's order that score as written reports as a win is the one the search picks, with score 1 |
| TicTacToeSearch.NoWinBelow | tictactoe.py:63-68 | at any depth, a tile not scored a win is worth less than a win at that depth |
| TicTacToeSearch.SearchAtLeast | tictactoe.py:58-73 | a position is worth at least each of its empty tiles |
| TicTacToeSearch.LosingValue | tictactoe.py:63-68 | a tile that leaves the game undecided and lets the opponent win at once is worth at most a loss one level down |
| TicTacToeSearch.SafeValue | tictactoe.py:58-73 | a tile after which the game is settled, or the opponent has no immediate win, is worth more than a loss one level down |
| TicTacToeSearch.ForcedChosen | tictactoe.py:58-73 | when every other tile lets the opponent win at once on w and w does not, the search picks w |
| TicTacToeSearch.TryTile | tictactoe.py:62-71 | set, score (as written) and clear restore the board and give the tile's value |
| TicTacToeSearch.SetTileValue | tictactoe.py:63-68 | the value of the tile just set is its score as written, divided by the depth, when that ends the game, otherwise the negated best reply; the board is restored |
| TicTacToeSearch.Rebuttal | tictactoe.py:65-66 | the recursive call restores the board and returns the negated search one level deeper |
| TicTacToeSearch.BestMove | tictactoe.py:58-73 | the board is restored and the result is the search's over score as written: the first strictly best tile and its score (tictactoe/ai.py:13-28 is the same loop as `best_move`) |
| TicTacToeSearch.Round | tictactoe.py:241-252 | a taken tile raises and changes nothing; a game finished by score as written reports the player's score; otherwise the AI plays the search's tile and a result of its move is reported negated |
| TicTacToeSearch.BuiltShows | tictactoe.py:185-197 | build on three full rows gives the position they show |
| TicTacToeSearch.OnlyTileChosen | tictactoe/ai.py:133-137 | with one empty tile left, the search plays it |
| TicTacToeSearch.FirstTileWins | tictactoe/ai.py:140-144 | when (0,0) completes the crosses' column, it is chosen with score 1 |
| TicTacToeSearch.ImmediateWinChosen | tictactoe/ai.py:152-156 | when (0,1) wins at once and (0,0) does not, (0,1) is chosen with score 1 |
| TicTacToeSearch.CornerExpectationFails | tictactoe.py:374-378 | on the same board the search does not answer (0,0), the tile the older test expects |
| TicTacToeSearch.ScoreLayout | tictactoe.py:217-236 | on a board given as nine cells in row-major order, score as written is the per-cell check of the tile's row, column and checked diagonal, then fullness |
| TicTacToeSearch.ShowsCells | tictactoe.py:185-197 | a board showing three rows of symbols is the board of their nine decoded cells |
| TicTacToeSearch.ForcedLayout | tictactoe.py:58-73 | on a board given as nine cells, the per-cell check that w is the forced reply makes w the forced reply |
| TicTacToeSearch.LeftColumnBlocked | tictactoe/ai.py:146-150 | noughts threaten the left column: the search blocks at (2,0) (also tictactoe.py:368-372) |
| TicTacToeSearch.TopCornerBlocked | tictactoe/ai.py:158-162 | noughts threaten the left column from below: the search blocks at (0,0) (also tictactoe.py:380-384) |
| TicTacToeSearch.AntiDiagonalBlocked | tictactoe/ai.py:164-168 | noughts threaten the anti-diagonal: the search blocks at (2,0) (also tictactoe.py:386-390) |
| TicTacToeSearch.MiddleColumnBlocked | tictactoe/ai.py:170-174 | noughts threaten the middle column: the search blocks at (0,1) (also tictactoe.py:392-396) |
| MonteCarlo.UnvisitedMeans | tictactoe/ai.py:42-49 | unvisited_tiles (`Unvisited`) keeps exactly the candidates whose board has no entry in the table |
| MonteCarlo.Optimal | tictactoe/ai.py:51-60 | the tile picked is a candidate whose board is in the table |
| MonteCarlo.OptimalNone | tictactoe/ai.py:51-60 | optimal_tile returns None exactly when no candidate's board is in the table |
| MonteCarlo.OptimalIsMaximal | tictactoe/ai.py:51-60 | the tile picked has the greatest criterium of all candidates in the table |
| MonteCarlo.OptimalIsLast | tictactoe/ai.py:57-58 | of equal criteria the last wins: every later candidate in the table has a strictly smaller criterium |
| MonteCarlo.ChoicesDistinct | tictactoe.py:238-239 | the choices are distinct tiles of the grid |
| MonteCarlo.ScoreRange | tictactoe.py:228-236 | a score is -1, 0 or 1 |
| MonteCarlo.CompletionRange | tictactoe/ai.py:87-95 | a playout outcome (`Completion`: play an empty tile, score it as written, floor a loss to 0, and play on while undecided) is 1 or 0 |
| MonteCarlo.ReportedRange | tictactoe/ai.py:72-85 | what select reports, a finished game's score or a playout's outcome, is -1, 0 or 1 |
| MonteCarlo.Credit | tictactoe/ai.py:99-100 | crediting a list of keys keeps the table's keys |
| MonteCarlo.CreditCounts | tictactoe/ai.py:97-103 | each entry gets one visit, and the score once, per occurrence of its key; its tile is kept |
| MonteCarlo.Chain | tictactoe/ai.py:97-103 | the walk of recorded tiles starts at the board's own key, visits only keys in the table, and ends on a board of nine tiles |
| MonteCarlo.ChainLifts | tictactoe/ai.py:101-103 | an entry recording a taken tile continues the walk from the board that lifting the tile leaves |
| MonteCarlo.ChainStops | tictactoe/ai.py:101 | an entry recording no tile ends the walk at that board |
| MonteCarlo.ChainShape | tictactoe/ai.py:97-103 | the walk depends only on which boards are in the table and the tiles they record, not on wins or visits |
| MonteCarlo.ChainReturns | tictactoe/ai.py:97-106 | when the only entry without a tile is the root and each recorded tile leads to a board in the table, the walk ends at the root after one board per tile lifted |
| MonteCarlo.StaleChainMissesRoot | tictactoe/ai.py:97-111 | with a table kept from an earlier move, the walk from a board reached from the new root ends at the earlier root |
| MonteCarlo.TranspositionCreditsOtherPath | tictactoe/ai.py:84 | on a fresh table, a board first expanded along one path keeps that path's tile; the walk from it credits the boards of that path, not those of a later selection reaching the same board along another path (also tictactoe/ai.py:97-103) |
| MonteCarlo.RootInTrail | tictactoe/ai.py:97-103 | the boards credited for a selected path include the board selection started from |
| MonteCarlo.Played | tictactoe/ai.py:72-80 | playing a path of tiles keeps nine tiles and keeps the turn pointers on the two players |
| MonteCarlo.SelectedOne | tictactoe/ai.py:72-77 | a single move to a board that is in the table, or is its one new entry, is a selection |
| MonteCarlo.SelectedNew | tictactoe/ai.py:79-85 | a single move to a board new to the table, recorded as (0, 0, tile), is a selection |
| MonteCarlo.SelectedPrepend | tictactoe/ai.py:67-75 | a move to a board in the table, followed by a selection from there, is a selection |
| MonteCarlo.MonteCarloSearch.constructor | tictactoe/ai.py:35-37 | the memo table starts empty |
| MonteCarlo.MonteCarloSearch.Reset | tictactoe/ai.py:116-117 | the memo table is emptied |
| MonteCarlo.MonteCarloSearch.Probe | tictactoe/ai.py:45-48 | set, read the key and clear return the child's key and restore the board |
| MonteCarlo.MonteCarloSearch.UnvisitedTiles | tictactoe/ai.py:42-49 | the board is restored, and the result is exactly the empty tiles whose board is not in the table, in the board's order |
| MonteCarlo.MonteCarloSearch.OptimalTile | tictactoe/ai.py:51-60 | the board is restored, and the result is Optimal: the last candidate in the table with the greatest criterium |
| MonteCarlo.MonteCarloSearch.Playout | tictactoe/ai.py:87-95 | the board is restored, and the score is an outcome for the searching player of some random continuation, a loss floored to 0 |
| MonteCarlo.MonteCarloSearch.Backpropagate | tictactoe/ai.py:97-103 | as written: the board ends where the walk of recorded tiles ends, and the table is credited along that walk |
| MonteCarlo.MonteCarloSearch.Retrace | tictactoe/ai.py:97-103 | corrected: the board ends where selection started, and the table is credited once along each board of the selected path |
| MonteCarlo.MonteCarloSearch.Select | tictactoe/ai.py:62-85 | the path is legal, every board on it is in the table, old entries are kept, the only new entry is the last board's (0, 0, last tile); when every child is in the table the first move is the descent's optimal child by the bound, otherwise it is one unvisited child and the path ends there; the score is the last move's score as written when that ends the game, otherwise a playout outcome from the last board |
| MonteCarlo.MonteCarloSearch.Descend | tictactoe/ai.py:67-77 | when every child is in the table, the first move is `Optimal` with the bound (`Bound`), maximised on `me`'s turn and minimised otherwise; the result is a selection whose score is reported as in Select |
| MonteCarlo.MonteCarloSearch.Expand | tictactoe/ai.py:78-85 | plays one unvisited tile and records only that new board, as (0, 0, tile); the score is the tile's score as written for `me` when that ends the game, otherwise a playout outcome from the new board |
| MonteCarlo.MonteCarloSearch.Round | tictactoe/ai.py:110-112 | one round restores the board, keeps every key and the root's tile, credits the root at least once, and reaches a child now in the table |
| MonteCarlo.MonteCarloSearch.Play | tictactoe/ai.py:105-114 | the board is restored; the root's entry records no tile and its visits grow by at least 1000 from the old count (0 when it had no entry); no key is lost; the move is the Optimal child by visits, an empty tile whose visits are at least those of every child in the table |

## Left out

- Display and notification: `notify`, delegates, `mark`, `marked` and `rank` on discs, the Qt widgets, `__str__`/`__repr__` of the four-in-a-row board, and `__main__`. They change nothing the games compute.
- `FourPlay.MonteCarloSearchAI` is the breadth-first AI under another name, and is modelled by `FourPlaySearch.Play`.
- The networkx Monte Carlo AI of `tictactoe.py` is not part of this model.
- `tictactoe.py`'s `Player.reset` hooks do nothing and are not modelled.
- Randomness: `random.shuffle` is any permutation. `random.choice` is an arbitrary choice.
- Floating point: scores are `real`, so 1/level and the comparisons are exact. Python's rounding, and the `-math.inf` start of the tic-tac-toe search (the `NoMove` case), are modelled exactly rather than as floats.
- MonteCarlo.MonteCarloSearch.Select: the upper-confidence bound is the parameter `ucb(parentVisits, wins, visits)`. Its formula, and the division by zero and `log(0)` it meets when a count is 0, are not modelled.
- MonteCarlo.MonteCarloSearch.Descend: the score of a finished game on the descent is the score for the searching player as `score` returns it. A loss stays -1, while a playout floors it to 0. That is what the source does.
- MonteCarlo.MonteCarloSearch.Round: credits the boards of the selected path with `Retrace`. The source walks the tiles recorded in the entries (`Backpropagate`), which credits other boards after a transposition or with a table kept from an earlier move; see Findings.
- MonteCarlo.MonteCarloSearch.Play: rounds credit the selected path with `Retrace`, not with the source's walk of recorded tiles (`Backpropagate`); see Findings.
- MonteCarlo.MonteCarloSearch.Backpropagate: requires the walk of recorded tiles to be well formed, meaning every key is present and every recorded tile is taken. The source raises `KeyError` or "Inconsistent TicTacToe state" otherwise.
- MonteCarlo.MonteCarloSearch.Play: the contract says nothing about which child wins in terms of the game's value. The UCB statistics are not related to minimax.
- MonteCarlo.MonteCarloSearch.Play: states a lower bound on the root's visits (at least one credit per round). It does not state the exact count or the root's wins.
- FourPlaySearch.Answer: the AI is the breadth-first search that the window installs at fourplay.py:307-309 (and the AI the player picks at fourplay.py:344). `FourPlay.__init__` sets a plain `Player` as the AI (fourplay.py:146); its `play` (fourplay.py:111-112) needs a column, so a round with that placeholder AI would raise `TypeError` at fourplay.py:185. That path is not modelled.
- FourPlaySearch.Round: the AI's answer is the breadth-first search's, as in FourPlaySearch.Answer; the placeholder AI of fourplay.py:146 is not modelled.
- FourPlaySearch.Round: a full column leaves the board unchanged and reports `ColumnFull`. The source passes `None` to `set` and fails with an attribute error.
- The source's API names that do not exist on the boards shown are read as the existing methods: `unset` as `clear`, `tictactoe.next` as `nextPlayer`, and `fourplay.x`/`fourplay.o` as the AI and the player.
- FourPlayBoard.SetDisc and FourPlayBoard.ClearDisc: their ensures state only well-formedness. The behaviour of `set` and `clear` is the functions' definitions, and SetThenClear, SetKeepsSettled and ClearTopKeepsSettled state it.
- TicTacToeBoard.SetTile and TicTacToeBoard.ClearTile: the same holds. SetThenClear, VacanciesShrink, VacanciesGrow and ToggleTwice state the behaviour.
- The test positions stated for the minimax are: tictactoe/ai.py:133-137, 140-144, 146-150, 152-156, 158-162, 164-168 and 170-174, and the same boards in tictactoe.py:368-396. The members are OnlyTileChosen, FirstTileWins, LeftColumnBlocked, ImmediateWinChosen, TopCornerBlocked, AntiDiagonalBlocked and MiddleColumnBlocked.
- The self-play tests are not stated: tictactoe.py:398-401, tictactoe/ai.py:176-179 (breadth-first search against itself), tictactoe/ai.py:187-190 (Monte Carlo against breadth-first search), the skipped tictactoe/ai.py:181-185, and fourplay/ai.py:100-108. They need the whole game tree or the random playouts.
- Four-in-a-row test positions other than `Finish` (`EasyWin`, `DontScrewUp`, `DontMessUp` and `DontF__kUp` in fourplay/ai.py:50-77, and fourplay.py:350-439) are not stated as lemmas. Searching them to depth 8 is beyond what the verifier can unfold. OnlyWinIsChosen states the general fact behind `EasyWin`.
- FourPlaySearch.PlayFinish: the test builds the board with `FourPlay.build(scenario, o=None, x=ai)`, an API that `fourplay.py` does not have. The model reads the test's `X` and `O` as the AI and its opponent.
- Common.Player: players are identified by their symbol, so two players with the same symbol are equal. The source compares `Player` objects by identity (crawl at fourplay.py:41; the line and score checks at tictactoe.py:27-38 and tictactoe.py:229; the turn toggles at tictactoe.py:203-204 and tictactoe.py:212-213). Replacing a player while its pieces are on the board is therefore not modelled: the window does it mid-game (fourplay.py:344, tictactoe.py:338), and the four-in-a-row tests build first and then replace the AI (fourplay.py:361, 373, 383, 393, 403, 413). In the source the earlier pieces then belong to neither player; in the model they belong to the new AI.
- FourPlayBoard.FourPlay.Build: requires the symbol rows to fit the board. On a larger grid the source raises `KeyError` part-way through.
- TicTacToeBoard.TicTacToe.Build: requires at most three rows of at most three symbols. On a larger grid the source raises `KeyError` part-way through.

## Findings

| source | as written | input that shows it | evidently intended | confidence | as-written member | corrected member |
|---|---|---|---|---|---|---|
| tictactoe.py:33-38 | at the centre tile, `completeDiagonal` returns the main diagonal's comparison and never reaches the anti-diagonal | X on (0,2), (1,1), (2,0) and O on (0,0), (0,1), scoring (1,1): the game is won, yet score reports it undecided; with O on the other tiles too, score reports a draw | report a line when either diagonal through the tile is complete | high, not executed | TicTacToeBoard.CentreWinUnscored | TicTacToeBoard.ScoreIntendedMeaning |
| tictactoe/ai.py:97-111 | `backpropagate` follows the tile recorded in each entry until an entry records none. With the memo table kept from an earlier move, that can be an older root. | the old root is X on (0,0). The entries X(0,0) O(1,1), X(0,0) O(1,1) X(0,1) and X(0,0) O(1,1) X(0,1) O(2,2) record the tiles (1,1), (0,1) and (2,2). The new root is X(0,0) O(2,2) X(0,1). From its child with O on (1,1) the walk lifts (2,2), (0,1) and (1,1) and ends at X on (0,0), so the board is not restored. | credit the boards of the path `select` took and lift exactly its tiles | medium, not executed | MonteCarlo.StaleChainMissesRoot | MonteCarlo.MonteCarloSearch.Retrace |
| tictactoe/ai.py:84 | `expand` records in a new entry the tile it played, and the entry keeps it. `backpropagate` lifts the recorded tiles, so a board reached along two paths is credited along the first one, even on a fresh table. | from the empty board, X(0,2) O(1,1) X(0,0) is expanded first: the entries record (0,2), (1,1) and (0,0). A later selection plays (0,0), (1,1), (0,2) and reaches the same board. The walk credits X(0,2) O(1,1) and X(0,2); the boards selection passed, X(0,0) O(1,1) and X(0,0), get nothing. | credit the boards of the path `select` took and lift exactly its tiles | medium, not executed | MonteCarlo.TranspositionCreditsOtherPath | MonteCarlo.MonteCarloSearch.Retrace |
| tictactoe.py:374-378 | the older test expects (0,0) on `☐☐☓ / ◯☓☐ / ◯☓◯` with crosses to move | (0,0) wins nothing at once, while (0,1) completes the crosses' middle column; the search answers (0,1), so the assertion fails | expect (0,1), as tictactoe/ai.py:152-156 does | high, not executed | TicTacToeSearch.CornerExpectationFails | TicTacToeSearch.ImmediateWinChosen |

The searches and the Monte Carlo playouts are modelled over `Score`, the score as written, so they inherit the first finding. `ScoreIntended` is the corrected score.
