# Tic-tac-toe against a minimax computer player

A model of the game logic of a browser tic-tac-toe page. The human plays
"O", the computer plays "X", and the human moves first. Each click on a free
cell puts down the human's mark. If the game is not over, the computer
answers with the cell its exhaustive minimax search picks.

The model has four modules:

- `Board` (board.dfy). The nine cells, the eight winning patterns and
  `checkWinner`. It also lists the free cells and says when a game is over.
  `CheckWinner` is proved equal to an independent description: a full row,
  column or diagonal of the 3x3 grid.
- `Search` (search.dfy). `Minimax` is the search as a pure recursive
  function. It terminates because the number of free cells drops at every
  level. `Search.Run` and `Search.Try` are the source's in-place search on
  an `array<Cell>`. They place a mark, recurse and clear the cell again.
  `Search.Score` is the source's loop over the free cells. Together they
  are proved to return exactly `Minimax` of the entry board and to leave the
  array as it was.
  - The score is -10 if the human has a line, then +10 if the computer has
    one, then 0 on a full board. These checks run in that order.
  - Inner positions copy a child's score unchanged, with no weighting by
    depth, so every score is -10, 0 or 10.
  - The computer takes the maximum and the human the minimum.
  - Ties go to the last candidate. The source's `reduce` keeps the
    accumulator only when it is strictly better than the next candidate, so
    of several equally good free cells the highest-numbered one is returned,
    not the first.
- `Session` (game.dfy). The class `Game` holds the page's state: the board,
  `gameOver` and `humanTurn`. Its methods are the click handler, `makeMove`,
  `endGame`, the computer's reply and `resetGame`. Between clicks, the
  invariant `Valid` holds:
  - the game is over exactly when the board is finished;
  - while it is not over, the human may click.
- `Scenarios` (scenarios.dfy). Worked positions:
  - a winning move forces a winning score;
  - a fork (two different free cells that each complete a computer line)
    wins;
  - on boards where several free cells win, the search returns the later
    one;
  - a full drawn board scores 0.

The quirk in `Session.Game.AiReply` is modelled as written. The computer's
reply sets `humanTurn` back to true after its `makeMove`, even when that
move has just ended the game (script.js:39-40). So after the computer wins,
both `gameOver` and `humanTurn` are true. (A draw never happens on the
computer's move: the human, moving first, puts down the ninth mark.) This is
harmless because the click guard also tests `gameOver`.

On ties the code keeps the last candidate, not the first. A first-best
tie-break would return the immediate win at cell 2 on the board
`X X _ / _ O _ / _ _ _` with the computer to move.
`Scenarios.TopPairSkipsImmediateWin` proves that the search does not: cell
3 also forces a win, so a later cell is returned. `Scenarios.TwoWinsPicksLast`
shows the same thing on a legal position, where cells 2 and 3
both win at once and the search returns 3.

## Model

| member | source | states |
|---|---|---|
| Board.Other | script.js:90 | the player to move next is never the player who just moved |
| Board.AnyOwnedFrom | script.js:76 | scanning the patterns from position k on finds an owned one exactly when some pattern at or after k has all three cells equal to the player |
| Board.OwnsEveryCell | script.js:76 | a player owns a line exactly when every cell the line lists holds the player's mark |
| Board.CheckWinner | script.js:19-23 | true exactly when some one of the eight fixed patterns has all three cells equal to the player |
| Board.PatternIsGridLine | script.js:19-23 | a pattern the player fills is a full row, column or diagonal of the 3x3 grid |
| Board.PatternWins | script.js:75-77 | a filled pattern makes CheckWinner true |
| Board.GridLineIsPattern | script.js:19-23 | every full row, column or diagonal is detected by CheckWinner |
| Board.CheckWinnerIsGridLine | script.js:75-77 | CheckWinner holds if and only if the player fills a row, a column or a diagonal |
| Board.FullIsNoneFree | script.js:54 | the board is full exactly when the free-cell count, the measure that makes the search terminate, is zero; with EmptyCells, this test agrees with the search's empty free-cell list |
| Board.TerminalIsGameEnd | script.js:82-84 | the game is over exactly when a side fills a row, column or diagonal of the grid, or the number of free cells is zero |
| Board.EmptyCellsFrom | script.js:81 | the listed cells from `start` on are free, at or after `start`, and strictly ascending |
| Board.EmptyCellsFromComplete | script.js:81 | every free cell at or after `start` is listed |
| Board.EmptyCells | script.js:81 | the list of free cells has only free cells, in ascending order, and is empty exactly when the board is full |
| Board.EmptyCellsComplete | script.js:81 | every free cell of the board is in the list |
| Board.EmptyBoardInPlay | script.js:12 | the all-free starting board has no line for either side and is not finished |
| Board.PlaceDecreasesEmpty | script.js:89 | putting a mark on a free cell leaves exactly one free cell fewer, the measure that makes the search terminate |
| Board.PlaceKeepsOthersLines | script.js:48 | a mark for one player never creates a line for anyone else |
| Board.PlaceTerminal | script.js:52-56 | after a move on a board still in play, the game is over exactly when the mover now has a line or the board is full |
| Search.LastBestStep | script.js:95-97 | one step of the reduction keeps the earlier choice only if it is strictly better than the new candidate, and otherwise takes the new one |
| Search.Reduce | script.js:95-97 | returns a candidate that is at least as good for the mover as every other and strictly better than every later one, so ties go to the last |
| Search.Minimax | script.js:80-98 | the score is -10, 0 or 10; a cell is returned exactly when the board is not finished, and that cell is free |
| Search.ChildScore | script.js:89-90 | the score after the mover takes a free cell with the other player to move is -10, 0 or 10 |
| Search.MinimaxLeaves | script.js:82-84 | a human line gives -10; otherwise a computer line gives +10; otherwise a full board gives 0 |
| Search.CandidatesShape | script.js:86-93 | the moves array has one entry per listed free cell, in the same order, each naming its cell and carrying a score of -10, 0 or 10 |
| Search.ReduceOrdered | script.js:95-97 | over candidates for ascending cells, the reduction picks a candidate no worse than any, and strictly better than any for a later cell |
| Search.ReduceCandidatesChosen | script.js:88-90 | the chosen candidate names a free cell and carries that cell's own child score |
| Search.ReduceCandidatesBest | script.js:95-97 | no free cell scores better than the chosen one, and every free cell after it scores strictly worse |
| Search.MinimaxCopiesChild | script.js:90 | on a board in play, the returned score is the chosen cell's child score copied unchanged, with no depth weighting |
| Search.MinimaxChoosesBest | script.js:95-97 | on a board in play, the computer's score is at least, and the human's at most, that of every free cell; every free cell after the chosen one is strictly worse |
| Search.Run | script.js:80-98 | the in-place search leaves the array cell-for-cell as it was and returns Minimax of the entry board |
| Search.Score | script.js:86-93 | the candidate loop leaves the array cell-for-cell as it was and yields, in the order of the free cells, each cell with the score of the position after the mover takes it |
| Search.Try | script.js:89-91 | placing the mark, searching and clearing the cell leaves the array as it was and yields that cell's child score |
| Session.Game.constructor | script.js:12-14 | the page starts with an all-free board, the game not over and the human to click, and the invariant holds |
| Session.Game.MakeMove | script.js:47-57 | only the named cell changes, to the player's mark; the game ends exactly when the player now has a line or the board is full, and then the human may not click; on a free cell of a board in play, the game has ended exactly when the mover has a line or the board is full |
| Session.Game.EndGame | script.js:64-65 | afterwards the game is over and human clicks are blocked |
| Session.Game.Click | script.js:30-43 | a click is taken only when the human may click, the cell is free and the game is not over, and is otherwise ignored with nothing changed; a taken click places the human's mark and, if the game goes on, the computer's reply at Minimax's cell; the invariant is kept |
| Session.Game.Play | script.js:33-42 | an accepted click: the human's mark goes down; if that ends the game the board stays so with the game over and clicks blocked, otherwise the computer's mark goes on Minimax's cell and the human may click again; the invariant is kept |
| Session.Game.AiReply | script.js:37-41 | the computer marks the cell Minimax picks on the current board; the game ends exactly when that gives it a line or fills the board, that is exactly when the new board is finished; the human's click flag is set again |
| Session.Game.Reset | script.js:101-104 | a fresh all-free board, the game not over and the human to click, with the invariant holding |
| Scenarios.CompletingMoveWins | script.js:82-83 | a move that completes the mover's line, where the opponent has none, scores as a win for the mover |
| Scenarios.CanWinNow | script.js:95-97 | a position in play where the mover can complete a line is worth a win for the mover |
| Scenarios.ReplyLoses | script.js:89-90 | a human reply after which the computer can complete a line scores +10 |
| Scenarios.HumanCannotEscape | script.js:97 | a human position in play all of whose replies score +10 is worth +10 |
| Scenarios.ThreatSurvivesReply | script.js:76 | a human mark on another free cell cannot break a line the computer is about to complete |
| Scenarios.ForkWins | script.js:80-98 | with the human to move, two different free cells that each complete a computer line, and no human reply that completes a human line, make the position worth +10 |
| Scenarios.NoEarlierCellChosen | script.js:96 | if a free cell forces a computer win, the search scores +10 and returns that cell or a later one, never an earlier one |
| Scenarios.LastWinnerChosen | script.js:96 | if a computer cell wins and every later free cell scores less, the search returns that cell with +10, however many earlier cells also win |
| Scenarios.TwoWinsPicksLast | script.js:96 | on a legal position where cells 2 and 3 both win at once, the search returns cell 3 with score +10 |
| Scenarios.DoubleThreatWins | script.js:80-98 | after the computer takes cell 3 next to its top pair, every human reply loses: the position is worth +10 |
| Scenarios.TopPairSkipsImmediateWin | script.js:95-97 | on `X X _ / _ O _ / _ _ _` with the computer to move, the score is +10 but the search does not return the immediate win at cell 2 |
| Scenarios.FullDrawScoresZero | script.js:82-84 | a full board with no line is finished, has no winner and scores 0 for either player to move |

## Left out

- Rendering and page elements: cell texts, disabled buttons, the message box, hiding the board (script.js:1-6, 49-50, 61-63, 106-112). They are presentation only.
- Audio: background music, win and draw sounds (script.js:8-10, 26, 67-71, 113). These are browser calls.
- Session.Game.EndGame: does not take the message text or the win/draw flag, because they only choose the displayed text and the sound.
- Session.Game.Click: the 400 ms `setTimeout` before the computer's reply is collapsed into one sequential step, so nothing can happen between the human's move and the reply. Cell clicks in that window are refused, because `humanTurn` is false, but `resetGame` has no guard. A reset in the window is not modelled. In the source the pending reply then reads the new board (script.js:38), so the new game starts with a computer mark and `humanTurn` true. Further clicks can then queue a second reply, which is not modelled either.
- Event wiring: the listeners on the cells and on the "new game" and "reset" buttons (script.js:29-30, 116-117). The model calls `Click` and `Reset` directly.
- Session.Game.AiReply: requires a board still in play. The click handler only schedules the reply when the human's move did not end the game. With the delay collapsed, the board is the same when the reply runs. A late reply that fires on a finished board, after the reset race above, is not modelled. In the source, `minimax` then returns no index and `makeMove` fails on the missing cell.
- A whole-game theorem that the computer never loses. The source does not claim it, and it needs reasoning over the full game tree.
