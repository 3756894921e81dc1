# Tic-tac-toe decision engine

A Dafny model of the decision engine of a console tic-tac-toe game
(`TicTacToeGame.py`). The human plays `X` and the computer plays `O` on a
3x3 grid. The game can answer three questions about a board: does a mark
hold a row, a column or a diagonal; is the board full; and which cells
are still blank. It has three policies for the computer's move:

- easy: a random blank cell;
- medium: the first cell that wins, else the first cell that blocks a win
  of `X`, else a random cell;
- hard: an exhaustive minimax search with depth-weighted scores.

The medium and hard policies try cells by marking and unmarking the grid
itself; the easy policy writes its one cell directly.

The model has four modules:

- `TicTacToe` (`board.dfy`) holds the board as a value: nine cells in
  row-major order. It defines the three queries and proves what they mean.
  For example, `Wins` agrees with an explicit table of the eight lines, and
  `EmptyPositions` lists exactly the blank cells, in strictly increasing
  row-major rank.
- `Search` (`search.dfy`) defines, on board values, what each policy
  chooses:
  - `MediumChoice` is the greedy choice;
  - `Minimax` is the search, written as mutually recursive
    `Minimax`/`Fold`/`ChildScore`, with termination on the number of blank
    cells;
  - `HardChoice` is the root scan, which keeps the first move of strictly
    greatest score.
- `Bots` (`bots.dfy`) holds the moves as the game makes them, on a mutable
  `array2<Cell>`. `BotMoveMedium`, `MinimaxInPlace` and `BotMoveHard`
  place and revert trial marks in loops, and each is proved equal to its
  `Search` definition; `MinimaxInPlace` also proves that the grid ends as
  it began. `BotMoveEasy` and `PlayerMove` have no loop: their contracts
  state the new grid directly.
- `Scenarios` (`scenarios.dfy`) works through concrete positions.

The source's two branches of the inner search are nearly identical. One
marks `O` and takes the maximum; the other marks `X` and takes the
minimum. In the model they form one loop, parameterised by `Mover` and by
a choice between `Max` and `Min`. The seeds `-inf` and `+inf` become the
integers `NegInf = -11` and `PosInf = 11`. This is faithful on every call
the game makes: `MinimaxBounds` proves that every score lies in [-10, 10]
whenever the depth plus the number of blank cells is at most 10, and the
root scan starts at depth 0 with at most eight blank cells
(`RootScoreBounds`).

## Model

| member | source | states |
|---|---|---|
| TicTacToe.Wins | TicTacToeGame.py:8-19 | check_winner: some row or column i, the main diagonal or the anti-diagonal is all the mark (rows and columns tested together for each i, as the loop does) |
| TicTacToe.WinsIffSomeLine | TicTacToeGame.py:8-19 | check_winner holds exactly when one of the eight lines (three rows, three columns, two diagonals, as an explicit table of cells) is entirely the mark |
| TicTacToe.PlaceChangesOneCell | TicTacToeGame.py:42 | writing a mark into a cell puts the mark there and leaves every other cell as it was |
| TicTacToe.Place | TicTacToeGame.py:42 | after a write the written cell holds the mark |
| TicTacToe.IsDraw | TicTacToeGame.py:21-22 | is_draw: no cell of any row is blank, regardless of lines |
| TicTacToe.EmptyPositions | TicTacToeGame.py:24-25 | every cell listed by get_empty_positions is blank |
| TicTacToe.EmptyPositionsMembers | TicTacToeGame.py:24-25 | a cell is listed by get_empty_positions exactly when it is blank |
| TicTacToe.EmptyPositionsAscending | TicTacToeGame.py:24-25 | the blank cells are listed in strictly increasing row-major rank, so none twice |
| TicTacToe.EmptyPositionsNoneIffFull | TicTacToeGame.py:21-25 | the list of blank cells is empty exactly when is_draw holds |
| TicTacToe.EmptiesAtMostNine | TicTacToeGame.py:24-25 | at most nine cells are listed |
| TicTacToe.PlaceOnEmpty | TicTacToeGame.py:72-74 | marking a blank cell leaves exactly one blank cell fewer, which is why the search terminates |
| TicTacToe.PlaceUndo | TicTacToeGame.py:73-75 | marking a blank cell and then resetting it to blank restores the board |
| TicTacToe.PlaceTwice | TicTacToeGame.py:53-55 | overwriting a trial X with O leaves the same board as writing O directly |
| Search.Completes | TicTacToeGame.py:47-48 | the trial of one cell: marking it with the mark and testing check_winner for that mark on the whole board (also lines 53-54 for X) |
| Search.FirstCompleting | TicTacToeGame.py:46-49 | a cell it returns is one of the candidates and completes a line of the mark |
| Search.FirstCompletingIsFirst | TicTacToeGame.py:46-57 | it finds nothing exactly when no candidate completes a line; otherwise it returns the first candidate that does |
| Search.MediumChoice | TicTacToeGame.py:44-57 | the greedy choice is a blank cell that completes a line of O or of X |
| Search.MediumChoicePriority | TicTacToeGame.py:44-59 | if a blank cell wins for O, the first such cell is chosen; otherwise the first blank cell that wins for X is chosen; the policy falls back to a random cell exactly when no blank cell wins for either side |
| Search.Minimax | TicTacToeGame.py:62-85 | minimax: 10 - depth if O holds a line (tested first), depth - 10 if X does, 0 on a full board, otherwise the fold of the reply values over the blank cells from the seed -11 (maximiser) or 11 (minimiser) |
| Search.ChildScore | TicTacToeGame.py:73-74 | the value of one reply: the mover's mark (O when maximising, X when minimising) on the cell, searched one level deeper with the other side to move |
| Search.Fold | TicTacToeGame.py:72-76 | the running max (maximiser) or min (minimiser) of the reply values, taken over the blank cells in row-major order |
| Search.FoldExtremum | TicTacToeGame.py:70-85 | the running maximum (minimum) over the replies is at least (most) the seed and every reply's value, and equals the seed or one of them |
| Search.MinimaxBounds | TicTacToeGame.py:62-85 | every value lies in [depth - 10, 10 - depth] whenever depth plus the number of blank cells is at most 10, so no value reaches the seeds |
| Search.ChildBounds | TicTacToeGame.py:72-84 | the value of one reply lies one level deeper in the same band |
| Search.MinimaxNonTerminal | TicTacToeGame.py:70-85 | off a terminal position the value is the value of some reply, and the largest (maximiser) or the smallest (minimiser) of them |
| Search.RootScoreBounds | TicTacToeGame.py:87-91 | every root score lies in [-10, 10] |
| Search.RootScoreTen | TicTacToeGame.py:63-64 | a blank cell scores 10 at the root exactly when O completes a line by marking it, and every other blank cell scores less |
| Search.RootScore | TicTacToeGame.py:90-91 | the score of one root move: O on the cell, then minimax at depth 0 with X to move |
| Search.BestFrom | TicTacToeGame.py:89-95 | the root scan: a move replaces the best so far only when its score is strictly greater |
| Search.HardChoice | TicTacToeGame.py:87-97 | the cell the hard policy marks: the scan over the blank cells from seed -11 and no move |
| Search.BestFromFirstMax | TicTacToeGame.py:87-95 | the strict `>` scan keeps its seed when no score beats it, and otherwise ends on the first move of maximal score |
| Search.HardChoiceIsFirstBest | TicTacToeGame.py:87-97 | on a board that is not full the hard policy picks a blank cell of maximal score, and the first such cell in row-major order |
| Search.HardTakesImmediateWin | TicTacToeGame.py:87-97 | when some blank cell wins at once, the hard policy takes the first such cell, which is the greedy policy's cell |
| Bots.Put | TicTacToeGame.py:42 | writing a cell of the grid changes its board value as Place does |
| Bots.PlayerMove | TicTacToeGame.py:31-36 | the two 1-based numbers are accepted exactly when they name a blank cell; an accepted cell receives X; a rejected move leaves the grid unchanged |
| Bots.BotMoveEasy | TicTacToeGame.py:40-42 | on a board with a blank cell, one previously blank cell receives O and nothing else changes |
| Bots.BotMoveMedium | TicTacToeGame.py:44-59 | exactly one previously blank cell receives O. Whenever the greedy choice exists it is that cell. Every untaken trial mark is undone |
| Bots.MinimaxInPlace | TicTacToeGame.py:62-85 | the in-place search with place, recurse and revert returns Minimax of the board it was given and leaves the grid as it found it |
| Bots.BotMoveHard | TicTacToeGame.py:61-97 | on a board with a blank cell, the cell marked O is HardChoice, it was blank, and nothing else changes |
| Scenarios.BlanksOfWinBoard | TicTacToeGame.py:24-25 | the blank cells of a concrete board, listed in row-major order |
| Scenarios.WinBeforeBlock | TicTacToeGame.py:44-97 | when O can win at (1, 2) and X threatens (0, 2), the medium and hard policies both choose (1, 2) |
| Scenarios.BlanksOfBlockBoard | TicTacToeGame.py:24-25 | the six blank cells of that blocking position, listed in row-major order |
| Scenarios.MediumBlocks | TicTacToeGame.py:52-56 | after X on (0, 0) and (0, 1) and O in the centre, O cannot win and X threatens (0, 2), so the greedy policy blocks at (0, 2) |
| Scenarios.FullBoardNoLine | TicTacToeGame.py:8-25 | a full board with no line: a draw, no winner, no blank cells, and neither policy has a cell |
| Scenarios.FullBoardWithLine | TicTacToeGame.py:21-22 | is_draw holds on a full board even when O holds a line |

## Left out

- `print_board` (TicTacToeGame.py:3-6) only writes to the console.
- `player_move` (TicTacToeGame.py:27-38) reads a line from the console,
  splits it and converts the two numbers. The model starts after that
  conversion: `Bots.PlayerMove` takes the two numbers. Malformed text
  (the `ValueError`/`IndexError` path) and the re-prompting loop are not
  modelled. `PlayerMove` returns whether the move was accepted, so a caller
  can ask again.
- `main` (TicTacToeGame.py:99-138) is the interactive loop and picks the
  difficulty from text, so it is not modelled. What it guarantees to the
  bots becomes their precondition: they run only on a board that is not
  full.
- `Bots.BotMoveEasy`: `random.choice` is modelled as an arbitrary choice
  of a blank cell. The model says nothing about the distribution.
- `Search.Minimax`: the infinite float seeds are modelled as the integers
  -11 and 11. `Search.MinimaxBounds` shows that no score reaches them on
  every call the game makes, where the depth plus the number of blank
  cells is at most 10 (the root scan starts at depth 0 on at most eight
  blank cells). At a larger depth, which the game never reaches, a seed
  can be returned where the source would return a value below -10 or
  above 10; the model does not capture those values.
- The source raises on a full board: `random.choice` raises `IndexError`
  (TicTacToeGame.py:41, reached by the medium policy through line 59) and
  the hard policy's final write raises `TypeError` on `None`
  (TicTacToeGame.py:97). The model does not model the exception; the bot
  methods require a board that is not full, which is all the game ever
  passes them.
- The hard policy's reply to X on a corner alone (it takes the centre) is
  not proved: it needs the minimax value of every cell over the full game
  tree, which is beyond what the verifier evaluates here.
- The claim that the hard policy never loses is not proved, because it
  would mean evaluating the whole game tree.
- The bot methods return the cell they marked, where the source returns
  nothing. The return value adds information and changes no behaviour.
- The grid is an `array2`, so its three rows cannot alias one another.
  This matches the board that `main` builds (one fresh list per row,
  TicTacToeGame.py:103).
