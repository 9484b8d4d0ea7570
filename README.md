# Minesweeper rules engine in Dafny

This project models the rules engine of a terminal Minesweeper game: the
`Minesweeper` class and the flag and unflag edits that the command loop
makes on the board. It proves what each operation does to the board, the
hidden grid and the counters.

The game keeps two grids of the same shape:

- The hidden **grid** holds `-1` for a mine. Every other square holds the
  number of mines in its 3x3 window, clipped at the board edge.
- The visible **board** holds a covered square `.`, a flag `F`, an uncovered
  blank, a digit, or a shown mine `X`. Here these are the `Cell` values
  `Hidden`, `Flagged`, `Blank`, `Number(n)` and `Mine`.

The counters are `attempts`, `uncovered`, `won` and `gameEnd`.

The files:

- `counting.dfy` (module `Counting`) counts mines around a square. It counts
  the way the game scans (`Around`, built from `BlockCount` and `RowCount`).
  It proves that this count equals the size of an independent set
  description, `MinesNear`. It also proves the cardinality facts the win
  check needs.
- `cells.dfy` (module `Cells`) defines the board squares and the two flag
  commands as functions on one square.
- `game.dfy` (module `Game`) defines the class `Minesweeper`, with
  `array2` fields for the grid and the board and methods that update them in
  place.
  - Its invariant `Valid()` says four things:
    - every square without a mine holds its count;
    - when `attempts > 0`, exactly `mines` squares are mines;
    - uncovered squares show what the grid holds;
    - when `attempts == 0`, nothing is uncovered.
  - The reveal `UncoverDots` is split along the source's own nesting into
    `ShowSafe` (count or zero), `ShowBlank` (a zero), `UncoverAround` (the
    row loop), `UncoverAroundRow` (the column loop) and `SpreadTo` (one
    neighbour). These six methods recurse into each other.
  - Two ghost sets describe how far a reveal reaches: `HiddenSet()` (the
    covered squares) and `BlankSet()` (the uncovered blanks). `Halo(s)` is
    the set of on-board squares in the 3x3 window of some square of `s`.
    Two two-state predicates name the clauses every reveal method shares:
    `SpreadClosed(t)` (nothing covered again, no blank changed, no new blank
    next to a covered square) and `SpreadReach(t)` (everything uncovered is
    t or in the window of a new blank).
  - The recursion terminates on the set of covered squares. That set shrinks
    because a square is made blank before the spread looks at its
    neighbours.

## Model

| member | source | states |
|---|---|---|
| Cells.Flag | minesweeper.py:176-184 | the flag command flags a covered square, covers a flagged one, and leaves an uncovered square or a shown mine as it is |
| Cells.Unflag | minesweeper.py:185-189 | the unflag command never leaves a flag; it covers a flagged square and leaves any other square unchanged |
| Cells.FlagTwice | minesweeper.py:176-184 | flagging twice gives the square back |
| Cells.UnflagUndoesFlag | minesweeper.py:176-189 | unflagging a square just flagged from covered covers it again |
| Cells.UnflagIdempotent | minesweeper.py:185-189 | unflagging twice is unflagging once |
| Cells.FlagsKeepUncovered | minesweeper.py:176-189 | neither command uncovers or covers an uncovered square, or changes one, or changes a shown mine |
| Counting.AroundCountsNeighbours | minesweeper.py:41-47 | the count the game stores (its clipped row-by-row scan) is the number of mines on the board within one row and one column of the square |
| Counting.AroundAtMostEight | minesweeper.py:41-47 | a square without a mine has at most eight mines around it |
| Counting.ZeroAroundNoMine | minesweeper.py:97-105 | a zero count means no neighbour of the square holds a mine, so the spread only reveals safe squares |
| Counting.CellsCard | minesweeper.py:118 | a rows x cols board has rows * cols squares |
| Game.Minesweeper.constructor | minesweeper.py:5-19 | a new game has every square covered, a grid of zeros, all counters at zero or false, and satisfies the invariant |
| Game.Minesweeper.CountAround | minesweeper.py:41-45 | the nested scan of the clipped 3x3 window returns the number of mines in it |
| Game.Minesweeper.CalculateNeighbours | minesweeper.py:35-47 | the mines are unchanged and every square without a mine now holds the number of mines around it |
| Game.Minesweeper.CountsInRange | minesweeper.py:35-47 | after counting, every square without a mine holds a value from 0 to 8 |
| Game.Minesweeper.ClearGrid | minesweeper.py:22 | every square of the grid is 0 |
| Game.Minesweeper.AvoidFirstClick | minesweeper.py:21-33 | exactly `mines` squares are mines; the clicked square is not one of them; the mines are the distinct draws of a prefix of the random draws, leaving out the click; every other square is counted |
| Game.Minesweeper.ShowMines | minesweeper.py:51-54 | every mine square of the board shows a mine and every other square is unchanged |
| Game.Minesweeper.RevealDots | minesweeper.py:49-55 | every mine is shown, every other square is unchanged, and the game has ended |
| Game.Minesweeper.UncoverDots | minesweeper.py:76-105 | mines are placed only on the first reveal and never under the target; a flag or blank changes nothing and keeps `attempts`; otherwise a player reveal adds one attempt and a spread step none; a mine shows all mines and ends the game; a safe reveal only uncovers covered squares; every square it uncovers is the target or lies next to a square it turned blank; no blank it uncovers keeps a covered neighbour (full list below) |
| Game.Minesweeper.ShowSafe | minesweeper.py:96-105 | a positive count is shown as its number and nothing else changes; a zero becomes blank and none of its neighbours stays covered; only covered squares change, and they become uncovered; the reach of the spread is limited as for UncoverDots |
| Game.Minesweeper.ShowBlank | minesweeper.py:99-105 | the zero square becomes blank and none of its neighbours stays covered; every square uncovered is the target or next to a square turned blank; no blank uncovered keeps a covered neighbour; only covered squares change, each to uncovered |
| Game.Minesweeper.UncoverAround | minesweeper.py:101-105 | after the spread from a blank square no neighbour of it is covered; every square uncovered lies next to the square or to a square the spread turned blank; no blank the spread uncovered keeps a covered neighbour; the grid and counters are unchanged, and only covered squares changed, each to uncovered |
| Game.Minesweeper.UncoverAroundRow | minesweeper.py:103-105 | after one row of the spread, every neighbour of the blank square in that row and the rows before it is no longer covered; the reach and frame are as for UncoverAround |
| Game.Minesweeper.SpreadTo | minesweeper.py:104-105 | the neighbour is no longer covered; if it was covered it is revealed as a spread step, otherwise nothing changes; the reach and frame are as for UncoverAround |
| Game.Minesweeper.ClosedMeansNoCoveredNeighbour | minesweeper.py:101-105 | the set form of the closure clause, no covered square in the windows of a set of squares, holds exactly when no square of the set has a covered neighbour |
| Game.Minesweeper.CountUncovered | minesweeper.py:108-115 | the scan stops exactly when the board shows a mine, with the count of uncovered squares before the first one in row-major order; otherwise it returns the number of uncovered squares |
| Game.Minesweeper.WinLose | minesweeper.py:107-131 | a shown mine stops the count and changes nothing else; otherwise `uncovered` is the number of uncovered squares, and reaching rows * cols - mines shows the mines and sets `won` and `gameEnd`; with mines placed, `won` becomes true exactly when every safe square is uncovered (full list below) |
| Game.Minesweeper.WinCountMeansAllSafeUncovered | minesweeper.py:118 | once the mines are placed, the uncovered squares number rows * cols - mines exactly when every square without a mine is uncovered |
| Game.Minesweeper.ToggleFlag | minesweeper.py:176-184 | the target square becomes `Flag` of its old value and no other square changes; it reports a change exactly when the square was covered or flagged |
| Game.Minesweeper.RemoveFlag | minesweeper.py:185-189 | the target square becomes `Unflag` of its old value and no other square changes; it reports a change exactly when the square was flagged |

`Game.Minesweeper.UncoverDots` states the following:

- On the first reveal the mines are placed, never under the target. Later
  reveals leave the grid unchanged.
- On a flag or an uncovered blank the board does not change, and `attempts`
  keeps its entry value. A first reveal still places the mines.
- Otherwise a player reveal raises `attempts` by exactly one, and a spread
  step never changes it.
- On a mine, every mine is shown and the game ends.
- On a safe square, only covered squares (and the target) change, and each
  becomes uncovered, never a mine. A count is shown without spreading.
- A zero becomes blank with no covered neighbour left. Every blank the spread
  uncovers also has no covered neighbour left.
- The spread goes no further than the windows of the blanks it made: every
  square a safe reveal uncovers is the target or lies in the window of a
  square it turned blank.
- No square is covered again, and no blank changes.
- The target is never left covered, and the invariant is kept.

`Game.Minesweeper.WinLose` states the following:

- When a mine is shown, the count stops at the first one in row-major order.
  `won`, `gameEnd` and the board are unchanged, and the current `won` is
  returned.
- Otherwise `uncovered` is the number of uncovered squares.
- If that number equals rows * cols - mines, every mine is shown and both
  `won` and `gameEnd` become true. If not, nothing else changes.
- Once the mines are placed, `won` ends up true exactly when it already was
  or every safe square was uncovered.

## Left out

- `randint` (minesweeper.py:1, 26) is not modelled. The random squares are
  the parameter `draws` of `AvoidFirstClick` and `UncoverDots`.
  - The source keeps drawing until `mines` squares are placed, which ends
    only with probability one.
  - The model therefore requires that the draws lie on the board and hold at
    least `mines` distinct squares other than the click (`DrawsFit`).
- `display_board` (minesweeper.py:57-62) is left out. It only lays out text
  for the terminal.
- The getters (minesweeper.py:64-74) are not separate members. The model
  reads the public fields `uncovered`, `gameEnd`, `attempts` and `board`
  directly. `board` is an array, so the flag commands edit the same board
  the game uses, as the source does.
- Console input and output are left out. This covers `row_or_col`, the
  command loop of `game_options` and `main` (minesweeper.py:134-175,
  191-207), and also:
  - the reveal command's check that the square is covered;
  - the quit commands;
  - the printed messages, which `ToggleFlag` and `RemoveFlag` replace by
    their `changed` result;
  - the hard-coded `90` of the remaining-squares message.
- The board size and mine count are fixed at 10, 10 and 10 in the source
  (minesweeper.py:7-9). Here they are constructor parameters, with
  `mines < rows * cols`.
- The source has no bounds check. It relies on the console, which only
  accepts 0-9, and Python would read a negative index from the end of a row.
  Every square operation here requires an on-board square (`InGrid`).
- `AvoidFirstClick` does not model the fresh list the source builds at
  minesweeper.py:22 as a new object. It zeroes the same grid in place
  (`ClearGrid`), and nothing outside the class holds the grid.
- `Valid()` does not tie shown mines (`Mine` squares) to the grid, because no
  proof needs it. A first reveal on a flag leaves `attempts` at 0, and the
  next reveal then places the mines again (minesweeper.py:78, 88).
- UncoverDots: does not state that every new blank is connected to the
  target through a chain of new blanks. Its reach is bounded only by the
  windows of the blanks it made. Connectivity would need a ghost order or
  path of blanks, and the set-form proof does not carry one.
- ShowSafe: does not state that new blanks are connected to the target, for
  the same reason as UncoverDots.
- ShowBlank: does not state that new blanks are connected to the target, for
  the same reason as UncoverDots.
- UncoverAround: does not state that new blanks are connected to (row, col),
  for the same reason as UncoverDots.
- UncoverAroundRow: does not state that new blanks are connected to
  (row, col), for the same reason as UncoverDots.
- SpreadTo: does not state that new blanks are connected to the neighbour it
  reveals, for the same reason as UncoverDots.
- The board stores digits as strings. Here a count is `Number(n)` with the
  count itself.
