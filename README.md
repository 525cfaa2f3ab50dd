# Minesweeper page logic (main.js), verified in Dafny

This project models the game logic held by `main.js` of a browser
Minesweeper. It does not model the engine (`MSGame`), whose source is not
part of this model. The page reads the engine's board after every move,
numbers the on-screen cards row-major, decides whether the round is lost or
won, and keeps an elapsed-time counter and a flags-remaining figure.

Files:

- `board.dfy` (module `Board`): cells (`mine`, `state` hidden/shown/marked,
  `count`), the grid as `seq<seq<Cell>>`, and the two nested scans the page
  runs over it. `isPlayerWin` is `IsPlayerWin`, proved equal to the full-scan
  predicate `Won`. `showRemainingBombs` is `ShowRemainingBombs`, proved to
  pick exactly the card indices of the hidden mines.
- `cards.dfy` (module `Cards`): the click callback's decomposition of a card
  number into (row, col), its inverse, and render's row-major `index++` walk.
  It proves that both numberings agree.
- `timer.dfy` (module `Timer`): the tick rule capped at 999, the decimal
  text of a number, and the three-character counter text `('000' + t).substr(-3)`.
- `controller.dfy` (module `Controller`): the lose-before-win verdict, the
  flags-remaining figure, and a `Session` class. `Session` holds the page's
  globals `t`, the live interval (`timer`) and `startingGame`, plus the two
  texts the page writes. Its methods are page load, `menuButtonCallback`,
  one firing of the interval, and `squareClickCallback`.

Card numbers are never negative, so JavaScript's `%` and
`Math.floor(ind / ncols)` agree with Dafny's Euclidean `%` and `/`.

## Model

| member | source | states |
|---|---|---|
| `Board.IsPlayerWin` | main.js:204-217 | The result is true iff no cell is both hidden and not a mine. It equals the full-scan predicate `Won`, so the inner `break` and the never-reset `won` flag give the same answer as a scan of every cell. |
| `Board.WonIff` | main.js:205-216 | `Won` holds iff no cell anywhere on the grid is hidden and safe. This is both directions. A marked cell, a shown cell or a hidden mine never blocks a win. |
| `Board.ShowRemainingBombs` | main.js:185-198 | The card indices it selects are exactly those positions of the row-major layout whose cell is hidden and a mine. Each appears once, in increasing order. |
| `Board.HiddenMineIndicesSpec` | main.js:186-196 | The list of picked indices holds k iff k is in range and the cell at k is a hidden mine. The list is strictly increasing. |
| `Board.AllSafeShownIff` | main.js:200-203 | The documented win rule ("all non-mine squares have been uncovered") holds iff every non-mine cell is shown. |
| `Board.AllSafeShownImpliesWon` | main.js:200-210 | The documented rule implies the rule as written. |
| `Board.WonIsAllSafeShownWithoutMarks` | main.js:200-210 | On a grid with no marked cell, the written and the documented rules agree. |
| `Board.IsPlayerWinDocumented` | main.js:200-217 | The corrected scan: the result is true iff every non-mine cell is shown. |
| `Board.MarkingEveryCellWins` | main.js:210 | If every cell is marked, the written rule reports a win. If any cell is safe, the documented rule does not. |
| `Board.FlaggedSafeCellWins` | main.js:210 | Example: a hidden mine beside a flagged safe cell passes the written win test but fails the documented one. |
| `Cards.CardToCell` | main.js:146-147 | For ncols > 0 the column is below ncols and row * ncols + col equals the card number. |
| `Cards.CardToCellInBounds` | main.js:127-132 | A card number below nrows * ncols decomposes to a row below nrows. The page hides every other card. |
| `Cards.CardNumberUnique` | main.js:146-147 | Two (row, col) pairs with col < ncols that give the same row-major number are equal. |
| `Cards.CardToCellOfCellToCard` | main.js:146-147 | Decomposing the number row * ncols + col of an in-bounds cell gives back (row, col), and that number is below nrows * ncols. |
| `Cards.CellToCardOfCardToCell` | main.js:146-147 | Renumbering a decomposed card gives back the card number. |
| `Cards.RenderWalk` | main.js:84-110 | render's nested walk visits nrows * ncols cells. The cell it paints on card `index` is the cell the click callback decomposes `index` to. |
| `Cards.FlattenLength` | main.js:186-196 | On an nrows x ncols grid, the row-major layout that showRemainingBombs walks has nrows * ncols cells. |
| `Cards.FlattenAt` | main.js:186-196 | On an nrows x ncols grid, cell (row, col) sits at position row * ncols + col of the row-major layout. |
| `Cards.CardShowsDecomposedCell` | main.js:146-147 | The card showRemainingBombs paints at index `ind` shows the cell the click callback decomposes `ind` to. |
| `Timer.Tick` | main.js:18-25 | At or above 999 the counter is unchanged. Below 999 it goes up by one and stays within 999. |
| `Timer.TicksFromResetIsCapped` | main.js:18-25 | Starting from the reset value 0, after n firings the counter is min(n, 999). It never exceeds 999. |
| `Timer.DecimalRoundTrip` | main.js:24 | The decimal text of n reads back as n and has no leading zero. |
| `Timer.TimerText` | main.js:24 | The counter text has exactly three characters, all digits. |
| `Timer.TimerTextIsPadded` | main.js:24 | For 0 <= t <= 999, the text is the decimal form of t left-padded with '0' to three characters. Its digits are t/100, t/10 mod 10 and t mod 10, and it reads back as t. |
| `Timer.ResetText` | main.js:235 | The "000" written by a new game is the text of the reset value 0. |
| `Controller.FlagsRemaining` | main.js:111 | The figure plus nmarked is nmines. There is no clamping: it is negative exactly when more cells are marked than there are mines. With no marks it equals the nmines written at a new game. |
| `Controller.RoundOutcome` | main.js:170-178 | The verdict is Lose iff exploded, even when the win test holds. It is Win iff not exploded and `Won` holds, otherwise Undecided. |
| `Controller.ShownMineDoesNotBlockWin` | main.js:170-178 | A board whose only cell is a shown mine passes the win test, so the loss has to be checked first. |
| `Controller.Session.Load` | main.js:261-265 | Page load leaves the counter at 0 with text "000", no live interval, `startingGame` set, and the flag figure at nmines. |
| `Controller.Session.NewGame` | main.js:227-240 | A new game clears the interval, resets `t` to 0 and its text to "000", sets `startingGame`, and writes nmines as the flag figure. It keeps `Valid`. |
| `Controller.Session.Tick` | main.js:18-25 | One firing: at 999 the interval is cleared and `t` stays; otherwise `t` goes up by one and the text is rewritten. `Valid` is kept: `t` <= 999 and the text shows `t`. |
| `Controller.Session.SquareClick` | main.js:145-179 | The clicked card goes to the engine as `CardToCell(ind, ncols)`, in bounds. The first click of a round starts the counter. The flag figure becomes `nmines - nmarked`. The verdict is decided loss first. A loss or a win stops the counter. A win selects exactly the hidden mines to show. The counter and its text are unchanged. |

## Left out

- The `MSGame` engine (`init`, `uncover`, `mark`, random mine placement, adjacency counts, flood-fill): its source is not part of this model. `Session.SquareClick` takes the board, `exploded`, `nmines` and `nmarked` the engine leaves after the move as inputs. Nothing is assumed about how the engine produced them.
- All DOM writes: background images and colours, overlay toggles, card creation (main.js:35-72, 83-134, 159-160, 171-175, 192-193). `ShowRemainingBombs` returns the card indices it would paint. The texts the page writes are fields of `Session`.
- render's `nmarked--` (main.js:99): it depends on a card's CSS `backgroundImage` string, not on game state.
- Event wiring, the long-press `taphold` and `contextmenu` handlers, the `fireClick` debounce and the `matchMedia` mobile check (main.js:43-68, 245-266): this is input-device handling. `SquareClick` does not model the mark/uncover choice, because it only selects which engine call is made.
- `setInterval`/`clearInterval` scheduling and timing (main.js:18-20, 172, 177, 232): the live interval is a boolean. `Session.Tick` is one firing, callable only while the interval is live.
- Parsing difficulty presets from the menu buttons' HTML attributes (main.js:248-249).
- `Session.SquareClick` uses the win test as written (`Won`), not the corrected `IsPlayerWinDocumented`, because the page acts on the written test. The finding below records the difference.

## Findings

| source | as written | input that shows it | evidently intended | confidence | as-written member | corrected member |
|---|---|---|---|---|---|---|
| main.js:210 | Only a cell that is hidden and safe blocks the win, so a marked safe cell counts as cleared | A hidden mine next to a flagged safe cell; more generally, marking every cell of any board passes the win test | The function's own comment says it returns true if all non-mine squares have been uncovered, i.e. every safe cell is shown | medium (depends on the engine letting any hidden cell be marked), not executed | `Board.FlaggedSafeCellWins` | `Board.IsPlayerWinDocumented` |
