# Game of Life board engine — Dafny model

This project models the pure board logic of the `GameOfLife` class, a
toroidal Conway's Game of Life drawn as one SVG path. The board is a
column-major array `board[x][y]` of cell values, with `LIFE = 1` and
`DEATH = 0`. The step adds neighbour values up as integers, which is why
these two constants must be 1 and 0.

The model covers:

- the wrapping of column and row indices (`#getX`, `#getY`), written with
  JavaScript's truncating `%`;
- the eight-neighbour count (`#getCountOfNeighbors`);
- the snapshot copy (`#copy`);
- the in-place generation step and its game-over flag (`#step`), as a method
  that mirrors the loops and as a pure next-generation function;
- `clear()`, the flip done by a click, and `fillRandom()` with its random
  digits given as input;
- the string-building loop of `#show()`. It writes one `M…H…` or `m…h…`
  segment per live cell into the path's `d` attribute;
- what `changeSize` leaves in the board array, and what the step then does
  with the `undefined` slots in it.

Files, one module each:

| file | module | contents |
|---|---|---|
| `torus.dfy` | `Torus` | JavaScript remainder, index wrapping |
| `board.dfy` | `Board` | the grid, `Clear`, `Flip`, `Copy`, `FillRandom` |
| `rules.dfy` | `Rules` | neighbour count, next generation, game-over flag, the `Step` method |
| `svgpath.dfy` | `SvgPath` | path commands, their text form, a reader for it, pen semantics |
| `drawing.dfy` | `Drawing` | live cells in drawing order, the segment encoder, the `Show` method |
| `resize.dfy` | `Resize` | the board array with `undefined` slots after `changeSize` |
| `patterns.dfy` | `Patterns` | blinker, block, diagonal, plus sign, one-column board, a drawn path |

The cell size `GRID_ELEMENT_SIZE` is a parameter `size > 0`. `Show`
requires it to be even, so that `size / 2` is an integer as in the
JavaScript. Two pieces of arithmetic are written out recursively, and
each is proved equal to the usual operator:

- JavaScript's `%` is repeated subtraction (`Torus.JsRemIsMod`).
- The stroke positions `x * size` are repeated addition
  (`Drawing.ScaleIsProduct`).

This keeps the proofs about the board linear.

Behaviour of the code that a reader might not expect, which the model
keeps:

- **Game-over flag.** One might expect the flag to mean "no live cells or
  no change". In the code, the `isEmpty` flag is cleared only by a birth,
  so the step reports game over whenever nothing is born, even if live
  cells remain (`Rules.GameOver`, `Patterns.DiagonalEndsGame`). The
  duplicate scan runs only after a birth, and the born cell always differs
  from the snapshot, so the scan never finds a repeat: the flag is exactly
  "no cell was born" (`Rules.GameOverIffNoBirth`). The same holds on the
  array after a resize, holes included (`Resize.RawFlagIsNoBirth`).
- **Resize.** One might expect a resize to pad new cells with `DEATH`. The
  code pads nothing (`Resize`, and the finding below).
- **Plus sign on a 3 x 3 board.** On the 3 x 3 torus every cell sees all
  eight others, so the plus sign dies out in one step, unlike on a bounded
  grid (`Patterns.PlusDiesOut`).
- **Narrow boards.** The count can read one cell twice:
  - One column wide, `x - 1` and `x + 1` both wrap onto `x`, so the centre
    cell is counted twice (`Patterns.OneColumnBoard`).
  - One row high, the same holds for `y - 1` and `y + 1`.
  - Two columns wide, the left and right neighbour columns are the same
    column; two rows high, the rows above and below are the same row.

  All of these are in `Rules.NeighbourPositions`.

## Model

| member | source | states |
|---|---|---|
| Torus.JsRem | src/GameOfLife.js:211-217 | The `%` of the index wrapping, truncated toward zero: for a non-negative dividend the result is in `[0, b)`, for a negative one in `(-b, 0]` |
| Torus.JsRemIsMod | src/GameOfLife.js:211-217 | The remainder, defined by repeated subtraction, agrees with Dafny's Euclidean `%` on a non-negative dividend and with the negated remainder of the magnitude on a negative one |
| Torus.JsRemIsRemainder | src/GameOfLife.js:211-217 | The result differs from the dividend by a multiple of the divisor, so with the sign bounds it is JavaScript's remainder |
| Torus.Wrap | src/GameOfLife.js:211-217 | `#getX`/`#getY` land in `[0, size)` whenever `size + n` is not negative, and only further left go non-positive |
| Torus.WrapIsMod | src/GameOfLife.js:211-217 | For `n >= -size`, the wrapped index is the torus position `n mod size` |
| Torus.WrapEdges | src/GameOfLife.js:211-217 | `getX(-1) == width - 1` and `getX(width) == 0`; every index in `[-1, width]` lands on the board; on-board indices are unchanged |
| Board.Clear | src/GameOfLife.js:339-350 | `clear()` gives exactly `w` columns of `h` cells, all `DEATH` |
| Board.Flip | src/GameOfLife.js:82-86 | A click makes the cell live exactly when it was not `LIFE`, leaves a 0/1 value there, and changes no other cell |
| Board.FlipTwice | src/GameOfLife.js:82-86 | Flipping keeps a board 0/1; flipping twice restores the board exactly when the cell held 0 or 1 |
| Board.Copy | src/GameOfLife.js:219-227 | The snapshot is `w` columns of `h` cells equal to the source's cells in the rectangle; for a well-formed source it equals the source |
| Board.FillRandom | src/GameOfLife.js:316-330 | Given the digit drawn for each cell, the board is 0/1 and a cell is live exactly when its digit is 0 |
| Board.FillWithoutZeroIsClear | src/GameOfLife.js:316-330 | A fill that draws no 0 gives the cleared board |
| Rules.TorusNeighbours | src/GameOfLife.js:192-209 | The eight neighbour positions on the torus, in the order the count visits them, all on the board |
| Rules.Count | src/GameOfLife.js:192-209 | `#getCountOfNeighbors`: the sum of the eight wrapped neighbour cells, in the code's order. No contract of its own; `Rules.CountIsTorusSum` and `Rules.CountRange` give its meaning |
| Rules.CountIsTorusSum | src/GameOfLife.js:192-217 | The count, computed with the JavaScript wrapping, is the sum of the cells at the eight torus neighbour positions |
| Rules.Visited | src/GameOfLife.js:196-206 | The eight positions the count reads, each wrapped as the code does, all on the board |
| Rules.VisitedAreTorus | src/GameOfLife.js:196-217 | The positions the code reads are exactly the eight torus neighbours, in the same order |
| Rules.NeighbourPositions | src/GameOfLife.js:192-209 | At least 2 x 2, the centre is never read. At least 3 x 3, the eight positions are distinct. One column wide, the `(x-1, y)` and `(x+1, y)` reads are the centre; one row high, the `(x, y-1)` and `(x, y+1)` reads are. Two columns wide, the three `x-1` reads coincide with the three `x+1` reads; two rows high, the three `y-1` reads coincide with the three `y+1` reads |
| Rules.CornerNeighboursOrigin | src/GameOfLife.js:192-209 | A live cell at `(w-1, h-1)` counts toward `(0, 0)` |
| Rules.CountRange | src/GameOfLife.js:192-209 | On a 0/1 board the count is in `[0, 8]` |
| Rules.ConwayRule | src/GameOfLife.js:157-167 | On a 0/1 board the new cell is 0 or 1, and live exactly when the count is 3, or it is 2 and the cell was live (B3/S23) |
| Rules.NextCell | src/GameOfLife.js:159-167 | The new value of one cell, read from the snapshot: born on exactly 3 if `DEATH`, `DEATH` below 2 or above 3, otherwise unchanged. No contract of its own; `Rules.ConwayRule` gives its meaning on 0/1 boards |
| Rules.Next | src/GameOfLife.js:155-169 | Every new cell is computed from the snapshot alone: birth on exactly 3 for a dead cell, death below 2 or above 3, otherwise unchanged |
| Rules.NextBinary | src/GameOfLife.js:155-169 | The next generation of a 0/1 board is a 0/1 board |
| Rules.Born | src/GameOfLife.js:159-161 | The birth test: the snapshot cell is `DEATH` and its count is 3. No contract of its own; `Rules.StepColumn` reports exactly these cells |
| Rules.HasBirth | src/GameOfLife.js:159-161 | Some cell of the rectangle passes the birth test, which is what clears `isEmpty`. No contract of its own; `Rules.Step` and `Rules.GameOverIffNoBirth` give its meaning |
| Rules.GameOver | src/GameOfLife.js:154-189 | The returned flag as the code computes it: no birth, or the new board equals the snapshot. No contract of its own; `Rules.GameOverIffNoBirth` shows it is exactly "no birth", and `Rules.Step` shows the step returns it |
| Rules.Step | src/GameOfLife.js:148-190 | The in-place step over a snapshot yields the pure next generation; the flag is true exactly when no dead cell had 3 neighbours or the new board equals the old |
| Rules.StepColumn | src/GameOfLife.js:156-168 | One column is rewritten from the snapshot. Other columns are untouched, cells not yet visited still hold the snapshot, and `born` is true iff the column had a birth |
| Rules.SameBoard | src/GameOfLife.js:175-183 | The duplicate scan, which breaks at the first difference in a column, is true exactly when the two boards are equal |
| Rules.NoBirthOnlyDeaths | src/GameOfLife.js:154-173 | When the flag is set for want of a birth, every live cell of the new board was already live |
| Rules.GameOverIffNoBirth | src/GameOfLife.js:154-189 | The flag is true exactly when no cell is born: after a birth the duplicate scan always finds the born cell changed, so it never decides the flag |
| Rules.GameGoesOn | src/GameOfLife.js:154-189 | The step returns false exactly when some cell is born and some cell changed |
| Rules.AllDeadIsFixed | src/GameOfLife.js:148-190 | An all-dead board is left unchanged and the step reports game over |
| Rules.StepAfterClear | src/GameOfLife.js:339-350 | After `clear()` the next step leaves the board unchanged and reports game over |
| Patterns.BlinkerOscillates | src/GameOfLife.js:148-190 | The three-cell blinker returns to itself after two steps |
| Patterns.BlinkerGoesOn | src/GameOfLife.js:148-190 | Both blinker phases have a birth and change, so the step returns false on every generation |
| Patterns.BlockEndsGame | src/GameOfLife.js:148-190 | The 2 x 2 block is a still life and the step returns game over |
| Patterns.DiagonalEndsGame | src/GameOfLife.js:154-173 | A three-cell diagonal changes and keeps a live cell, yet no cell is born, so the step reports game over |
| Patterns.PlusDiesOut | src/GameOfLife.js:192-209 | On the 3 x 3 torus the plus sign dies in one step and the step reports game over |
| Patterns.OneColumnBoard | src/GameOfLife.js:192-209 | On a 1 x 3 board a lone cell counts itself twice, survives and fills the column; the full column then dies out |
| Patterns.VerticalCells | src/GameOfLife.js:102-106 | The drawing loop meets the vertical blinker's cells top to bottom in column 1 |
| Patterns.VerticalPath | src/GameOfLife.js:107-126 | With 10-unit cells, the vertical blinker's `d` attribute is `M10,5 H20 m-10,10 h10 m-10,10 h10` |
| SvgPath.DigitRun | src/GameOfLife.js:113-120 | The reader's digit scan stops at the first non-digit, and everything before that is digits |
| SvgPath.DigitsOfNat | src/GameOfLife.js:113-120 | The decimal digits written for a number read back as that number |
| SvgPath.ReadIntOf | src/GameOfLife.js:113-120 | A number written as in a template literal, then any non-digit, reads back as the number with the rest left over |
| SvgPath.ParseCommandOf | src/GameOfLife.js:113-120 | Each of the four command texts `M x,y`, ` H x`, ` m dx,dy`, ` h dx` reads back as its command |
| SvgPath.RenderAppend | src/GameOfLife.js:125 | Appending segments to the attribute appends their texts |
| SvgPath.IntToString | src/GameOfLife.js:113-120 | How a template literal writes an integer: a `-` for a negative number, then the decimal digits without leading zeros. No contract of its own; `SvgPath.DigitsOfNat` and `SvgPath.ReadIntOf` show it reads back |
| SvgPath.Render | src/GameOfLife.js:113-125 | The attribute text for a command list, each command written as a template string. No contract of its own; `SvgPath.RenderAppend`, `SvgPath.RenderStart` and `SvgPath.ParseRender` give its meaning |
| SvgPath.RenderCommand | src/GameOfLife.js:114-119 | The text of one command as the template literals write it: `M` with an `x,y` pair and no leading space; `H`, `m` and `h` each after a space, `m` with an `x,y` pair and `H` and `h` with one number. No contract of its own; `SvgPath.ParseCommandOf` shows the text reads back as the same command |
| SvgPath.Trace | src/GameOfLife.js:113-120 | What an SVG pen draws for the `M`, `H`, `m` and `h` commands written here: moves only move it, and `H`/`h` draw a horizontal stroke from where it is. No contract of its own; `Drawing.TraceEncode` gives its meaning |
| SvgPath.RenderStart | src/GameOfLife.js:113-120 | Written commands are empty only for no commands, and otherwise start with `M` or a blank |
| SvgPath.ParseRender | src/GameOfLife.js:113-125 | Reading back the attribute text gives exactly the commands written |
| Drawing.Show | src/GameOfLife.js:98-128 | The loop's `d` is the text of one segment per live cell in column-major order, and is `''` exactly when no cell is live |
| Drawing.DrawColumn | src/GameOfLife.js:105-127 | The inner loop appends the segments of the column's live cells, top to bottom, and keeps the last start point |
| Drawing.DrawCell | src/GameOfLife.js:107-125 | One live cell appends its segment: absolute when `d` is still empty, otherwise relative to the previous start point, which then moves to this cell |
| Drawing.DrawnAppend | src/GameOfLife.js:122-125 | Appending one cell's segment to `d` and moving `(lastX, lastY)` to its start point keeps the loop state: `d` is the text of the cells drawn so far |
| Drawing.Times | src/GameOfLife.js:107-109 | The products `x * GRID_ELEMENT_SIZE` and `y * GRID_ELEMENT_SIZE` the loop computes are the model's scaled coordinates |
| Drawing.SegmentText | src/GameOfLife.js:113-120 | The two template strings are the texts of a cell's two commands: `M x*S,y*S+S/2 H x*S+S` first, then `m (MX-lastX-S),(MY-lastY) h S` |
| Drawing.Segment | src/GameOfLife.js:113-120 | The two commands for one cell: absolute `M`/`H` for the first, relative `m`/`h` from the previous start point otherwise. No contract of its own; `Drawing.SegmentText` shows they render as the two template strings |
| Drawing.Start | src/GameOfLife.js:107-108 | The start point `(MX, MY)` of a cell's stroke: `x * S` across, `y * S + S / 2` down. No contract of its own; `Drawing.TraceEncode`, `Drawing.CellsOfStrokes` and `Drawing.PathRoundTrip` show the start points recover the live cells |
| Drawing.Encode | src/GameOfLife.js:102-125 | The commands for a list of cells, one segment each, each relative to the one before. No contract of its own; `Drawing.EncodeEmpty`, `Drawing.EncodeSnoc` and `Drawing.TraceEncode` give its meaning |
| Drawing.LiveCellsSpec | src/GameOfLife.js:102-106 | The cells drawn are exactly the live cells in the rectangle, each once, in strictly increasing column-major order |
| Drawing.NoLiveCells | src/GameOfLife.js:102-106 | The drawn list is empty exactly when every cell is dead |
| Drawing.LiveCells | src/GameOfLife.js:102-106 | The live cells in the order the two loops meet them, column by column, top to bottom. No contract of its own; `Drawing.LiveCellsSpec` and `Drawing.LiveCellsUnique` give its meaning |
| Drawing.SortedUnique | src/GameOfLife.js:102-106 | Two column-major sorted lists with the same elements are equal |
| Drawing.LiveCellsUnique | src/GameOfLife.js:102-106 | The drawing order is the only sorted listing of the live cells, so one segment per live cell in that order is determined |
| Drawing.EncodeEmpty | src/GameOfLife.js:102-127 | Exactly two commands per live cell; none for an empty board |
| Drawing.EncodeSnoc | src/GameOfLife.js:113-125 | Drawing one more cell appends its segment, relative to the previous cell when there is one |
| Drawing.TraceEncode | src/GameOfLife.js:107-123 | A pen following the commands draws one stroke per cell, in order, from the cell's absolute start `(x*S, y*S+S/2)` to `S` further right |
| Drawing.Scale | src/GameOfLife.js:107-109 | `x * GRID_ELEMENT_SIZE` by repeated addition: for a non-negative size, non-negative for a non-negative index and non-positive for a non-positive one. `Drawing.ScaleIsProduct` shows it is the product |
| Drawing.ScaleIsProduct | src/GameOfLife.js:107-109 | The stroke positions, computed by repeated addition, are the products `x * S` and `y * S` the loop computes |
| Drawing.QuotScale | src/GameOfLife.js:107-109 | Dividing a scaled coordinate by the cell size gives back the cell index |
| Drawing.CellsOfStrokes | src/GameOfLife.js:107-109 | Each stroke's start point gives back its cell |
| Drawing.PathRoundTrip | src/GameOfLife.js:98-128 | Parsing the `d` text and replaying it recovers the cell list it was written for, so with `Show` the attribute reads back as exactly the live cells |
| Resize.ChangeSize | src/GameOfLife.js:299-314 | Changing the size, with its redraw, adds empty columns up to the new width and changes no cell |
| Resize.RawCount | src/GameOfLife.js:192-209 | `#getCountOfNeighbors` on the array, where a slot may be `undefined` and the sum then becomes NaN. No contract of its own; `Resize.SumSlotsNaN`, `Resize.FrozenByHole` and `Resize.EmbedCount` give its meaning |
| Resize.RawNextCell | src/GameOfLife.js:157-167 | The new slot of one cell: born only on a `DEATH` cell with count exactly 3, killed on a numeric count outside `[2, 3]`, otherwise left as it was, a NaN count included. No contract of its own; `Resize.FrozenByHole` and `Resize.HoleNeverBorn` give its meaning |
| Resize.RawNext | src/GameOfLife.js:148-169 | `#step()` on the array: every slot in the rectangle is rewritten from the snapshot, and slots outside it are kept. No contract of its own; `Resize.RawNextReads` and `Resize.EmbedNext` give its meaning |
| Resize.RawGameOver | src/GameOfLife.js:154-189 | The flag `#step()` returns on the array, with JavaScript's `!=` in the duplicate scan. No contract of its own; `Resize.EmbedGameOver` ties it to `Rules.GameOver` |
| Resize.RawFlagIsNoBirth | src/GameOfLife.js:154-189 | On any array with a column for every `x` below the width, holes included, the step reports game over exactly when no cell was born: a born cell always differs from the snapshot, so the duplicate scan cannot succeed after a birth |
| Resize.Read | src/GameOfLife.js:159 | The JavaScript read `board[x][y]`, which gives `undefined` past the end of a column or outside the array. No contract of its own; `Resize.ChangeSize`, `Resize.FrozenByHole` and `Resize.HoleNeverBorn` give its meaning |
| Resize.RawHasBirth | src/GameOfLife.js:159-161 | The `isEmpty = false` branch of `#step()` on the array: some slot in the rectangle holds exactly `DEATH` and its count is exactly 3. No contract of its own; `Resize.EmbedBirth` ties it to `Rules.HasBirth` and `Resize.RawFlagIsNoBirth` ties it to the flag |
| Resize.RawNextReads | src/GameOfLife.js:155-169 | The step rewrites only slots in the current rectangle; slots outside it, left by an earlier larger size, survive |
| Resize.SumSlotsNaN | src/GameOfLife.js:196-208 | The count is NaN exactly when one of the eight neighbour slots is `undefined` |
| Resize.FrozenByHole | src/GameOfLife.js:157-167 | A cell with an `undefined` neighbour has a NaN count, and the step leaves it as it was |
| Resize.HoleNeverBorn | src/GameOfLife.js:157-167 | An `undefined` slot is never born: it stays `undefined` or becomes `DEATH` |
| Resize.EmbedCount | src/GameOfLife.js:192-209 | On an array holding a full board the count is the number `Rules.Count` computes |
| Resize.EmbedNext | src/GameOfLife.js:148-169 | On an array holding a full board the array step is `Rules.Next` |
| Resize.EmbedBirth | src/GameOfLife.js:157-162 | On a full board, a birth happens in the array exactly when `Rules` has one |
| Resize.EmbedGameOver | src/GameOfLife.js:154-189 | On a full board the array's game-over flag is `Rules.GameOver` |
| Resize.GrowFreezesCorner | src/GameOfLife.js:299-314 | After growing a 3 x 3 board with one live corner cell to 4 x 3, that cell's count is NaN and it survives the step |
| Resize.Resized | src/GameOfLife.js:299-314 | The resize the rest of the model assumes: overlap cells kept, every other cell `DEATH`, the result well formed |
| Resize.ResizedGrowShrink | src/GameOfLife.js:299-314 | Growing then shrinking back restores the board; growing keeps it 0/1 and leaves no `undefined` slot in the rectangle |
| Resize.PaddedCornerDies | src/GameOfLife.js:299-314 | On the padded 4 x 3 board the lone corner cell has no live neighbour and dies |

## Findings

| source | as written | input that shows it | evidently intended | confidence | as-written member | corrected member |
|---|---|---|---|---|---|---|
| src/GameOfLife.js:299-314 | `changeSize` only changes the width and height. New cells stay `undefined`, so a count touching them is NaN and the cell never changes | 3 x 3 board, only `(0, 0)` live, `changeSize(4, 3)`, then one step: `(0, 0)` stays live | new cells are Dead, so the lone cell dies | medium, not executed | Resize.GrowFreezesCorner | Resize.PaddedCornerDies, Resize.ResizedGrowShrink |

## Left out

- SVG and DOM work: creating, attaching and removing the `svg` and `path` elements, `addGrid`, `removeGrid`, `addTo` and its missing-root error. These are browser calls with no board logic.
- The pixel-to-cell mapping of a click. It uses floating-point layout sizes; the model takes the clicked `(x, y)` as given.
- `start`, `stop` and `wait`: the timed loop and its cooperative scheduling.
- `Date.now()` timings, `#log`, and the `onLog`/`onGameOver` listeners: wall-clock values and callbacks.
- `Math.random` in `#getRandomNumber`. `FillRandom` takes the drawn digits as input instead.
- The `Number(...)` conversions of the width and height: the model's sizes are already naturals.
- `script.js`: UI wiring only.
- `BoardConfig.js` and `helper.js` are not part of this model. `LIFE = 1`, `DEATH = 0` and the cell size are parameters or constants here.
- SvgPath.IntToString: writes exact integers only, which JavaScript numbers are only below 2^53. Beyond that, products such as `x * S` are rounded, and from 10^21 on they are written in exponent form. An odd cell size would give half-integer coordinates, so `Show` requires an even size.
- Resize.ChangeSize: models the array only. The new height changes nothing in the array; the SVG rebuild that `changeSize` also does is left out with the rest of the DOM.
- Resize.RawNext: models the step on an array that has a column for every `x` below the width. `#show()` creates every missing column, and it runs in `changeSize` and before every step. On an array without such a column, JavaScript would throw, and that is not modelled.
- Drawing.Show: takes a well-formed board, so the `=== LIFE` test at src/GameOfLife.js:106 on an `undefined` slot left by `changeSize` is not modelled. Such a slot is never `LIFE`, so it is never drawn.
- Board.Flip: a click outside the board, where JavaScript would throw or write past the board, is excluded by the requires.
- Strings and other non-number cell values, which JavaScript's loose `==` would compare by conversion, are not modelled. Cells are integers or `undefined`.
