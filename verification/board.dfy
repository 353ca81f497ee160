/** The board of the game: a column-major `width x height` array of cell
    values, indexed `board[x][y]`, and the operations that fill or edit it
    outside the generation step. */
module Board {

  /** Cell values. The step adds cell values up as integers, so a live cell
      is 1 and a dead one 0. */
  const LIFE: int := 1
  const DEATH: int := 0

  /** `board[x]` is column `x`; `board[x][y]` is the cell in row `y` of it. */
  type Grid = seq<seq<int>>

  /** Exactly `w` columns of exactly `h` cells each. */
  predicate WellFormed(b: Grid, w: int, h: int) {
    |b| == w && forall x :: 0 <= x < w ==> |b[x]| == h
  }

  /** Every cell is `LIFE` or `DEATH`. */
  predicate Binary(b: Grid, w: int, h: int)
    requires WellFormed(b, w, h)
  {
    forall x, y :: 0 <= x < w && 0 <= y < h ==> b[x][y] == DEATH || b[x][y] == LIFE
  }

  /** Two well-formed boards of the same size that agree cell for cell are
      the same board. */
  lemma SameCells(a: Grid, b: Grid, w: int, h: int)
    requires WellFormed(a, w, h) && WellFormed(b, w, h)
    requires forall x, y :: 0 <= x < w && 0 <= y < h ==> a[x][y] == b[x][y]
    ensures a == b
  {
    forall x | 0 <= x < w
      ensures a[x] == b[x]
    {
    }
  }

  /** `clear()`: a fresh board of `w` columns of `h` dead cells. */
  function Clear(w: nat, h: nat): (r: Grid)
    ensures WellFormed(r, w, h) && Binary(r, w, h)
    ensures forall x, y :: 0 <= x < w && 0 <= y < h ==> r[x][y] == DEATH
  {
    seq(w, x => seq(h, y => DEATH))
  }

  /** The edit made by a click on cell `(x, y)`: a live cell dies and any
      other value becomes a live cell. */
  function Flip(b: Grid, w: int, h: int, x: int, y: int): (r: Grid)
    requires WellFormed(b, w, h) && 0 <= x < w && 0 <= y < h
    ensures WellFormed(r, w, h)
    ensures r[x][y] == LIFE <==> b[x][y] != LIFE
    ensures r[x][y] == DEATH || r[x][y] == LIFE
    ensures forall i, j :: 0 <= i < w && 0 <= j < h && (i, j) != (x, y) ==> r[i][j] == b[i][j]
  {
    b[x := b[x][y := if b[x][y] == LIFE then DEATH else LIFE]]
  }

  /** Flipping a cell keeps a 0/1 board 0/1, and flipping it again restores
      the board. A cell holding any other value comes back as `DEATH`. */
  lemma FlipTwice(b: Grid, w: int, h: int, x: int, y: int)
    requires WellFormed(b, w, h) && 0 <= x < w && 0 <= y < h
    ensures Binary(b, w, h) ==> Binary(Flip(b, w, h, x, y), w, h)
    ensures b[x][y] == DEATH || b[x][y] == LIFE <==>
            Flip(Flip(b, w, h, x, y), w, h, x, y) == b
  {
    var once := Flip(b, w, h, x, y);
    var twice := Flip(once, w, h, x, y);
    if b[x][y] == DEATH || b[x][y] == LIFE {
      SameCells(twice, b, w, h);
    } else {
      assert twice[x][y] != b[x][y];
    }
  }

  /** `#copy(source, destination)`: a fresh `w x h` snapshot of the cells of
      `source` in `[0, w) x [0, h)`. The source may be larger than that; the
      copy takes only the board's own rectangle. */
  method Copy(source: Grid, w: nat, h: nat) returns (destination: Grid)
    requires |source| >= w && forall x :: 0 <= x < w ==> |source[x]| >= h
    ensures WellFormed(destination, w, h)
    ensures forall x, y :: 0 <= x < w && 0 <= y < h ==> destination[x][y] == source[x][y]
    ensures WellFormed(source, w, h) ==> destination == source
  {
    destination := [];
    for x := 0 to w
      invariant |destination| == x
      invariant forall i :: 0 <= i < x ==> |destination[i]| == h
      invariant forall i, j :: 0 <= i < x && 0 <= j < h ==> destination[i][j] == source[i][j]
    {
      var column: seq<int> := [];
      for y := 0 to h
        invariant |column| == y
        invariant forall j :: 0 <= j < y ==> column[j] == source[x][j]
      {
        column := column + [source[x][y]];
      }
      destination := destination + [column];
    }
    if WellFormed(source, w, h) {
      SameCells(destination, source, w, h);
    }
  }

  /** `fillRandom()` with its random draws made explicit: `digits[x][y]` is
      the digit drawn for cell `(x, y)`, and the cell is born exactly when
      that digit is 0. */
  function FillRandom(digits: Grid, w: nat, h: nat): (r: Grid)
    requires WellFormed(digits, w, h)
    ensures WellFormed(r, w, h) && Binary(r, w, h)
    ensures forall x, y :: 0 <= x < w && 0 <= y < h ==> (r[x][y] == LIFE <==> digits[x][y] == 0)
  {
    seq(w, x requires 0 <= x < w => seq(h, y requires 0 <= y < h =>
      if digits[x][y] == 0 then LIFE else DEATH))
  }

  /** A random fill that draws no zero is a cleared board. */
  lemma FillWithoutZeroIsClear(digits: Grid, w: nat, h: nat)
    requires WellFormed(digits, w, h)
    requires forall x, y :: 0 <= x < w && 0 <= y < h ==> digits[x][y] != 0
    ensures FillRandom(digits, w, h) == Clear(w, h)
  {
    SameCells(FillRandom(digits, w, h), Clear(w, h), w, h);
  }
}
