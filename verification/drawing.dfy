/** `#show()`: the live cells of the board are drawn as one SVG path whose
    `d` attribute holds one short horizontal stroke per live cell, through
    the middle of the cell's square and as long as the square is wide. The
    cells are visited column by column, top to bottom within a column. The
    first stroke is written with absolute commands and every later one
    relative to the stroke before it. */
module Drawing {
  import opened Board
  import opened SvgPath

  /** A cell position `(x, y)`: column `x`, row `y`. */
  type Cell = (int, int)

  predicate Alive(b: Grid, w: int, h: int, c: Cell)
    requires WellFormed(b, w, h)
  {
    0 <= c.0 < w && 0 <= c.1 < h && b[c.0][c.1] == LIFE
  }

  // ---------------------------------------------------------------------
  // The cells, in the order the drawing loops visit them

  /** Column-major order: `p` comes before `q`. */
  predicate Before(p: Cell, q: Cell) {
    p.0 < q.0 || (p.0 == q.0 && p.1 < q.1)
  }

  predicate Sorted(cells: seq<Cell>) {
    forall i, j :: 0 <= i < j < |cells| ==> Before(cells[i], cells[j])
  }

  /** The live cells among rows `[0, n)` of column `x`, top to bottom. */
  function ColumnCells(b: Grid, w: nat, h: nat, x: int, n: int): seq<Cell>
    requires WellFormed(b, w, h) && 0 <= x < w && 0 <= n <= h
    decreases n
  {
    if n == 0 then []
    else ColumnCells(b, w, h, x, n - 1) + (if b[x][n - 1] == LIFE then [(x, n - 1)] else [])
  }

  /** The live cells of columns `[0, m)`, column by column. */
  function ColumnsCells(b: Grid, w: nat, h: nat, m: int): seq<Cell>
    requires WellFormed(b, w, h) && 0 <= m <= w
    decreases m
  {
    if m == 0 then [] else ColumnsCells(b, w, h, m - 1) + ColumnCells(b, w, h, m - 1, h)
  }

  function LiveCells(b: Grid, w: nat, h: nat): seq<Cell>
    requires WellFormed(b, w, h)
  {
    ColumnsCells(b, w, h, w)
  }

  // ---------------------------------------------------------------------
  // The commands written for them

  /** `n * size`, written as `n` additions of `size` (subtractions for a
      negative `n`) so that positions stay linear in the proofs;
      `ScaleIsProduct` shows it is the product. */
  function Scale(n: int, size: int): (r: int)
    ensures size >= 0 && n >= 0 ==> r >= 0
    ensures size >= 0 && n <= 0 ==> r <= 0
    decreases if n < 0 then -n else n
  {
    if n == 0 then 0
    else if n > 0 then Scale(n - 1, size) + size
    else Scale(n + 1, size) - size
  }

  /** Where the stroke of cell `c` starts: `(MX, MY)` in the drawing loop. */
  function Start(c: Cell, size: int): Point {
    (Scale(c.0, size), Scale(c.1, size) + size / 2)
  }

  /** The stroke drawn for cell `c`. */
  function Stroke(c: Cell, size: int): Line {
    Line(Start(c, size), (Start(c, size).0 + size, Start(c, size).1))
  }

  /** The two commands for cell `c`. With no earlier cell they are absolute.
      After cell `p`, whose stroke left the pen `size` to the right of
      `Start(p)`, they move relatively to `Start(c)` and draw `size` to the
      right. */
  function Segment(prev: Option<Cell>, c: Cell, size: int): seq<Command> {
    var (mx, my) := Start(c, size);
    match prev
    case None => [MoveTo(mx, my), HorizontalTo(mx + size)]
    case Some(p) =>
      var last := Start(p, size);
      [MoveBy(mx - last.0 - size, my - last.1), HorizontalBy(size)]
  }

  function EncodeFrom(prev: Option<Cell>, cells: seq<Cell>, size: int): seq<Command>
    decreases |cells|
  {
    if cells == [] then []
    else Segment(prev, cells[0], size) + EncodeFrom(Some(cells[0]), cells[1..], size)
  }

  function Encode(cells: seq<Cell>, size: int): seq<Command> {
    EncodeFrom(None, cells, size)
  }

  function Strokes(cells: seq<Cell>, size: int): seq<Line> {
    if cells == [] then [] else [Stroke(cells[0], size)] + Strokes(cells[1..], size)
  }

  /** `a` divided by a positive `size`, rounded down, by repeated
      subtraction; `QuotScale` shows it undoes `Scale`. */
  function Quot(a: int, size: int): int
    requires size > 0
    decreases a < 0, if a < 0 then -a else a
  {
    if a < 0 then Quot(a + size, size) - 1
    else if a < size then 0
    else Quot(a - size, size) + 1
  }

  /** The cell whose stroke starts where `line` does. */
  function CellOf(line: Line, size: int): Cell
    requires size > 0
  {
    (Quot(line.from.0, size), Quot(line.from.1 - size / 2, size))
  }

  function CellsOf(lines: seq<Line>, size: int): seq<Cell>
    requires size > 0
  {
    if lines == [] then [] else [CellOf(lines[0], size)] + CellsOf(lines[1..], size)
  }

  /** What a reader of the `d` attribute recovers: the cells whose strokes
      the path draws, or `None` if the text is not a path of this form. */
  function DecodePath(d: string, size: int): Option<seq<Cell>>
    requires size > 0
  {
    match Parse(d)
    case None => None
    case Some(cmds) => Some(CellsOf(Trace(cmds, (0, 0)), size))
  }

  // ---------------------------------------------------------------------
  // The drawing loop

  /** The loop state after the cells `cells` are drawn: `d` holds their
      commands, and `(lastX, lastY)` is the start point of the last one. */
  predicate Drawn(d: string, lastX: int, lastY: int, cells: seq<Cell>, size: int) {
    && d == Render(Encode(cells, size))
    && (d == "" <==> cells == [])
    && (cells != [] ==> (lastX, lastY) == Start(cells[|cells| - 1], size))
  }

  /** The `d` attribute `#show()` builds for a well-formed board whose
      cells are `size` units wide (an even number, so that `size / 2` is
      exact). `PathRoundTrip` shows that it reads back as the live cells. */
  method Show(board: Grid, w: nat, h: nat, size: int) returns (d: string)
    requires WellFormed(board, w, h) && size > 0 && size % 2 == 0
    ensures d == Render(Encode(LiveCells(board, w, h), size))
    ensures d == "" <==> forall x, y :: 0 <= x < w && 0 <= y < h ==> board[x][y] != LIFE
  {
    d := "";
    var lastX, lastY := 0, 0;
    ghost var cells: seq<Cell> := [];
    for x := 0 to w
      invariant cells == ColumnsCells(board, w, h, x)
      invariant Drawn(d, lastX, lastY, cells, size)
    {
      d, lastX, lastY := DrawColumn(board, w, h, x, size, d, lastX, lastY, cells);
      cells := cells + ColumnCells(board, w, h, x, h);
    }
    NoLiveCells(board, w, h);
  }

  /** The inner loop of `#show()`: the live cells of column `x`, top to
      bottom. */
  method DrawColumn(board: Grid, w: nat, h: nat, x: int, size: int,
                    d: string, lastX: int, lastY: int, ghost cells: seq<Cell>)
    returns (d': string, lastX': int, lastY': int)
    requires WellFormed(board, w, h) && 0 <= x < w
    requires Drawn(d, lastX, lastY, cells, size)
    ensures Drawn(d', lastX', lastY', cells + ColumnCells(board, w, h, x, h), size)
  {
    d', lastX', lastY' := d, lastX, lastY;
    ghost var drawn := cells;
    for y := 0 to h
      invariant drawn == cells + ColumnCells(board, w, h, x, y)
      invariant Drawn(d', lastX', lastY', drawn, size)
    {
      ColumnStep(board, w, h, x, y, cells);
      if board[x][y] == LIFE {
        d', lastX', lastY' := DrawCell(d', lastX', lastY', x, y, size, drawn);
        drawn := drawn + [(x, y)];
      }
    }
  }

  lemma ColumnStep(b: Grid, w: nat, h: nat, x: int, y: int, cells: seq<Cell>)
    requires WellFormed(b, w, h) && 0 <= x < w && 0 <= y < h
    ensures cells + ColumnCells(b, w, h, x, y + 1) ==
            cells + ColumnCells(b, w, h, x, y) + (if b[x][y] == LIFE then [(x, y)] else [])
  {
  }

  /** The turn of one live cell `(x, y)` in the drawing loop: the first
      cell is written absolutely, any later one relative to the last start
      point `(lastX, lastY)`; then that start point moves to this cell. */
  method DrawCell(d: string, lastX: int, lastY: int, x: int, y: int, size: int, ghost cells: seq<Cell>)
    returns (d': string, lastX': int, lastY': int)
    requires Drawn(d, lastX, lastY, cells, size)
    ensures Drawn(d', lastX', lastY', cells + [(x, y)], size)
  {
    var xs := Times(x, size);
    var ys := Times(y, size);
    var mx := xs;
    var my := ys + size / 2;
    var hh := xs + size;
    var part: string;
    ghost var prev := if cells == [] then None else Some(cells[|cells| - 1]);
    assert Start((x, y), size) == (mx, my);
    SegmentText(prev, (x, y), size);
    if d == "" {
      assert prev == None;
      part := "M" + PairToString(mx, my) + " H" + IntToString(hh);
      assert part == Render(Segment(prev, (x, y), size));
    } else {
      assert prev.Some? && (lastX, lastY) == Start(prev.value, size);
      var dx := mx - lastX - size;
      var dy := my - lastY;
      part := " m" + PairToString(dx, dy) + " h" + IntToString(size);
      assert part == Render(Segment(prev, (x, y), size));
    }
    DrawnAppend(d, lastX, lastY, cells, (x, y), size);
    lastX', lastY' := mx, my;
    d' := d + part;
  }

  /** Appending the segment of one more cell keeps the loop state: the
      text grows by that segment and the start point moves to the cell. */
  lemma DrawnAppend(d: string, lastX: int, lastY: int, cells: seq<Cell>, c: Cell, size: int)
    requires Drawn(d, lastX, lastY, cells, size)
    ensures var prev := if cells == [] then None else Some(cells[|cells| - 1]);
      Drawn(d + Render(Segment(prev, c, size)), Start(c, size).0, Start(c, size).1, cells + [c], size)
  {
    var prev := if cells == [] then None else Some(cells[|cells| - 1]);
    EncodeSnoc(None, cells, c, size);
    RenderAppend(Encode(cells, size), Segment(prev, c, size));
    RenderStart(Segment(prev, c, size));
  }

  /** The product `n * size` the loop computes for `MX`, `MY` and `HH`: it
      is the scaled coordinate of the model. */
  method Times(n: int, size: int) returns (r: int)
    ensures r == n * size && r == Scale(n, size)
  {
    ScaleIsProduct(n, size);
    r := n * size;
  }

  /** The text the loop appends for one cell is the rendering of that
      cell's two commands. */
  lemma SegmentText(prev: Option<Cell>, c: Cell, size: int)
    ensures prev.None? ==>
      Render(Segment(prev, c, size)) ==
      "M" + PairToString(Start(c, size).0, Start(c, size).1) + " H" + IntToString(Start(c, size).0 + size)
    ensures prev.Some? ==>
      Render(Segment(prev, c, size)) ==
      " m" + PairToString(Start(c, size).0 - Start(prev.value, size).0 - size,
                          Start(c, size).1 - Start(prev.value, size).1) + " h" + IntToString(size)
  {
    var (mx, my) := Start(c, size);
    match prev
    case None =>
      assert Segment(prev, c, size) == [MoveTo(mx, my), HorizontalTo(mx + size)];
      AbsoluteText(mx, my, size);
    case Some(p) =>
      var last := Start(p, size);
      assert Segment(prev, c, size) == [MoveBy(mx - last.0 - size, my - last.1), HorizontalBy(size)];
      RelativeText(mx - last.0 - size, my - last.1, size);
  }

  /** The template for the first cell renders its two absolute commands. */
  lemma AbsoluteText(mx: int, my: int, size: int)
    ensures Render([MoveTo(mx, my), HorizontalTo(mx + size)]) == "M" + PairToString(mx, my) + " H" + IntToString(mx + size)
  {
    RenderPair(MoveTo(mx, my), HorizontalTo(mx + size));
    Regroup("M", PairToString(mx, my), " H", IntToString(mx + size));
  }

  /** The template for a later cell renders its two relative commands. */
  lemma RelativeText(dx: int, dy: int, size: int)
    ensures Render([MoveBy(dx, dy), HorizontalBy(size)]) == " m" + PairToString(dx, dy) + " h" + IntToString(size)
  {
    RenderPair(MoveBy(dx, dy), HorizontalBy(size));
    Regroup(" m", PairToString(dx, dy), " h", IntToString(size));
  }

  lemma Regroup(a: string, b: string, c: string, e: string)
    ensures a + b + c + e == (a + b) + (c + e)
  {
  }

  // ---------------------------------------------------------------------
  // Properties

  lemma {:induction false} ColumnCellsSpec(b: Grid, w: nat, h: nat, x: int, n: int)
    requires WellFormed(b, w, h) && 0 <= x < w && 0 <= n <= h
    ensures forall c :: c in ColumnCells(b, w, h, x, n) <==> c.0 == x && 0 <= c.1 < n && b[x][c.1] == LIFE
    ensures Sorted(ColumnCells(b, w, h, x, n))
    decreases n
  {
    if n > 0 {
      ColumnCellsSpec(b, w, h, x, n - 1);
    }
  }

  lemma ColumnsCellsSpec(b: Grid, w: nat, h: nat, m: int)
    requires WellFormed(b, w, h) && 0 <= m <= w
    ensures forall c :: c in ColumnsCells(b, w, h, m) <==> 0 <= c.0 < m && Alive(b, w, h, c)
    ensures Sorted(ColumnsCells(b, w, h, m))
  {
    ColumnsCellsMembers(b, w, h, m);
    ColumnsCellsSorted(b, w, h, m);
  }

  /** The cells of the first `m` columns are the live cells there. */
  lemma ColumnsCellsMembers(b: Grid, w: nat, h: nat, m: int)
    requires WellFormed(b, w, h) && 0 <= m <= w
    ensures forall c :: c in ColumnsCells(b, w, h, m) <==> 0 <= c.0 < m && Alive(b, w, h, c)
  {
    forall c: Cell
      ensures c in ColumnsCells(b, w, h, m) <==> 0 <= c.0 < m && Alive(b, w, h, c)
    {
      ColumnsCellsHas(b, w, h, m, c);
    }
  }

  /** Cell `c` is listed among the first `m` columns exactly when it is a
      live cell there. */
  lemma {:induction false} ColumnsCellsHas(b: Grid, w: nat, h: nat, m: int, c: Cell)
    requires WellFormed(b, w, h) && 0 <= m <= w
    ensures c in ColumnsCells(b, w, h, m) <==> 0 <= c.0 < m && 0 <= c.1 < h && b[c.0][c.1] == LIFE
    decreases m
  {
    if m > 0 {
      ColumnsCellsHas(b, w, h, m - 1, c);
      ColumnsCellsStep(b, w, h, m, c);
    }
  }

  lemma ColumnsCellsStep(b: Grid, w: nat, h: nat, m: int, c: Cell)
    requires WellFormed(b, w, h) && 0 < m <= w
    requires c in ColumnsCells(b, w, h, m - 1) <==> 0 <= c.0 < m - 1 && 0 <= c.1 < h && b[c.0][c.1] == LIFE
    ensures c in ColumnsCells(b, w, h, m) <==> 0 <= c.0 < m && 0 <= c.1 < h && b[c.0][c.1] == LIFE
  {
    ColumnCellsHas(b, w, h, m - 1, h, c);
    InAppend(c, ColumnsCells(b, w, h, m - 1), ColumnCells(b, w, h, m - 1, h),
             0 <= c.0 < m - 1 && 0 <= c.1 < h && b[c.0][c.1] == LIFE,
             c.0 == m - 1 && 0 <= c.1 < h && b[m - 1][c.1] == LIFE);
  }

  /** Cell `c` is listed among the first `n` rows of column `x` exactly
      when it is a live cell there. */
  lemma {:induction false} ColumnCellsHas(b: Grid, w: nat, h: nat, x: int, n: int, c: Cell)
    requires WellFormed(b, w, h) && 0 <= x < w && 0 <= n <= h
    ensures c in ColumnCells(b, w, h, x, n) <==> c.0 == x && 0 <= c.1 < n && b[x][c.1] == LIFE
    decreases n
  {
    if n > 0 {
      ColumnCellsHas(b, w, h, x, n - 1, c);
      InAppend(c, ColumnCells(b, w, h, x, n - 1), if b[x][n - 1] == LIFE then [(x, n - 1)] else [],
               c.0 == x && 0 <= c.1 < n - 1 && b[x][c.1] == LIFE,
               c == (x, n - 1) && b[x][n - 1] == LIFE);
    }
  }

  /** Membership in a concatenation, given membership in each part. */
  lemma InAppend(c: Cell, front: seq<Cell>, back: seq<Cell>, inFront: bool, inBack: bool)
    requires c in front <==> inFront
    requires c in back <==> inBack
    ensures c in front + back <==> inFront || inBack
  {
  }

  /** The cells of the first `m` columns come in column-major order. */
  lemma {:induction false} ColumnsCellsSorted(b: Grid, w: nat, h: nat, m: int)
    requires WellFormed(b, w, h) && 0 <= m <= w
    ensures Sorted(ColumnsCells(b, w, h, m))
    decreases m
  {
    if m > 0 {
      ColumnsCellsSorted(b, w, h, m - 1);
      ColumnsCellsLeft(b, w, h, m - 1);
      ColumnCellsIn(b, w, h, m - 1, h);
      SortedAppend(ColumnsCells(b, w, h, m - 1), ColumnCells(b, w, h, m - 1, h), m - 1);
    }
  }

  /** The cells of the first `m` columns lie left of column `m`. */
  lemma ColumnsCellsLeft(b: Grid, w: nat, h: nat, m: int)
    requires WellFormed(b, w, h) && 0 <= m <= w
    ensures forall c :: c in ColumnsCells(b, w, h, m) ==> c.0 < m
  {
    ColumnsCellsMembers(b, w, h, m);
  }

  /** The cells of column `x` are sorted and lie in column `x`. */
  lemma ColumnCellsIn(b: Grid, w: nat, h: nat, x: int, n: int)
    requires WellFormed(b, w, h) && 0 <= x < w && 0 <= n <= h
    ensures Sorted(ColumnCells(b, w, h, x, n))
    ensures forall c :: c in ColumnCells(b, w, h, x, n) ==> c.0 == x
  {
    ColumnCellsSpec(b, w, h, x, n);
  }

  /** Two sorted lists, the first inside the columns left of `x` and the
      second inside column `x`, concatenate to a sorted list. */
  lemma SortedAppend(front: seq<Cell>, back: seq<Cell>, x: int)
    requires Sorted(front) && Sorted(back)
    requires forall c :: c in front ==> c.0 < x
    requires forall c :: c in back ==> c.0 == x
    ensures Sorted(front + back)
  {
    var all := front + back;
    forall i, j | 0 <= i < j < |all|
      ensures Before(all[i], all[j])
    {
      if j < |front| {
        assert all[i] == front[i] && all[j] == front[j];
      } else if i >= |front| {
        assert all[i] == back[i - |front|] && all[j] == back[j - |front|];
      } else {
        assert all[i] in front && all[j] in back;
      }
    }
  }

  /** The drawn cells are exactly the live cells, each once, in
      column-major order. */
  lemma LiveCellsSpec(b: Grid, w: nat, h: nat)
    requires WellFormed(b, w, h)
    ensures forall c :: c in LiveCells(b, w, h) <==> Alive(b, w, h, c)
    ensures Sorted(LiveCells(b, w, h))
  {
    ColumnsCellsSpec(b, w, h, w);
  }

  /** The list of live cells is empty exactly when every cell is dead. */
  lemma NoLiveCells(b: Grid, w: nat, h: nat)
    requires WellFormed(b, w, h)
    ensures LiveCells(b, w, h) == [] <==> forall x, y :: 0 <= x < w && 0 <= y < h ==> b[x][y] != LIFE
  {
    var cells := LiveCells(b, w, h);
    LiveCellsSpec(b, w, h);
    if cells != [] {
      assert Alive(b, w, h, cells[0]);
    }
    if exists x, y :: 0 <= x < w && 0 <= y < h && b[x][y] == LIFE {
      var x, y :| 0 <= x < w && 0 <= y < h && b[x][y] == LIFE;
      assert Alive(b, w, h, (x, y));
    }
  }

  /** A column-major sorted list is determined by its elements. */
  lemma {:induction false} SortedUnique(s: seq<Cell>, t: seq<Cell>)
    requires Sorted(s) && Sorted(t)
    requires forall c :: c in s <==> c in t
    ensures s == t
    decreases |s|
  {
    if s == [] {
      if t != [] {
        HeadIn(t);
        assert false;
      }
    } else if t == [] {
      HeadIn(s);
      assert false;
    } else {
      SortedHead(s, t[0]);
      SortedHead(t, s[0]);
      assert s[0] == t[0];
      forall c
        ensures c in s[1..] <==> c in t[1..]
      {
        SortedTail(s, c);
        SortedTail(t, c);
      }
      SortedUnique(s[1..], t[1..]);
      assert s == [s[0]] + s[1..] && t == [t[0]] + t[1..];
    }
  }

  lemma HeadIn(s: seq<Cell>)
    requires s != []
    ensures s[0] in s
  {
  }

  /** The head of a sorted list comes before every other element. */
  lemma SortedHead(s: seq<Cell>, c: Cell)
    requires Sorted(s) && c in s
    ensures c == s[0] || Before(s[0], c)
  {
    var i :| 0 <= i < |s| && s[i] == c;
    if i > 0 {
      assert Before(s[0], s[i]);
    }
  }

  /** The tail of a sorted list holds every element but the head. */
  lemma SortedTail(s: seq<Cell>, c: Cell)
    requires Sorted(s) && s != []
    ensures c in s[1..] <==> c in s && c != s[0]
  {
    if c in s[1..] {
      var i :| 0 <= i < |s[1..]| && s[1..][i] == c;
      assert Before(s[0], s[i + 1]);
    }
    if c in s && c != s[0] {
      var i :| 0 <= i < |s| && s[i] == c;
      assert s[1..][i - 1] == c;
    }
  }

  /** `LiveCells` is the only column-major sorted list of the live cells. */
  lemma LiveCellsUnique(b: Grid, w: nat, h: nat, cells: seq<Cell>)
    requires WellFormed(b, w, h)
    requires Sorted(cells) && forall c :: c in cells <==> Alive(b, w, h, c)
    ensures cells == LiveCells(b, w, h)
  {
    LiveCellsSpec(b, w, h);
    SortedUnique(cells, LiveCells(b, w, h));
  }

  /** Two commands per cell, none for an empty board. */
  lemma {:induction false} EncodeEmpty(cells: seq<Cell>, size: int)
    ensures |Encode(cells, size)| == 2 * |cells|
    ensures Encode(cells, size) == [] <==> cells == []
  {
    EncodeLength(None, cells, size);
  }

  lemma {:induction false} EncodeLength(prev: Option<Cell>, cells: seq<Cell>, size: int)
    ensures |EncodeFrom(prev, cells, size)| == 2 * |cells|
    decreases |cells|
  {
    if cells != [] {
      EncodeLength(Some(cells[0]), cells[1..], size);
    }
  }

  /** Appending a cell appends its segment, written relative to the cell
      before it. */
  lemma {:induction false} EncodeSnoc(prev: Option<Cell>, cells: seq<Cell>, c: Cell, size: int)
    ensures EncodeFrom(prev, cells + [c], size) ==
            EncodeFrom(prev, cells, size) + Segment(if cells == [] then prev else Some(cells[|cells| - 1]), c, size)
    decreases |cells|
  {
    if cells == [] {
      assert EncodeFrom(Some(c), [], size) == [];
      assert [c][1..] == [];
    } else {
      assert (cells + [c])[1..] == cells[1..] + [c];
      EncodeSnoc(Some(cells[0]), cells[1..], c, size);
    }
  }

  /** Replaying the commands draws one stroke per cell, in order, each from
      the cell's absolute start point. Before a relative segment the pen
      must stand where the previous cell's stroke ended. */
  lemma {:induction false} TraceEncode(prev: Option<Cell>, cells: seq<Cell>, pen: Point, size: int)
    requires prev.Some? ==> pen == Stroke(prev.value, size).to
    ensures Trace(EncodeFrom(prev, cells, size), pen) == Strokes(cells, size)
    decreases |cells|
  {
    if cells != [] {
      var c := cells[0];
      var seg := Segment(prev, c, size);
      var rest := EncodeFrom(Some(c), cells[1..], size);
      var all := seg + rest;
      assert all[0] == seg[0] && all[1..][0] == seg[1];
      assert all[1..][1..] == rest;
      TraceEncode(Some(c), cells[1..], Stroke(c, size).to, size);
    }
  }

  lemma {:induction false} CellsOfStrokes(cells: seq<Cell>, size: int)
    requires size > 0
    ensures CellsOf(Strokes(cells, size), size) == cells
    decreases |cells|
  {
    if cells != [] {
      var c := cells[0];
      QuotScale(c.0, size);
      QuotScale(c.1, size);
      CellsOfStrokes(cells[1..], size);
    }
  }

  /** `Scale` is multiplication. */
  lemma {:induction false} ScaleIsProduct(n: int, size: int)
    ensures Scale(n, size) == n * size
    decreases if n < 0 then -n else n
  {
    if n > 0 {
      ScaleIsProduct(n - 1, size);
    } else if n < 0 {
      ScaleIsProduct(n + 1, size);
    }
  }

  /** Dividing a multiple of `size` by `size` gives back the factor. */
  lemma {:induction false} QuotScale(n: int, size: int)
    requires size > 0
    ensures Quot(Scale(n, size), size) == n
    decreases if n < 0 then -n else n
  {
    if n > 0 {
      QuotScale(n - 1, size);
    } else if n < 0 {
      QuotScale(n + 1, size);
    }
  }

  /** Reading the `d` attribute back recovers the cells it was written for. */
  lemma PathRoundTrip(cells: seq<Cell>, size: int)
    requires size > 0
    ensures DecodePath(Render(Encode(cells, size)), size) == Some(cells)
  {
    ParseRender(Encode(cells, size));
    TraceEncode(None, cells, (0, 0), size);
    CellsOfStrokes(cells, size);
  }
}
