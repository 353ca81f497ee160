/** One generation of the game: the neighbour count on the torus, Conway's
    B3/S23 rule, the game-over flag, and the in-place step over a snapshot. */
module Rules {
  import opened Torus
  import opened Board

  /** `#getCountOfNeighbors(board, x, y)`: the sum of the eight cells around
      `(x, y)`, each coordinate wrapped with `Wrap`. On boards one or two
      cells wide or high the eight positions are not all distinct (see
      `NeighbourPositions`). */
  function Count(b: Grid, w: nat, h: nat, x: int, y: int): (n: int)
    requires WellFormed(b, w, h) && 0 <= x < w && 0 <= y < h
  {
    var left, centre, right := Wrap(x - 1, w), Wrap(x, w), Wrap(x + 1, w);
    var up, middle, down := Wrap(y - 1, h), Wrap(y, h), Wrap(y + 1, h);
    b[left][up] + b[left][middle] + b[left][down]
      + b[centre][up] + b[centre][down]
      + b[right][up] + b[right][middle] + b[right][down]
  }

  /** The eight neighbour offsets, in the order the count visits them. */
  const Offsets: seq<(int, int)> :=
    [(-1, -1), (-1, 0), (-1, 1), (0, -1), (0, 1), (1, -1), (1, 0), (1, 1)]

  /** The neighbour positions of `(x, y)` on the mathematical torus
      `Z/w x Z/h`, one per offset. */
  function TorusNeighbours(w: nat, h: nat, x: int, y: int): (ps: seq<(int, int)>)
    requires w > 0 && h > 0
    ensures |ps| == 8
    ensures forall i :: 0 <= i < 8 ==> 0 <= ps[i].0 < w && 0 <= ps[i].1 < h
  {
    seq(8, i requires 0 <= i < 8 => ((x + Offsets[i].0) % w, (y + Offsets[i].1) % h))
  }

  /** The sum of the cells of `b` at the positions `ps`. */
  function SumAt(b: Grid, w: nat, h: nat, ps: seq<(int, int)>): int
    requires WellFormed(b, w, h)
    requires forall i :: 0 <= i < |ps| ==> 0 <= ps[i].0 < w && 0 <= ps[i].1 < h
  {
    if |ps| == 0 then 0 else b[ps[0].0][ps[0].1] + SumAt(b, w, h, ps[1..])
  }

  /** The count computed with JavaScript's `(size + n) % size` is the sum over
      the eight torus neighbours. */
  lemma CountIsTorusSum(b: Grid, w: nat, h: nat, x: int, y: int)
    requires WellFormed(b, w, h) && 0 <= x < w && 0 <= y < h
    ensures Count(b, w, h, x, y) == SumAt(b, w, h, TorusNeighbours(w, h, x, y))
  {
    WrapIsMod(x - 1, w);
    WrapIsMod(x, w);
    WrapIsMod(x + 1, w);
    WrapIsMod(y - 1, h);
    WrapIsMod(y, h);
    WrapIsMod(y + 1, h);
    var ps := TorusNeighbours(w, h, x, y);
    var s1 := ps[1..];
    var s2 := s1[1..];
    var s3 := s2[1..];
    var s4 := s3[1..];
    var s5 := s4[1..];
    var s6 := s5[1..];
    var s7 := s6[1..];
    assert s7[1..] == [];
    assert SumAt(b, w, h, s7) == b[ps[7].0][ps[7].1];
    assert SumAt(b, w, h, s6) == b[ps[6].0][ps[6].1] + b[ps[7].0][ps[7].1];
    assert SumAt(b, w, h, s5) == b[ps[5].0][ps[5].1] + SumAt(b, w, h, s6);
    assert SumAt(b, w, h, s4) == b[ps[4].0][ps[4].1] + SumAt(b, w, h, s5);
    assert SumAt(b, w, h, s3) == b[ps[3].0][ps[3].1] + SumAt(b, w, h, s4);
    assert SumAt(b, w, h, s2) == b[ps[2].0][ps[2].1] + SumAt(b, w, h, s3);
    assert SumAt(b, w, h, s1) == b[ps[1].0][ps[1].1] + SumAt(b, w, h, s2);
  }

  /** The positions `#getCountOfNeighbors` reads for `(x, y)`, in the order
      it reads them: each offset applied and wrapped as the code does. */
  function Visited(w: nat, h: nat, x: int, y: int): (ps: seq<(int, int)>)
    requires 0 <= x < w && 0 <= y < h
    ensures |ps| == 8
    ensures forall i :: 0 <= i < 8 ==> 0 <= ps[i].0 < w && 0 <= ps[i].1 < h
  {
    seq(8, i requires 0 <= i < 8 => (Wrap(x + Offsets[i].0, w), Wrap(y + Offsets[i].1, h)))
  }

  /** The positions the code reads are the torus neighbours. */
  lemma VisitedAreTorus(w: nat, h: nat, x: int, y: int)
    requires 0 <= x < w && 0 <= y < h
    ensures Visited(w, h, x, y) == TorusNeighbours(w, h, x, y)
  {
    WrapIsMod(x - 1, w);
    WrapIsMod(x, w);
    WrapIsMod(x + 1, w);
    WrapIsMod(y - 1, h);
    WrapIsMod(y, h);
    WrapIsMod(y + 1, h);
  }

  /** The three wrapped indices around one on the board. */
  lemma WrapAround(n: int, size: int)
    requires 0 <= n < size
    ensures Wrap(n - 1, size) == (if n == 0 then size - 1 else n - 1)
    ensures Wrap(n, size) == n
    ensures Wrap(n + 1, size) == (if n == size - 1 then 0 else n + 1)
  {
    WrapEdges(size);
  }

  /** Which cells the count reads. On a board at least 3 x 3 the eight
      positions are distinct and none is the centre, so each neighbour is
      counted once. At least 2 x 2, the centre is still never read. On a
      board one column wide the positions `(x-1, y)` and `(x+1, y)` are both
      the centre cell itself, so the count includes the cell twice; likewise
      `(x, y-1)` and `(x, y+1)` on a board one row high. On a board two
      columns wide the left and the right column are the same column, so
      each of its three cells is read twice; likewise the rows above and
      below on a board two rows high. */
  lemma NeighbourPositions(w: nat, h: nat, x: int, y: int)
    requires 0 <= x < w && 0 <= y < h
    ensures w >= 2 && h >= 2 ==> forall i :: 0 <= i < 8 ==> Visited(w, h, x, y)[i] != (x, y)
    ensures w >= 3 && h >= 3 ==> forall i, j :: 0 <= i < j < 8 ==> Visited(w, h, x, y)[i] != Visited(w, h, x, y)[j]
    ensures w == 1 ==> Visited(w, h, x, y)[1] == (x, y) && Visited(w, h, x, y)[6] == (x, y)
    ensures h == 1 ==> Visited(w, h, x, y)[3] == (x, y) && Visited(w, h, x, y)[4] == (x, y)
    ensures w == 2 ==> var ps := Visited(w, h, x, y); ps[0] == ps[5] && ps[1] == ps[6] && ps[2] == ps[7]
    ensures h == 2 ==> var ps := Visited(w, h, x, y); ps[0] == ps[2] && ps[3] == ps[4] && ps[5] == ps[7]
  {
    if w >= 2 && h >= 2 {
      CentreNotVisited(w, h, x, y);
    }
    if w >= 3 && h >= 3 {
      VisitedDistinct(w, h, x, y);
    }
    if w == 1 {
      OneColumnVisited(w, h, x, y);
    }
    if h == 1 {
      OneRowVisited(w, h, x, y);
    }
    if w == 2 {
      TwoColumnsVisited(w, h, x, y);
    }
    if h == 2 {
      TwoRowsVisited(w, h, x, y);
    }
  }

  /** At least 2 x 2, the count never reads the centre cell. */
  lemma CentreNotVisited(w: nat, h: nat, x: int, y: int)
    requires 0 <= x < w && 0 <= y < h && w >= 2 && h >= 2
    ensures forall i :: 0 <= i < 8 ==> Visited(w, h, x, y)[i] != (x, y)
  {
    VisitedSpelled(w, h, x, y);
  }

  /** One column wide, the left and right neighbours are the centre. */
  lemma OneColumnVisited(w: nat, h: nat, x: int, y: int)
    requires 0 <= x < w && 0 <= y < h && w == 1
    ensures Visited(w, h, x, y)[1] == (x, y) && Visited(w, h, x, y)[6] == (x, y)
  {
    VisitedSpelled(w, h, x, y);
  }

  /** One row high, the neighbours above and below are the centre. */
  lemma OneRowVisited(w: nat, h: nat, x: int, y: int)
    requires 0 <= x < w && 0 <= y < h && h == 1
    ensures Visited(w, h, x, y)[3] == (x, y) && Visited(w, h, x, y)[4] == (x, y)
  {
    VisitedSpelled(w, h, x, y);
  }

  /** Two columns wide, the left and the right column are one column. */
  lemma TwoColumnsVisited(w: nat, h: nat, x: int, y: int)
    requires 0 <= x < w && 0 <= y < h && w == 2
    ensures var ps := Visited(w, h, x, y); ps[0] == ps[5] && ps[1] == ps[6] && ps[2] == ps[7]
  {
    VisitedSpelled(w, h, x, y);
  }

  /** Two rows high, the rows above and below are one row. */
  lemma TwoRowsVisited(w: nat, h: nat, x: int, y: int)
    requires 0 <= x < w && 0 <= y < h && h == 2
    ensures var ps := Visited(w, h, x, y); ps[0] == ps[2] && ps[3] == ps[4] && ps[5] == ps[7]
  {
    VisitedSpelled(w, h, x, y);
  }

  /** The eight visited positions, written with the wrapped row and column
      indices around `(x, y)`. */
  lemma VisitedSpelled(w: nat, h: nat, x: int, y: int)
    requires 0 <= x < w && 0 <= y < h
    ensures var l, r := (if x == 0 then w - 1 else x - 1), (if x == w - 1 then 0 else x + 1);
      var u, d := (if y == 0 then h - 1 else y - 1), (if y == h - 1 then 0 else y + 1);
      Visited(w, h, x, y) == [(l, u), (l, y), (l, d), (x, u), (x, d), (r, u), (r, y), (r, d)]
  {
    WrapAround(x, w);
    WrapAround(y, h);
  }

  /** At least 3 x 3, the eight visited positions are pairwise distinct. */
  lemma VisitedDistinct(w: nat, h: nat, x: int, y: int)
    requires 0 <= x < w && 0 <= y < h && w >= 3 && h >= 3
    ensures forall i, j :: 0 <= i < j < 8 ==> Visited(w, h, x, y)[i] != Visited(w, h, x, y)[j]
  {
    VisitedSpelled(w, h, x, y);
    var l, r := (if x == 0 then w - 1 else x - 1), (if x == w - 1 then 0 else x + 1);
    var u, d := (if y == 0 then h - 1 else y - 1), (if y == h - 1 then 0 else y + 1);
    assert l != x && x != r && l != r;
    assert u != y && y != d && u != d;
  }

  /** Wraparound at the corner: a live cell at `(w-1, h-1)` counts towards
      `(0, 0)`. */
  lemma CornerNeighboursOrigin(b: Grid, w: nat, h: nat)
    requires WellFormed(b, w, h) && w > 0 && h > 0 && Binary(b, w, h)
    requires b[w - 1][h - 1] == LIFE
    ensures Count(b, w, h, 0, 0) >= 1
  {
    assert Wrap(-1, w) == w - 1 && Wrap(-1, h) == h - 1 by {
      WrapEdges(w);
      WrapEdges(h);
    }
  }

  /** The new value of cell `(x, y)`, read from the snapshot `b`: a dead cell
      with exactly three neighbours is born, a cell with fewer than two or
      more than three neighbours dies, and any other cell keeps its value.
      On a 0/1 board this is Conway's B3/S23 rule. */
  function NextCell(b: Grid, w: nat, h: nat, x: int, y: int): (v: int)
    requires WellFormed(b, w, h) && 0 <= x < w && 0 <= y < h
  {
    var n := Count(b, w, h, x, y);
    if b[x][y] == DEATH && n == 3 then LIFE
    else if n < 2 || n > 3 then DEATH
    else b[x][y]
  }

  /** The next generation as a pure function of the current board. */
  function Next(b: Grid, w: nat, h: nat): (r: Grid)
    requires WellFormed(b, w, h)
    ensures WellFormed(r, w, h)
    ensures forall x, y :: 0 <= x < w && 0 <= y < h ==> r[x][y] == NextCell(b, w, h, x, y)
  {
    seq(w, x requires 0 <= x < w =>
      seq(h, y requires 0 <= y < h => NextCell(b, w, h, x, y)))
  }

  /** On a 0/1 board the count lies in `[0, 8]`. */
  lemma CountRange(b: Grid, w: nat, h: nat, x: int, y: int)
    requires WellFormed(b, w, h) && Binary(b, w, h) && 0 <= x < w && 0 <= y < h
    ensures 0 <= Count(b, w, h, x, y) <= 8
  {
  }

  /** On a 0/1 board the step's rule is Conway's B3/S23: a cell is alive in
      the next generation exactly when it has three live neighbours, or it is
      alive and has two; and the new value is again 0 or 1. */
  lemma ConwayRule(b: Grid, w: nat, h: nat, x: int, y: int)
    requires WellFormed(b, w, h) && Binary(b, w, h) && 0 <= x < w && 0 <= y < h
    ensures NextCell(b, w, h, x, y) == DEATH || NextCell(b, w, h, x, y) == LIFE
    ensures NextCell(b, w, h, x, y) == LIFE <==>
      Count(b, w, h, x, y) == 3 || (b[x][y] == LIFE && Count(b, w, h, x, y) == 2)
  {
  }

  /** The next generation of a 0/1 board is a 0/1 board. */
  lemma NextBinary(b: Grid, w: nat, h: nat)
    requires WellFormed(b, w, h) && Binary(b, w, h)
    ensures Binary(Next(b, w, h), w, h)
  {
    forall x, y | 0 <= x < w && 0 <= y < h
      ensures Next(b, w, h)[x][y] == DEATH || Next(b, w, h)[x][y] == LIFE
    {
      ConwayRule(b, w, h, x, y);
    }
  }

  /** Cell `(x, y)` is dead and has exactly three neighbours: the step
      writes a birth there. */
  predicate Born(b: Grid, w: nat, h: nat, x: int, y: int)
    requires WellFormed(b, w, h) && 0 <= x < w && 0 <= y < h
  {
    b[x][y] == DEATH && Count(b, w, h, x, y) == 3
  }

  predicate HasBirth(b: Grid, w: nat, h: nat)
    requires WellFormed(b, w, h)
  {
    exists x, y :: 0 <= x < w && 0 <= y < h && Born(b, w, h, x, y)
  }

  /** The flag the step returns, as the code computes it: the flag named
      "the board is empty" is cleared only by a birth, so the game is over
      whenever no cell is born, live cells or not; otherwise the duplicate
      scan decides. A birth always changes a cell, so that scan never finds
      a repeat (`GameOverIffNoBirth`): the flag is exactly "no birth". */
  predicate GameOver(b: Grid, w: nat, h: nat)
    requires WellFormed(b, w, h)
  {
    !HasBirth(b, w, h) || Next(b, w, h) == b
  }

  /** `#step()`: snapshot the board, rewrite it in place cell by cell from
      the snapshot, then compute the game-over flag. */
  method Step(board: Grid, w: nat, h: nat) returns (next: Grid, gameOver: bool)
    requires WellFormed(board, w, h)
    ensures next == Next(board, w, h)
    ensures gameOver <==> !HasBirth(board, w, h) || next == board
  {
    var previous := Copy(board, w, h);
    next := board;
    var isEmpty := true;
    for x := 0 to w
      invariant WellFormed(next, w, h)
      invariant forall i, j :: 0 <= i < x && 0 <= j < h ==> next[i][j] == NextCell(previous, w, h, i, j)
      invariant forall i :: x <= i < w ==> next[i] == previous[i]
      invariant isEmpty <==> forall i, j :: 0 <= i < x && 0 <= j < h ==> !Born(previous, w, h, i, j)
    {
      var born;
      next, born := StepColumn(previous, next, w, h, x);
      if born {
        isEmpty := false;
      }
    }
    SameCells(next, Next(board, w, h), w, h);

    if isEmpty {
      return next, true;
    }
    var isDuplicate := SameBoard(previous, next, w, h);
    return next, isDuplicate;
  }

  /** One pass of the outer loop of `#step()`: column `x` of `next`, not yet
      visited, is rewritten from the snapshot `previous`. A birth is written
      as `LIFE`, a death as `DEATH`, and every other cell is left as it was.
      `born` reports whether the column had a birth. */
  method StepColumn(previous: Grid, next: Grid, w: nat, h: nat, x: nat)
    returns (next': Grid, born: bool)
    requires WellFormed(previous, w, h) && WellFormed(next, w, h) && x < w
    requires next[x] == previous[x]
    ensures WellFormed(next', w, h)
    ensures forall j :: 0 <= j < h ==> next'[x][j] == NextCell(previous, w, h, x, j)
    ensures forall i :: 0 <= i < w && i != x ==> next'[i] == next[i]
    ensures born <==> exists j :: 0 <= j < h && Born(previous, w, h, x, j)
  {
    var column := next[x];
    born := false;
    for y := 0 to h
      invariant |column| == h
      invariant forall j :: 0 <= j < y ==> column[j] == NextCell(previous, w, h, x, j)
      invariant forall j :: y <= j < h ==> column[j] == previous[x][j]
      invariant born <==> exists j :: 0 <= j < y && Born(previous, w, h, x, j)
    {
      var countOfNeighbors := Count(previous, w, h, x, y);
      assert Born(previous, w, h, x, y) <==> previous[x][y] == DEATH && countOfNeighbors == 3;
      if previous[x][y] == DEATH && countOfNeighbors == 3 {
        column := column[y := LIFE];
        born := true;
        continue;
      }
      if countOfNeighbors < 2 || countOfNeighbors > 3 {
        column := column[y := DEATH];
      }
    }
    next' := next[x := column];
  }

  /** The duplicate check of `#step()`: scan the cells in column-major order
      and stop the column at the first difference. */
  method SameBoard(previous: Grid, next: Grid, w: nat, h: nat) returns (isDuplicate: bool)
    requires WellFormed(previous, w, h) && WellFormed(next, w, h)
    ensures isDuplicate <==> previous == next
  {
    isDuplicate := true;
    for x := 0 to w
      invariant isDuplicate <==> forall i, j :: 0 <= i < x && 0 <= j < h ==> previous[i][j] == next[i][j]
    {
      for y := 0 to h
        invariant isDuplicate <==>
          (forall i, j :: 0 <= i < x && 0 <= j < h ==> previous[i][j] == next[i][j])
          && (forall j :: 0 <= j < y ==> previous[x][j] == next[x][j])
      {
        if previous[x][y] != next[x][y] {
          isDuplicate := false;
          break;
        }
      }
    }
    if isDuplicate {
      SameCells(previous, next, w, h);
    }
  }

  /** Without a birth no cell comes alive: the live cells of the next board
      are among those of the current one, so a game-over without a birth
      never hides a new cell. */
  lemma NoBirthOnlyDeaths(b: Grid, w: nat, h: nat)
    requires WellFormed(b, w, h) && Binary(b, w, h)
    requires !HasBirth(b, w, h)
    ensures forall x, y :: 0 <= x < w && 0 <= y < h && Next(b, w, h)[x][y] == LIFE ==> b[x][y] == LIFE
  {
    forall x, y | 0 <= x < w && 0 <= y < h && Next(b, w, h)[x][y] == LIFE
      ensures b[x][y] == LIFE
    {
      ConwayRule(b, w, h, x, y);
      if b[x][y] == DEATH {
        assert !Born(b, w, h, x, y);
      }
    }
  }

  /** The game goes on only after a birth that changed the board. */
  lemma GameGoesOn(b: Grid, w: nat, h: nat)
    requires WellFormed(b, w, h)
    ensures !GameOver(b, w, h) <==>
      (exists x, y :: 0 <= x < w && 0 <= y < h && Born(b, w, h, x, y))
      && (exists x, y :: 0 <= x < w && 0 <= y < h && Next(b, w, h)[x][y] != b[x][y])
  {
    if HasBirth(b, w, h) {
      var x, y :| 0 <= x < w && 0 <= y < h && Born(b, w, h, x, y);
      assert Next(b, w, h)[x][y] == LIFE != b[x][y];
    }
    if forall x, y :: 0 <= x < w && 0 <= y < h ==> Next(b, w, h)[x][y] == b[x][y] {
      SameCells(Next(b, w, h), b, w, h);
    }
  }

  /** The duplicate scan never decides the flag: it runs only after a birth,
      and the born cell differs from the snapshot, so the game is over
      exactly when no cell is born. */
  lemma GameOverIffNoBirth(b: Grid, w: nat, h: nat)
    requires WellFormed(b, w, h)
    ensures GameOver(b, w, h) <==> !HasBirth(b, w, h)
  {
    if HasBirth(b, w, h) {
      var x, y :| 0 <= x < w && 0 <= y < h && Born(b, w, h, x, y);
      assert Next(b, w, h)[x][y] == LIFE != b[x][y];
    }
  }

  /** An all-dead board is a fixed point and the step reports game over. */
  lemma AllDeadIsFixed(b: Grid, w: nat, h: nat)
    requires WellFormed(b, w, h)
    requires forall x, y :: 0 <= x < w && 0 <= y < h ==> b[x][y] == DEATH
    ensures Next(b, w, h) == b
    ensures GameOver(b, w, h)
  {
    forall x, y | 0 <= x < w && 0 <= y < h
      ensures Next(b, w, h)[x][y] == b[x][y]
    {
      assert Count(b, w, h, x, y) == 0;
    }
    SameCells(Next(b, w, h), b, w, h);
  }

  /** After `clear()` the next step leaves the board as it is and reports
      game over. */
  lemma StepAfterClear(w: nat, h: nat)
    ensures Next(Clear(w, h), w, h) == Clear(w, h)
    ensures GameOver(Clear(w, h), w, h)
  {
    AllDeadIsFixed(Clear(w, h), w, h);
  }
}
