/** Small boards with known futures under the step, worked out cell by cell:
    the blinker, the block, a diagonal that ends the game while a cell still
    lives, the plus sign on a 3 x 3 torus, and a one-column board. */
module Patterns {
  import opened Torus
  import opened Board
  import opened Rules
  import opened SvgPath
  import opened Drawing

  /** The vertical phase of the blinker: column 1, rows 0 to 2, of a 4 x 4 board. */
  const Vertical: Grid := [[0, 0, 0, 0], [1, 1, 1, 0], [0, 0, 0, 0], [0, 0, 0, 0]]

  /** The horizontal phase of the blinker: row 1, columns 0 to 2, of a 4 x 4 board. */
  const Horizontal: Grid := [[0, 1, 0, 0], [0, 1, 0, 0], [0, 1, 0, 0], [0, 0, 0, 0]]

  /** A 2 x 2 block in the middle of a 4 x 4 board. */
  const Block: Grid := [[0, 0, 0, 0], [0, 1, 1, 0], [0, 1, 1, 0], [0, 0, 0, 0]]

  /** Three cells on the main diagonal of a 4 x 4 board. */
  const Diagonal: Grid := [[1, 0, 0, 0], [0, 1, 0, 0], [0, 0, 1, 0], [0, 0, 0, 0]]

  /** The single live cell `(1, 1)` of a 4 x 4 board. */
  const Dot: Grid := [[0, 0, 0, 0], [0, 1, 0, 0], [0, 0, 0, 0], [0, 0, 0, 0]]

  /** A plus sign filling the middle row and column of a 3 x 3 board. */
  const Plus: Grid := [[0, 1, 0], [1, 1, 1], [0, 1, 0]]

  /** One live cell in the middle of a board one column wide and three rows high. */
  const LoneCell: Grid := [[0, 1, 0]]

  /** The same one-column board with all three cells alive. */
  const FullColumn: Grid := [[1, 1, 1]]

  /** Two 4 x 4 boards that agree on every cell, listed one by one. */
  lemma SameCells4x4(a: Grid, b: Grid)
    requires WellFormed(a, 4, 4) && WellFormed(b, 4, 4)
    requires a[0][0] == b[0][0] && a[0][1] == b[0][1] && a[0][2] == b[0][2] && a[0][3] == b[0][3] &&
             a[1][0] == b[1][0] && a[1][1] == b[1][1] && a[1][2] == b[1][2] && a[1][3] == b[1][3] &&
             a[2][0] == b[2][0] && a[2][1] == b[2][1] && a[2][2] == b[2][2] && a[2][3] == b[2][3] &&
             a[3][0] == b[3][0] && a[3][1] == b[3][1] && a[3][2] == b[3][2] && a[3][3] == b[3][3]
    ensures a == b
  {
    forall x, y | 0 <= x < 4 && 0 <= y < 4
      ensures a[x][y] == b[x][y]
    {
      assert x == 0 || x == 1 || x == 2 || x == 3;
      assert y == 0 || y == 1 || y == 2 || y == 3;
    }
    SameCells(a, b, 4, 4);
  }

  /** Two 3 x 3 boards that agree on every cell, listed one by one. */
  lemma SameCells3x3(a: Grid, b: Grid)
    requires WellFormed(a, 3, 3) && WellFormed(b, 3, 3)
    requires a[0][0] == b[0][0] && a[0][1] == b[0][1] && a[0][2] == b[0][2] && a[1][0] == b[1][0] &&
             a[1][1] == b[1][1] && a[1][2] == b[1][2] && a[2][0] == b[2][0] && a[2][1] == b[2][1] &&
             a[2][2] == b[2][2]
    ensures a == b
  {
    forall x, y | 0 <= x < 3 && 0 <= y < 3
      ensures a[x][y] == b[x][y]
    {
      assert x == 0 || x == 1 || x == 2;
      assert y == 0 || y == 1 || y == 2;
    }
    SameCells(a, b, 3, 3);
  }

  /** Two 1 x 3 boards that agree on every cell, listed one by one. */
  lemma SameCells1x3(a: Grid, b: Grid)
    requires WellFormed(a, 1, 3) && WellFormed(b, 1, 3)
    requires a[0][0] == b[0][0] && a[0][1] == b[0][1] && a[0][2] == b[0][2]
    ensures a == b
  {
    forall x, y | 0 <= x < 1 && 0 <= y < 3
      ensures a[x][y] == b[x][y]
    {
      assert x == 0;
      assert y == 0 || y == 1 || y == 2;
    }
    SameCells(a, b, 1, 3);
  }

  /** A 4 x 4 board on which no cell, listed one by one, is born. */
  lemma NoBirth4x4(b: Grid)
    requires WellFormed(b, 4, 4)
    requires !Born(b, 4, 4, 0, 0) && !Born(b, 4, 4, 0, 1) && !Born(b, 4, 4, 0, 2) && !Born(b, 4, 4, 0, 3) &&
             !Born(b, 4, 4, 1, 0) && !Born(b, 4, 4, 1, 1) && !Born(b, 4, 4, 1, 2) && !Born(b, 4, 4, 1, 3) &&
             !Born(b, 4, 4, 2, 0) && !Born(b, 4, 4, 2, 1) && !Born(b, 4, 4, 2, 2) && !Born(b, 4, 4, 2, 3) &&
             !Born(b, 4, 4, 3, 0) && !Born(b, 4, 4, 3, 1) && !Born(b, 4, 4, 3, 2) && !Born(b, 4, 4, 3, 3)
    ensures !HasBirth(b, 4, 4)
  {
    forall x, y | 0 <= x < 4 && 0 <= y < 4
      ensures !Born(b, 4, 4, x, y)
    {
      assert x == 0 || x == 1 || x == 2 || x == 3;
      assert y == 0 || y == 1 || y == 2 || y == 3;
    }
  }

  /** A 3 x 3 board on which no cell, listed one by one, is born. */
  lemma NoBirth3x3(b: Grid)
    requires WellFormed(b, 3, 3)
    requires !Born(b, 3, 3, 0, 0) && !Born(b, 3, 3, 0, 1) && !Born(b, 3, 3, 0, 2) && !Born(b, 3, 3, 1, 0) &&
             !Born(b, 3, 3, 1, 1) && !Born(b, 3, 3, 1, 2) && !Born(b, 3, 3, 2, 0) && !Born(b, 3, 3, 2, 1) &&
             !Born(b, 3, 3, 2, 2)
    ensures !HasBirth(b, 3, 3)
  {
    forall x, y | 0 <= x < 3 && 0 <= y < 3
      ensures !Born(b, 3, 3, x, y)
    {
      assert x == 0 || x == 1 || x == 2;
      assert y == 0 || y == 1 || y == 2;
    }
  }

  /** A 1 x 3 board on which no cell, listed one by one, is born. */
  lemma NoBirth1x3(b: Grid)
    requires WellFormed(b, 1, 3)
    requires !Born(b, 1, 3, 0, 0) && !Born(b, 1, 3, 0, 1) && !Born(b, 1, 3, 0, 2)
    ensures !HasBirth(b, 1, 3)
  {
    forall x, y | 0 <= x < 1 && 0 <= y < 3
      ensures !Born(b, 1, 3, x, y)
    {
      assert x == 0;
      assert y == 0 || y == 1 || y == 2;
    }
  }

  /** The vertical blinker turns horizontal. */
  lemma NextOfVertical()
    ensures Next(Vertical, 4, 4) == Horizontal
  {
    WrapEdges(4);
    SameCells4x4(Next(Vertical, 4, 4), Horizontal);
  }

  /** The horizontal blinker turns vertical. */
  lemma NextOfHorizontal()
    ensures Next(Horizontal, 4, 4) == Vertical
  {
    WrapEdges(4);
    SameCells4x4(Next(Horizontal, 4, 4), Vertical);
  }

  /** The block is a still life. */
  lemma NextOfBlock()
    ensures Next(Block, 4, 4) == Block
  {
    WrapEdges(4);
    SameCells4x4(Next(Block, 4, 4), Block);
  }

  /** Both ends of the diagonal die and its middle cell survives. */
  lemma NextOfDiagonal()
    ensures Next(Diagonal, 4, 4) == Dot
  {
    WrapEdges(4);
    SameCells4x4(Next(Diagonal, 4, 4), Dot);
  }

  /** No dead cell around the diagonal has exactly three live neighbours. */
  lemma DiagonalHasNoBirth()
    ensures !HasBirth(Diagonal, 4, 4)
  {
    NoBirth4x4(Diagonal);
  }

  /** On the 3 x 3 torus every cell sees all eight others, so each cell of the plus has four live neighbours and dies. */
  lemma NextOfPlus()
    ensures Next(Plus, 3, 3) == Clear(3, 3)
  {
    WrapEdges(3);
    SameCells3x3(Next(Plus, 3, 3), Clear(3, 3));
  }

  /** Each dead corner of the plus sees five live cells, so nothing is born. */
  lemma PlusHasNoBirth()
    ensures !HasBirth(Plus, 3, 3)
  {
    NoBirth3x3(Plus);
  }

  /** On a one-column board each neighbour in the column is visited three times and the centre twice, so the lone cell survives and both other cells are born. */
  lemma NextOfLoneCell()
    ensures Next(LoneCell, 1, 3) == FullColumn
  {
    LoneCellCounts();
    SameCells1x3(Next(LoneCell, 1, 3), FullColumn);
  }

  /** The counts of the one-column board: three for each end, two for the middle. */
  lemma LoneCellCounts()
    ensures Count(LoneCell, 1, 3, 0, 0) == 3
    ensures Count(LoneCell, 1, 3, 0, 1) == 2
    ensures Count(LoneCell, 1, 3, 0, 2) == 3
  {
    WrapEdges(1);
    WrapEdges(3);
  }

  /** The full column counts eight for every cell, so all die. */
  lemma NextOfFullColumn()
    ensures Next(FullColumn, 1, 3) == Clear(1, 3)
  {
    WrapEdges(1);
    WrapEdges(3);
    SameCells1x3(Next(FullColumn, 1, 3), Clear(1, 3));
  }

  /** No cell of the full column is dead, so none is born. */
  lemma FullColumnHasNoBirth()
    ensures !HasBirth(FullColumn, 1, 3)
  {
    NoBirth1x3(FullColumn);
  }

  /** The blinker oscillates with period 2. */
  lemma BlinkerOscillates()
    ensures Next(Next(Vertical, 4, 4), 4, 4) == Vertical
  {
    NextOfVertical();
    NextOfHorizontal();
  }

  /** The blinker never ends the game: each generation has a birth and
      differs from the one before. */
  lemma BlinkerGoesOn()
    ensures !GameOver(Vertical, 4, 4) && !GameOver(Horizontal, 4, 4)
  {
    VerticalGoesOn();
    HorizontalGoesOn();
  }

  /** The vertical phase has a birth and turns into a different board. */
  lemma VerticalGoesOn()
    ensures !GameOver(Vertical, 4, 4)
  {
    BlinkerBirths();
    assert HasBirth(Vertical, 4, 4);
    NextOfVertical();
    assert Horizontal[0][1] != Vertical[0][1];
  }

  /** The horizontal phase has a birth and turns into a different board. */
  lemma HorizontalGoesOn()
    ensures !GameOver(Horizontal, 4, 4)
  {
    BlinkerBirths();
    assert HasBirth(Horizontal, 4, 4);
    NextOfHorizontal();
    assert Horizontal[0][1] != Vertical[0][1];
  }

  /** Each blinker phase has a birth at the end of its next phase. */
  lemma BlinkerBirths()
    ensures Born(Vertical, 4, 4, 0, 1)
    ensures Born(Horizontal, 4, 4, 1, 0)
  {
    WrapEdges(4);
  }

  /** The block is left as it is and the step reports game over. */
  lemma BlockEndsGame()
    ensures Next(Block, 4, 4) == Block
    ensures GameOver(Block, 4, 4)
  {
    NextOfBlock();
  }

  /** Game over with a live cell left: the diagonal changes and keeps its
      middle cell alive, yet no cell is born, so the step reports game over. */
  lemma DiagonalEndsGame()
    ensures Next(Diagonal, 4, 4) != Diagonal
    ensures Next(Diagonal, 4, 4)[1][1] == LIFE
    ensures GameOver(Diagonal, 4, 4)
  {
    NextOfDiagonal();
    DiagonalHasNoBirth();
    assert Dot[0][0] != Diagonal[0][0];
  }

  /** The plus sign on the 3 x 3 torus dies out in one step, and the step
      reports game over. */
  lemma PlusDiesOut()
    ensures Next(Plus, 3, 3) == Clear(3, 3)
    ensures GameOver(Plus, 3, 3)
  {
    NextOfPlus();
    PlusHasNoBirth();
  }

  /** On a one-column board the lone cell counts itself twice; it survives,
      both other cells are born, and in the next generation all three die
      and the step reports game over. */
  lemma OneColumnBoard()
    ensures Count(LoneCell, 1, 3, 0, 1) == 2
    ensures Next(LoneCell, 1, 3) == FullColumn && !GameOver(LoneCell, 1, 3)
    ensures Next(FullColumn, 1, 3) == Clear(1, 3) && GameOver(FullColumn, 1, 3)
  {
    NextOfLoneCell();
    NextOfFullColumn();
    FullColumnHasNoBirth();
    assert Born(LoneCell, 1, 3, 0, 0);
    assert FullColumn[0][0] != LoneCell[0][0];
  }

  /** The drawing loop meets the vertical blinker's cells top to bottom in
      column 1. */
  lemma VerticalCells()
    ensures LiveCells(Vertical, 4, 4) == [(1, 0), (1, 1), (1, 2)]
  {
  }

  /** With 10-unit cells the vertical blinker is drawn as one absolute
      stroke and two relative ones, each moving back to the left edge of
      the column and one cell down. */
  lemma VerticalPath()
    ensures Render(Encode(LiveCells(Vertical, 4, 4), 10)) == "M10,5 H20" + " m-10,10 h10" + " m-10,10 h10"
  {
    VerticalCells();
    VerticalCommands();
    var first := [MoveTo(10, 5), HorizontalTo(20)];
    var down := [MoveBy(-10, 10), HorizontalBy(10)];
    RenderAppend(first + down, down);
    RenderAppend(first, down);
    SmallCommands();
  }

  lemma SmallCommands()
    ensures Render([MoveTo(10, 5), HorizontalTo(20)]) == "M10,5 H20"
    ensures Render([MoveBy(-10, 10), HorizontalBy(10)]) == " m-10,10 h10"
  {
    FirstSegment();
    LaterSegment();
  }

  lemma FirstSegment()
    ensures Render([MoveTo(10, 5), HorizontalTo(20)]) == "M10,5 H20"
  {
    RenderPair(MoveTo(10, 5), HorizontalTo(20));
    SmallNumbers();
    assert RenderCommand(MoveTo(10, 5)) == "M10,5";
    assert RenderCommand(HorizontalTo(20)) == " H20";
  }

  lemma LaterSegment()
    ensures Render([MoveBy(-10, 10), HorizontalBy(10)]) == " m-10,10 h10"
  {
    RenderPair(MoveBy(-10, 10), HorizontalBy(10));
    SmallNumbers();
    assert RenderCommand(MoveBy(-10, 10)) == " m-10,10";
    assert RenderCommand(HorizontalBy(10)) == " h10";
  }

  lemma VerticalCommands()
    ensures Encode([(1, 0), (1, 1), (1, 2)], 10) ==
            [MoveTo(10, 5), HorizontalTo(20)] + [MoveBy(-10, 10), HorizontalBy(10)] + [MoveBy(-10, 10), HorizontalBy(10)]
  {
    var cells := [(1, 0), (1, 1), (1, 2)];
    assert cells[1..] == [(1, 1), (1, 2)];
    assert cells[1..][1..] == [(1, 2)];
  }

  lemma SmallNumbers()
    ensures IntToString(5) == "5" && IntToString(10) == "10"
    ensures IntToString(20) == "20" && IntToString(-10) == "-10"
  {
    assert NatToString(1) == "1" && NatToString(2) == "2";
  }
}
