/** `changeSize(width, height)` and what the step then does with the board
    array. Changing the size only changes the two numbers the loops run to:
    the array keeps its old columns and cells. The redraw that follows adds
    an empty column for every missing one, and nothing fills in the missing
    cells. Reading a missing cell gives `undefined`; adding it to a
    neighbour count gives NaN, and every comparison with NaN is false. */
module Resize {
  import opened Torus
  import opened Board
  import opened Rules

  /** A slot of a JavaScript array: a number, or `undefined` where nothing
      was ever stored. */
  datatype Slot = Hole | Filled(value: int)

  /** A JavaScript sum of slots: NaN as soon as one addend is `undefined`. */
  datatype Sum = NaN | Number(n: int)

  /** The board array as JavaScript holds it: columns of any length, and
      possibly more columns or rows than the current size. */
  type RawBoard = seq<seq<Slot>>

  /** `board[x][y]`, which is `undefined` past the end of a column. */
  function Read(board: RawBoard, x: int, y: int): Slot {
    if 0 <= x < |board| && 0 <= y < |board[x]| then board[x][y] else Hole
  }

  /** The array holding a well-formed board. */
  function Embed(b: Grid, w: nat, h: nat): RawBoard
    requires WellFormed(b, w, h)
  {
    seq(w, x requires 0 <= x < w => seq(h, y requires 0 <= y < h => Filled(b[x][y])))
  }

  /** `changeSize` to width `w` followed by its redraw: the only change to
      the array is an empty column for every index below `w` that has none.
      The new height is not used on the array at all. */
  function ChangeSize(board: RawBoard, w: nat): (r: RawBoard)
    ensures |r| >= w && |r| >= |board|
    ensures forall x, y :: Read(r, x, y) == Read(board, x, y)
  {
    if |board| >= w then board else board + seq(w - |board|, _ => [])
  }

  // ---------------------------------------------------------------------
  // The step on such an array

  function Add(acc: Sum, s: Slot): Sum {
    if acc.Number? && s.Filled? then Number(acc.n + s.value) else NaN
  }

  /** Adds slots up from left to right, starting from 0. */
  function SumSlots(slots: seq<Slot>): Sum {
    if slots == [] then Number(0) else Add(SumSlots(slots[..|slots| - 1]), slots[|slots| - 1])
  }

  /** The eight neighbour slots of `(x, y)` in the order the count adds
      them. */
  function NeighbourSlots(board: RawBoard, w: nat, h: nat, x: int, y: int): (s: seq<Slot>)
    requires w > 0 && h > 0
    ensures |s| == 8
  {
    var left, centre, right := Wrap(x - 1, w), Wrap(x, w), Wrap(x + 1, w);
    var up, middle, down := Wrap(y - 1, h), Wrap(y, h), Wrap(y + 1, h);
    [Read(board, left, up), Read(board, left, middle), Read(board, left, down),
     Read(board, centre, up), Read(board, centre, down),
     Read(board, right, up), Read(board, right, middle), Read(board, right, down)]
  }

  /** `#getCountOfNeighbors` on the array. */
  function RawCount(board: RawBoard, w: nat, h: nat, x: int, y: int): Sum
    requires w > 0 && h > 0
  {
    SumSlots(NeighbourSlots(board, w, h, x, y))
  }

  /** The new slot of `(x, y)`: a cell holding exactly `DEATH` with a count
      of exactly 3 is born; a numeric count outside `[2, 3]` kills; in every
      other case, a NaN count included, the slot is left as it was. */
  function RawNextCell(board: RawBoard, w: nat, h: nat, x: int, y: int): Slot
    requires w > 0 && h > 0
  {
    var count := RawCount(board, w, h, x, y);
    var cell := Read(board, x, y);
    if cell == Filled(DEATH) && count == Number(3) then Filled(LIFE)
    else if count.Number? && (count.n < 2 || count.n > 3) then Filled(DEATH)
    else cell
  }

  /** The array after `#step()`. Only slots inside the current `w x h`
      rectangle are rewritten. Columns beyond `w`, and rows beyond `h` in a
      column that has them, keep their slots. */
  function RawNext(board: RawBoard, w: nat, h: nat): RawBoard
    requires |board| >= w
  {
    seq(|board|, x requires 0 <= x < |board| =>
      if x < w then
        seq(Max(|board[x]|, h), y requires 0 <= y < Max(|board[x]|, h) =>
          if y < h then RawNextCell(board, w, h, x, y) else board[x][y])
      else board[x])
  }

  function Max(a: int, b: int): int {
    if a > b then a else b
  }

  predicate RawHasBirth(board: RawBoard, w: nat, h: nat) {
    exists x, y :: 0 <= x < w && 0 <= y < h &&
      Read(board, x, y) == Filled(DEATH) && RawCount(board, w, h, x, y) == Number(3)
  }

  /** The flag `#step()` returns on the array. The final comparison is
      JavaScript's `!=`, under which `undefined` equals only itself. */
  predicate RawGameOver(board: RawBoard, w: nat, h: nat)
    requires |board| >= w
  {
    !RawHasBirth(board, w, h) ||
    forall x, y :: 0 <= x < w && 0 <= y < h ==> Read(RawNext(board, w, h), x, y) == Read(board, x, y)
  }

  // ---------------------------------------------------------------------
  // Properties

  /** The step rewrites exactly the rectangle and keeps every slot
      outside it. */
  lemma RawNextReads(board: RawBoard, w: nat, h: nat, x: int, y: int)
    requires |board| >= w
    ensures Read(RawNext(board, w, h), x, y) ==
            if 0 <= x < w && 0 <= y < h then RawNextCell(board, w, h, x, y) else Read(board, x, y)
  {
  }

  /** A sum of slots is NaN exactly when one of them is `undefined`, and
      otherwise the sum of their values. */
  lemma {:induction false} SumSlotsNaN(slots: seq<Slot>)
    ensures SumSlots(slots) == NaN <==> Hole in slots
    decreases |slots|
  {
    if slots != [] {
      var init := slots[..|slots| - 1];
      SumSlotsNaN(init);
      assert slots == init + [slots[|slots| - 1]];
      assert Hole in slots <==> Hole in init || slots[|slots| - 1] == Hole;
    }
  }

  /** A cell with an `undefined` neighbour has a NaN count and is never
      rewritten. */
  lemma FrozenByHole(board: RawBoard, w: nat, h: nat, x: int, y: int)
    requires |board| >= w && 0 <= x < w && 0 <= y < h
    requires Hole in NeighbourSlots(board, w, h, x, y)
    ensures RawCount(board, w, h, x, y) == NaN
    ensures Read(RawNext(board, w, h), x, y) == Read(board, x, y)
  {
    SumSlotsNaN(NeighbourSlots(board, w, h, x, y));
    RawNextReads(board, w, h, x, y);
  }

  /** An `undefined` cell is never born; it only ever becomes `DEATH`. */
  lemma HoleNeverBorn(board: RawBoard, w: nat, h: nat, x: int, y: int)
    requires |board| >= w && Read(board, x, y) == Hole
    ensures Read(RawNext(board, w, h), x, y) in {Hole, Filled(DEATH)}
  {
    RawNextReads(board, w, h, x, y);
  }

  /** On a full board the count is the number `Count` computes. */
  lemma EmbedCount(b: Grid, w: nat, h: nat, x: int, y: int)
    requires WellFormed(b, w, h) && 0 <= x < w && 0 <= y < h
    ensures RawCount(Embed(b, w, h), w, h, x, y) == Number(Count(b, w, h, x, y))
  {
    var left, centre, right := Wrap(x - 1, w), Wrap(x, w), Wrap(x + 1, w);
    var up, middle, down := Wrap(y - 1, h), Wrap(y, h), Wrap(y + 1, h);
    WrapEdges(w);
    WrapEdges(h);
    assert NeighbourSlots(Embed(b, w, h), w, h, x, y) ==
      [Filled(b[left][up]), Filled(b[left][middle]), Filled(b[left][down]),
       Filled(b[centre][up]), Filled(b[centre][down]),
       Filled(b[right][up]), Filled(b[right][middle]), Filled(b[right][down])];
    SumOfEight(b[left][up], b[left][middle], b[left][down], b[centre][up],
               b[centre][down], b[right][up], b[right][middle], b[right][down]);
  }

  lemma SumOfEight(a0: int, a1: int, a2: int, a3: int, a4: int, a5: int, a6: int, a7: int)
    ensures SumSlots([Filled(a0), Filled(a1), Filled(a2), Filled(a3), Filled(a4), Filled(a5), Filled(a6), Filled(a7)])
            == Number(a0 + a1 + a2 + a3 + a4 + a5 + a6 + a7)
  {
    var s := [Filled(a0), Filled(a1), Filled(a2), Filled(a3), Filled(a4), Filled(a5), Filled(a6), Filled(a7)];
    assert SumSlots(s[..1]) == Number(a0) by {
      assert s[..1][..0] == [];
    }
    assert SumSlots(s[..2]) == Number(a0 + a1) by {
      assert s[..2][..1] == s[..1];
    }
    assert SumSlots(s[..3]) == Number(a0 + a1 + a2) by {
      assert s[..3][..2] == s[..2];
    }
    assert SumSlots(s[..4]) == Number(a0 + a1 + a2 + a3) by {
      assert s[..4][..3] == s[..3];
    }
    assert SumSlots(s[..5]) == Number(a0 + a1 + a2 + a3 + a4) by {
      assert s[..5][..4] == s[..4];
    }
    assert SumSlots(s[..6]) == Number(a0 + a1 + a2 + a3 + a4 + a5) by {
      assert s[..6][..5] == s[..5];
    }
    assert SumSlots(s[..7]) == Number(a0 + a1 + a2 + a3 + a4 + a5 + a6) by {
      assert s[..7][..6] == s[..6];
    }
    assert s[..8] == s;
  }

  /** On a full board the array step is the step of `Rules`, so the
      holes are the only source of difference. */
  lemma EmbedNext(b: Grid, w: nat, h: nat)
    requires WellFormed(b, w, h) && w > 0 && h > 0
    ensures RawNext(Embed(b, w, h), w, h) == Embed(Next(b, w, h), w, h)
  {
    var raw := Embed(b, w, h);
    var lhs, rhs := RawNext(raw, w, h), Embed(Next(b, w, h), w, h);
    forall x | 0 <= x < w
      ensures lhs[x] == rhs[x]
    {
      forall y | 0 <= y < h
        ensures lhs[x][y] == rhs[x][y]
      {
        EmbedCount(b, w, h, x, y);
      }
    }
  }

  /** On a full board the two game-over flags agree. */
  lemma EmbedGameOver(b: Grid, w: nat, h: nat)
    requires WellFormed(b, w, h) && w > 0 && h > 0
    ensures RawGameOver(Embed(b, w, h), w, h) <==> GameOver(b, w, h)
  {
    EmbedBirth(b, w, h);
    EmbedUnchanged(b, w, h);
  }

  /** On any array, holes included, the flag is exactly "no cell was born":
      a born cell always differs from the snapshot, so the duplicate scan
      never finds a repeat after a birth. */
  lemma RawFlagIsNoBirth(board: RawBoard, w: nat, h: nat)
    requires |board| >= w
    ensures RawGameOver(board, w, h) <==> !RawHasBirth(board, w, h)
  {
    if RawHasBirth(board, w, h) {
      var x, y :| 0 <= x < w && 0 <= y < h && Read(board, x, y) == Filled(DEATH) && RawCount(board, w, h, x, y) == Number(3);
      RawNextReads(board, w, h, x, y);
    }
  }

  lemma EmbedBirth(b: Grid, w: nat, h: nat)
    requires WellFormed(b, w, h)
    ensures RawHasBirth(Embed(b, w, h), w, h) <==> HasBirth(b, w, h)
  {
    if RawHasBirth(Embed(b, w, h), w, h) {
      RawBirthIsBirth(b, w, h);
    }
    if HasBirth(b, w, h) {
      BirthIsRawBirth(b, w, h);
    }
  }

  lemma RawBirthIsBirth(b: Grid, w: nat, h: nat)
    requires WellFormed(b, w, h) && RawHasBirth(Embed(b, w, h), w, h)
    ensures HasBirth(b, w, h)
  {
    var raw := Embed(b, w, h);
    var x, y :| 0 <= x < w && 0 <= y < h &&
      Read(raw, x, y) == Filled(DEATH) && RawCount(raw, w, h, x, y) == Number(3);
    EmbedCount(b, w, h, x, y);
    assert Born(b, w, h, x, y);
  }

  lemma BirthIsRawBirth(b: Grid, w: nat, h: nat)
    requires WellFormed(b, w, h) && HasBirth(b, w, h)
    ensures RawHasBirth(Embed(b, w, h), w, h)
  {
    var raw := Embed(b, w, h);
    var x, y :| 0 <= x < w && 0 <= y < h && Born(b, w, h, x, y);
    EmbedCount(b, w, h, x, y);
    assert Read(raw, x, y) == Filled(DEATH) && RawCount(raw, w, h, x, y) == Number(3);
  }

  lemma EmbedUnchanged(b: Grid, w: nat, h: nat)
    requires WellFormed(b, w, h) && w > 0 && h > 0
    ensures (forall x, y :: 0 <= x < w && 0 <= y < h ==>
               Read(RawNext(Embed(b, w, h), w, h), x, y) == Read(Embed(b, w, h), x, y))
            <==> Next(b, w, h) == b
  {
    var raw, next := Embed(b, w, h), Next(b, w, h);
    EmbedNext(b, w, h);
    if next != b {
      var x :| 0 <= x < w && next[x] != b[x];
      var y :| 0 <= y < h && next[x][y] != b[x][y];
      assert Read(Embed(next, w, h), x, y) != Read(raw, x, y);
    }
  }

  // ---------------------------------------------------------------------
  // The resize the rest of the model assumes

  /** A resize that keeps the cells in the overlap of the old and new
      rectangles and fills every other cell with `DEATH`, so that the board
      stays well formed. */
  function Resized(b: Grid, w: nat, h: nat, w': nat, h': nat): (r: Grid)
    requires WellFormed(b, w, h)
    ensures WellFormed(r, w', h')
    ensures forall x, y :: 0 <= x < w' && 0 <= y < h' ==>
              r[x][y] == if x < w && y < h then b[x][y] else DEATH
  {
    seq(w', x requires 0 <= x < w' => seq(h', y requires 0 <= y < h' =>
      if x < w && y < h then b[x][y] else DEATH))
  }

  /** Growing and then shrinking back restores the board, and the grown
      board holds no `undefined` slot for the step to meet. */
  lemma ResizedGrowShrink(b: Grid, w: nat, h: nat, w': nat, h': nat)
    requires WellFormed(b, w, h) && w <= w' && h <= h'
    ensures Resized(Resized(b, w, h, w', h'), w', h', w, h) == b
    ensures Binary(b, w, h) ==> Binary(Resized(b, w, h, w', h'), w', h')
    ensures forall x, y :: 0 <= x < w' && 0 <= y < h' ==> Read(Embed(Resized(b, w, h, w', h'), w', h'), x, y).Filled?
  {
    SameCells(Resized(Resized(b, w, h, w', h'), w', h', w, h), b, w, h);
  }

  /** A 3 x 3 board whose only live cell is `(0, 0)`. */
  const Corner: Grid := [[1, 0, 0], [0, 0, 0], [0, 0, 0]]

  /** As written: after `changeSize(4, 3)` the new column 3 is empty. It is
      the left neighbour column of `(0, 0)`, so that cell's count is NaN
      and the lone live cell never dies. */
  lemma GrowFreezesCorner()
    ensures Read(RawNext(ChangeSize(Embed(Corner, 3, 3), 4), 4, 3), 0, 0) == Filled(LIFE)
  {
    var raw := ChangeSize(Embed(Corner, 3, 3), 4);
    WrapEdges(4);
    WrapEdges(3);
    assert raw[3] == [];
    assert NeighbourSlots(raw, 4, 3, 0, 0)[0] == Hole;
    FrozenByHole(raw, 4, 3, 0, 0);
  }

  /** Corrected: on the board padded with `DEATH` the lone cell has no live
      neighbour and dies, as Conway's rule demands. */
  lemma PaddedCornerDies()
    ensures Next(Resized(Corner, 3, 3, 4, 3), 4, 3)[0][0] == DEATH
  {
    var padded := Resized(Corner, 3, 3, 4, 3);
    WrapEdges(4);
    WrapEdges(3);
    assert Count(padded, 4, 3, 0, 0) == 0;
  }
}
