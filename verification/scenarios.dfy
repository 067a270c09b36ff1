/**
 Concrete plays of the game: the I piece dropped from its spawn position
 onto the bottom row, for every choice of the random kinds that do not
 matter to the play.
 */
module Scenarios {
  import opened Grid
  import opened Pieces
  import opened Collision
  import opened Merge
  import opened Lines
  import opened Game

  const BOTTOM: nat := ROWS - 1

  /** A shape of one row of four occupied cells: the I piece as spawned. */
  predicate Bar(s: Shape) {
    |s| == 1 && |s[0]| == 4 && forall x :: 0 <= x < 4 ==> s[0][x]
  }

  lemma IShapeIsBar()
    ensures Bar(SHAPES[0])
  {
  }

  /** The I piece as spawned, in columns 3..6 and lowered to the given row. */
  predicate IPiece(p: Piece, row: int) {
    Bar(p.shape) && p.x == 3 && p.y == row && p.color == 1
  }

  /** Every row above the bottom one is empty, and columns 3..6 are free at the bottom. */
  predicate ClearAbove(b: Board)
    requires WellFormed(b)
  {
    var bottom := b[BOTTOM];
    && (forall r, c :: 0 <= r < BOTTOM && 0 <= c < COLS ==> b[r][c] == 0)
    && (forall c :: 3 <= c < 7 ==> bottom[c] == 0)
  }

  /** The spawned I piece over such a board lands on the bottom row. */
  lemma ILandsOnBottom(b: Board, p: Piece)
    requires WellFormed(b) && ClearAbove(b) && IPiece(p, 0)
    ensures Lands(b, p, BOTTOM)
  {
    forall k | 0 <= k <= BOTTOM
      ensures FitsAt(b, p, k)
    {
      CollidesSpec(b, p.shape, p.x, p.y + k);
    }
    CollidesSpec(b, p.shape, p.x, p.y + ROWS);
    assert p.shape[0][0];
  }

  /** The cells the bar covers when placed at column 3 of the bottom row. */
  lemma BarCovers(s: Shape, r: int, c: int)
    requires Bar(s)
    ensures Covers(s, 3, BOTTOM, r, c) <==> r == BOTTOM && 3 <= c < 7
  {
  }

  /** after is before with the bar written in colour 1 on columns 3..6 of the bottom row. */
  predicate BarWritten(before: Board, after: Board)
    requires WellFormed(before) && WellFormed(after)
  {
    forall r, c :: 0 <= r < ROWS && 0 <= c < COLS ==>
      after[r][c] == (if r == BOTTOM && 3 <= c < 7 then 1 else before[r][c])
  }

  /** Written on the bottom row, the I piece fills columns 3..6 there and nothing else. */
  lemma IMergedOnBottom(h: GameState)
    requires Valid(h) && !h.gameOver && IPiece(h.current.value, BOTTOM)
    ensures BarWritten(h.board, MergedBoard(h))
  {
    var b := MergedBoard(h);
    forall r, c | 0 <= r < ROWS && 0 <= c < COLS
      ensures b[r][c] == (if r == BOTTOM && 3 <= c < 7 then 1 else h.board[r][c])
    {
      BarCovers(h.current.value.shape, r, c);
    }
  }

  /** The bar written on an empty board completes no row. */
  lemma BarOnEmptyBoard(before: Board, after: Board)
    requires WellFormed(before) && WellFormed(after) && Empty(before) && BarWritten(before, after)
    ensures NoFullRow(after)
  {
    forall r | 0 <= r < |after|
      ensures !Full(after[r])
    {
      assert after[r][0] == 0;
    }
  }

  /**
   The bar written into the gap of a bottom row that is full except for
   columns 3..6, below empty rows, completes the bottom row and no other.
   */
  lemma BarFillsGap(before: Board, after: Board)
    requires WellFormed(before) && WellFormed(after) && ClearAbove(before) && BarWritten(before, after)
    requires forall c :: 0 <= c < COLS && !(3 <= c < 7) ==> before[BOTTOM][c] != 0
    ensures Full(after[BOTTOM]) && forall r :: 0 <= r < BOTTOM ==> !Full(after[r])
    ensures forall r, c :: 0 <= r < BOTTOM && 0 <= c < COLS ==> after[r][c] == 0
  {
    forall r | 0 <= r < BOTTOM
      ensures !Full(after[r])
    {
      assert after[r][0] == 0;
    }
  }

  /** Hard-dropping the spawned I piece over such a board lands it on the bottom row. */
  lemma HardDropI(g: GameState, kind: nat)
    requires Valid(g) && Active(g) && ClearAbove(g.board) && IPiece(g.current.value, 0) && kind < KINDS
    ensures Valid(Lowered(g, BOTTOM)) && !Lowered(g, BOTTOM).gameOver
    ensures IPiece(Lowered(g, BOTTOM).current.value, BOTTOM)
    ensures HardDrop(g, kind) == MergePiece(Lowered(g, BOTTOM), kind)
  {
    var p := g.current.value;
    ILandsOnBottom(g.board, p);
    assert FitsAt(g.board, p, BOTTOM);
    ValidWithPiece(g, p.(y := p.y + BOTTOM));
    HardDropLandsAt(g, kind, BOTTOM);
  }

  /** Landing a piece that completes no row leaves the merged board as it is and scores nothing. */
  lemma MergeWithoutClear(h: GameState, kind: nat)
    requires Valid(h) && !h.gameOver && kind < KINDS && NoFullRow(MergedBoard(h))
    ensures var res := MergePiece(h, kind);
      res.board == MergedBoard(h) && res.score == h.score && res.lines == h.lines
  {
    ClearLinesNoFull(MergedBoard(h));
  }

  /** Landing a piece that completes exactly the bottom row clears it, scoring 100 points and one line. */
  lemma MergeClearingBottom(h: GameState, kind: nat)
    requires Valid(h) && !h.gameOver && kind < KINDS
    requires var b := MergedBoard(h); Full(b[BOTTOM]) && forall r :: 0 <= r < BOTTOM ==> !Full(b[r])
    ensures var res := MergePiece(h, kind);
      && res.board == [EmptyRow()] + MergedBoard(h)[..BOTTOM]
      && res.score == h.score + 100 && res.lines == h.lines + 1
  {
    var b := MergedBoard(h);
    ClearSingleRow(b, BOTTOM);
    assert b[BOTTOM + 1..] == [];
    assert [EmptyRow()] + b[..BOTTOM] + [] == [EmptyRow()] + b[..BOTTOM];
  }

  /**
   A new game whose first piece is the I piece meets the conditions of the
   scenarios below: the bar at its spawn position over an empty board.
   */
  lemma NewGameWithI(second: nat)
    requires second < KINDS
    ensures var g := InitGame(0, second);
      && ClearAbove(g.board) && IPiece(g.current.value, 0) && Empty(g.board)
  {
    IShapeIsBar();
  }

  /** On an empty board the dropped I piece lies on columns 3..6 of the bottom row and scores nothing. */
  lemma HardDropIOnEmptyBoard(g: GameState, kind: nat)
    requires Valid(g) && Active(g) && IPiece(g.current.value, 0) && kind < KINDS && Empty(g.board)
    ensures var res := HardDrop(g, kind);
      && WellFormed(res.board) && BarWritten(g.board, res.board)
      && res.score == g.score && res.lines == g.lines
  {
    HardDropI(g, kind);
    var h := Lowered(g, BOTTOM);
    IMergedOnBottom(h);
    BarOnEmptyBoard(h.board, MergedBoard(h));
    MergeWithoutClear(h, kind);
  }

  /**
   With the bottom row filled except columns 3..6, dropping the I piece
   completes it: the row is cleared, 100 points and one line are scored,
   and the board is empty again.
   */
  lemma HardDropIClearsBottom(g: GameState, kind: nat)
    requires Valid(g) && Active(g) && ClearAbove(g.board) && IPiece(g.current.value, 0) && kind < KINDS
    requires forall c :: 0 <= c < COLS && !(3 <= c < 7) ==> g.board[BOTTOM][c] != 0
    ensures var res := HardDrop(g, kind);
      && res.score == g.score + 100 && res.lines == g.lines + 1
      && WellFormed(res.board) && Empty(res.board)
  {
    HardDropI(g, kind);
    var h := Lowered(g, BOTTOM);
    IMergedOnBottom(h);
    var b := MergedBoard(h);
    BarFillsGap(h.board, b);
    MergeClearingBottom(h, kind);
    DropBottomOfEmpty(b);
  }

  /** Cutting out the bottom row of a board that is empty above it leaves an empty board. */
  lemma DropBottomOfEmpty(b: Board)
    requires WellFormed(b)
    requires forall r, c :: 0 <= r < BOTTOM && 0 <= c < COLS ==> b[r][c] == 0
    ensures WellFormed([EmptyRow()] + b[..BOTTOM]) && Empty([EmptyRow()] + b[..BOTTOM])
  {
    var cleared := [EmptyRow()] + b[..BOTTOM];
    forall r, c | 0 <= r < ROWS && 0 <= c < COLS
      ensures cleared[r][c] == 0
    {
      if r > 0 {
        assert cleared[r] == b[r - 1];
      }
    }
  }
}
