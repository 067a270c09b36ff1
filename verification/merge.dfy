/**
 Writing a landed piece into the board. The game walks the shape row by
 row and cell by cell; an occupied cell whose board row is above row 0 is
 not written but raises the game-over flag, and the walk carries on with
 the remaining cells.
 */
module Merge {
  import opened Grid
  import opened Pieces

  /** The board with cell (r, c) set to v. */
  function Write(b: Board, r: int, c: int, v: int): (b': Board)
    requires WellFormed(b) && 0 <= r < ROWS && 0 <= c < COLS
    ensures WellFormed(b')
  {
    b[r := b[r][c := v]]
  }

  /**
   Every occupied cell of the shape at (px, py) that is on a board row lies
   inside the columns and above the floor, so that writing it stays on the
   board.
   */
  predicate InBounds(s: Shape, px: int, py: int) {
    forall y, x :: 0 <= y < |s| && 0 <= x < |s[y]| && s[y][x] ==>
      0 <= px + x < COLS && py + y < ROWS
  }

  /** Whether board cell (i, j) lies under an occupied cell of the shape placed at (px, py). */
  predicate Covers(s: Shape, px: int, py: int, i: int, j: int) {
    0 <= i - py < |s| && 0 <= j - px < |s[i - py]| && s[i - py][j - px]
  }

  /** Writes the occupied cells at index x and later of shape row y. */
  function MergeRow(b: Board, s: Shape, color: int, px: int, py: int, y: nat, x: nat): (res: (Board, bool))
    requires WellFormed(b) && y < |s| && x <= |s[y]| && InBounds(s, px, py)
    ensures WellFormed(res.0)
    ensures forall i, j :: 0 <= i < ROWS && 0 <= j < COLS ==>
      res.0[i][j] == (if i == py + y && x <= j - px < |s[y]| && s[y][j - px] then color else b[i][j])
    ensures res.1 <==> py + y < 0 && exists k :: x <= k < |s[y]| && s[y][k]
    decreases |s[y]| - x
  {
    if x == |s[y]| then (b, false)
    else
      var above := s[y][x] && py + y < 0;
      var b1 := if s[y][x] && !above then Write(b, py + y, px + x, color) else b;
      var rest := MergeRow(b1, s, color, px, py, y, x + 1);
      (rest.0, above || rest.1)
  }

  /** Writes the occupied cells of shape rows y and later. */
  function MergeRows(b: Board, s: Shape, color: int, px: int, py: int, y: nat): (res: (Board, bool))
    requires WellFormed(b) && y <= |s| && InBounds(s, px, py)
    ensures WellFormed(res.0)
    ensures forall i, j :: 0 <= i < ROWS && 0 <= j < COLS ==>
      res.0[i][j] == (if y <= i - py && Covers(s, px, py, i, j) then color else b[i][j])
    ensures res.1 <==> exists yy, x :: y <= yy < |s| && 0 <= x < |s[yy]| && s[yy][x] && py + yy < 0
    decreases |s| - y
  {
    if y == |s| then (b, false)
    else
      var row := MergeRow(b, s, color, px, py, y, 0);
      var rest := MergeRows(row.0, s, color, px, py, y + 1);
      (rest.0, row.1 || rest.1)
  }

  /**
   Merges piece p into the board. The result's board holds p's colour on
   every cell under an occupied cell of p and is unchanged everywhere else;
   the flag says whether some occupied cell was above row 0.
   */
  function MergeCells(b: Board, p: Piece): (res: (Board, bool))
    requires WellFormed(b) && InBounds(p.shape, p.x, p.y)
    ensures WellFormed(res.0)
    ensures forall i, j :: 0 <= i < ROWS && 0 <= j < COLS ==>
      res.0[i][j] == (if Covers(p.shape, p.x, p.y, i, j) then p.color else b[i][j])
    ensures res.1 <==> exists y, x :: 0 <= y < |p.shape| && 0 <= x < |p.shape[y]| && p.shape[y][x] && p.y + y < 0
  {
    MergeRows(b, p.shape, p.color, p.x, p.y, 0)
  }

  /** A piece whose box top is on the board never raises the above-the-top flag. */
  lemma MergeOnBoardNeverAbove(b: Board, p: Piece)
    requires WellFormed(b) && InBounds(p.shape, p.x, p.y) && p.y >= 0
    ensures !MergeCells(b, p).1
  {
  }

  /** Only rows spanned by the piece's box change. */
  lemma MergeTouchesOnlyPieceRows(b: Board, p: Piece, r: int)
    requires WellFormed(b) && InBounds(p.shape, p.x, p.y)
    requires 0 <= r < ROWS && !(p.y <= r < p.y + |p.shape|)
    ensures MergeCells(b, p).0[r] == b[r]
  {
    var m := MergeCells(b, p).0;
    assert |m[r]| == |b[r]|;
    forall j | 0 <= j < COLS ensures m[r][j] == b[r][j] {
      assert !Covers(p.shape, p.x, p.y, r, j);
    }
  }
}
