/**
 The playing field of the falling-block game: its fixed dimensions, the board
 of settled cells and the boolean shape matrices of the pieces.

 A board cell holds 0 when it is empty and a colour number 1..7 otherwise
 (one colour per piece kind); row 0 is the top of the board.
 */
module Grid {

  const ROWS: nat := 20
  const COLS: nat := 10

  /** Number of distinct colours, one per piece kind. */
  const COLOURS: nat := 7

  type Row = seq<int>
  type Board = seq<Row>

  /** A shape is a matrix of occupied (true) and free (false) cells. */
  type Shape = seq<seq<bool>>

  /** The board has ROWS rows of COLS cells each. */
  predicate WellFormed(b: Board) {
    |b| == ROWS && forall r :: 0 <= r < |b| ==> |b[r]| == COLS
  }

  /** Every cell is empty or holds one of the colours. */
  predicate CellsInRange(b: Board) {
    forall r, c :: 0 <= r < |b| && 0 <= c < |b[r]| ==> 0 <= b[r][c] <= COLOURS
  }

  /** A row is complete when none of its cells is empty. */
  predicate Full(row: Row) {
    forall c :: 0 <= c < |row| ==> row[c] != 0
  }

  predicate NoFullRow(b: Board) {
    forall r :: 0 <= r < |b| ==> !Full(b[r])
  }

  function EmptyRow(): (row: Row)
    ensures |row| == COLS
    ensures forall c :: 0 <= c < |row| ==> row[c] == 0
  {
    seq(COLS, _ => 0)
  }

  lemma EmptyRowNotFull()
    ensures !Full(EmptyRow())
  {
    assert EmptyRow()[0] == 0;
  }

  /** Every cell of the board is free. */
  predicate Empty(b: Board)
    requires WellFormed(b)
  {
    forall r, c :: 0 <= r < ROWS && 0 <= c < COLS ==> b[r][c] == 0
  }

  /** The board of a fresh game: every cell empty. */
  function InitBoard(): (b: Board)
    ensures WellFormed(b) && CellsInRange(b) && NoFullRow(b)
    ensures Empty(b)
  {
    EmptyRowNotFull();
    seq(ROWS, _ => EmptyRow())
  }

  /** All rows of the shape have the width of its first row. */
  predicate Rect(s: Shape) {
    forall y :: 0 <= y < |s| ==> |s[y]| == |s[0]|
  }

  /** The shape has at least one occupied cell. */
  predicate Occupied(s: Shape) {
    exists y, x :: 0 <= y < |s| && 0 <= x < |s[y]| && s[y][x]
  }

  /**
   A shape a piece may have: rectangular, at most 4 by 4 (the bounding box of
   a tetromino in any orientation) and not blank.
   */
  predicate ShapeOk(s: Shape) {
    Rect(s) && 1 <= |s| <= 4 && 1 <= |s[0]| <= 4 && Occupied(s)
  }

  /** The occupied cells of a shape, as (row, column) pairs within its box. */
  function Cells(s: Shape): set<(int, int)> {
    set y, x | 0 <= y < |s| && 0 <= x < |s[y]| && s[y][x] :: (y, x)
  }
}
