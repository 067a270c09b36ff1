/**
 The collision test: may a shape stand with its box's top-left corner at
 column px, row py? It scans the shape row by row and cell by cell, as the
 game's nested `some` does, and is characterised by a single existential.
 */
module Collision {
  import opened Grid

  /**
   A board position an occupied shape cell may not take: left of column 0,
   at or right of column COLS, at or below row ROWS, or on a settled cell.
   Positions above row 0 only clash with the side walls.
   */
  predicate Blocked(b: Board, c: int, r: int)
    requires WellFormed(b)
  {
    c < 0 || c >= COLS || r >= ROWS || (r >= 0 && b[r][c] != 0)
  }

  /** Whether some occupied cell at index x or later of a shape row at board row r is blocked. */
  function RowCollides(b: Board, row: seq<bool>, px: int, r: int, x: nat): bool
    requires WellFormed(b) && x <= |row|
    decreases |row| - x
  {
    if x == |row| then false
    else (row[x] && Blocked(b, px + x, r)) || RowCollides(b, row, px, r, x + 1)
  }

  /** Whether some occupied cell in row y or a later row of the shape is blocked. */
  function ShapeCollides(b: Board, s: Shape, px: int, py: int, y: nat): bool
    requires WellFormed(b) && y <= |s|
    decreases |s| - y
  {
    if y == |s| then false
    else RowCollides(b, s[y], px, py + y, 0) || ShapeCollides(b, s, px, py, y + 1)
  }

  /** The shape placed at (px, py) collides iff one of its occupied cells is blocked (see CollidesSpec). */
  function Collides(b: Board, s: Shape, px: int, py: int): bool
    requires WellFormed(b)
  {
    ShapeCollides(b, s, px, py, 0)
  }

  lemma {:induction false} RowCollidesSpec(b: Board, row: seq<bool>, px: int, r: int, x: nat)
    requires WellFormed(b) && x <= |row|
    ensures RowCollides(b, row, px, r, x) <==> exists k :: x <= k < |row| && row[k] && Blocked(b, px + k, r)
    decreases |row| - x
  {
    if x < |row| {
      RowCollidesSpec(b, row, px, r, x + 1);
    }
  }

  lemma {:induction false} ShapeCollidesSpec(b: Board, s: Shape, px: int, py: int, y: nat)
    requires WellFormed(b) && y <= |s|
    ensures ShapeCollides(b, s, px, py, y) <==>
      exists yy, x :: y <= yy < |s| && 0 <= x < |s[yy]| && s[yy][x] && Blocked(b, px + x, py + yy)
    decreases |s| - y
  {
    if y < |s| {
      RowCollidesSpec(b, s[y], px, py + y, 0);
      ShapeCollidesSpec(b, s, px, py, y + 1);
    }
  }

  /** The collision test, characterised: some occupied cell of the placed shape is blocked. */
  lemma CollidesSpec(b: Board, s: Shape, px: int, py: int)
    requires WellFormed(b)
    ensures Collides(b, s, px, py) <==>
      exists y, x :: 0 <= y < |s| && 0 <= x < |s[y]| && s[y][x] && Blocked(b, px + x, py + y)
  {
    ShapeCollidesSpec(b, s, px, py, 0);
  }

  /**
   A shape that does not collide has its occupied cells inside the columns,
   above the floor, and on empty cells wherever they are on the board.
   */
  predicate Fits(b: Board, s: Shape, px: int, py: int)
    requires WellFormed(b)
  {
    forall y, x :: 0 <= y < |s| && 0 <= x < |s[y]| && s[y][x] ==>
      0 <= px + x < COLS && py + y < ROWS && (py + y >= 0 ==> b[py + y][px + x] == 0)
  }

  lemma CollidesIffNotFits(b: Board, s: Shape, px: int, py: int)
    requires WellFormed(b)
    ensures !Collides(b, s, px, py) <==> Fits(b, s, px, py)
  {
    CollidesSpec(b, s, px, py);
  }

  /** A non-colliding shape with an occupied cell has its box top above the floor. */
  lemma FitsAboveFloor(b: Board, s: Shape, px: int, py: int)
    requires WellFormed(b) && Occupied(s) && !Collides(b, s, px, py)
    ensures py < ROWS
  {
    var y, x :| 0 <= y < |s| && 0 <= x < |s[y]| && s[y][x];
    CollidesSpec(b, s, px, py);
    assert !Blocked(b, px + x, py + y);
  }

  /**
   On an empty board a shape collides exactly when it crosses a side wall or
   the floor; rows above the board never clash.
   */
  lemma EmptyBoardCollision(b: Board, s: Shape, px: int, py: int)
    requires WellFormed(b)
    requires Empty(b)
    ensures Collides(b, s, px, py) <==>
      exists y, x :: 0 <= y < |s| && 0 <= x < |s[y]| && s[y][x] &&
        (px + x < 0 || px + x >= COLS || py + y >= ROWS)
  {
    CollidesSpec(b, s, px, py);
  }
}
