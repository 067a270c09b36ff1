/**
 Clockwise quarter turn of a shape, computed as the game does it: the i-th
 row of the result is the i-th column of the shape, read bottom to top
 (transpose, then reverse each row).
 */
module Rotation {
  import opened Grid

  /** The elements of q in the opposite order. */
  function Reverse<T>(q: seq<T>): (r: seq<T>)
    ensures |r| == |q|
    ensures forall k :: 0 <= k < |q| ==> r[k] == q[|q| - 1 - k]
    decreases |q|
  {
    if |q| == 0 then [] else Reverse(q[1..]) + [q[0]]
  }

  /** Column i of a rectangular shape, top to bottom. */
  function Column(s: Shape, i: nat): (col: seq<bool>)
    requires Rect(s) && 0 < |s| && i < |s[0]|
    ensures |col| == |s|
  {
    seq(|s|, k requires 0 <= k < |s| => s[k][i])
  }

  /**
   An R-by-C shape turns into a C-by-R shape whose cell (i, j) is the
   original cell (R - 1 - j, i).
   */
  function Rotate(s: Shape): (r: Shape)
    requires Rect(s) && 0 < |s|
    ensures |r| == |s[0]| && Rect(r)
    ensures forall i :: 0 <= i < |r| ==> |r[i]| == |s|
    ensures forall i, j :: 0 <= i < |r| && 0 <= j < |s| ==> r[i][j] == s[|s| - 1 - j][i]
  {
    seq(|s[0]|, i requires 0 <= i < |s[0]| => Reverse(Column(s, i)))
  }

  /** t is s turned by half a turn: cell (i, j) of t is cell (R - 1 - i, C - 1 - j) of s. */
  predicate HalfTurnOf(t: Shape, s: Shape)
    requires Rect(s) && 0 < |s|
  {
    && |t| == |s| && (forall i :: 0 <= i < |t| ==> |t[i]| == |s[0]|)
    && forall i, j :: 0 <= i < |s| && 0 <= j < |s[0]| ==> t[i][j] == s[|s| - 1 - i][|s[0]| - 1 - j]
  }

  /** Turning twice is a half turn. */
  lemma RotateTwice(s: Shape)
    requires Rect(s) && 0 < |s| && 0 < |s[0]|
    ensures Rect(Rotate(Rotate(s))) && HalfTurnOf(Rotate(Rotate(s)), s)
  {
    var r1 := Rotate(s);
    var r2 := Rotate(r1);
    forall i, j | 0 <= i < |s| && 0 <= j < |s[0]|
      ensures r2[i][j] == s[|s| - 1 - i][|s[0]| - 1 - j]
    {
      assert r2[i][j] == r1[|r1| - 1 - j][i];
    }
  }

  /** Two half turns give back the original shape. */
  lemma HalfTurnTwice(s: Shape, h: Shape, t: Shape)
    requires Rect(s) && 0 < |s| && 0 < |s[0]| && HalfTurnOf(h, s)
    requires Rect(h) && HalfTurnOf(t, h)
    ensures t == s
  {
    forall i | 0 <= i < |s|
      ensures t[i] == s[i]
    {
      forall j | 0 <= j < |s[i]|
        ensures t[i][j] == s[i][j]
      {
        assert t[i][j] == h[|s| - 1 - i][|s[0]| - 1 - j];
      }
    }
  }

  /** Four quarter turns give back the original matrix. */
  lemma RotateFourTimes(s: Shape)
    requires Rect(s) && 0 < |s| && 0 < |s[0]|
    ensures Rotate(Rotate(Rotate(Rotate(s)))) == s
  {
    RotateTwice(s);
    var h := Rotate(Rotate(s));
    RotateTwice(h);
    HalfTurnTwice(s, h, Rotate(Rotate(h)));
  }

  /** Where an occupied cell (row, column) of an R-row shape lands after a clockwise turn. */
  function Turn(cell: (int, int), rows: int): (int, int) {
    (cell.1, rows - 1 - cell.0)
  }

  function TurnAll(cells: set<(int, int)>, rows: int): set<(int, int)> {
    set c | c in cells :: Turn(c, rows)
  }

  lemma {:induction false} TurnAllSize(cells: set<(int, int)>, rows: int)
    ensures |TurnAll(cells, rows)| == |cells|
    decreases |cells|
  {
    if cells != {} {
      var c :| c in cells;
      var rest := cells - {c};
      TurnAllSize(rest, rows);
      assert TurnAll(cells, rows) == TurnAll(rest, rows) + {Turn(c, rows)};
      assert Turn(c, rows) !in TurnAll(rest, rows);
    }
  }

  /** The occupied cells of the turned shape are exactly the turned occupied cells. */
  lemma RotateCells(s: Shape)
    requires Rect(s) && 0 < |s|
    ensures Cells(Rotate(s)) == TurnAll(Cells(s), |s|)
  {
    var r := Rotate(s);
    forall c | c in Cells(r)
      ensures c in TurnAll(Cells(s), |s|)
    {
      var src := (|s| - 1 - c.1, c.0);
      assert src in Cells(s) && Turn(src, |s|) == c;
    }
    forall c | c in Cells(s)
      ensures Turn(c, |s|) in Cells(r)
    {
      assert r[c.1][|s| - 1 - c.0] == s[c.0][c.1];
    }
  }

  /** A quarter turn keeps the number of occupied cells. */
  lemma RotateKeepsCellCount(s: Shape)
    requires Rect(s) && 0 < |s|
    ensures |Cells(Rotate(s))| == |Cells(s)|
  {
    RotateCells(s);
    TurnAllSize(Cells(s), |s|);
  }

  /** A quarter turn of a piece shape is again a piece shape, with the box dimensions swapped. */
  lemma RotateKeepsShapeOk(s: Shape)
    requires ShapeOk(s)
    ensures ShapeOk(Rotate(s))
    ensures |Rotate(s)| == |s[0]| && |Rotate(s)[0]| == |s|
  {
    var r := Rotate(s);
    var y, x :| 0 <= y < |s| && 0 <= x < |s[y]| && s[y][x];
    assert r[x][|s| - 1 - y];
  }
}
