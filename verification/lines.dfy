/**
 Line clearing. The game scans the rows from the bottom up; a complete row
 is cut out and an empty row is pushed on top, and the same index is
 examined again, because the row above has just moved into it.

 The reference result: the complete rows are gone, the other rows keep
 their order and sit at the bottom, and as many empty rows as were removed
 fill the top.
 */
module Lines {
  import opened Grid

  /** Number of complete rows. */
  function CountFull(s: seq<Row>): nat
    decreases |s|
  {
    if |s| == 0 then 0
    else CountFull(s[..|s| - 1]) + (if Full(s[|s| - 1]) then 1 else 0)
  }

  /** The rows that are not complete, in their original order. */
  function Kept(s: seq<Row>): seq<Row>
    decreases |s|
  {
    if |s| == 0 then []
    else Kept(s[..|s| - 1]) + (if Full(s[|s| - 1]) then [] else [s[|s| - 1]])
  }

  function EmptyRows(n: nat): (rows: seq<Row>)
    ensures |rows| == n
    ensures forall k :: 0 <= k < n ==> rows[k] == EmptyRow()
  {
    seq(n, _ => EmptyRow())
  }

  lemma {:induction false} CountFullConcat(a: seq<Row>, b: seq<Row>)
    ensures CountFull(a + b) == CountFull(a) + CountFull(b)
    decreases |b|
  {
    if |b| == 0 {
      assert a + b == a;
    } else {
      var ab := a + b;
      assert ab[..|ab| - 1] == a + b[..|b| - 1];
      CountFullConcat(a, b[..|b| - 1]);
    }
  }

  lemma {:induction false} KeptConcat(a: seq<Row>, b: seq<Row>)
    ensures Kept(a + b) == Kept(a) + Kept(b)
    decreases |b|
  {
    if |b| == 0 {
      assert a + b == a;
    } else {
      var ab := a + b;
      assert ab[..|ab| - 1] == a + b[..|b| - 1];
      KeptConcat(a, b[..|b| - 1]);
    }
  }

  /** Every row is either kept or counted as complete. */
  lemma {:induction false} KeptLength(s: seq<Row>)
    ensures |Kept(s)| + CountFull(s) == |s|
    decreases |s|
  {
    if |s| > 0 {
      KeptLength(s[..|s| - 1]);
    }
  }

  /** The kept rows are rows of the input, and none of them is complete. */
  lemma {:induction false} KeptRows(s: seq<Row>)
    ensures forall row :: row in Kept(s) ==> row in s && !Full(row)
    decreases |s|
  {
    if |s| > 0 {
      KeptRows(s[..|s| - 1]);
      forall row | row in Kept(s) ensures row in s && !Full(row) {
        if row in Kept(s[..|s| - 1]) {
          assert row in s[..|s| - 1];
        }
      }
    }
  }

  /** A sequence without complete rows is kept whole. */
  lemma {:induction false} KeptNoFull(s: seq<Row>)
    requires NoFullRow(s)
    ensures Kept(s) == s && CountFull(s) == 0
    decreases |s|
  {
    if |s| > 0 {
      KeptNoFull(s[..|s| - 1]);
      assert s[..|s| - 1] + [s[|s| - 1]] == s;
    }
  }

  /**
   Complete rows can only lie in [lo, hi); then there are at most hi - lo
   of them.
   */
  lemma {:induction false} FullRowsWithin(s: seq<Row>, lo: int, hi: int)
    requires lo <= hi
    requires forall r :: 0 <= r < |s| && Full(s[r]) ==> lo <= r < hi
    ensures CountFull(s) <= hi - lo
    decreases |s|
  {
    if |s| > 0 {
      var init := s[..|s| - 1];
      if Full(s[|s| - 1]) {
        FullRowsWithin(init, lo, |s| - 1);
      } else if lo <= |s| - 1 {
        FullRowsWithin(init, lo, if hi < |s| - 1 then hi else |s| - 1);
      } else {
        FullRowsWithin(init, lo, hi);
      }
    }
  }

  /**
   The scan, with rows i.. already examined and n rows cleared so far:
   row i - 1 is examined next; a complete row is cut out and an empty row is
   pushed on top, and the same index is examined again.
   The rows below index i are left alone, the complete rows above are
   replaced by empty rows on top, and the others keep their order.
   */
  function ClearScan(cur: Board, i: nat, n: nat): (res: (Board, nat))
    requires WellFormed(cur) && i <= ROWS
    ensures res.0 == EmptyRows(CountFull(cur[..i])) + Kept(cur[..i]) + cur[i..]
    ensures res.1 == n + CountFull(cur[..i])
    decreases i, CountFull(cur[..i])
  {
    if i == 0 then
      (cur, n)
    else if Full(cur[i - 1]) then
      var shifted := [EmptyRow()] + cur[..i - 1] + cur[i..];
      ShiftFacts(cur, i);
      ClearScan(shifted, i, n + 1)
    else
      KeepFacts(cur, i);
      ClearScan(cur, i - 1, n)
  }

  /** What keeping incomplete row i - 1 does to the scanned prefix. */
  lemma KeepFacts(cur: Board, i: nat)
    requires WellFormed(cur) && 0 < i <= ROWS && !Full(cur[i - 1])
    ensures CountFull(cur[..i - 1]) == CountFull(cur[..i])
    ensures EmptyRows(CountFull(cur[..i - 1])) + Kept(cur[..i - 1]) + cur[i - 1..]
         == EmptyRows(CountFull(cur[..i])) + Kept(cur[..i]) + cur[i..]
  {
    assert cur[..i][..i - 1] == cur[..i - 1];
    assert cur[i - 1..] == [cur[i - 1]] + cur[i..];
    var e := EmptyRows(CountFull(cur[..i]));
    assert Kept(cur[..i]) == Kept(cur[..i - 1]) + [cur[i - 1]];
    assert e + Kept(cur[..i - 1]) + ([cur[i - 1]] + cur[i..]) == e + (Kept(cur[..i - 1]) + [cur[i - 1]]) + cur[i..];
  }

  /** What cutting out complete row i - 1 and pushing an empty row on top does to the scanned prefix. */
  lemma ShiftFacts(cur: Board, i: nat)
    requires WellFormed(cur) && 0 < i <= ROWS && Full(cur[i - 1])
    ensures var shifted := [EmptyRow()] + cur[..i - 1] + cur[i..];
      && WellFormed(shifted)
      && shifted[..i] == [EmptyRow()] + cur[..i - 1]
      && shifted[i..] == cur[i..]
      && CountFull(shifted[..i]) + 1 == CountFull(cur[..i])
      && Kept(shifted[..i]) == [EmptyRow()] + Kept(cur[..i])
      && EmptyRows(CountFull(shifted[..i])) + [EmptyRow()] == EmptyRows(CountFull(cur[..i]))
  {
    var shifted := [EmptyRow()] + cur[..i - 1] + cur[i..];
    assert shifted[..i] == [EmptyRow()] + cur[..i - 1];
    assert shifted[i..] == cur[i..];
    assert cur[..i][..i - 1] == cur[..i - 1];
    EmptyRowNotFull();
    CountFullConcat([EmptyRow()], cur[..i - 1]);
    KeptConcat([EmptyRow()], cur[..i - 1]);
    assert CountFull([EmptyRow()]) == 0 by {
      assert [EmptyRow()][..0] == [];
    }
    assert Kept([EmptyRow()]) == [EmptyRow()] by {
      assert [EmptyRow()][..0] == [];
    }
  }

  /** Empty rows on top of the kept rows make a proper board again, without complete rows. */
  lemma RefillWellFormed(b: Board)
    requires WellFormed(b)
    ensures WellFormed(EmptyRows(CountFull(b)) + Kept(b))
    ensures NoFullRow(EmptyRows(CountFull(b)) + Kept(b))
    ensures CellsInRange(b) ==> CellsInRange(EmptyRows(CountFull(b)) + Kept(b))
  {
    KeptRows(b);
    KeptLength(b);
    EmptyRowNotFull();
    var n := CountFull(b);
    var r := EmptyRows(n) + Kept(b);
    forall i | 0 <= i < |r|
      ensures |r[i]| == COLS && !Full(r[i])
    {
      if i >= n {
        assert r[i] in Kept(b);
      }
    }
    if CellsInRange(b) {
      forall i, c | 0 <= i < |r| && 0 <= c < |r[i]|
        ensures 0 <= r[i][c] <= COLOURS
      {
        if i >= n {
          assert r[i] in Kept(b);
          var j :| 0 <= j < |b| && b[j] == r[i];
          assert b[j][c] == r[i][c];
        }
      }
    }
  }

  /**
   Clears the complete rows of a board, returning the new board and the
   number of rows removed.
   */
  function ClearLines(b: Board): (res: (Board, nat))
    requires WellFormed(b)
    ensures WellFormed(res.0) && NoFullRow(res.0)
    ensures res.1 == CountFull(b)
    ensures res.0 == EmptyRows(res.1) + Kept(b)
    ensures CellsInRange(b) ==> CellsInRange(res.0)
  {
    var res := ClearScan(b, ROWS, 0);
    assert b[..ROWS] == b && b[ROWS..] == [];
    RefillWellFormed(b);
    res
  }

  /** Clearing a board without complete rows changes nothing. */
  lemma ClearLinesNoFull(b: Board)
    requires WellFormed(b) && NoFullRow(b)
    ensures ClearLines(b) == (b, 0)
  {
    KeptNoFull(b);
    assert EmptyRows(0) + b == b;
  }

  /** Exactly one complete row k: it is the one row counted, and the others are kept. */
  lemma {:induction false} SingleFullRow(b: seq<Row>, k: nat)
    requires k < |b| && Full(b[k])
    requires forall r :: 0 <= r < |b| && r != k ==> !Full(b[r])
    ensures CountFull(b) == 1 && Kept(b) == b[..k] + b[k + 1..]
  {
    assert b == b[..k] + [b[k]] + b[k + 1..];
    KeptNoFull(b[..k]);
    KeptNoFull(b[k + 1..]);
    KeptConcat(b[..k] + [b[k]], b[k + 1..]);
    KeptConcat(b[..k], [b[k]]);
    CountFullConcat(b[..k] + [b[k]], b[k + 1..]);
    CountFullConcat(b[..k], [b[k]]);
    assert [b[k]][..0] == [];
  }

  /**
   With exactly one complete row k, clearing removes it, pushes one empty
   row on top, and moves every row above k down by one.
   */
  lemma ClearSingleRow(b: Board, k: nat)
    requires WellFormed(b) && k < ROWS && Full(b[k])
    requires forall r :: 0 <= r < ROWS && r != k ==> !Full(b[r])
    ensures ClearLines(b) == ([EmptyRow()] + b[..k] + b[k + 1..], 1)
  {
    SingleFullRow(b, k);
    assert EmptyRows(1) == [EmptyRow()];
    assert [EmptyRow()] + (b[..k] + b[k + 1..]) == [EmptyRow()] + b[..k] + b[k + 1..];
  }
}
