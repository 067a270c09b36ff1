/**
 Score keeping: the points for clearing n rows with one landing come from a
 fixed table, and the cleared-rows counter grows by n.
 */
module Scoring {

  /** Points for clearing 0, 1, 2, 3 or 4 rows at once. */
  const LINE_SCORES: seq<int> := [0, 100, 300, 500, 800]

  function LineScore(n: nat): (points: int)
    requires n < |LINE_SCORES|
    ensures points >= 100 * n
    ensures points == 0 <==> n == 0
  {
    LINE_SCORES[n]
  }

  /** Clearing more rows at once is always worth more. */
  lemma LineScoreIncreasing(m: nat, n: nat)
    requires m < n < |LINE_SCORES|
    ensures LineScore(m) < LineScore(n)
  {
  }

  /**
   Clearing two or more rows with one landing earns more than clearing them
   one at a time.
   */
  lemma MultiClearBonus(n: nat)
    requires 2 <= n < |LINE_SCORES|
    ensures LineScore(n) > n * LineScore(1)
  {
  }

  /**
   Adds a clear of n rows to the running totals. The game only touches the
   totals when n > 0; since a clear of no rows is worth no points, that is
   the same as always adding.
   */
  function ApplyClear(score: int, lines: int, n: nat): (totals: (int, int))
    requires n < |LINE_SCORES|
    ensures totals.0 == score + LineScore(n) && totals.1 == lines + n
    ensures totals.0 >= score && totals.1 >= lines
  {
    if n > 0 then (score + LineScore(n), lines + n) else (score, lines)
  }
}
