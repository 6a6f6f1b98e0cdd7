/**
 * The two score averages: the dashboard average of courses/views.py
 * (student_dashboard) and the legacy Student.get_average_score of
 * courses/models.py. Both are exact means; the float rounding to two
 * decimals is not modelled.
 */
module Averages {
  import opened Wrappers
  import opened Models

  /** The sum of a list, taken from the front as Python's built-in sum adds. */
  function Sum(xs: seq<real>): real {
    if xs == [] then 0.0 else Sum(xs[..|xs| - 1]) + xs[|xs| - 1]
  }

  /** The mean of a list, and 0 for the empty list. */
  function Mean(xs: seq<real>): real {
    if |xs| == 0 then 0.0 else Sum(xs) / |xs| as real
  }

  /** Some row of `rows` has total `x`. */
  predicate IsTotalOfSomeRow(rows: seq<Enrollment>, x: real) {
    exists e :: e in rows && TotalScore(e) == Some(x)
  }

  /** The positions of `rows` whose total is `x`. */
  function RowsWithTotal(rows: seq<Enrollment>, x: real): set<int> {
    set i | 0 <= i < |rows| && TotalScore(rows[i]) == Some(x)
  }

  /**
   * The totals that exist among `rows`, in row order; rows with a missing
   * score contribute nothing, and every other row contributes its total once.
   */
  function PresentTotals(rows: seq<Enrollment>): (ts: seq<real>)
    ensures |ts| <= |rows|
    ensures forall x :: x in ts ==> IsTotalOfSomeRow(rows, x)
    ensures forall x :: multiset(ts)[x] == |RowsWithTotal(rows, x)|
  {
    if rows == [] then []
    else
      var last := rows[|rows| - 1];
      RowsWithTotalStep(rows);
      PresentTotals(rows[..|rows| - 1]) + (if TotalScore(last).Some? then [TotalScore(last).value] else [])
  }

  /** Dropping the last row removes its position from the positions with its total, and from no others. */
  lemma RowsWithTotalStep(rows: seq<Enrollment>)
    requires rows != []
    ensures forall x :: |RowsWithTotal(rows, x)|
                        == |RowsWithTotal(rows[..|rows| - 1], x)| + (if TotalScore(rows[|rows| - 1]) == Some(x) then 1 else 0)
  {
    var init, n := rows[..|rows| - 1], |rows| - 1;
    forall x ensures |RowsWithTotal(rows, x)|
                     == |RowsWithTotal(init, x)| + (if TotalScore(rows[n]) == Some(x) then 1 else 0)
    {
      if TotalScore(rows[n]) == Some(x) {
        assert RowsWithTotal(rows, x) == RowsWithTotal(init, x) + {n};
      } else {
        assert RowsWithTotal(rows, x) == RowsWithTotal(init, x);
      }
    }
  }

  /**
   * The rows of user `u` that are active: Enrollment.objects.filter(user=u,
   * is_active=True), each as often as the listing holds it.
   */
  function ActiveRowsOf(rows: seq<Enrollment>, u: UserId): (r: seq<Enrollment>)
    ensures forall e :: e in r <==> e in rows && e.user == u && e.isActive
    ensures forall e :: multiset(r)[e] == if e.user == u && e.isActive then multiset(rows)[e] else 0
  {
    if rows == [] then []
    else
      var last := rows[|rows| - 1];
      assert rows == rows[..|rows| - 1] + [last];
      ActiveRowsOf(rows[..|rows| - 1], u) + (if last.user == u && last.isActive then [last] else [])
  }

  /**
   * The average of student_dashboard: over the rows the query returned, collect
   * the totals that are not None, then take their mean (0 when none).
   */
  method DashboardAverage(enrollments: seq<Enrollment>) returns (average: real)
    ensures average == Mean(PresentTotals(enrollments))
  {
    var totalScores: seq<real> := [];
    var i := 0;
    while i < |enrollments|
      invariant 0 <= i <= |enrollments|
      invariant totalScores == PresentTotals(enrollments[..i])
    {
      var score := TotalScore(enrollments[i]);
      if score.Some? {
        totalScores := totalScores + [score.value];
      }
      assert enrollments[..i + 1][..i] == enrollments[..i];
      i := i + 1;
    }
    assert enrollments[..|enrollments|] == enrollments;
    average := if |totalScores| > 0 then Sum(totalScores) / |totalScores| as real else 0.0;
  }

  /**
   * The value Student.get_average_score computes: 0 with no enrollments,
   * otherwise the sum of the existing totals divided by the number of ALL
   * enrollments, so a row without a total counts as 0.
   */
  function LegacyAverage(enrollments: seq<Enrollment>): (r: real)
    ensures |enrollments| == 0 ==> r == 0.0
    ensures |enrollments| > 0 ==> r * |enrollments| as real == SumOfTotals(enrollments)
  {
    if |enrollments| == 0 then 0.0
    else Quotient(SumOfTotals(enrollments), |enrollments| as real)
  }

  /** The running total of get_average_score: each existing total added in row order. */
  function SumOfTotals(rows: seq<Enrollment>): real {
    if rows == [] then 0.0
    else
      var score := TotalScore(rows[|rows| - 1]);
      SumOfTotals(rows[..|rows| - 1]) + (if score.Some? then score.value else 0.0)
  }

  /** The running total is the sum of the totals the dashboard collects. */
  lemma {:induction false} SumOfTotalsIsSum(rows: seq<Enrollment>)
    ensures SumOfTotals(rows) == Sum(PresentTotals(rows))
  {
    if rows != [] {
      var init, score := rows[..|rows| - 1], TotalScore(rows[|rows| - 1]);
      SumOfTotalsIsSum(init);
      if score.Some? {
        SumAppend(PresentTotals(init), score.value);
      } else {
        assert PresentTotals(rows) == PresentTotals(init);
      }
    }
  }

  /** Division by a positive count: multiplying back gives the sum again. */
  function Quotient(s: real, n: real): (q: real)
    requires n > 0.0
    ensures q * n == s
  {
    s / n
  }

  /** Student.get_average_score: accumulates the existing totals in a loop. */
  method GetAverageScore(enrollments: seq<Enrollment>) returns (average: real)
    ensures average == LegacyAverage(enrollments)
  {
    if |enrollments| == 0 {
      return 0.0;
    }
    var totalScore := 0.0;
    var i := 0;
    while i < |enrollments|
      invariant 0 <= i <= |enrollments|
      invariant totalScore == SumOfTotals(enrollments[..i])
    {
      var score := TotalScore(enrollments[i]);
      assert enrollments[..i + 1][..i] == enrollments[..i];
      if score.Some? {
        totalScore := totalScore + score.value;
      }
      i := i + 1;
    }
    assert enrollments[..|enrollments|] == enrollments;
    average := totalScore / |enrollments| as real;
  }

  lemma SumAppend(xs: seq<real>, x: real)
    ensures Sum(xs + [x]) == Sum(xs) + x
  {
    assert (xs + [x])[..|xs|] == xs;
  }

  /** A list whose elements are valid scores sums to between 0 and MaxScore times its length. */
  lemma {:induction false} SumBounds(xs: seq<real>)
    requires forall i :: 0 <= i < |xs| ==> 0.0 <= xs[i] <= MaxScore as real
    ensures 0.0 <= Sum(xs) <= MaxScore as real * |xs| as real
  {
    if xs != [] {
      SumBounds(xs[..|xs| - 1]);
    }
  }

  /** The mean of valid scores is a valid score. */
  lemma MeanBounds(xs: seq<real>)
    requires forall i :: 0 <= i < |xs| ==> 0.0 <= xs[i] <= MaxScore as real
    ensures 0.0 <= Mean(xs) <= MaxScore as real
  {
    SumBounds(xs);
    if |xs| > 0 {
      DivideBounds(Sum(xs), |xs| as real, MaxScore as real);
    }
  }

  lemma DivideBounds(s: real, n: real, bound: real)
    requires n > 0.0 && 0.0 <= s <= bound * n
    ensures 0.0 <= s / n <= bound
  {
    assert s / n * n == s;
  }

  /** When every row's scores pass the validators, every collected total is a valid score. */
  lemma {:induction false} PresentTotalsValid(rows: seq<Enrollment>)
    requires forall e :: e in rows ==> ScoresValid(e)
    ensures forall i :: 0 <= i < |PresentTotals(rows)| ==> 0.0 <= PresentTotals(rows)[i] <= MaxScore as real
  {
    if rows != [] {
      var init := rows[..|rows| - 1];
      assert forall e :: e in init ==> e in rows;
      PresentTotalsValid(init);
      var last := rows[|rows| - 1];
      if TotalScore(last).Some? {
        TotalScoreBounds(last);
      }
    }
  }

  /** The dashboard average of validated scores lies in [0, 100]. */
  lemma DashboardAverageBounds(rows: seq<Enrollment>)
    requires forall e :: e in rows ==> ScoresValid(e)
    ensures 0.0 <= Mean(PresentTotals(rows)) <= MaxScore as real
  {
    PresentTotalsValid(rows);
    MeanBounds(PresentTotals(rows));
  }

  /** The legacy average of validated scores lies in [0, 100]. */
  lemma LegacyAverageBounds(rows: seq<Enrollment>)
    requires forall e :: e in rows ==> ScoresValid(e)
    ensures 0.0 <= LegacyAverage(rows) <= MaxScore as real
  {
    PresentTotalsValid(rows);
    SumOfTotalsIsSum(rows);
    var ts := PresentTotals(rows);
    SumBounds(ts);
    if |rows| > 0 {
      assert MaxScore as real * |ts| as real <= MaxScore as real * |rows| as real;
      DivideBounds(Sum(ts), |rows| as real, MaxScore as real);
    }
  }

  /**
   * The legacy average divides the same sum by the count of all rows, so with
   * non-negative scores it never exceeds the mean of the existing totals, and
   * the two agree when every row has a total.
   */
  lemma LegacyAverageAtMostMean(rows: seq<Enrollment>)
    requires forall e :: e in rows ==> ScoresValid(e)
    ensures LegacyAverage(rows) <= Mean(PresentTotals(rows))
    ensures (forall e :: e in rows ==> TotalScore(e).Some?) ==> LegacyAverage(rows) == Mean(PresentTotals(rows))
  {
    var ts := PresentTotals(rows);
    PresentTotalsValid(rows);
    SumOfTotalsIsSum(rows);
    SumBounds(ts);
    if |ts| > 0 {
      DivideByMore(Sum(ts), |ts| as real, |rows| as real);
    }
    if forall e :: e in rows ==> TotalScore(e).Some? {
      AllTotalsPresent(rows);
    }
  }

  lemma DivideByMore(s: real, m: real, n: real)
    requires 0.0 < m <= n && 0.0 <= s
    ensures s / n <= s / m
  {
    assert s / n * n == s;
    assert s / m * m == s;
    assert s / n * m <= s / n * n;
  }

  /** When every row has a total, one total is collected per row. */
  lemma {:induction false} AllTotalsPresent(rows: seq<Enrollment>)
    requires forall e :: e in rows ==> TotalScore(e).Some?
    ensures |PresentTotals(rows)| == |rows|
  {
    if rows != [] {
      var init := rows[..|rows| - 1];
      assert forall e :: e in init ==> e in rows;
      AllTotalsPresent(init);
    }
  }
}
