/** The figures the voting component displays for one task: the number of
    up-votes and down-votes, and the average slider rating. All three are
    recomputed from the full row lists on every render. */
module Tally {
  import opened Rows

  /** The two filter predicates the component uses. */
  datatype Criterion =
    | ForTask(task: TaskId)
    | ForTaskWithValue(task: TaskId, value: int)

  predicate Meets(r: Row, c: Criterion) {
    r.taskId == c.task && (c.ForTaskWithValue? ==> r.value == c.value)
  }

  /** `Array.prototype.filter`: the rows meeting the criterion, in their order. */
  function Filter(rows: seq<Row>, c: Criterion): (r: seq<Row>)
    ensures |r| <= |rows|
    ensures forall x :: x in r <==> x in rows && Meets(x, c)
  {
    if |rows| == 0 then []
    else
      var last := rows[|rows| - 1];
      Filter(rows[..|rows| - 1], c) + (if Meets(last, c) then [last] else [])
  }

  /** The up-vote count shown on the up-vote button. */
  function Upvotes(votes: seq<Row>, task: TaskId): nat {
    |Filter(votes, ForTaskWithValue(task, 1))|
  }

  /** The down-vote count shown on the down-vote button. */
  function Downvotes(votes: seq<Row>, task: TaskId): nat {
    |Filter(votes, ForTaskWithValue(task, -1))|
  }

  /** The positions of the rows meeting a criterion: an independent statement
      of what a filtered count counts. */
  ghost function MatchingIndices(rows: seq<Row>, c: Criterion): set<int> {
    set i | 0 <= i < |rows| && Meets(rows[i], c)
  }

  /** The length of a filter is the number of rows that meet its criterion. */
  lemma {:induction false} FilterCountsMatches(rows: seq<Row>, c: Criterion)
    ensures |Filter(rows, c)| == |MatchingIndices(rows, c)|
  {
    if |rows| > 0 {
      var n := |rows| - 1;
      FilterCountsMatches(rows[..n], c);
      MatchingIndicesOfPrefix(rows, c);
    }
  }

  lemma MatchingIndicesOfPrefix(rows: seq<Row>, c: Criterion)
    requires |rows| > 0
    ensures |MatchingIndices(rows, c)|
         == |MatchingIndices(rows[..|rows| - 1], c)| + Indicator(Meets(rows[|rows| - 1], c))
  {
    var n := |rows| - 1;
    var before := MatchingIndices(rows[..n], c);
    var added: set<int> := if Meets(rows[n], c) then {n} else {};
    forall i | 0 <= i < n
      ensures i in MatchingIndices(rows, c) <==> i in before
    {
      assert rows[..n][i] == rows[i];
    }
    assert MatchingIndices(rows, c) == before + added;
    assert n !in before;
  }

  /** Up-votes count exactly the rows of the task whose vote is 1, and
      down-votes exactly those whose vote is -1. */
  lemma VoteCountsAreMatchCounts(votes: seq<Row>, task: TaskId)
    ensures Upvotes(votes, task) == |set i | 0 <= i < |votes| && votes[i].taskId == task && votes[i].value == 1|
    ensures Downvotes(votes, task) == |set i | 0 <= i < |votes| && votes[i].taskId == task && votes[i].value == -1|
  {
    FilterCountsMatches(votes, ForTaskWithValue(task, 1));
    FilterCountsMatches(votes, ForTaskWithValue(task, -1));
    assert MatchingIndices(votes, ForTaskWithValue(task, 1)) ==
      set i | 0 <= i < |votes| && votes[i].taskId == task && votes[i].value == 1;
    assert MatchingIndices(votes, ForTaskWithValue(task, -1)) ==
      set i | 0 <= i < |votes| && votes[i].taskId == task && votes[i].value == -1;
  }

  /** Up-votes and down-votes together never exceed the task's vote rows. */
  lemma {:induction false} UpPlusDownAtMostTaskRows(votes: seq<Row>, task: TaskId)
    ensures Upvotes(votes, task) + Downvotes(votes, task) <= |Filter(votes, ForTask(task))|
  {
    if |votes| > 0 {
      UpPlusDownAtMostTaskRows(votes[..|votes| - 1], task);
    }
  }

  /** Filtering distributes over concatenation. */
  lemma {:induction false} FilterAppend(a: seq<Row>, b: seq<Row>, c: Criterion)
    ensures Filter(a + b, c) == Filter(a, c) + Filter(b, c)
  {
    if |b| == 0 {
      assert a + b == a;
    } else {
      var n := |b| - 1;
      assert (a + b)[..|a + b| - 1] == a + b[..n];
      FilterAppend(a, b[..n], c);
    }
  }

  function Indicator(b: bool): nat {
    if b then 1 else 0
  }

  /** Replacing one row moves a filtered count by at most one, according to
      whether the old and the new row meet the criterion. */
  lemma FilterCountAfterReplace(rows: seq<Row>, i: nat, x: Row, c: Criterion)
    requires i < |rows|
    ensures |Filter(rows[i := x], c)| + Indicator(Meets(rows[i], c))
         == |Filter(rows, c)| + Indicator(Meets(x, c))
  {
    SplitAt(rows, i);
    SplitAt(rows[i := x], i);
    assert rows[i := x][..i] == rows[..i] && rows[i := x][i + 1..] == rows[i + 1..];
    FilterAppend(rows[..i] + [rows[i]], rows[i + 1..], c);
    FilterAppend(rows[..i], [rows[i]], c);
    FilterAppend(rows[..i] + [x], rows[i + 1..], c);
    FilterAppend(rows[..i], [x], c);
  }

  /** Removing one row lowers a filtered count by one exactly when the row
      meets the criterion. */
  lemma FilterCountAfterRemove(rows: seq<Row>, i: nat, c: Criterion)
    requires i < |rows|
    ensures |Filter(rows[..i] + rows[i + 1..], c)| + Indicator(Meets(rows[i], c))
         == |Filter(rows, c)|
  {
    SplitAt(rows, i);
    FilterAppend(rows[..i] + [rows[i]], rows[i + 1..], c);
    FilterAppend(rows[..i], [rows[i]], c);
    FilterAppend(rows[..i], rows[i + 1..], c);
  }

  // ---------------------------------------------------------------------
  // The average rating
  // ---------------------------------------------------------------------

  /** The JavaScript numbers the average can take. */
  datatype JsNumber = NaN | Infinite(negative: bool) | Num(value: real)

  /** JavaScript `/` on two integers. */
  function Divide(a: int, b: int): (q: JsNumber)
    ensures q.NaN? <==> a == 0 && b == 0
    ensures q.Num? <==> b != 0
    ensures q.Num? ==> q.value * (b as real) == a as real
    ensures q.Infinite? ==> q.negative == (a < 0)
  {
    if b == 0 then (if a == 0 then NaN else Infinite(a < 0))
    else Num(a as real / b as real)
  }

  /** JavaScript `x || 0`: NaN and zero are falsy and give 0, anything else is kept. */
  function OrZero(x: JsNumber): (r: JsNumber)
    ensures x.NaN? ==> r == Num(0.0)
    ensures !x.NaN? ==> r == x
  {
    if x.NaN? || x == Num(0.0) then Num(0.0) else x
  }

  /** `reduce((acc, r) => acc + r.rating, 0)`, folded from the left. */
  function RatingSum(rows: seq<Row>): int {
    if |rows| == 0 then 0 else RatingSum(rows[..|rows| - 1]) + rows[|rows| - 1].value
  }

  /** The displayed average, exactly as the component computes it: the sum of
      the task's ratings divided by the length of the WHOLE slider-vote list,
      with `|| 0` turning the empty list's 0 / 0 into 0. */
  function AverageRating(sliderVotes: seq<Row>, task: TaskId): JsNumber {
    OrZero(Divide(RatingSum(Filter(sliderVotes, ForTask(task))), |sliderVotes|))
  }

  /** The average is always a finite number: the task's rating sum over the
      list length, or 0 for an empty list. */
  lemma AverageRatingValue(sliderVotes: seq<Row>, task: TaskId)
    ensures AverageRating(sliderVotes, task) == Num(
      if |sliderVotes| == 0 then 0.0
      else RatingSum(Filter(sliderVotes, ForTask(task))) as real / |sliderVotes| as real)
  {
  }

  /** With no row for the task, including with an empty list, the average is 0. */
  lemma AverageZeroWithoutRows(sliderVotes: seq<Row>, task: TaskId)
    requires forall i :: 0 <= i < |sliderVotes| ==> sliderVotes[i].taskId != task
    ensures AverageRating(sliderVotes, task) == Num(0.0)
  {
    FilterNoneMeet(sliderVotes, ForTask(task));
  }

  lemma {:induction false} FilterNoneMeet(rows: seq<Row>, c: Criterion)
    requires forall i :: 0 <= i < |rows| ==> !Meets(rows[i], c)
    ensures Filter(rows, c) == []
  {
    if |rows| > 0 {
      FilterNoneMeet(rows[..|rows| - 1], c);
    }
  }

  ghost predicate RatingsInRange(rows: seq<Row>) {
    forall i :: 0 <= i < |rows| ==> 1 <= rows[i].value <= 5
  }

  /** A sum of ratings in [1, 5] lies between the number of ratings and five times it. */
  lemma {:induction false} RatingSumBounds(rows: seq<Row>)
    requires RatingsInRange(rows)
    ensures |rows| <= RatingSum(rows) <= 5 * |rows|
  {
    if |rows| > 0 {
      RatingSumBounds(rows[..|rows| - 1]);
    }
  }

  /** The rows a filter keeps come from the list, so they keep its ratings' range. */
  lemma FilterKeepsRatingsInRange(rows: seq<Row>, c: Criterion)
    requires RatingsInRange(rows)
    ensures RatingsInRange(Filter(rows, c))
  {
    var f := Filter(rows, c);
    forall i | 0 <= i < |f|
      ensures 1 <= f[i].value <= 5
    {
      assert f[i] in rows;
    }
  }

  /** With every rating in [1, 5] the displayed average lies in [0, 5], and it
      is positive exactly when the task has a rating. */
  lemma AverageRatingInRange(sliderVotes: seq<Row>, task: TaskId)
    requires RatingsInRange(sliderVotes)
    ensures 0.0 <= AverageRating(sliderVotes, task).value <= 5.0
    ensures AverageRating(sliderVotes, task).value > 0.0 <==> |Filter(sliderVotes, ForTask(task))| > 0
  {
    var f := Filter(sliderVotes, ForTask(task));
    var n := |sliderVotes|;
    FilterKeepsRatingsInRange(sliderVotes, ForTask(task));
    RatingSumBounds(f);
    if n > 0 {
      var s := RatingSum(f);
      QuotientBounds(s, n, 0, 5);
      QuotientBounds(s, n, 0, 0);
    }
  }

  /** Bounds on a sum carry over to its quotient by a positive count. */
  lemma QuotientBounds(s: int, n: int, lo: int, hi: int)
    requires 0 < n
    ensures lo * n <= s ==> lo as real <= s as real / n as real
    ensures s <= hi * n ==> s as real / n as real <= hi as real
  {
    var q := s as real / n as real;
    assert q * n as real == s as real;
    assert (lo * n) as real == lo as real * n as real;
    assert (hi * n) as real == hi as real * n as real;
  }

  // ---------------------------------------------------------------------
  // The intended average
  // ---------------------------------------------------------------------

  /** The mean of the task's ratings: their sum divided by how many there are,
      and 0 when there are none. */
  function MeanRating(sliderVotes: seq<Row>, task: TaskId): real {
    var f := Filter(sliderVotes, ForTask(task));
    if |f| == 0 then 0.0 else RatingSum(f) as real / |f| as real
  }

  /** The mean of ratings in [1, 5] lies in [1, 5] when the task has a rating. */
  lemma MeanRatingInRange(sliderVotes: seq<Row>, task: TaskId)
    requires RatingsInRange(sliderVotes)
    requires exists i :: 0 <= i < |sliderVotes| && sliderVotes[i].taskId == task
    ensures 1.0 <= MeanRating(sliderVotes, task) <= 5.0
  {
    var f := Filter(sliderVotes, ForTask(task));
    var i :| 0 <= i < |sliderVotes| && sliderVotes[i].taskId == task;
    assert sliderVotes[i] in f;
    FilterKeepsRatingsInRange(sliderVotes, ForTask(task));
    RatingSumBounds(f);
    QuotientBounds(RatingSum(f), |f|, 1, 5);
  }

  /** When every row of the list belongs to the task, the displayed average
      and the mean coincide. */
  lemma AverageIsMeanForSingleTask(sliderVotes: seq<Row>, task: TaskId)
    requires forall i :: 0 <= i < |sliderVotes| ==> sliderVotes[i].taskId == task
    ensures AverageRating(sliderVotes, task) == Num(MeanRating(sliderVotes, task))
  {
    FilterAllMeet(sliderVotes, ForTask(task));
  }

  lemma {:induction false} FilterAllMeet(rows: seq<Row>, c: Criterion)
    requires forall i :: 0 <= i < |rows| ==> Meets(rows[i], c)
    ensures Filter(rows, c) == rows
  {
    if |rows| > 0 {
      FilterAllMeet(rows[..|rows| - 1], c);
    }
  }

  /** The displayed average of a task is diluted by other tasks' ratings: one
      rating of 4 for task 1 beside one rating for task 2 shows 2.0, not 4.0. */
  lemma AverageDilutedByOtherTasks()
    ensures AverageRating([Row(1, 7, 1, 4), Row(2, 7, 2, 2)], 1) == Num(2.0)
    ensures MeanRating([Row(1, 7, 1, 4), Row(2, 7, 2, 2)], 1) == 4.0
  {
    var s := [Row(1, 7, 1, 4), Row(2, 7, 2, 2)];
    assert s[..1] == [Row(1, 7, 1, 4)];
    assert s[..1][..0] == [];
    assert Filter(s, ForTask(1)) == [Row(1, 7, 1, 4)];
    assert RatingSum([Row(1, 7, 1, 4)]) == 4 by {
      assert [Row(1, 7, 1, 4)][..0] == [];
    }
  }

  /** Two ratings 4 and 2 for a task average to 3.0, both as displayed and
      as the corrected mean, and a task without ratings averages 0. */
  lemma MeanRatingExample()
    ensures MeanRating([Row(1, 7, 1, 4), Row(2, 8, 1, 2)], 1) == 3.0
    ensures AverageRating([Row(1, 7, 1, 4), Row(2, 8, 1, 2)], 1) == Num(3.0)
    ensures MeanRating([Row(1, 7, 1, 4), Row(2, 8, 1, 2)], 3) == 0.0
  {
    var s := [Row(1, 7, 1, 4), Row(2, 8, 1, 2)];
    assert s[..1] == [Row(1, 7, 1, 4)];
    assert s[..1][..0] == [];
    FilterAllMeet(s, ForTask(1));
    assert RatingSum(s) == 6;
    assert Filter(s, ForTask(3)) == [];
  }

  /** Two up-votes and a down-vote for task 1 and one up-vote for task 2 show
      2 and 1 on task 1's buttons and 1 and 0 on task 2's. */
  lemma VoteCountExample()
    ensures var votes := [Row(1, 7, 1, 1), Row(2, 8, 1, 1), Row(3, 9, 1, -1), Row(4, 7, 2, 1)];
      Upvotes(votes, 1) == 2 && Downvotes(votes, 1) == 1 &&
      Upvotes(votes, 2) == 1 && Downvotes(votes, 2) == 0
  {
    var a, b, c, d := Row(1, 7, 1, 1), Row(2, 8, 1, 1), Row(3, 9, 1, -1), Row(4, 7, 2, 1);
    var votes := [a, b, c, d];
    assert votes[..3] == [a, b, c] && [a, b, c][..2] == [a, b] && [a, b][..1] == [a] && [a][..0] == [];
    assert Filter([a], ForTaskWithValue(1, 1)) == [a];
    assert Filter([a, b], ForTaskWithValue(1, 1)) == [a, b];
    assert Filter([a, b, c], ForTaskWithValue(1, 1)) == [a, b];
    assert Filter([a], ForTaskWithValue(1, -1)) == [];
    assert Filter([a, b], ForTaskWithValue(1, -1)) == [];
    assert Filter([a, b, c], ForTaskWithValue(1, -1)) == [c];
    assert Filter([a, b, c], ForTaskWithValue(2, 1)) == [] by {
      assert Filter([a], ForTaskWithValue(2, 1)) == [];
      assert Filter([a, b], ForTaskWithValue(2, 1)) == [];
    }
    assert Filter([a, b, c], ForTaskWithValue(2, -1)) == [] by {
      assert Filter([a], ForTaskWithValue(2, -1)) == [];
      assert Filter([a, b], ForTaskWithValue(2, -1)) == [];
    }
  }
}
