/** What the vote handlers do to one table, as functions of the table: a cast
    updates the user's existing row for the task or inserts a new one; a
    retraction deletes that row by its id. The lookup is the component's
    `find` on the current rows. */
module Upsert {
  import opened Rows
  import opened Store
  import opened Tally

  /** The mutation a cast requests: the first row of this user for this task
      with only its value replaced, or a new row when there is none. */
  function CastCall(rows: seq<Row>, user: UserId, task: TaskId, value: int): Call {
    match Find(rows, user, task)
    case Some(i) => Update(rows[i].(value := value))
    case None => Insert(user, task, value)
  }

  /** The table after a cast the store accepted. */
  function Cast(rows: seq<Row>, nextId: Id, user: UserId, task: TaskId, value: int): seq<Row> {
    Apply(rows, nextId, CastCall(rows, user, task, value))
  }

  /** The mutations a retraction requests on one table: a delete by the id of
      the user's row for the task, if there is one. */
  function RetractCalls(rows: seq<Row>, user: UserId, task: TaskId): seq<Call> {
    match Find(rows, user, task)
    case Some(i) => [Delete(rows[i].id)]
    case None => []
  }

  /** The table after a retraction the store accepted. */
  function Retracted(rows: seq<Row>, user: UserId, task: TaskId): seq<Row> {
    match Find(rows, user, task)
    case Some(i) => DeleteById(rows, rows[i].id)
    case None => rows
  }

  /** The user's current value for the task as the buttons see it (`userVote?.vote`),
      0 when the user has no row. */
  function Current(rows: seq<Row>, user: UserId, task: TaskId): int {
    match Find(rows, user, task)
    case Some(i) => rows[i].value
    case None => 0
  }

  /** A cast either replaces only the value of the user's existing row, keeping
      its id, user and task and every other row, or appends exactly one new row
      with the next id and leaves the existing rows as they were. */
  lemma CastUpserts(rows: seq<Row>, nextId: Id, user: UserId, task: TaskId, value: int)
    requires DistinctIds(rows)
    ensures match Find(rows, user, task)
      case Some(i) =>
        Cast(rows, nextId, user, task, value) == rows[i := Row(rows[i].id, user, task, value)] &&
        NextId(nextId, CastCall(rows, user, task, value)) == nextId
      case None =>
        Cast(rows, nextId, user, task, value) == rows + [Row(nextId, user, task, value)] &&
        NextId(nextId, CastCall(rows, user, task, value)) == nextId + 1
  {
    match Find(rows, user, task)
    case Some(i) => UpdateByIdAt(rows, i, rows[i].(value := value));
    case None =>
  }

  /** After a cast the user's row for the task holds the cast value; if the
      table kept one row per (user, task) it still does, and that row is the
      user's only row for the task. */
  lemma CastStoresValue(rows: seq<Row>, nextId: Id, user: UserId, task: TaskId, value: int)
    requires TableInvariant(rows, nextId)
    ensures Current(Cast(rows, nextId, user, task, value), user, task) == value
    ensures Find(Cast(rows, nextId, user, task, value), user, task).Some?
    ensures OnePerUserTask(rows) ==> OnePerUserTask(Cast(rows, nextId, user, task, value))
  {
    var after := Cast(rows, nextId, user, task, value);
    CastUpserts(rows, nextId, user, task, value);
    match Find(rows, user, task)
    case Some(i) =>
      assert Find(after, user, task) == Some(i) by {
        assert forall j :: 0 <= j < i ==> after[j] == rows[j];
      }
    case None =>
      var n := |rows|;
      assert forall j :: 0 <= j < n ==> after[j] == rows[j];
      assert Owns(after[n], user, task);
      assert Find(after, user, task) == Some(n);
  }

  /** A cast of a rating in [1, 5] keeps every rating of the table in [1, 5]. */
  lemma CastKeepsRatingsInRange(rows: seq<Row>, nextId: Id, user: UserId, task: TaskId, rating: int)
    requires DistinctIds(rows)
    requires 1 <= rating <= 5
    ensures RatingsInRange(rows) ==> RatingsInRange(Cast(rows, nextId, user, task, rating))
  {
    CastUpserts(rows, nextId, user, task, rating);
  }

  /** A retraction removes exactly the user's first row for the task and keeps
      the others in order; without such a row it changes nothing. */
  lemma RetractRemovesOwnRow(rows: seq<Row>, user: UserId, task: TaskId)
    requires DistinctIds(rows)
    ensures match Find(rows, user, task)
      case Some(i) => Retracted(rows, user, task) == rows[..i] + rows[i + 1..]
      case None => Retracted(rows, user, task) == rows
  {
    match Find(rows, user, task)
    case Some(i) => DeleteByIdAt(rows, i);
    case None =>
  }

  /** With one row per (user, task), a retraction leaves the user no row for
      the task, and keeps one row per (user, task). */
  lemma RetractLeavesNoRow(rows: seq<Row>, user: UserId, task: TaskId)
    ensures OnePerUserTask(rows) ==> Find(Retracted(rows, user, task), user, task).None?
    ensures OnePerUserTask(rows) ==> OnePerUserTask(Retracted(rows, user, task))
  {
    if !OnePerUserTask(rows) {
      return;
    }
    match Find(rows, user, task)
    case Some(i) =>
      var r := DeleteById(rows, rows[i].id);
      DeleteKeepsOnePerUserTask(rows, rows[i].id);
      FindIsOnlyRow(rows, user, task, i);
      forall k | 0 <= k < |r|
        ensures !Owns(r[k], user, task)
      {
        assert r[k] in rows;
      }
    case None =>
  }

  /** A retraction keeps ids unique and below the identity value. */
  lemma RetractKeepsTableInvariant(rows: seq<Row>, nextId: Id, user: UserId, task: TaskId)
    requires TableInvariant(rows, nextId)
    ensures TableInvariant(Retracted(rows, user, task), nextId)
  {
    match Find(rows, user, task)
    case Some(i) => DeleteKeepsTableInvariant(rows, nextId, rows[i].id);
    case None =>
  }

  /** Casting and then retracting leaves the user no row for the task, when
      the table kept one row per (user, task) to begin with. */
  lemma CastThenRetract(rows: seq<Row>, nextId: Id, user: UserId, task: TaskId, value: int)
    requires TableInvariant(rows, nextId) && OnePerUserTask(rows)
    ensures Find(Retracted(Cast(rows, nextId, user, task, value), user, task), user, task).None?
  {
    CastStoresValue(rows, nextId, user, task, value);
    RetractLeavesNoRow(Cast(rows, nextId, user, task, value), user, task);
  }

  /** How a cast moves a vote count: the count of value `x` for task `t`
      loses the user's previous vote if it was `x` and gains the new vote if
      it is `x`; counts for other tasks do not move. */
  lemma CastMovesCount(votes: seq<Row>, nextId: Id, user: UserId, task: TaskId, value: int, t: TaskId, x: int)
    requires DistinctIds(votes)
    requires x != 0
    ensures |Filter(Cast(votes, nextId, user, task, value), ForTaskWithValue(t, x))|
         == |Filter(votes, ForTaskWithValue(t, x))|
            + (if t == task then Indicator(value == x) - Indicator(Current(votes, user, task) == x) else 0)
  {
    var c := ForTaskWithValue(t, x);
    CastUpserts(votes, nextId, user, task, value);
    match Find(votes, user, task)
    case Some(i) =>
      FilterCountAfterReplace(votes, i, Row(votes[i].id, user, task, value), c);
    case None =>
      FilterAppend(votes, [Row(nextId, user, task, value)], c);
      assert [Row(nextId, user, task, value)][..0] == [];
  }

  /** The up-vote and down-vote buttons are disabled on the user's current
      vote, so a cast always changes it: switching moves one vote from one
      count to the other, and a first vote adds one to its count. */
  lemma SwitchingVoteMovesTally(votes: seq<Row>, nextId: Id, user: UserId, task: TaskId, value: int)
    requires DistinctIds(votes)
    requires value == 1 || value == -1
    requires Current(votes, user, task) != value
    ensures var after := Cast(votes, nextId, user, task, value);
      var previous := Current(votes, user, task);
      Upvotes(after, task) == Upvotes(votes, task) + (if value == 1 then 1 else 0) - (if previous == 1 then 1 else 0) &&
      Downvotes(after, task) == Downvotes(votes, task) + (if value == -1 then 1 else 0) - (if previous == -1 then 1 else 0)
  {
    CastMovesCount(votes, nextId, user, task, value, task, 1);
    CastMovesCount(votes, nextId, user, task, value, task, -1);
  }

  /** How a retraction moves a vote count: the count of value `x` for the
      task loses the user's vote if it was `x`; nothing else moves. */
  lemma RetractMovesCount(votes: seq<Row>, user: UserId, task: TaskId, t: TaskId, x: int)
    requires DistinctIds(votes)
    requires x != 0
    ensures |Filter(Retracted(votes, user, task), ForTaskWithValue(t, x))|
         == |Filter(votes, ForTaskWithValue(t, x))|
            - (if t == task then Indicator(Current(votes, user, task) == x) else 0)
  {
    RetractRemovesOwnRow(votes, user, task);
    match Find(votes, user, task)
    case Some(i) => FilterCountAfterRemove(votes, i, ForTaskWithValue(t, x));
    case None =>
  }
}
