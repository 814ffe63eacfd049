/** Rows of the two tables the voting component works on, and the lookup it
    performs to find the current user's own row for a task. */
module Rows {

  datatype Option<+T> = None | Some(value: T)

  type Id = int
  type UserId = int
  type TaskId = int

  /** A row of the `voting` table, where `value` is the vote (1 or -1), or of
      the `slider_votes` table, where `value` is the rating (1 to 5). Both
      tables have the columns id, user_id, task_id and one int4 value. */
  datatype Row = Row(id: Id, userId: UserId, taskId: TaskId, value: int)

  /** The lookup predicate of the component: the row is this user's row for this task. */
  predicate Owns(r: Row, user: UserId, task: TaskId) {
    r.taskId == task && r.userId == user
  }

  /** `Array.prototype.find` with the ownership predicate, returning the index
      of the first matching row. */
  function Find(rows: seq<Row>, user: UserId, task: TaskId): (r: Option<nat>)
    ensures r.Some? ==> r.value < |rows| && Owns(rows[r.value], user, task)
    ensures r.Some? ==> forall j :: 0 <= j < r.value ==> !Owns(rows[j], user, task)
    ensures r.None? <==> forall j :: 0 <= j < |rows| ==> !Owns(rows[j], user, task)
  {
    if |rows| == 0 then None
    else if Owns(rows[0], user, task) then Some(0)
    else match Find(rows[1..], user, task)
      case None => None
      case Some(i) => Some(i + 1)
  }

  /** `id` is the primary key of both tables. */
  ghost predicate DistinctIds(rows: seq<Row>) {
    forall i, j :: 0 <= i < j < |rows| ==> rows[i].id != rows[j].id
  }

  /** Every id handed out so far is below the store's next identity value. */
  ghost predicate IdsBelow(rows: seq<Row>, nextId: Id) {
    forall i :: 0 <= i < |rows| ==> rows[i].id < nextId
  }

  ghost predicate TableInvariant(rows: seq<Row>, nextId: Id) {
    DistinctIds(rows) && IdsBelow(rows, nextId)
  }

  /** The intended, client-side-only invariant: at most one row per (user, task). */
  ghost predicate OnePerUserTask(rows: seq<Row>) {
    forall i, j :: 0 <= i < j < |rows| ==>
      !(rows[i].userId == rows[j].userId && rows[i].taskId == rows[j].taskId)
  }

  /** If the table keeps one row per (user, task), the row `Find` returns is
      the only row of that user for that task. */
  lemma FindIsOnlyRow(rows: seq<Row>, user: UserId, task: TaskId, k: nat)
    requires OnePerUserTask(rows)
    requires Find(rows, user, task) == Some(k)
    ensures forall j :: 0 <= j < |rows| && Owns(rows[j], user, task) ==> j == k
  {
  }

  /** A table is the rows before position `i`, row `i`, and the rows after it. */
  lemma SplitAt(rows: seq<Row>, i: nat)
    requires i < |rows|
    ensures rows[..i] + [rows[i]] + rows[i + 1..] == rows
  {
  }
}
