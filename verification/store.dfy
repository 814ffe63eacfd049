/** The remote row store as the data-access hooks use it: insert one row,
    update the rows whose id matches, delete the rows whose id matches. The
    store assigns the id of an inserted row from its identity sequence. */
module Store {
  import opened Rows

  /** One mutation request against one table. An insert carries no id. */
  datatype Call =
    | Insert(userId: UserId, taskId: TaskId, value: int)
    | Update(row: Row)
    | Delete(id: Id)

  /** `update(row).eq('id', row.id)`: every row whose id is `row.id` is
      overwritten by the payload, every other row is left as it was. */
  function UpdateById(rows: seq<Row>, row: Row): (r: seq<Row>)
    ensures |r| == |rows|
    ensures forall i :: 0 <= i < |rows| && rows[i].id != row.id ==> r[i] == rows[i]
    ensures forall i :: 0 <= i < |rows| && rows[i].id == row.id ==> r[i] == row
  {
    if |rows| == 0 then []
    else [if rows[0].id == row.id then row else rows[0]] + UpdateById(rows[1..], row)
  }

  /** `delete().eq('id', id)`: the rows whose id is `id` are removed. That the
      others keep their relative order is `DeleteByIdAt`, for unique ids. */
  function DeleteById(rows: seq<Row>, id: Id): (r: seq<Row>)
    ensures forall x :: x in r <==> x in rows && x.id != id
    ensures |r| <= |rows|
  {
    if |rows| == 0 then []
    else (if rows[0].id == id then [] else [rows[0]]) + DeleteById(rows[1..], id)
  }

  /** The table after a successful call; `nextId` is the id an insert receives. */
  function Apply(rows: seq<Row>, nextId: Id, call: Call): seq<Row> {
    match call
    case Insert(user, task, value) => rows + [Row(nextId, user, task, value)]
    case Update(row) => UpdateById(rows, row)
    case Delete(id) => DeleteById(rows, id)
  }

  /** The store's identity value after a successful call. */
  function NextId(nextId: Id, call: Call): Id {
    if call.Insert? then nextId + 1 else nextId
  }

  /** With unique ids, updating by the id of row `i` replaces row `i` alone. */
  lemma UpdateByIdAt(rows: seq<Row>, i: nat, row: Row)
    requires DistinctIds(rows)
    requires i < |rows| && row.id == rows[i].id
    ensures UpdateById(rows, row) == rows[i := row]
  {
    var r := UpdateById(rows, row);
    forall j | 0 <= j < |rows|
      ensures r[j] == rows[i := row][j]
    {
      if j < i {
        assert rows[j].id != rows[i].id;
      } else if j > i {
        assert rows[i].id != rows[j].id;
      }
    }
  }

  /** With unique ids, deleting by the id of row `i` removes row `i` alone. */
  lemma DeleteByIdAt(rows: seq<Row>, i: nat)
    requires DistinctIds(rows)
    requires i < |rows|
    ensures DeleteById(rows, rows[i].id) == rows[..i] + rows[i + 1..]
  {
    assert forall j :: 0 <= j < |rows| && j != i ==> rows[j].id != rows[i].id;
    DeleteOnlyHolder(rows, i);
  }

  /** Deleting the id that row `i` alone holds removes row `i` alone. */
  lemma DeleteOnlyHolder(rows: seq<Row>, i: nat)
    requires i < |rows|
    requires forall j :: 0 <= j < |rows| && j != i ==> rows[j].id != rows[i].id
    ensures DeleteById(rows, rows[i].id) == rows[..i] + rows[i + 1..]
  {
    var before, after := rows[..i], rows[i + 1..];
    assert forall j :: 0 <= j < |before| ==> before[j].id != rows[i].id by {
      forall j | 0 <= j < |before|
        ensures before[j].id != rows[i].id
      {
        assert before[j] == rows[j];
      }
    }
    assert forall j :: 0 <= j < |after| ==> after[j].id != rows[i].id by {
      forall j | 0 <= j < |after|
        ensures after[j].id != rows[i].id
      {
        assert after[j] == rows[i + 1 + j];
      }
    }
    SplitAt(rows, i);
    DeleteSplice(before, rows[i], after);
  }

  /** Deleting the id of a row that no row before or after it shares removes that row alone. */
  lemma DeleteSplice(before: seq<Row>, r: Row, after: seq<Row>)
    requires forall j :: 0 <= j < |before| ==> before[j].id != r.id
    requires forall j :: 0 <= j < |after| ==> after[j].id != r.id
    ensures DeleteById(before + [r] + after, r.id) == before + after
  {
    var id := r.id;
    DeleteAbsent(before, id);
    DeleteAbsent(after, id);
    DeleteOne(r);
    DeleteAppend(before, [r], id);
    assert DeleteById(before + [r], id) == before + [];
    DeleteAppend(before + [r], after, id);
    assert before + [] == before;
  }

  lemma DeleteOne(r: Row)
    ensures DeleteById([r], r.id) == []
  {
    assert [r][1..] == [];
  }

  /** Deletion distributes over concatenation. */
  lemma {:induction false} DeleteAppend(a: seq<Row>, b: seq<Row>, id: Id)
    ensures DeleteById(a + b, id) == DeleteById(a, id) + DeleteById(b, id)
  {
    if |a| == 0 {
      assert a + b == b;
    } else {
      assert (a + b)[1..] == a[1..] + b;
      DeleteAppend(a[1..], b, id);
    }
  }

  /** Deleting an id no row has leaves the table as it was. */
  lemma {:induction false} DeleteAbsent(rows: seq<Row>, id: Id)
    requires forall j :: 0 <= j < |rows| ==> rows[j].id != id
    ensures DeleteById(rows, id) == rows
  {
    if |rows| > 0 {
      DeleteAbsent(rows[1..], id);
    }
  }

  /** Every call keeps ids unique and below the identity value. */
  lemma ApplyKeepsTableInvariant(rows: seq<Row>, nextId: Id, call: Call)
    requires TableInvariant(rows, nextId)
    ensures TableInvariant(Apply(rows, nextId, call), NextId(nextId, call))
  {
    match call
    case Insert(user, task, value) =>
    case Update(row) =>
    case Delete(id) => DeleteKeepsTableInvariant(rows, nextId, id);
  }

  /** A deletion keeps ids unique and below the identity value. */
  lemma {:induction false} DeleteKeepsTableInvariant(rows: seq<Row>, nextId: Id, id: Id)
    requires TableInvariant(rows, nextId)
    ensures TableInvariant(DeleteById(rows, id), nextId)
  {
    if |rows| > 0 {
      DeleteKeepsTableInvariant(rows[1..], nextId, id);
      var t := DeleteById(rows[1..], id);
      forall k | 0 <= k < |t|
        ensures t[k].id != rows[0].id
      {
        assert t[k] in rows[1..];
      }
    }
  }

  /** A deletion keeps one row per (user, task). */
  lemma {:induction false} DeleteKeepsOnePerUserTask(rows: seq<Row>, id: Id)
    requires OnePerUserTask(rows)
    ensures OnePerUserTask(DeleteById(rows, id))
  {
    if |rows| > 0 {
      DeleteKeepsOnePerUserTask(rows[1..], id);
      var t := DeleteById(rows[1..], id);
      forall k | 0 <= k < |t|
        ensures !(rows[0].userId == t[k].userId && rows[0].taskId == t[k].taskId)
      {
        assert t[k] in rows[1..];
      }
    }
  }
}
