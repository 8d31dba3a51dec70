/** The `students` table as the handlers see it: a sequence of rows of
    eleven text values, keyed (by the program, not by the schema) on the
    roll number. */
module Students {

  /** The table's columns, in the order every SELECT and the INSERT use. */
  const Columns: seq<string> :=
    ["first_name", "last_name", "roll_number", "email", "mobile", "alt_mobile",
     "branch", "course", "gender", "dob", "address"]

  /** Position of `roll_number` in a row. */
  const Roll: nat := 2

  /** Position of `dob` in a row. */
  const Dob: nat := 9

  /** No column name holds a `%`. */
  lemma ColumnsHaveNoPlaceholder(k: nat)
    requires k < |Columns|
    ensures '%' !in Columns[k]
  {
  }

  /** `dob` is the name of the date-of-birth column and of no other. */
  lemma DobColumn(c: nat)
    requires c < |Columns| && Columns[c] == "dob"
    ensures c == Dob
  {
    assert |Columns[0]| == 10 && |Columns[1]| == 9 && |Columns[2]| == 11 && |Columns[3]| == 5;
    assert |Columns[4]| == 6 && |Columns[5]| == 10 && |Columns[6]| == 6 && |Columns[7]| == 6;
    assert |Columns[8]| == 6 && |Columns[10]| == 7;
  }

  /** One row of the table, also one row of the record list. */
  type Row = s: seq<string> | |s| == 11 witness ["", "", "", "", "", "", "", "", "", "", ""]

  /** `SELECT * FROM students WHERE roll_number=%s` finds a row. */
  predicate HasRoll(rows: seq<Row>, roll: string) {
    exists k :: 0 <= k < |rows| && rows[k][Roll] == roll
  }

  /** No two rows share a roll number: what the duplicate check in the save
      handler is there to keep. */
  predicate UniqueRolls(rows: seq<Row>) {
    forall i, j :: 0 <= i < j < |rows| ==> rows[i][Roll] != rows[j][Roll]
  }

  /** `INSERT INTO students (...) VALUES (...)`: the row is added to the table. */
  function Insert(rows: seq<Row>, row: Row): (r: seq<Row>)
    ensures |r| == |rows| + 1 && HasRoll(r, row[Roll])
    ensures forall x: Row :: multiset(r)[x] == multiset(rows)[x] + (if x == row then 1 else 0)
  {
    assert (rows + [row])[|rows|] == row;
    rows + [row]
  }

  /** `DELETE FROM students WHERE roll_number=%s`: exactly the rows with that
      roll number go, every other row stays, as often as it was there. */
  function DeleteRoll(rows: seq<Row>, roll: string): (r: seq<Row>)
    ensures |r| <= |rows|
    ensures forall x: Row :: multiset(r)[x] == if x[Roll] == roll then 0 else multiset(rows)[x]
  {
    if rows == [] then []
    else
      assert rows == [rows[0]] + rows[1..];
      (if rows[0][Roll] == roll then [] else [rows[0]]) + DeleteRoll(rows[1..], roll)
  }

  /** A row is in the table after the delete exactly when it was there before
      and has another roll number. */
  lemma DeleteRollKeeps(rows: seq<Row>, roll: string, x: Row)
    ensures x in DeleteRoll(rows, roll) <==> x in rows && x[Roll] != roll
  {
    var mr: multiset<Row> := multiset(DeleteRoll(rows, roll));
    var mrows: multiset<Row> := multiset(rows);
    assert x in DeleteRoll(rows, roll) <==> mr[x] > 0;
    assert x in rows <==> mrows[x] > 0;
  }

  /** After the delete no row has the roll number. */
  lemma DeleteRollRemoves(rows: seq<Row>, roll: string)
    ensures !HasRoll(DeleteRoll(rows, roll), roll)
  {
    var r := DeleteRoll(rows, roll);
    forall k | 0 <= k < |r| ensures r[k][Roll] != roll {
      DeleteRollKeeps(rows, roll, r[k]);
    }
  }

  /** Saving a roll number the table does not have keeps the roll numbers unique. */
  lemma InsertKeepsUnique(rows: seq<Row>, row: Row)
    requires UniqueRolls(rows) && !HasRoll(rows, row[Roll])
    ensures UniqueRolls(Insert(rows, row))
  {
    var r := Insert(rows, row);
    forall i, j | 0 <= i < j < |r| ensures r[i][Roll] != r[j][Roll] {
      if j == |rows| {
        assert r[i] == rows[i];
      }
    }
  }

  /** A row whose roll number no other row has can go in front. */
  lemma ConsUnique(h: Row, rest: seq<Row>)
    requires UniqueRolls(rest)
    requires forall k :: 0 <= k < |rest| ==> rest[k][Roll] != h[Roll]
    ensures UniqueRolls([h] + rest)
  {
    var r := [h] + rest;
    forall i, j | 0 <= i < j < |r| ensures r[i][Roll] != r[j][Roll] {
      assert r[j] == rest[j - 1];
      if i > 0 {
        assert r[i] == rest[i - 1];
      }
    }
  }

  /** Dropping the first row keeps the roll numbers unique. */
  lemma TailUnique(rows: seq<Row>)
    requires rows != [] && UniqueRolls(rows)
    ensures UniqueRolls(rows[1..])
  {
    var tail := rows[1..];
    forall i, j | 0 <= i < j < |tail| ensures tail[i][Roll] != tail[j][Roll] {
      assert tail[i] == rows[i + 1] && tail[j] == rows[j + 1];
    }
  }

  /** With unique roll numbers, no row left by a delete from the rest of the
      table shares the first row's roll number. */
  lemma HeadRollNotInDeletedTail(rows: seq<Row>, roll: string)
    requires rows != [] && UniqueRolls(rows)
    ensures forall x :: x in DeleteRoll(rows[1..], roll) ==> x[Roll] != rows[0][Roll]
  {
    var tail := rows[1..];
    forall x | x in DeleteRoll(tail, roll) ensures x[Roll] != rows[0][Roll] {
      DeleteRollKeeps(tail, roll, x);
      var m :| 0 <= m < |tail| && tail[m] == x;
      assert rows[m + 1] == x && 0 < m + 1 < |rows|;
    }
  }

  /** Deleting rows keeps the roll numbers unique. */
  lemma {:induction false} DeleteKeepsUnique(rows: seq<Row>, roll: string)
    requires UniqueRolls(rows)
    ensures UniqueRolls(DeleteRoll(rows, roll))
  {
    if rows != [] {
      var tail := rows[1..];
      TailUnique(rows);
      DeleteKeepsUnique(tail, roll);
      var rest := DeleteRoll(tail, roll);
      if rows[0][Roll] != roll {
        assert DeleteRoll(rows, roll) == [rows[0]] + rest;
        HeadRollNotInDeletedTail(rows, roll);
        assert forall k :: 0 <= k < |rest| ==> rest[k] in rest;
        ConsUnique(rows[0], rest);
      } else {
        assert DeleteRoll(rows, roll) == [] + rest;
      }
    }
  }
}
