/** The update handler's change detection and statement builder, and what
    the statement it builds does to the table.

    The handler collects ten form values under ten keys and compares the
    value at position `i` with `record[i]`, position by position, although
    the keys skip the roll number: from the third key on, each value is
    compared with the row's value one column to its left. */
module Update {
  import opened Text
  import opened Dates
  import opened Students
  import opened Form

  /** The keys of the handler's `updated_data` dictionary, in order. */
  const UpdateKeys: seq<string> :=
    ["First Name", "Last Name", "Email", "Mobile", "alt_mobile",
     "Branch", "Course", "Gender", "DOB", "Address"]

  /** Where in a row the column each key names sits. */
  const KeyColumns: seq<nat> := [0, 1, 3, 4, 5, 6, 7, 8, 9, 10]

  /** Every key names a column of the table other than the roll number, each
      a different one, in table order. */
  lemma KeyColumnsInOrder()
    ensures |KeyColumns| == |UpdateKeys|
    ensures forall i :: 0 <= i < |KeyColumns| ==> KeyColumns[i] < |Columns| && KeyColumns[i] != Roll
    ensures forall i, j :: 0 <= i < j < |KeyColumns| ==> KeyColumns[i] < KeyColumns[j]
  {
  }

  /** `key.lower().replace(' ', '_')` turns each key into the name of the
      column it updates. */
  lemma KeyNamesColumn(i: nat)
    requires i < |UpdateKeys|
    ensures ColumnName(UpdateKeys[i]) == Columns[KeyColumns[i]]
  {
    var key, name := UpdateKeys[i], Columns[KeyColumns[i]];
    assert |key| == |name|;
    forall k | 0 <= k < |key| ensures ColumnName(key)[k] == name[k] {
    }
  }

  /** The handler's `updated_data`: the values the form holds for the
      columns the keys name, the date written `yyyy-mm-dd`, the address
      taken from the address entry. These are the values a save of the same
      form would write to those columns. */
  function UpdatedData(f: Form): (data: seq<string>)
    requires WellFormed(f)
    ensures |data| == |UpdateKeys|
    ensures forall i :: 0 <= i < |data| ==> data[i] == NewRow(f)[KeyColumns[i]]
  {
    [f.texts[FirstName], f.texts[LastName], f.texts[Email], f.texts[Mobile], f.texts[AltPhone],
     f.branch, f.course, f.gender, FormatIso(f.dob), f.texts[Address]]
  }

  /** The positions `i` of `data` whose value differs from `record[i]`, in
      increasing order. */
  function Changed(data: seq<string>, record: Row): (ps: seq<nat>)
    requires |data| <= |record|
    ensures forall k :: 0 <= k < |ps| ==> ps[k] < |data|
  {
    if data == [] then []
    else
      var n := |data| - 1;
      Changed(data[..n], record) + (if data[n] != record[n] then [n] else [])
  }

  /** A position is listed exactly when its value differs, and the list is
      in increasing order. */
  lemma {:induction false} ChangedPositions(data: seq<string>, record: Row)
    requires |data| <= |record|
    ensures forall i :: i in Changed(data, record) <==> 0 <= i < |data| && data[i] != record[i]
    ensures forall k, l :: 0 <= k < l < |Changed(data, record)| ==> Changed(data, record)[k] < Changed(data, record)[l]
  {
    if data != [] {
      var n := |data| - 1;
      ChangedPositions(data[..n], record);
      assert forall i :: 0 <= i < n ==> data[..n][i] == data[i];
    }
  }

  /** Nothing is listed exactly when every compared value is equal. */
  lemma ChangedNone(data: seq<string>, record: Row)
    requires |data| <= |record|
    ensures Changed(data, record) == [] <==> forall i :: 0 <= i < |data| ==> data[i] == record[i]
  {
    ChangedPositions(data, record);
    if Changed(data, record) != [] {
      assert Changed(data, record)[0] in Changed(data, record);
    }
  }

  /** The third collected value, the email entry, is compared with the
      row's roll number: it counts as changed exactly when the email entry
      differs from the picked row's roll number. */
  lemma EmailComparedWithRoll(f: Form, record: Row)
    requires WellFormed(f)
    ensures UpdateKeys[2] == "Email"
    ensures 2 in Changed(UpdatedData(f), record) <==> f.texts[Email] != record[Roll]
  {
    ChangedPositions(UpdatedData(f), record);
  }

  /** The loop that sets `changes_made`: it stops at the first differing
      position and reports whether there was one. */
  method ChangesMade(data: seq<string>, record: Row) returns (changed: bool)
    requires |data| <= |record|
    ensures changed <==> exists i :: 0 <= i < |data| && data[i] != record[i]
  {
    changed := false;
    var i := 0;
    while i < |data|
      invariant 0 <= i <= |data|
      invariant !changed
      invariant forall j :: 0 <= j < i ==> data[j] == record[j]
    {
      if data[i] != record[i] {
        changed := true;
        break;
      }
      i := i + 1;
    }
  }

  /** The `SET` assignments for the listed positions, one `<column>=%s` each. */
  function Assignments(ps: seq<nat>): (fields: seq<string>)
    requires forall k :: 0 <= k < |ps| ==> ps[k] < |UpdateKeys|
    ensures |fields| == |ps|
  {
    seq(|ps|, k requires 0 <= k < |ps| => ColumnName(UpdateKeys[ps[k]]) + "=%s")
  }

  /** The values at the listed positions, in the same order. */
  function Picked(data: seq<string>, ps: seq<nat>): (values: seq<string>)
    requires forall k :: 0 <= k < |ps| ==> ps[k] < |data|
    ensures |values| == |ps|
  {
    seq(|ps|, k requires 0 <= k < |ps| => data[ps[k]])
  }

  /** The statement text for a list of assignments. */
  function UpdateText(fields: seq<string>): string {
    "UPDATE students SET " + Join(", ", fields) + " WHERE roll_number=%s"
  }

  lemma ChangedStep(data: seq<string>, record: Row, i: nat)
    requires i < |data| <= |record|
    ensures Changed(data[..i + 1], record) == Changed(data[..i], record) + (if data[i] != record[i] then [i] else [])
  {
    assert data[..i + 1][..i] == data[..i];
  }

  /** One more listed position adds one assignment and one value at the end. */
  lemma AppendStep(data: seq<string>, ps: seq<nat>, p: nat)
    requires |data| == |UpdateKeys| && p < |data|
    requires forall k :: 0 <= k < |ps| ==> ps[k] < |data|
    ensures Assignments(ps + [p]) == Assignments(ps) + [ColumnName(UpdateKeys[p]) + "=%s"]
    ensures Picked(data, ps + [p]) == Picked(data, ps) + [data[p]]
  {
  }

  /** The loop that builds the statement: an assignment and a value for each
      position whose value differs, in order, then the record's roll number
      as the last value. */
  method BuildUpdate(data: seq<string>, record: Row) returns (query: string, values: seq<string>)
    requires |data| == |UpdateKeys|
    ensures query == UpdateText(Assignments(Changed(data, record)))
    ensures values == Picked(data, Changed(data, record)) + [record[Roll]]
  {
    var fields: seq<string> := [];
    values := [];
    for i := 0 to |data|
      invariant fields == Assignments(Changed(data[..i], record))
      invariant values == Picked(data, Changed(data[..i], record))
    {
      ChangedStep(data, record, i);
      if data[i] != record[i] {
        AppendStep(data, Changed(data[..i], record), i);
        fields := fields + [ColumnName(UpdateKeys[i]) + "=%s"];
        values := values + [data[i]];
      }
    }
    assert data[..|data|] == data;
    query := "UPDATE students SET " + Join(", ", fields) + " WHERE roll_number=%s";
    values := values + [record[Roll]];
  }

  /** Some value differs exactly when the statement has at least one
      assignment: a statement is only built when `changes_made` holds, and
      then its `SET` list is never empty. */
  lemma AssignmentsNonEmpty(data: seq<string>, record: Row)
    requires |data| == |UpdateKeys|
    ensures |Assignments(Changed(data, record))| > 0 <==> exists i :: 0 <= i < |data| && data[i] != record[i]
  {
    ChangedNone(data, record);
  }

  /** One assignment holds one placeholder. */
  lemma AssignmentPlaceholder(i: nat)
    requires i < |UpdateKeys|
    ensures Count('%', ColumnName(UpdateKeys[i]) + "=%s") == 1
  {
    KeyNamesColumn(i);
    KeyColumnsInOrder();
    ColumnsHaveNoPlaceholder(KeyColumns[i]);
    CountOne('%', Columns[KeyColumns[i]] + "=", "s");
    assert Columns[KeyColumns[i]] + "=%s" == Columns[KeyColumns[i]] + "=" + ['%'] + "s";
  }

  lemma UpdatePrefixPlaceholders()
    ensures Count('%', "UPDATE students SET ") == 0
  {
    CountAbsent('%', "UPDATE students SET ");
  }

  lemma WhereRollPlaceholders()
    ensures Count('%', " WHERE roll_number=%s") == 1
  {
    CountOne('%', " WHERE roll_number=", "s");
    assert " WHERE roll_number=%s" == " WHERE roll_number=" + ['%'] + "s";
  }

  /** The fixed text around the assignments holds one placeholder, the
      roll number's. */
  lemma UpdateTextPlaceholders(fields: seq<string>)
    ensures Count('%', UpdateText(fields)) == Count('%', Join(", ", fields)) + 1
  {
    var pre, joined, post := "UPDATE students SET ", Join(", ", fields), " WHERE roll_number=%s";
    UpdatePrefixPlaceholders();
    WhereRollPlaceholders();
    CountConcat('%', pre, joined);
    CountConcat('%', pre + joined, post);
  }

  /** The statement holds exactly as many placeholders as it has values:
      one per assignment, and the roll number's in the WHERE clause. */
  lemma UpdatePlaceholders(data: seq<string>, record: Row)
    requires |data| == |UpdateKeys|
    ensures Count('%', UpdateText(Assignments(Changed(data, record)))) == |Picked(data, Changed(data, record)) + [record[Roll]]|
  {
    var fields := Assignments(Changed(data, record));
    forall k | 0 <= k < |fields| ensures Count('%', fields[k]) == 1 {
      AssignmentPlaceholder(Changed(data, record)[k]);
    }
    CountJoin('%', ", ", fields);
    UpdateTextPlaceholders(fields);
  }

  /** The row after the assignments for the listed positions: each sets the
      column its key names to the position's value. */
  function Apply(row: Row, data: seq<string>, ps: seq<nat>): Row
    requires |data| == |KeyColumns|
    requires forall k :: 0 <= k < |ps| ==> ps[k] < |data|
  {
    KeyColumnsInOrder();
    if ps == [] then row
    else
      var p := ps[|ps| - 1];
      Apply(row, data, ps[..|ps| - 1])[KeyColumns[p] := data[p]]
  }

  /** Each column a key names ends up with the key's value when its position
      is listed and keeps its value otherwise; the roll number is never
      assigned. */
  lemma {:induction false} ApplyEffect(row: Row, data: seq<string>, ps: seq<nat>, i: nat)
    requires |data| == |KeyColumns|
    requires forall k :: 0 <= k < |ps| ==> ps[k] < |data|
    requires i < |KeyColumns|
    ensures Apply(row, data, ps)[KeyColumns[i]] == if i in ps then data[i] else row[KeyColumns[i]]
    ensures Apply(row, data, ps)[Roll] == row[Roll]
  {
    KeyColumnsInOrder();
    if ps != [] {
      var init := ps[..|ps| - 1];
      ApplyEffect(row, data, init, i);
      assert ps == init + [ps[|ps| - 1]];
      var p := ps[|ps| - 1];
      if p != i {
        assert KeyColumns[p] != KeyColumns[i] by {
          if p < i {
            assert KeyColumns[p] < KeyColumns[i];
          } else {
            assert KeyColumns[i] < KeyColumns[p];
          }
        }
      }
    }
  }

  /** `UPDATE students SET ... WHERE roll_number=%s`: every row with that
      roll number gets the assignments, every other row stays as it was. */
  function UpdateRows(rows: seq<Row>, roll: string, data: seq<string>, ps: seq<nat>): (r: seq<Row>)
    requires |data| == |KeyColumns|
    requires forall k :: 0 <= k < |ps| ==> ps[k] < |data|
    ensures |r| == |rows|
    ensures forall k :: 0 <= k < |r| && rows[k][Roll] != roll ==> r[k] == rows[k]
  {
    seq(|rows|, k requires 0 <= k < |rows| => if rows[k][Roll] == roll then Apply(rows[k], data, ps) else rows[k])
  }

  /** What the update does to one column of one row: a column whose key is
      listed takes the new value in the rows with the roll number; every
      other column keeps its value, the roll number included. */
  lemma UpdateRowsEffect(rows: seq<Row>, roll: string, data: seq<string>, ps: seq<nat>, k: nat, i: nat)
    requires |data| == |KeyColumns|
    requires forall k :: 0 <= k < |ps| ==> ps[k] < |data|
    requires k < |rows| && i < |KeyColumns|
    ensures UpdateRows(rows, roll, data, ps)[k][KeyColumns[i]] ==
              if rows[k][Roll] == roll && i in ps then data[i] else rows[k][KeyColumns[i]]
    ensures UpdateRows(rows, roll, data, ps)[k][Roll] == rows[k][Roll]
  {
    ApplyEffect(rows[k], data, ps, i);
  }

  /** The update never changes a roll number, so the roll numbers stay unique. */
  lemma UpdateKeepsUnique(rows: seq<Row>, roll: string, data: seq<string>, ps: seq<nat>)
    requires |data| == |KeyColumns|
    requires forall k :: 0 <= k < |ps| ==> ps[k] < |data|
    requires UniqueRolls(rows)
    ensures UniqueRolls(UpdateRows(rows, roll, data, ps))
  {
    var r := UpdateRows(rows, roll, data, ps);
    forall k | 0 <= k < |rows| ensures r[k][Roll] == rows[k][Roll] {
      UpdateRowsEffect(rows, roll, data, ps, k, 0);
    }
  }

  /** Picking a row whose date reads as a date fills the form so that the
      ten values the update handler collects are the row's values at
      positions 0, 1, 3 to 9, and 6 again: the address entry holds the branch. */
  lemma RedisplayedData(f: Form, r: Row)
    requires WellFormed(f) && ParseIso(r[Dob]).Some?
    ensures WellFormed(Displayed(f, r))
    ensures UpdatedData(Displayed(f, r)) == [r[0], r[1], r[3], r[4], r[5], r[6], r[7], r[8], r[9], r[6]]
  {
    FormatParse(r[Dob]);
  }

  /** Position, among the keys, of the key naming column `c`. */
  function KeyIndex(c: nat): (i: nat)
    requires c < |Columns| && c != Roll
    ensures i < |KeyColumns| && KeyColumns[i] == c
  {
    if c < Roll then c else c - 1
  }

  /** Each column after the assignments: the roll number as it was, any
      other column the value of its key when that key's position is listed. */
  lemma ApplyAt(row: Row, data: seq<string>, ps: seq<nat>, c: nat)
    requires |data| == |KeyColumns|
    requires forall k :: 0 <= k < |ps| ==> ps[k] < |data|
    requires c < |Columns|
    ensures Apply(row, data, ps)[c] ==
              if c != Roll && KeyIndex(c) in ps then data[KeyIndex(c)] else row[c]
  {
    if c == Roll {
      ApplyEffect(row, data, ps, 0);
    } else {
      ApplyEffect(row, data, ps, KeyIndex(c));
    }
  }

  /** Values that agree with a row in every column their key names, except
      the address, which holds the branch: after the assignments the handler
      sends for them each column but the address is as it was, and the
      address holds the branch when the branch differs from the date text. */
  lemma ApplyRedisplayedAt(r: Row, data: seq<string>, c: nat)
    requires |data| == |KeyColumns|
    requires forall i :: 0 <= i < 9 ==> data[i] == r[KeyColumns[i]]
    requires data[9] == r[6]
    requires c < |Columns|
    ensures Apply(r, data, Changed(data, r))[c] == if c == 10 && r[6] != r[9] then r[6] else r[c]
  {
    ChangedPositions(data, r);
    ApplyAt(r, data, Changed(data, r), c);
  }

  /** The same for whole rows: the address becomes the branch whenever the
      branch differs from the date text, and nothing else changes. */
  lemma ApplyRedisplayed(r: Row, data: seq<string>)
    requires |data| == |KeyColumns|
    requires forall i :: 0 <= i < 9 ==> data[i] == r[KeyColumns[i]]
    requires data[9] == r[6]
    ensures Apply(r, data, Changed(data, r)) == if r[6] != r[9] then r[10 := r[6]] else r
  {
    var a := Apply(r, data, Changed(data, r));
    forall c | 0 <= c < |Columns| ensures a[c] == if c == 10 && r[6] != r[9] then r[6] else r[c] {
      ApplyRedisplayedAt(r, data, c);
    }
  }

  /** Picking a row whose date reads as a date and pressing Update without
      editing anything overwrites the row's address with its branch, unless
      the branch equals the date text, and changes nothing else. */
  lemma RedisplayedUpdate(f: Form, r: Row)
    requires WellFormed(f) && ParseIso(r[Dob]).Some?
    ensures WellFormed(Displayed(f, r))
    ensures Apply(r, UpdatedData(Displayed(f, r)), Changed(UpdatedData(Displayed(f, r)), r)) ==
              if r[6] != r[9] then r[10 := r[6]] else r
  {
    RedisplayedData(f, r);
    ApplyRedisplayed(r, UpdatedData(Displayed(f, r)));
  }
}
