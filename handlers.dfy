/** What each button handler does, as a function from the screen before to
    the screen after and the message it ends with. The class in `App` runs
    the handlers step by step and is proved to agree with these functions;
    the properties of the handlers are proved here. */
module Handlers {
  import opened Wrappers
  import opened Dates
  import opened Students
  import opened Form
  import opened Update

  /** The message box a handler ends with; `Found` is a search whose rows
      are shown without one. */
  datatype Outcome =
    | Found
    | Saved
    | Updated
    | Deleted
    | Invalid(error: InputError)
    | DuplicateRoll
    | NoSelection
    | NoChanges
    | DatabaseError

  /** The form's widgets, the `students` table, and the rows the record list shows. */
  datatype Screen = Screen(form: Form, students: seq<Row>, shown: seq<Row>)

  datatype Response = Response(screen: Screen, outcome: Outcome)

  /** `show_all_records`: the list is reloaded from the table, or emptied
      when the query fails. */
  function ShowAll(s: Screen, dbUp: bool): Screen {
    s.(shown := if dbUp then s.students else [])
  }

  /** `clear_entries`: the form emptied and dated today, then the list reloaded. */
  function Clear(s: Screen, today: Date, dbUp: bool): Screen {
    ShowAll(s.(form := Cleared(today)), dbUp)
  }

  /** `display_selected_record`: the picked row copied into the form. */
  function Display(s: Screen, selected: Option<Row>): Screen {
    match selected
    case None => s
    case Some(r) => s.(form := Displayed(s.form, r))
  }

  /** `save_details`. */
  function Save(s: Screen, today: Date, dbUp: bool): Response
    requires WellFormed(s.form)
  {
    var check := ValidateForm(s.form);
    if check.Fail? then Response(ShowAll(s, dbUp), Invalid(check.error))
    else if !dbUp then Response(ShowAll(s, dbUp), DatabaseError)
    else if HasRoll(s.students, s.form.texts[RollNumber]) then Response(s, DuplicateRoll)
    else
      var inserted := s.(students := Insert(s.students, NewRow(s.form)));
      Response(ShowAll(Clear(inserted, today, dbUp), dbUp), Saved)
  }

  /** `update_record`. */
  function Modify(s: Screen, selected: Option<Row>, today: Date, dbUp: bool): Response
    requires WellFormed(s.form)
  {
    match selected
    case None => Response(s, NoSelection)
    case Some(r) =>
      var data := UpdatedData(s.form);
      var ps := Changed(data, r);
      if ps == [] then Response(s, NoChanges)
      else if !dbUp then Response(ShowAll(s, dbUp), DatabaseError)
      else
        var updated := s.(students := UpdateRows(s.students, r[Roll], data, ps));
        Response(ShowAll(Clear(updated, today, dbUp), dbUp), Updated)
  }

  /** `delete_record`. */
  function Delete(s: Screen, selected: Option<Row>, today: Date, dbUp: bool): Response {
    match selected
    case None => Response(s, NoSelection)
    case Some(r) =>
      if !dbUp then Response(ShowAll(s, dbUp), DatabaseError)
      else
        var deleted := s.(students := DeleteRoll(s.students, r[Roll]));
        Response(ShowAll(Clear(deleted, today, dbUp), dbUp), Deleted)
  }

  /** `search_records`, once the database has answered with `matched`: the
      list is emptied first and then filled, or a database error is shown. */
  function Find(s: Screen, matched: seq<Row>, dbUp: bool): Response {
    if dbUp then Response(s.(shown := matched), Found)
    else Response(s.(shown := []), DatabaseError)
  }

  /** A search changes only the list: it shows the rows the query returned,
      or nothing together with a database error when the query raises. */
  lemma FindEffect(s: Screen, matched: seq<Row>, dbUp: bool)
    ensures Find(s, matched, dbUp).outcome == DatabaseError <==> !dbUp
    ensures Find(s, matched, dbUp).outcome in {Found, DatabaseError}
    ensures Find(s, matched, dbUp).screen.form == s.form && Find(s, matched, dbUp).screen.students == s.students
    ensures Find(s, matched, dbUp).screen.shown == if dbUp then matched else []
  {
  }

  /** A save goes through exactly when the form passes the input check, the
      database answers and the table has no row with the form's roll number;
      the form's row is then added, the form cleared and the list reloaded. */
  lemma SaveSucceeds(s: Screen, today: Date, dbUp: bool)
    requires WellFormed(s.form)
    ensures Save(s, today, dbUp).outcome == Saved <==>
              ValidateForm(s.form) == Pass && dbUp && !HasRoll(s.students, s.form.texts[RollNumber])
    ensures Save(s, today, dbUp).outcome == Saved ==>
              var t := Save(s, today, dbUp).screen;
              t.students == Insert(s.students, NewRow(s.form)) && t.form == Cleared(today) && t.shown == t.students
  {
  }

  /** A save that does not go through leaves the table as it was, and keeps
      the form so it can be corrected; the message says why. */
  lemma SaveFails(s: Screen, today: Date, dbUp: bool)
    requires WellFormed(s.form)
    ensures Save(s, today, dbUp).outcome != Saved ==>
              Save(s, today, dbUp).screen.students == s.students && Save(s, today, dbUp).screen.form == s.form
    ensures Save(s, today, dbUp).outcome.Invalid? <==> ValidateForm(s.form).Fail?
    ensures ValidateForm(s.form).Fail? ==> Save(s, today, dbUp).outcome == Invalid(ValidateForm(s.form).error)
    ensures Save(s, today, dbUp).outcome == DuplicateRoll <==>
              ValidateForm(s.form) == Pass && dbUp && HasRoll(s.students, s.form.texts[RollNumber])
    ensures Save(s, today, dbUp).outcome == DuplicateRoll ==> Save(s, today, dbUp).screen == s
    ensures Save(s, today, dbUp).outcome.Invalid? ==> Save(s, today, dbUp).screen.shown == if dbUp then s.students else []
    ensures Save(s, today, dbUp).outcome == DatabaseError ==> Save(s, today, dbUp).screen.shown == []
  {
  }

  /** The duplicate check keeps the roll numbers in the table unique, and a
      saved roll number is then in the table. */
  lemma SaveKeepsUnique(s: Screen, today: Date, dbUp: bool)
    requires WellFormed(s.form) && UniqueRolls(s.students)
    ensures UniqueRolls(Save(s, today, dbUp).screen.students)
    ensures Save(s, today, dbUp).outcome == Saved ==> HasRoll(Save(s, today, dbUp).screen.students, s.form.texts[RollNumber])
  {
    SaveSucceeds(s, today, dbUp);
    SaveFails(s, today, dbUp);
    if Save(s, today, dbUp).outcome == Saved {
      InsertKeepsUnique(s.students, NewRow(s.form));
    }
  }

  /** An update is sent exactly when a row is picked and some collected
      value differs from the picked row's value at the same position; it
      takes effect when the database answers, and then the form is cleared. */
  lemma ModifyOutcome(s: Screen, selected: Option<Row>, today: Date, dbUp: bool)
    requires WellFormed(s.form)
    ensures Modify(s, selected, today, dbUp).outcome == NoSelection <==> selected.None?
    ensures Modify(s, selected, today, dbUp).outcome == NoChanges <==>
              selected.Some? && forall i :: 0 <= i < |UpdateKeys| ==> UpdatedData(s.form)[i] == selected.value[i]
    ensures Modify(s, selected, today, dbUp).outcome == Updated <==>
              selected.Some? && dbUp && exists i :: 0 <= i < |UpdateKeys| && UpdatedData(s.form)[i] != selected.value[i]
    ensures Modify(s, selected, today, dbUp).outcome == Updated ==>
              Modify(s, selected, today, dbUp).screen.form == Cleared(today) &&
              Modify(s, selected, today, dbUp).screen.shown == Modify(s, selected, today, dbUp).screen.students
  {
    if selected.Some? {
      ChangedNone(UpdatedData(s.form), selected.value);
    }
  }

  /** An update that is not sent, or fails, leaves the table and the form
      as they were; with no row picked or nothing changed, nothing at all changes. */
  lemma ModifyFails(s: Screen, selected: Option<Row>, today: Date, dbUp: bool)
    requires WellFormed(s.form)
    ensures Modify(s, selected, today, dbUp).outcome != Updated ==>
              Modify(s, selected, today, dbUp).screen.students == s.students && Modify(s, selected, today, dbUp).screen.form == s.form
    ensures Modify(s, selected, today, dbUp).outcome in {NoSelection, NoChanges} ==> Modify(s, selected, today, dbUp).screen == s
    ensures Modify(s, selected, today, dbUp).outcome == DatabaseError ==> Modify(s, selected, today, dbUp).screen.shown == []
  {
  }

  /** What a successful update does to the table: in the rows with the
      picked row's roll number, each column whose value differed takes the
      collected value; every other column and every other row stays, and
      roll numbers never change. */
  lemma ModifyEffect(s: Screen, r: Row, today: Date, dbUp: bool, k: nat, i: nat)
    requires WellFormed(s.form)
    requires Modify(s, Some(r), today, dbUp).outcome == Updated
    requires k < |s.students| && i < |UpdateKeys|
    ensures |Modify(s, Some(r), today, dbUp).screen.students| == |s.students|
    ensures Modify(s, Some(r), today, dbUp).screen.students[k][KeyColumns[i]] ==
              if s.students[k][Roll] == r[Roll] && UpdatedData(s.form)[i] != r[i] then UpdatedData(s.form)[i]
              else s.students[k][KeyColumns[i]]
    ensures Modify(s, Some(r), today, dbUp).screen.students[k][Roll] == s.students[k][Roll]
  {
    var data := UpdatedData(s.form);
    ChangedPositions(data, r);
    UpdateRowsEffect(s.students, r[Roll], data, Changed(data, r), k, i);
  }

  /** Updates never break the uniqueness of roll numbers. */
  lemma ModifyKeepsUnique(s: Screen, selected: Option<Row>, today: Date, dbUp: bool)
    requires WellFormed(s.form) && UniqueRolls(s.students)
    ensures UniqueRolls(Modify(s, selected, today, dbUp).screen.students)
  {
    if Modify(s, selected, today, dbUp).outcome == Updated {
      var r := selected.value;
      var data := UpdatedData(s.form);
      UpdateKeepsUnique(s.students, r[Roll], data, Changed(data, r));
    }
  }

  /** A delete with a picked row and a database that answers removes exactly
      the rows with the picked row's roll number, without asking, clears the
      form and reloads the list; otherwise the table and the form stay as they
      were, and with no row picked nothing at all changes. */
  lemma DeleteEffect(s: Screen, selected: Option<Row>, today: Date, dbUp: bool, x: Row)
    ensures Delete(s, selected, today, dbUp).outcome == Deleted <==> selected.Some? && dbUp
    ensures Delete(s, selected, today, dbUp).outcome == Deleted ==>
              && (x in Delete(s, selected, today, dbUp).screen.students <==> x in s.students && x[Roll] != selected.value[Roll])
              && !HasRoll(Delete(s, selected, today, dbUp).screen.students, selected.value[Roll])
              && Delete(s, selected, today, dbUp).screen.form == Cleared(today)
              && Delete(s, selected, today, dbUp).screen.shown == Delete(s, selected, today, dbUp).screen.students
    ensures Delete(s, selected, today, dbUp).outcome != Deleted ==>
              Delete(s, selected, today, dbUp).screen.students == s.students && Delete(s, selected, today, dbUp).screen.form == s.form
    ensures selected.None? ==> Delete(s, selected, today, dbUp).screen == s
    ensures Delete(s, selected, today, dbUp).outcome == DatabaseError ==> Delete(s, selected, today, dbUp).screen.shown == []
  {
    if selected.Some? && dbUp {
      DeleteRollKeeps(s.students, selected.value[Roll], x);
      DeleteRollRemoves(s.students, selected.value[Roll]);
    }
  }

  /** Deletes never break the uniqueness of roll numbers. */
  lemma DeleteKeepsUniqueRolls(s: Screen, selected: Option<Row>, today: Date, dbUp: bool)
    requires UniqueRolls(s.students)
    ensures UniqueRolls(Delete(s, selected, today, dbUp).screen.students)
  {
    if selected.Some? && dbUp {
      DeleteKeepsUnique(s.students, selected.value[Roll]);
    }
  }

  /** In a table with unique roll numbers, the rows with the roll number of
      a row in the table are that row alone. */
  lemma RollPicksRow(rows: seq<Row>, r: Row, k: nat)
    requires UniqueRolls(rows) && r in rows && k < |rows|
    ensures rows[k][Roll] == r[Roll] <==> rows[k] == r
  {
    var j :| 0 <= j < |rows| && rows[j] == r;
    assert j != k ==> rows[j][Roll] != rows[k][Roll];
  }

  /** Clicking a row of the table whose date reads as `yyyy-mm-dd` and
      pressing Update without editing anything, with the database answering:
      the table keeps its length, that row's address is overwritten with its
      branch unless the branch equals the date text, and every other row and
      column stays as it was. */
  lemma PickThenUpdate(s: Screen, r: Row, today: Date, k: nat)
    requires WellFormed(s.form) && ParseIso(r[Dob]).Some?
    requires UniqueRolls(s.students) && r in s.students && k < |s.students|
    ensures WellFormed(Display(s, Some(r)).form)
    ensures |Modify(Display(s, Some(r)), Some(r), today, true).screen.students| == |s.students|
    ensures Modify(Display(s, Some(r)), Some(r), today, true).screen.students[k] ==
              if s.students[k] == r && r[6] != r[9] then r[10 := r[6]] else s.students[k]
  {
    var t := Display(s, Some(r));
    RedisplayedUpdate(s.form, r);
    RedisplayedData(s.form, r);
    var data := UpdatedData(t.form);
    var ps := Changed(data, r);
    RollPicksRow(s.students, r, k);
    if ps == [] {
      ChangedNone(data, r);
      assert data[9] == r[9];
    } else {
      UpdateRowsEffect(s.students, r[Roll], data, ps, k, 0);
    }
  }

  /** Clearing empties every entry and choice: a cleared form cannot be saved. */
  lemma ClearThenSave(s: Screen, today: Date, dbUp: bool, dbUp': bool)
    requires ValidDate(today)
    ensures Save(Clear(s, today, dbUp), today, dbUp').outcome == Invalid(Required(Labels[FirstName]))
  {
    ClearedIsRejected(today);
  }
}
