/** The application's state and its button handlers: the form's widgets,
    the `students` table and the record list, changed in place by save,
    update, delete, search, clear and a click on a row.

    Whether the database answers is a parameter of each handler (`dbUp`):
    when it does not, the statement raises, the handler shows a database
    error, and the refresh that follows empties the record list. A click on
    a row is the `selected` parameter; search results come from the database
    and are a parameter too. */
module App {
  import opened Wrappers
  import opened Dates
  import opened Students
  import opened Form
  import opened Search
  import opened Update
  import opened Handlers

  class Session {
    /** The seven text entries, in the order of `entries`. */
    var texts: seq<string>
    var branch: string
    var course: string
    var gender: string
    /** The date picker's value. */
    var dob: Date
    /** The `students` table. */
    var students: seq<Row>
    /** The rows the record list shows. */
    var shown: seq<Row>

    predicate Valid()
      reads this
    {
      WellFormed(Current())
    }

    /** The form the widgets hold. */
    function Current(): Form
      reads this
    {
      Form(texts, branch, course, gender, dob)
    }

    /** Everything the handlers read and change. */
    function View(): Screen
      reads this
    {
      Screen(Current(), students, shown)
    }

    /** Start-up: an empty form dated today and the table loaded into the
        record list. */
    constructor (table: seq<Row>, today: Date, dbUp: bool)
      requires ValidDate(today)
      ensures Valid() && View() == ShowAll(Screen(Cleared(today), table, []), dbUp)
    {
      texts := ["", "", "", "", "", "", ""];
      branch, course, gender := "", "", "";
      dob := today;
      students := table;
      shown := if dbUp then table else [];
    }

    /** `show_all_records`. */
    method ShowAllRecords(dbUp: bool)
      modifies this
      ensures View() == ShowAll(old(View()), dbUp)
    {
      shown := if dbUp then students else [];
    }

    /** `clear_entries`: the entries emptied one by one, then the choices and
        the date, then the list reloaded. */
    method ClearEntries(today: Date, dbUp: bool)
      requires Valid() && ValidDate(today)
      modifies this
      ensures Valid() && View() == Clear(old(View()), today, dbUp)
    {
      for i := 0 to |texts|
        invariant |texts| == |Labels|
        invariant forall j :: 0 <= j < i ==> texts[j] == ""
        invariant students == old(students) && shown == old(shown)
      {
        texts := texts[i := ""];
      }
      assert texts == Cleared(today).texts;
      gender, branch, course := "", "", "";
      dob := today;
      ShowAllRecords(dbUp);
    }

    /** `display_selected_record`: the picked row's values go into the
        entries position by position while there are entries, then into the
        choices, then into the date. */
    method DisplaySelectedRecord(selected: Option<Row>)
      requires Valid()
      modifies this
      ensures Valid() && View() == Display(old(View()), selected)
    {
      if selected.Some? {
        var record := selected.value;
        ghost var f := Current();
        for i := 0 to |record|
          invariant |texts| == |Labels|
          invariant forall j :: 0 <= j < |Labels| ==> texts[j] == if j < i then record[j] else f.texts[j]
          invariant dob == f.dob && students == old(students) && shown == old(shown)
        {
          if i < |texts| {
            texts := texts[i := record[i]];
          }
        }
        assert texts == record[..7];
        branch := record[6];
        course := record[7];
        gender := record[8];
        var parsed := ParseIso(record[9]);
        if parsed.Some? {
          dob := parsed.value;
        }
        assert Current() == Displayed(f, record);
      }
    }

    /** `save_details`. */
    method SaveDetails(today: Date, dbUp: bool) returns (outcome: Outcome)
      requires Valid() && ValidDate(today)
      modifies this
      ensures Valid() && Response(View(), outcome) == Save(old(View()), today, dbUp)
    {
      var check := ValidateForm(Current());
      if check.Fail? {
        outcome := Invalid(check.error);
      } else if !dbUp {
        outcome := DatabaseError;
      } else if HasRoll(students, texts[RollNumber]) {
        return DuplicateRoll;
      } else {
        students := Insert(students, NewRow(Current()));
        ClearEntries(today, dbUp);
        outcome := Saved;
      }
      ShowAllRecords(dbUp);
    }

    /** `update_record`; also gives the statement it builds, when it builds one. */
    method UpdateRecord(selected: Option<Row>, today: Date, dbUp: bool) returns (outcome: Outcome, query: string, values: seq<string>)
      requires Valid() && ValidDate(today)
      modifies this
      ensures Valid() && Response(View(), outcome) == Modify(old(View()), selected, today, dbUp)
      ensures outcome in {Updated, DatabaseError} ==>
                var data := UpdatedData(old(Current()));
                && query == UpdateText(Assignments(Changed(data, selected.value)))
                && values == Picked(data, Changed(data, selected.value)) + [selected.value[Roll]]
    {
      query, values := "", [];
      if selected.None? {
        return NoSelection, query, values;
      }
      var record := selected.value;
      var data := UpdatedData(Current());
      var changed := ChangesMade(data, record);
      ChangedNone(data, record);
      if !changed {
        return NoChanges, query, values;
      }
      query, values := BuildUpdate(data, record);
      if dbUp {
        students := UpdateRows(students, record[Roll], data, Changed(data, record));
        ClearEntries(today, dbUp);
        outcome := Updated;
      } else {
        outcome := DatabaseError;
      }
      ShowAllRecords(dbUp);
    }

    /** `delete_record`. */
    method DeleteRecord(selected: Option<Row>, today: Date, dbUp: bool) returns (outcome: Outcome)
      requires Valid() && ValidDate(today)
      modifies this
      ensures Valid() && Response(View(), outcome) == Delete(old(View()), selected, today, dbUp)
    {
      if selected.None? {
        return NoSelection;
      }
      var record := selected.value;
      if dbUp {
        students := DeleteRoll(students, record[Roll]);
        ClearEntries(today, dbUp);
        outcome := Deleted;
      } else {
        outcome := DatabaseError;
      }
      ShowAllRecords(dbUp);
    }

    /** `search_records`: builds the query from the form and shows the rows
        the database returns for it. */
    method SearchRecords(matched: seq<Row>, dbUp: bool) returns (query: string, values: seq<string>, outcome: Outcome)
      requires Valid()
      modifies this
      ensures query == Query(SearchBase, Applied(Filters(old(Current()))))
      ensures values == Patterns(Applied(Filters(old(Current()))))
      ensures Valid() && Response(View(), outcome) == Find(old(View()), matched, dbUp)
    {
      var filters := Filters(Current());
      query, values := AddFilters(SearchBase, filters);
      shown := [];
      if dbUp {
        shown := matched;
        outcome := Found;
      } else {
        outcome := DatabaseError;
      }
    }
  }
}
