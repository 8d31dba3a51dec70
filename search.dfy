/** The search handler's query builder: every non-empty form value becomes
    one `AND <column> LIKE %s` condition and one `%value%` parameter. */
module Search {
  import opened Text
  import opened Students
  import opened Form

  /** The SELECT that lists every column of the table in table order, then
      the condition every filter is appended to. */
  const SearchBase: string :=
    "SELECT first_name, last_name, " + "roll_number, email, mobile, " + "alt_mobile, branch, course, "
    + "gender, dob, address " + "FROM students WHERE 1=1"

  /** Pieces without `%` make a text without `%`. */
  lemma NoPlaceholderInPieces(a: string, b: string, c: string, d: string, e: string)
    requires '%' !in a && '%' !in b && '%' !in c && '%' !in d && '%' !in e
    ensures Count('%', a + b + c + d + e) == 0
  {
    CountAbsent('%', a + b + c + d + e);
  }

  /** The pieces of the fixed part of the query hold no `%`. */
  lemma SelectPiece0() ensures '%' !in "SELECT first_name, last_name, " {}
  lemma SelectPiece1() ensures '%' !in "roll_number, email, mobile, " {}
  lemma SelectPiece2() ensures '%' !in "alt_mobile, branch, course, " {}
  lemma SelectPiece3() ensures '%' !in "gender, dob, address " {}
  lemma SelectPiece4() ensures '%' !in "FROM students WHERE 1=1" {}

  /** The fixed part of the query holds no placeholder. */
  lemma SearchBaseHasNoPlaceholder()
    ensures Count('%', SearchBase) == 0
  {
    SelectPiece0(); SelectPiece1(); SelectPiece2(); SelectPiece3(); SelectPiece4();
    NoPlaceholderInPieces("SELECT first_name, last_name, ", "roll_number, email, mobile, ",
      "alt_mobile, branch, course, ", "gender, dob, address ", "FROM students WHERE 1=1");
  }

  datatype Filter = Filter(column: string, value: string)

  /** Where in a table row each search filter's column sits, in the order of
      the handler's `filters` dictionary: every column except the date of
      birth, in table order. */
  const FilterColumns: seq<nat> := [0, 1, 2, 3, 4, 5, 6, 7, 8, 10]

  /** The keys come in table order, each once, and `dob` is not among them. */
  lemma FilterColumnsInOrder()
    ensures forall k :: 0 <= k < |FilterColumns| ==> FilterColumns[k] < |Columns| && FilterColumns[k] != Dob
    ensures forall k, l :: 0 <= k < l < |FilterColumns| ==> FilterColumns[k] < FilterColumns[l]
    ensures forall c :: 0 <= c < |Columns| && c != Dob ==> c in FilterColumns
  {
    forall c | 0 <= c < |Columns| && c != Dob ensures c in FilterColumns {
      assert FilterColumns[if c < Dob then c else c - 1] == c;
    }
  }

  /** The `filters` dictionary of the search handler: each text entry and
      choice under its column name, in table order. The date is not a filter. */
  function Filters(f: Form): (fs: seq<Filter>)
    requires |f.texts| == |Labels|
    ensures |fs| == |FilterColumns|
  {
    FilterColumnsInOrder();
    seq(|FilterColumns|, k requires 0 <= k < |FilterColumns| =>
      Filter(Columns[FilterColumns[k]], ColumnValue(f, FilterColumns[k])))
  }

  /** The date of birth is never a search filter. */
  lemma DobNeverFiltered(f: Form)
    requires |f.texts| == |Labels|
    ensures forall k :: 0 <= k < |Filters(f)| ==> Filters(f)[k].column != "dob"
  {
    FilterColumnsInOrder();
    forall k | 0 <= k < |Filters(f)| ensures Filters(f)[k].column != "dob" {
      if Filters(f)[k].column == "dob" {
        DobColumn(FilterColumns[k]);
      }
    }
  }

  /** Which form value each filter carries: the first six entries under the
      first six columns, then the branch, course and gender choices, and the
      address entry under `address`. */
  lemma FilterPairs(f: Form)
    requires |f.texts| == |Labels|
    ensures forall k :: 0 <= k < 6 ==> Filters(f)[k] == Filter(Columns[k], f.texts[k])
    ensures Filters(f)[6] == Filter(Columns[6], f.branch)
    ensures Filters(f)[7] == Filter(Columns[7], f.course)
    ensures Filters(f)[8] == Filter(Columns[8], f.gender)
    ensures Filters(f)[9] == Filter(Columns[10], f.texts[Address])
  {
  }

  /** The filters that take part (`if value:`), in their original order. */
  function Applied(fs: seq<Filter>): seq<Filter> {
    if fs == [] then []
    else Applied(fs[..|fs| - 1]) + (if fs[|fs| - 1].value != "" then [fs[|fs| - 1]] else [])
  }

  /** The condition one filter adds. */
  function Condition(column: string): string {
    " AND " + column + " LIKE %s"
  }

  /** The query once the conditions of `fs` are appended, in order, to `base`. */
  function Query(base: string, fs: seq<Filter>): string {
    if fs == [] then base else Query(base, fs[..|fs| - 1]) + Condition(fs[|fs| - 1].column)
  }

  /** The `%value%` pattern of each filter. */
  function Patterns(fs: seq<Filter>): (ps: seq<string>)
    ensures |ps| == |fs|
  {
    seq(|fs|, k requires 0 <= k < |fs| => "%" + fs[k].value + "%")
  }

  /** One more filter is kept when it has a value. */
  lemma AppliedStep(fs: seq<Filter>, i: nat)
    requires i < |fs|
    ensures Applied(fs[..i + 1]) == Applied(fs[..i]) + (if fs[i].value != "" then [fs[i]] else [])
  {
    assert fs[..i + 1][..i] == fs[..i];
  }

  lemma QueryAppend(base: string, ks: seq<Filter>, x: Filter)
    ensures Query(base, ks + [x]) == Query(base, ks) + Condition(x.column)
  {
    assert (ks + [x])[..|ks|] == ks;
  }

  lemma PatternsAppend(ks: seq<Filter>, x: Filter)
    ensures Patterns(ks + [x]) == Patterns(ks) + ["%" + x.value + "%"]
  {
  }

  /** The loop of `search_records`: starting from the query it was given,
      appends a condition and a parameter for each non-empty filter, in order. */
  method AddFilters(query0: string, filters: seq<Filter>) returns (query: string, values: seq<string>)
    ensures query == Query(query0, Applied(filters))
    ensures values == Patterns(Applied(filters))
  {
    query := query0;
    values := [];
    for i := 0 to |filters|
      invariant query == Query(query0, Applied(filters[..i]))
      invariant values == Patterns(Applied(filters[..i]))
    {
      AppliedStep(filters, i);
      var key, value := filters[i].column, filters[i].value;
      if value != "" {
        QueryAppend(query0, Applied(filters[..i]), filters[i]);
        PatternsAppend(Applied(filters[..i]), filters[i]);
        query := query + (" AND " + key + " LIKE %s");
        values := values + ["%" + value + "%"];
      } else {
        assert Applied(filters[..i]) + [] == Applied(filters[..i]);
      }
    }
    assert filters[..|filters|] == filters;
  }

  /** The filters kept are exactly those with a value, as often as given. */
  lemma {:induction false} AppliedMembers(fs: seq<Filter>)
    ensures forall x :: multiset(Applied(fs))[x] == if x.value == "" then 0 else multiset(fs)[x]
  {
    if fs != [] {
      var init := fs[..|fs| - 1];
      AppliedMembers(init);
      assert fs == init + [fs[|fs| - 1]];
    }
  }

  /** The number of filters with a value, counted from the front. */
  function NonEmpty(fs: seq<Filter>): nat {
    if fs == [] then 0 else (if fs[0].value != "" then 1 else 0) + NonEmpty(fs[1..])
  }

  lemma {:induction false} NonEmptyAppend(fs: seq<Filter>, x: Filter)
    ensures NonEmpty(fs + [x]) == NonEmpty(fs) + (if x.value != "" then 1 else 0)
  {
    if fs != [] {
      assert (fs + [x])[1..] == fs[1..] + [x];
      NonEmptyAppend(fs[1..], x);
    }
  }

  /** One parameter for each non-empty filter. */
  lemma {:induction false} AppliedCount(fs: seq<Filter>)
    ensures |Applied(fs)| == NonEmpty(fs)
  {
    if fs != [] {
      var init := fs[..|fs| - 1];
      AppliedCount(init);
      NonEmptyAppend(init, fs[|fs| - 1]);
      assert fs == init + [fs[|fs| - 1]];
    }
  }

  /** With every value empty no filter takes part; with at least one value,
      at least one does. */
  lemma {:induction false} AppliedNone(fs: seq<Filter>)
    ensures Applied(fs) == [] <==> forall k :: 0 <= k < |fs| ==> fs[k].value == ""
  {
    if fs != [] {
      var init := fs[..|fs| - 1];
      AppliedNone(init);
      assert forall k :: 0 <= k < |init| ==> init[k] == fs[k];
    }
  }

  /** A condition holds exactly one placeholder. */
  lemma ConditionPlaceholder(column: string)
    requires '%' !in column
    ensures Count('%', Condition(column)) == 1
  {
    CountOne('%', " AND " + column + " LIKE ", "s");
    assert Condition(column) == " AND " + column + " LIKE " + ['%'] + "s";
  }

  /** Appending one condition to a text adds exactly one placeholder. */
  lemma CountStep(pre: string, column: string)
    requires '%' !in column
    ensures Count('%', pre + Condition(column)) == Count('%', pre) + 1
  {
    ConditionPlaceholder(column);
    CountConcat('%', pre, Condition(column));
  }

  /** Conditions hold one placeholder each, so a query without placeholders
      of its own gets one per filter. */
  lemma {:induction false} PlaceholdersMatch(base: string, fs: seq<Filter>)
    requires Count('%', base) == 0
    requires forall k :: 0 <= k < |fs| ==> '%' !in fs[k].column
    ensures Count('%', Query(base, fs)) == |fs|
  {
    if fs != [] {
      var init := fs[..|fs| - 1];
      PlaceholdersMatch(base, init);
      CountStep(Query(base, init), fs[|fs| - 1].column);
    }
  }

  /** The search handler sends one parameter per non-empty form value. */
  lemma SearchParameterCount(f: Form)
    requires |f.texts| == |Labels|
    ensures |Patterns(Applied(Filters(f)))| == NonEmpty(Filters(f))
  {
    AppliedCount(Filters(f));
  }

  /** Every filter that takes part is one of the filters given. */
  lemma AppliedFrom(fs: seq<Filter>, k: nat)
    requires k < |Applied(fs)|
    ensures Applied(fs)[k] in fs
  {
    AppliedMembers(fs);
    assert multiset(Applied(fs))[Applied(fs)[k]] > 0;
  }

  /** Every condition the search handler adds names a column of the table
      other than the date of birth. */
  lemma SearchColumns(f: Form, k: nat)
    requires |f.texts| == |Labels|
    requires k < |Applied(Filters(f))|
    ensures exists c :: 0 <= c < |Columns| && c != Dob && Applied(Filters(f))[k].column == Columns[c]
  {
    var fs := Filters(f);
    AppliedFrom(fs, k);
    var j :| 0 <= j < |fs| && fs[j] == Applied(fs)[k];
    FilterColumnsInOrder();
  }

  /** The query the search handler sends holds exactly as many placeholders
      as it has parameters. */
  lemma SearchPlaceholders(f: Form)
    requires |f.texts| == |Labels|
    ensures Count('%', Query(SearchBase, Applied(Filters(f)))) == |Patterns(Applied(Filters(f)))|
  {
    var applied := Applied(Filters(f));
    forall k | 0 <= k < |applied| ensures '%' !in applied[k].column {
      SearchColumns(f, k);
      var c :| 0 <= c < |Columns| && c != Dob && applied[k].column == Columns[c];
      ColumnsHaveNoPlaceholder(c);
    }
    SearchBaseHasNoPlaceholder();
    PlaceholdersMatch(SearchBase, applied);
  }

  /** Every filter's value is empty exactly when every entry and every choice is. */
  lemma FilterValuesEmpty(f: Form)
    requires |f.texts| == |Labels|
    ensures (forall k :: 0 <= k < |Filters(f)| ==> Filters(f)[k].value == "") <==>
              (forall i :: 0 <= i < |Labels| ==> f.texts[i] == "") && f.branch == "" && f.course == "" && f.gender == ""
  {
    var fs := Filters(f);
    FilterColumnsInOrder();
    if forall k :: 0 <= k < |fs| ==> fs[k].value == "" {
      assert fs[6].value == f.branch && fs[7].value == f.course && fs[8].value == f.gender;
      forall i | 0 <= i < |Labels| ensures f.texts[i] == "" {
        var k := if i < 6 then i else 9;
        assert fs[k].value == f.texts[i];
      }
    }
  }

  /** The search handler adds no condition, and so sends the bare query,
      exactly when every value on the form is empty. */
  lemma SearchBare(f: Form)
    requires |f.texts| == |Labels|
    ensures Applied(Filters(f)) == [] <==>
              (forall i :: 0 <= i < |Labels| ==> f.texts[i] == "") && f.branch == "" && f.course == "" && f.gender == ""
  {
    AppliedNone(Filters(f));
    FilterValuesEmpty(f);
  }

  /** A cleared form searches for everything: the bare query, no parameter. */
  lemma ClearedSearchesAll(today: Dates.Date)
    ensures Applied(Filters(Cleared(today))) == []
  {
    SearchBare(Cleared(today));
  }
}
