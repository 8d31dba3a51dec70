/** The on-screen form as a value: the seven text entries, the branch,
    course and gender choices and the date picker; how it is reset, how a
    picked row is copied into it, which row the save handler builds from it,
    and the input check the save handler runs over its entries. */
module Form {
  import opened Text
  import opened Dates
  import opened Wrappers
  import opened Students

  /** The labels of the text entries, in the order of `entries`. */
  const Labels: seq<string> :=
    ["Enter First Name", "Enter Last Name", "Enter Roll Number", "Enter Email",
     "Enter Mobile", "Enter Alternate Phone", "Enter Address"]

  /** Positions of the text entries. */
  const FirstName: nat := 0
  const LastName: nat := 1
  const RollNumber: nat := 2
  const Email: nat := 3
  const Mobile: nat := 4
  const AltPhone: nat := 5
  const Address: nat := 6

  datatype Form = Form(texts: seq<string>, branch: string, course: string, gender: string, dob: Date)

  predicate WellFormed(f: Form) {
    |f.texts| == |Labels| && ValidDate(f.dob)
  }

  /** The form after `clear_entries`: every entry and choice empty, the date today. */
  function Cleared(today: Date): Form {
    Form(["", "", "", "", "", "", ""], "", "", "", today)
  }

  /** The form after `display_selected_record` of row `r`: the first seven
      values go into the seven entries position by position (so the branch,
      r[6], lands in the address entry), the choices take r[6], r[7], r[8],
      and the date takes r[9] when it reads as a date; otherwise `set_date`
      raises and the date stays as it was. */
  function Displayed(f: Form, r: Row): Form {
    var d := match ParseIso(r[9]) case Some(d) => d case None => f.dob;
    Form(r[..7], r[6], r[7], r[8], d)
  }

  /** The form's value for the table column at position `c`, the date aside:
      the first six entries for the first six columns, then the branch,
      course and gender choices, and the address entry for the last column. */
  function ColumnValue(f: Form, c: nat): string
    requires |f.texts| == |Labels| && c < |Columns| && c != Dob
  {
    if c < 6 then f.texts[c]
    else if c == 6 then f.branch
    else if c == 7 then f.course
    else if c == 8 then f.gender
    else f.texts[Address]
  }

  /** The eleven values `save_details` inserts, in column order; the address
      is entries[6] and the date is written `yyyy-mm-dd`. */
  function NewRow(f: Form): (r: Row)
    requires WellFormed(f)
  {
    [f.texts[FirstName], f.texts[LastName], f.texts[RollNumber], f.texts[Email],
     f.texts[Mobile], f.texts[AltPhone], f.branch, f.course, f.gender,
     FormatIso(f.dob), f.texts[Address]]
  }

  /** Saving a form and then picking the saved row gives the form back, except
      that the address entry receives the branch. */
  lemma SelectSavedRow(f: Form, g: Form)
    requires WellFormed(f)
    ensures Displayed(g, NewRow(f)) == Form(f.texts[..6] + [f.branch], f.branch, f.course, f.gender, f.dob)
    ensures NewRow(f)[Roll] == f.texts[RollNumber]
  {
    ParseFormat(f.dob);
  }

  /** A member of the validated collection: a text entry with its label, or
      a choice variable. */
  datatype Field = Entry(labelText: string, text: string) | Choice(value: string)

  /** The form's `entries`, all of them text entries. */
  function Fields(f: Form): seq<Field>
    requires |f.texts| == |Labels|
  {
    seq(|Labels|, i requires 0 <= i < |Labels| => Entry(Labels[i], f.texts[i]))
  }

  datatype InputError = Required(labelText: string) | NoBranch | NoCourse | NoGender

  datatype Check = Pass | Fail(error: InputError)

  /** The text of the "Input Error" message box. */
  function Message(e: InputError): string {
    match e
    case Required(labelText) => labelText + " is required."
    case NoBranch => "Please select a valid Branch."
    case NoCourse => "Please select a valid Course."
    case NoGender => "Please select a valid Gender."
  }

  /** Every label starts with "Enter". */
  lemma LabelStart(l: string)
    requires l in Labels
    ensures |l| >= 5 && l[..5] == "Enter"
  {
  }

  /** Each input error has its own message: two messages for labels of the
      form are equal exactly when the errors are. */
  lemma MessagesDistinct(e1: InputError, e2: InputError)
    requires e1.Required? ==> e1.labelText in Labels
    requires e2.Required? ==> e2.labelText in Labels
    ensures Message(e1) == Message(e2) <==> e1 == e2
  {
    if e1.Required? && e2.Required? {
      if Message(e1) == Message(e2) {
        RequiredMessages(e1.labelText, e2.labelText);
      }
    } else if e1.Required? {
      RequiredIsNoChoice(e1.labelText, e2);
    } else if e2.Required? {
      RequiredIsNoChoice(e2.labelText, e1);
    } else {
      ChoiceMessages(e1, e2);
    }
  }

  /** Two "is required" messages name the same label. */
  lemma RequiredMessages(l1: string, l2: string)
    requires Message(Required(l1)) == Message(Required(l2))
    ensures l1 == l2
  {
    assert l1 == Message(Required(l1))[..|l1|];
    assert l2 == Message(Required(l2))[..|l2|];
  }

  /** An "is required" message for a label of the form is no choice message. */
  lemma RequiredIsNoChoice(l: string, e: InputError)
    requires l in Labels && !e.Required?
    ensures Message(Required(l)) != Message(e)
  {
    LabelStart(l);
    assert Message(Required(l))[0] == 'E';
    assert Message(e)[0] == 'P';
  }

  /** The three choice messages differ in the choice they name. */
  lemma ChoiceMessages(e1: InputError, e2: InputError)
    requires !e1.Required? && !e2.Required?
    ensures Message(e1) == Message(e2) <==> e1 == e2
  {
    assert Message(e1)[22] == ChoiceInitial(e1);
    assert Message(e2)[22] == ChoiceInitial(e2);
  }

  /** The initial of the choice a message asks for. */
  function ChoiceInitial(e: InputError): char {
    match e
    case NoBranch => 'B'
    case NoCourse => 'C'
    case _ => 'G'
  }

  /** `validate_entry`: a text entry passes only when its text is not blank
      and branch, course and gender are all chosen, the first failing of
      these four being reported; anything else passes. */
  function ValidateEntry(field: Field, branch: string, course: string, gender: string): Check {
    match field
    case Choice(_) => Pass
    case Entry(labelText, text) =>
      if Strip(text) == "" then Fail(Required(labelText))
      else if branch == "" then Fail(NoBranch)
      else if course == "" then Fail(NoCourse)
      else if gender == "" then Fail(NoGender)
      else Pass
  }

  /** The rules `validate_entry` applies, each in both directions. */
  lemma EntryRules(field: Field, branch: string, course: string, gender: string)
    ensures ValidateEntry(field, branch, course, gender) == Pass <==>
              (field.Entry? ==> !Blank(field.text) && branch != "" && course != "" && gender != "")
    ensures ValidateEntry(field, branch, course, gender).Fail? ==> field.Entry?
    ensures field.Entry? ==> (ValidateEntry(field, branch, course, gender) == Fail(Required(field.labelText)) <==> Blank(field.text))
    ensures ValidateEntry(field, branch, course, gender) == Fail(NoBranch) <==>
              field.Entry? && !Blank(field.text) && branch == ""
    ensures ValidateEntry(field, branch, course, gender) == Fail(NoCourse) <==>
              field.Entry? && !Blank(field.text) && branch != "" && course == ""
    ensures ValidateEntry(field, branch, course, gender) == Fail(NoGender) <==>
              field.Entry? && !Blank(field.text) && branch != "" && course != "" && gender == ""
  {
  }

  /** `all(validate_entry(entry) for entry in entries)`: the entries are
      checked in order and the first failure stops the check and is the one
      reported. */
  function ValidateAll(fields: seq<Field>, branch: string, course: string, gender: string): Check {
    if fields == [] then Pass
    else
      var c := ValidateEntry(fields[0], branch, course, gender);
      if c.Fail? then c else ValidateAll(fields[1..], branch, course, gender)
  }

  /** The check passes exactly when every field passes on its own. */
  lemma {:induction false} AllPass(fields: seq<Field>, branch: string, course: string, gender: string)
    ensures ValidateAll(fields, branch, course, gender) == Pass <==>
              forall i :: 0 <= i < |fields| ==> ValidateEntry(fields[i], branch, course, gender) == Pass
  {
    if fields != [] {
      var tail := fields[1..];
      AllPass(tail, branch, course, gender);
      assert forall i :: 0 < i < |fields| ==> fields[i] == tail[i - 1];
    }
  }

  /** The gate of `save_details` on a whole form. */
  function ValidateForm(f: Form): Check
    requires |f.texts| == |Labels|
  {
    ValidateAll(Fields(f), f.branch, f.course, f.gender)
  }

  /** The save handler goes ahead exactly when every entry is non-blank and
      branch, course and gender are all chosen. */
  lemma ValidateFormPasses(f: Form)
    requires |f.texts| == |Labels|
    ensures ValidateForm(f) == Pass <==>
              (forall i :: 0 <= i < |Labels| ==> !Blank(f.texts[i])) && f.branch != "" && f.course != "" && f.gender != ""
  {
    var fs := Fields(f);
    var b, c, g := f.branch, f.course, f.gender;
    AllPass(fs, b, c, g);
    forall i | 0 <= i < |Labels|
      ensures ValidateEntry(fs[i], b, c, g) == Pass <==> !Blank(f.texts[i]) && b != "" && c != "" && g != ""
    {
      assert fs[i] == Entry(Labels[i], f.texts[i]);
      EntryRules(fs[i], b, c, g);
    }
    if ValidateForm(f) == Pass {
      assert ValidateEntry(fs[0], b, c, g) == Pass;
    }
  }

  /** Which choice message a failing form shows: a missing branch, course or
      gender (in that order) is reported exactly when the first name is
      filled in, whatever the later entries hold, because every entry
      re-checks the three choices. */
  lemma ValidateFormReportsChoice(f: Form)
    requires |f.texts| == |Labels|
    ensures ValidateForm(f) == Fail(NoBranch) <==> !Blank(f.texts[0]) && f.branch == ""
    ensures ValidateForm(f) == Fail(NoCourse) <==> !Blank(f.texts[0]) && f.branch != "" && f.course == ""
    ensures ValidateForm(f) == Fail(NoGender) <==> !Blank(f.texts[0]) && f.branch != "" && f.course != "" && f.gender == ""
  {
    var fs := Fields(f);
    var r := ValidateForm(f);
    var b, c, g := f.branch, f.course, f.gender;
    AllPass(fs, b, c, g);
    assert fs[0] == Entry(Labels[0], f.texts[0]);
    EntryRules(fs[0], b, c, g);
    if r.Fail? {
      var i := FailingField(fs, b, c, g);
      assert fs[i] == Entry(Labels[i], f.texts[i]);
      EntryRules(fs[i], b, c, g);
    }
  }

  /** The labels tell the entries apart. */
  lemma LabelsDistinct(i: nat, k: nat)
    requires i < |Labels| && k < |Labels| && Labels[i] == Labels[k]
    ensures i == k
  {
    assert |Labels[0]| == 16 && |Labels[1]| == 15 && |Labels[2]| == 17 && |Labels[3]| == 11;
    assert |Labels[4]| == 12 && |Labels[5]| == 21 && |Labels[6]| == 13;
  }

  /** A failing check reports the first field that fails, and every field
      before it passes. */
  lemma {:induction false} FailingField(fields: seq<Field>, branch: string, course: string, gender: string) returns (k: nat)
    requires ValidateAll(fields, branch, course, gender).Fail?
    ensures k < |fields| && ValidateEntry(fields[k], branch, course, gender) == ValidateAll(fields, branch, course, gender)
    ensures forall j :: 0 <= j < k ==> ValidateEntry(fields[j], branch, course, gender) == Pass
  {
    if ValidateEntry(fields[0], branch, course, gender).Fail? {
      k := 0;
    } else {
      var tail := fields[1..];
      var m := FailingField(tail, branch, course, gender);
      k := m + 1;
      forall j | 0 <= j < k ensures ValidateEntry(fields[j], branch, course, gender) == Pass {
        if j > 0 {
          assert fields[j] == tail[j - 1];
        }
      }
    }
  }

  /** Where the check of a failing form stops. */
  lemma FirstFailure(f: Form) returns (k: nat)
    requires |f.texts| == |Labels| && ValidateForm(f).Fail?
    ensures k < |Labels| && ValidateEntry(Fields(f)[k], f.branch, f.course, f.gender) == ValidateForm(f)
    ensures forall j :: 0 <= j < k ==> !Blank(f.texts[j])
    ensures k > 0 ==> f.branch != "" && f.course != "" && f.gender != ""
  {
    var fs := Fields(f);
    assert ValidateForm(f) == ValidateAll(fs, f.branch, f.course, f.gender);
    k := FailingField(fs, f.branch, f.course, f.gender);
    FilledBefore(f, k);
    if k > 0 {
      EntryPasses(fs[0], f.branch, f.course, f.gender);
    }
  }

  /** The entries before one at which the check has not yet failed are filled in. */
  lemma FilledBefore(f: Form, k: nat)
    requires |f.texts| == |Labels| && k <= |Labels|
    requires forall j :: 0 <= j < k ==> ValidateEntry(Fields(f)[j], f.branch, f.course, f.gender) == Pass
    ensures forall j :: 0 <= j < k ==> !Blank(f.texts[j])
  {
    forall j | 0 <= j < k ensures !Blank(f.texts[j]) {
      EntryPasses(Fields(f)[j], f.branch, f.course, f.gender);
    }
  }

  /** A text entry that passes is filled in, with every choice made. */
  lemma EntryPasses(field: Field, branch: string, course: string, gender: string)
    requires field.Entry? && ValidateEntry(field, branch, course, gender) == Pass
    ensures !Blank(field.text) && branch != "" && course != "" && gender != ""
  {
    EntryRules(field, branch, course, gender);
  }

  /** Which entry a failing form names: entry `i` is reported exactly when it
      is the first blank entry and, unless it is the first name, branch,
      course and gender are all chosen. */
  lemma ValidateFormReportsEntry(f: Form, i: nat)
    requires |f.texts| == |Labels| && i < |Labels|
    ensures ValidateForm(f) == Fail(Required(Labels[i])) <==>
              && Blank(f.texts[i])
              && (forall j :: 0 <= j < i ==> !Blank(f.texts[j]))
              && (i > 0 ==> f.branch != "" && f.course != "" && f.gender != "")
  {
    if ValidateForm(f) == Fail(Required(Labels[i])) {
      ReportedEntryIsFirstBlank(f, i);
    }
    if Blank(f.texts[i]) && (forall j :: 0 <= j < i ==> !Blank(f.texts[j])) && (i > 0 ==> f.branch != "" && f.course != "" && f.gender != "") {
      FirstBlankIsReported(f, i);
    }
  }

  lemma ReportedEntryIsFirstBlank(f: Form, i: nat)
    requires |f.texts| == |Labels| && i < |Labels|
    requires ValidateForm(f) == Fail(Required(Labels[i]))
    ensures Blank(f.texts[i]) && (forall j :: 0 <= j < i ==> !Blank(f.texts[j]))
    ensures i > 0 ==> f.branch != "" && f.course != "" && f.gender != ""
  {
    var k := FirstFailure(f);
    assert Fields(f)[k] == Entry(Labels[k], f.texts[k]);
    EntryRules(Fields(f)[k], f.branch, f.course, f.gender);
    LabelsDistinct(i, k);
  }

  lemma FirstBlankIsReported(f: Form, i: nat)
    requires |f.texts| == |Labels| && i < |Labels|
    requires Blank(f.texts[i]) && (forall j :: 0 <= j < i ==> !Blank(f.texts[j]))
    requires i > 0 ==> f.branch != "" && f.course != "" && f.gender != ""
    ensures ValidateForm(f) == Fail(Required(Labels[i]))
  {
    var fs := Fields(f);
    assert fs[i] == Entry(Labels[i], f.texts[i]);
    EntryRules(fs[i], f.branch, f.course, f.gender);
    AllPass(fs, f.branch, f.course, f.gender);
    var k := FirstFailure(f);
    assert fs[k] == Entry(Labels[k], f.texts[k]);
    EntryRules(fs[k], f.branch, f.course, f.gender);
    assert k == i;
  }

  /** A freshly cleared form cannot be saved: the first name is reported. */
  lemma ClearedIsRejected(today: Date)
    ensures ValidateForm(Cleared(today)) == Fail(Required("Enter First Name"))
  {
    var f := Cleared(today);
    assert ValidateEntry(Fields(f)[0], "", "", "") == Fail(Required("Enter First Name"));
  }
}
