/** The add/edit student dialog: the birth-date format check, the values the
    form is reset to when it opens, and the request a submit sends. */
module StudentForm {
  import opened Wrappers
  import opened Text
  import opened Schema
  import opened Storage

  // ---------------------------------------------------------------------
  // the birth-date regex

  /** One position of an anchored regular expression without repetition
      operators: `\d` or a literal character. */
  datatype PatternItem = AnyDigit | Literal(c: char)

  function MatchesPattern(s: string, pattern: seq<PatternItem>): bool {
    |s| == |pattern|
    && forall i :: 0 <= i < |s| ==>
         match pattern[i]
         case AnyDigit => IsDigit(s[i])
         case Literal(c) => s[i] == c
  }

  /** `/^\d{4}-\d{2}-\d{2}$/` with the counted repetitions written out. */
  const BirthDatePattern: seq<PatternItem> :=
    [AnyDigit, AnyDigit, AnyDigit, AnyDigit, Literal('-'), AnyDigit, AnyDigit, Literal('-'), AnyDigit, AnyDigit]

  predicate BirthDateAccepted(s: string) {
    MatchesPattern(s, BirthDatePattern)
  }

  /** The form accepts every date the `date` column stores as given. */
  lemma IsoDatesAccepted(s: string)
    requires IsIsoDate(s)
    ensures BirthDateAccepted(s)
  {
    forall i | 0 <= i < |s|
      ensures match BirthDatePattern[i]
              case AnyDigit => IsDigit(s[i])
              case Literal(c) => s[i] == c
    {
      if i < 4 {} else if i == 4 {} else if i < 7 {} else if i == 7 {} else {}
    }
  }

  /** The form checks only the shape: exactly ten characters, digits with
      dashes at positions 4 and 7. */
  lemma AcceptedShape(s: string)
    requires BirthDateAccepted(s)
    ensures |s| == 10 && s[4] == '-' && s[7] == '-'
    ensures IsDigit(s[0]) && IsDigit(s[1]) && IsDigit(s[2]) && IsDigit(s[3])
    ensures IsDigit(s[5]) && IsDigit(s[6]) && IsDigit(s[8]) && IsDigit(s[9])
  {
    assert BirthDatePattern[4] == Literal('-') && BirthDatePattern[7] == Literal('-');
    assert forall i :: 0 <= i < 10 && i != 4 && i != 7 ==> BirthDatePattern[i] == AnyDigit;
  }

  /** Month and day ranges are not checked: a thirteenth month passes the
      form, and the `date` column then refuses it. */
  lemma MonthNotRangeChecked()
    ensures BirthDateAccepted("2006-13-45") && !IsIsoDate("2006-13-45")
  {
    var s := "2006-13-45";
    forall i | 0 <= i < |s|
      ensures match BirthDatePattern[i]
              case AnyDigit => IsDigit(s[i])
              case Literal(c) => s[i] == c
    {
      if i < 4 {} else if i == 4 {} else if i < 7 {} else if i == 7 {} else {}
    }
    assert DigitAt(s, 5) == 1 && DigitAt(s, 6) == 3;
  }

  // ---------------------------------------------------------------------
  // prefill and dispatch

  /** The form fields, all text. */
  datatype FormValues = FormValues(nis: string, name: string, major: string, birthDate: string,
                                   status: string, notes: string)

  /** The values the form is reset to: the student's own, with null notes
      as "", or the blank form whose status defaults to "LULUS". */
  function PrefillValues(student: Option<Student>): (v: FormValues)
    ensures student.None? ==> v.nis == v.name == v.major == v.birthDate == v.notes == "" && v.status == "LULUS"
  {
    match student
    case Some(s) => FormValues(s.nis, s.name, s.major, s.birthDate, s.status, if s.notes.Some? then s.notes.value else "")
    case None => FormValues("", "", "", "", "LULUS", "")
  }

  function AsInsert(v: FormValues): InsertStudent {
    InsertStudent(v.nis, v.name, v.major, v.birthDate, v.status, Some(v.notes))
  }

  /** The request a submit sends: an update of the edited student's id, or a
      create. */
  datatype Request = Create(input: InsertStudent) | Update(id: int, patch: StudentPatch)

  /** An update sends every field. */
  function FullPatch(input: InsertStudent): StudentPatch {
    StudentPatch(Some(input.nis), Some(input.name), Some(input.major), Some(input.birthDate),
                 Some(input.status), Some(input.notes))
  }

  function Dispatch(student: Option<Student>, v: FormValues): (r: Request)
    ensures r.Update? <==> student.Some?
    ensures r.Update? ==> r.id == student.value.id
  {
    match student
    case Some(s) => Update(s.id, FullPatch(AsInsert(v)))
    case None => Create(AsInsert(v))
  }

  /** Saving an edit without touching the form writes the row back as it
      was, except that null notes become "". */
  lemma UntouchedEditKeepsRow(parse: DateParser, s: Student)
    requires IsIsoDate(s.birthDate)
    ensures var r := Dispatch(Some(s), PrefillValues(Some(s)));
            r.Update? && ApplyPatch(parse, s, r.patch) == s.(notes := Some(if s.notes.Some? then s.notes.value else ""))
  {
    assert parse(s.birthDate) == Some(s.birthDate);
  }

  // ---------------------------------------------------------------------
  // the dialog

  class StudentFormDialog {
    /** The student being edited, None when adding one. */
    var student: Option<Student>
    var values: FormValues
    var open: bool

    constructor()
      ensures student.None? && values == PrefillValues(None) && !open
    {
      student := None;
      values := PrefillValues(None);
      open := false;
    }

    /** The dialog opens for `s`; the effect resets the form to its
        prefill. */
    method Show(s: Option<Student>)
      modifies this
      ensures student == s && values == PrefillValues(s) && open
    {
      student := s;
      open := true;
      values := PrefillValues(s);
    }

    /** Typing into the form. */
    method Edit(v: FormValues)
      modifies this`values
      ensures values == v
    {
      values := v;
    }

    /** `handleSubmit(onSubmit)`: values failing the birth-date check send
        nothing; otherwise the request is dispatched, and `succeeded` (the
        mutation's outcome) decides whether the dialog closes. */
    method Submit(succeeded: bool) returns (request: Option<Request>)
      modifies this`open
      ensures request == if BirthDateAccepted(values.birthDate) then Some(Dispatch(student, values)) else None
      ensures request.Some? && succeeded ==> !open
      ensures request.None? || !succeeded ==> open == old(open)
    {
      if !BirthDateAccepted(values.birthDate) {
        return None;
      }
      request := Some(Dispatch(student, values));
      if succeeded {
        open := false;
      }
    }
  }
}
