/** The three tables (`admins`, `students`, `settings`) as row types, the
    insert types without the system-assigned `id`, and the table-wide
    uniqueness constraints. */
module Schema {
  import opened Wrappers
  import opened Text

  /** A point in time, in milliseconds since the epoch. */
  type Timestamp = int

  /** A row of `admins`; `password` holds the stored credential hash. */
  datatype Admin = Admin(id: int, email: string, password: string)
  datatype InsertAdmin = InsertAdmin(email: string, password: string)

  /** A row of `students`; `notes` is the only nullable column. */
  datatype Student = Student(
    id: int, nis: string, name: string, major: string,
    birthDate: string, status: string, notes: Option<string>)

  /** The insert type: every column but `id`; `notes` may be null or left out
      (both stored as null). */
  datatype InsertStudent = InsertStudent(
    nis: string, name: string, major: string,
    birthDate: string, status: string, notes: Option<string>)

  /** `Partial<InsertStudent>`: None leaves a column as it is; for `notes`,
      Some(None) sets it to null. */
  datatype StudentPatch = StudentPatch(
    nis: Option<string>, name: Option<string>, major: Option<string>,
    birthDate: Option<string>, status: Option<string>, notes: Option<Option<string>>)

  /** The row of `settings`: the announcement gate. */
  datatype Setting = Setting(id: int, announcementDate: Option<Timestamp>, isOpen: bool)

  /** The insert type of `settings`: both columns may be left out (None);
      `announcementDate` may be null (Some(None)). */
  datatype InsertSetting = InsertSetting(announcementDate: Option<Option<Timestamp>>, isOpen: Option<bool>)

  /** The range of the `serial` id columns (PostgreSQL `integer`, 32 bits);
      a query comparing an id with a number outside it fails. */
  predicate IsInt4(n: int) {
    -0x8000_0000 <= n < 0x8000_0000
  }

  predicate NisUnique(rows: seq<Student>) {
    forall i, j :: 0 <= i < j < |rows| ==> rows[i].nis != rows[j].nis
  }

  predicate StudentIdsUnique(rows: seq<Student>) {
    forall i, j :: 0 <= i < j < |rows| ==> rows[i].id != rows[j].id
  }

  predicate EmailsUnique(rows: seq<Admin>) {
    forall i, j :: 0 <= i < j < |rows| ==> rows[i].email != rows[j].email
  }

  predicate AdminIdsUnique(rows: seq<Admin>) {
    forall i, j :: 0 <= i < j < |rows| ==> rows[i].id != rows[j].id
  }

  predicate NisTaken(rows: seq<Student>, nis: string) {
    exists i :: 0 <= i < |rows| && rows[i].nis == nis
  }

  predicate EmailTaken(rows: seq<Admin>, email: string) {
    exists i :: 0 <= i < |rows| && rows[i].email == email
  }

  // ---------------------------------------------------------------------
  // the `date` column

  function DigitAt(s: string, i: nat): int
    requires i < |s|
  {
    s[i] as int - '0' as int
  }

  predicate IsLeapYear(y: int) {
    (y % 4 == 0 && y % 100 != 0) || y % 400 == 0
  }

  function DaysInMonth(y: int, m: int): int
    requires 1 <= m <= 12
  {
    if m == 2 then (if IsLeapYear(y) then 29 else 28)
    else if m == 4 || m == 6 || m == 9 || m == 11 then 30
    else 31
  }

  /** A calendar date in the extended format of ISO 8601, `YYYY-MM-DD`, that
      names a day of the Gregorian calendar (year 1 onwards). */
  predicate IsIsoDate(s: string) {
    && |s| == 10 && s[4] == '-' && s[7] == '-'
    && IsDigit(s[0]) && IsDigit(s[1]) && IsDigit(s[2]) && IsDigit(s[3])
    && IsDigit(s[5]) && IsDigit(s[6]) && IsDigit(s[8]) && IsDigit(s[9])
    && var year := 1000 * DigitAt(s, 0) + 100 * DigitAt(s, 1) + 10 * DigitAt(s, 2) + DigitAt(s, 3);
       var month := 10 * DigitAt(s, 5) + DigitAt(s, 6);
       var day := 10 * DigitAt(s, 8) + DigitAt(s, 9);
       1 <= year && 1 <= month <= 12 && 1 <= day <= DaysInMonth(year, month)
  }

  /** How the database reads text into the `date` column: an ISO date is
      stored as given; other spellings may be accepted too, and what is stored
      for them need not be ISO (the special values `infinity` and `-infinity`,
      years past 9999, dates before the common era). */
  ghost predicate IsDateParser(parse: string -> Option<string>) {
    forall s :: IsIsoDate(s) ==> parse(s) == Some(s)
  }

  function StrictIsoDate(s: string): Option<string> {
    if IsIsoDate(s) then Some(s) else None
  }

  type DateParser = parse: string -> Option<string> | IsDateParser(parse) witness StrictIsoDate

  /** A reading that also accepts the two special values, storing them as
      written. */
  function WithSpecialDates(s: string): Option<string> {
    if IsIsoDate(s) || s == "infinity" || s == "-infinity" then Some(s) else None
  }

  /** The model admits a column that stores a date that is not ISO:
      "infinity" is read and stored as "infinity". */
  lemma SpecialDateStorable()
    ensures IsDateParser(WithSpecialDates)
    ensures WithSpecialDates("infinity") == Some("infinity") && !IsIsoDate("infinity")
  {
  }
}
