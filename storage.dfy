/** The storage layer (`DatabaseStorage`): the `admins`, `students` and
    `settings` tables held in memory, each with the serial counter the
    database draws its ids from. The pure functions below say what each write
    does to a table; the class methods perform the writes. */
module Storage {
  import opened Wrappers
  import opened Schema

  /** Why the database refuses a write. */
  datatype DbError =
    | InvalidDate      // text the `date` column cannot read
    | UniqueViolation  // a second row with the same `nis`, or the same `email`
    | NoValues         // an update that sets no column at all

  datatype UpdateResult = Updated(row: Student) | NoRow | Rejected(error: DbError)

  // ---------------------------------------------------------------------
  // lookups (a `select ... where column = value`)

  function FindAdminByEmail(rows: seq<Admin>, email: string): (r: Option<Admin>)
    ensures r.Some? ==> r.value in rows && r.value.email == email
    ensures r.None? <==> !EmailTaken(rows, email)
  {
    if |rows| == 0 then None
    else if rows[0].email == email then Some(rows[0])
    else FindAdminByEmail(rows[1..], email)
  }

  function FindAdminById(rows: seq<Admin>, id: int): (r: Option<Admin>)
    ensures r.Some? ==> r.value in rows && r.value.id == id
    ensures r.None? <==> forall i :: 0 <= i < |rows| ==> rows[i].id != id
  {
    if |rows| == 0 then None
    else if rows[0].id == id then Some(rows[0])
    else FindAdminById(rows[1..], id)
  }

  function FindStudentByNis(rows: seq<Student>, nis: string): (r: Option<Student>)
    ensures r.Some? ==> r.value in rows && r.value.nis == nis
    ensures r.None? <==> !NisTaken(rows, nis)
  {
    if |rows| == 0 then None
    else if rows[0].nis == nis then Some(rows[0])
    else FindStudentByNis(rows[1..], nis)
  }

  /** The position of the row with this id. */
  function IndexOfId(rows: seq<Student>, id: int): (r: Option<nat>)
    ensures r.Some? ==> r.value < |rows| && rows[r.value].id == id
                        && forall k :: 0 <= k < r.value ==> rows[k].id != id
    ensures r.None? <==> forall i :: 0 <= i < |rows| ==> rows[i].id != id
  {
    if |rows| == 0 then None
    else if rows[0].id == id then Some(0)
    else match IndexOfId(rows[1..], id)
      case None => None
      case Some(i) => Some(i + 1)
  }

  function FindStudentById(rows: seq<Student>, id: int): (r: Option<Student>)
    ensures r.Some? ==> r.value in rows && r.value.id == id
    ensures r.None? <==> forall i :: 0 <= i < |rows| ==> rows[i].id != id
  {
    match IndexOfId(rows, id)
    case None => None
    case Some(i) => Some(rows[i])
  }

  /** With `nis` unique, the row found by `nis` is the only one that has it. */
  lemma {:induction false} FoundByNisIsOnly(rows: seq<Student>, nis: string, i: int)
    requires NisUnique(rows)
    requires 0 <= i < |rows| && rows[i].nis == nis
    ensures FindStudentByNis(rows, nis) == Some(rows[i])
  {
    if i > 0 {
      assert rows[0].nis != nis;
      FoundByNisIsOnly(rows[1..], nis, i - 1);
    }
  }

  // ---------------------------------------------------------------------
  // writes to `students`

  /** The row an insert adds, or the error it raises: a date the column
      cannot read fails first, then a `nis` already in the table. The id is
      the next value of the serial counter. */
  function NewStudentRow(parse: DateParser, rows: seq<Student>, nextId: int, input: InsertStudent)
    : (r: Result<Student, DbError>)
    ensures r.Ok? <==> parse(input.birthDate).Some? && !NisTaken(rows, input.nis)
    ensures parse(input.birthDate).None? ==> r == Err(InvalidDate)
    ensures parse(input.birthDate).Some? && NisTaken(rows, input.nis) ==> r == Err(UniqueViolation)
    ensures r.Ok? ==> r.value.id == nextId && r.value.nis == input.nis
    ensures IsIsoDate(input.birthDate) ==> (r.Ok? <==> !NisTaken(rows, input.nis))
                                           && (r.Ok? ==> r.value.birthDate == input.birthDate)
    ensures r.Ok? ==> && r.value.name == input.name && r.value.major == input.major
                      && r.value.birthDate == parse(input.birthDate).value
                      && r.value.status == input.status && r.value.notes == input.notes
  {
    match parse(input.birthDate)
    case None => Err(InvalidDate)
    case Some(date) =>
      if NisTaken(rows, input.nis) then Err(UniqueViolation)
      else Ok(Student(nextId, input.nis, input.name, input.major, date, input.status, input.notes))
  }

  predicate IsEmptyPatch(p: StudentPatch) {
    p.nis.None? && p.name.None? && p.major.None? && p.birthDate.None? && p.status.None? && p.notes.None?
  }

  /** The columns a patch leaves out keep their values. */
  predicate KeepsOmitted(s: Student, p: StudentPatch, r: Student) {
    && (p.nis.None? ==> r.nis == s.nis) && (p.name.None? ==> r.name == s.name)
    && (p.major.None? ==> r.major == s.major) && (p.birthDate.None? ==> r.birthDate == s.birthDate)
    && (p.status.None? ==> r.status == s.status) && (p.notes.None? ==> r.notes == s.notes)
  }

  /** A row after `set(patch)`: supplied columns are overwritten (a date as the
      column reads it), the others kept, the id never changes. */
  function ApplyPatch(parse: DateParser, s: Student, p: StudentPatch): (r: Student)
    requires p.birthDate.None? || parse(p.birthDate.value).Some?
    ensures r.id == s.id && KeepsOmitted(s, p, r)
    ensures p.nis.Some? ==> r.nis == p.nis.value
    ensures p.name.Some? ==> r.name == p.name.value
    ensures p.major.Some? ==> r.major == p.major.value
    ensures p.birthDate.Some? ==> r.birthDate == parse(p.birthDate.value).value
    ensures p.status.Some? ==> r.status == p.status.value
    ensures p.notes.Some? ==> r.notes == p.notes.value
    ensures p.birthDate.Some? && IsIsoDate(p.birthDate.value) ==> r.birthDate == p.birthDate.value
  {
    Student(s.id, p.nis.GetOr(s.nis), p.name.GetOr(s.name), p.major.GetOr(s.major),
            if p.birthDate.Some? then parse(p.birthDate.value).value else s.birthDate,
            p.status.GetOr(s.status), p.notes.GetOr(s.notes))
  }

  /** The outcome of `update students set patch where id = id`: an empty patch
      is refused before the query is sent, an unreadable date before any row
      is looked at; then an unknown id updates nothing, and a `nis` held by
      another row violates the unique constraint. */
  function UpdatedRow(parse: DateParser, rows: seq<Student>, id: int, p: StudentPatch): (r: UpdateResult)
    ensures IsEmptyPatch(p) ==> r == Rejected(NoValues)
    ensures r.NoRow? ==> forall i :: 0 <= i < |rows| ==> rows[i].id != id
    ensures r.Updated? ==> exists i :: 0 <= i < |rows| && rows[i].id == id && KeepsOmitted(rows[i], p, r.row)
    ensures r.Updated? ==> r.row.id == id
    ensures !IsEmptyPatch(p) && p.birthDate.Some? && parse(p.birthDate.value).None? ==> r == Rejected(InvalidDate)
    ensures !IsEmptyPatch(p) && (p.birthDate.None? || parse(p.birthDate.value).Some?) ==>
              (r.NoRow? <==> forall i :: 0 <= i < |rows| ==> rows[i].id != id)
    ensures !IsEmptyPatch(p) && (p.birthDate.None? || parse(p.birthDate.value).Some?) && IndexOfId(rows, id).Some? ==>
              var i := IndexOfId(rows, id).value;
              var row := ApplyPatch(parse, rows[i], p);
              && ((forall j :: 0 <= j < |rows| && j != i ==> rows[j].nis != row.nis) ==> r == Updated(row))
              && ((exists j :: 0 <= j < |rows| && j != i && rows[j].nis == row.nis) ==> r == Rejected(UniqueViolation))
  {
    if IsEmptyPatch(p) then Rejected(NoValues)
    else if p.birthDate.Some? && parse(p.birthDate.value).None? then Rejected(InvalidDate)
    else match IndexOfId(rows, id)
      case None => NoRow
      case Some(i) =>
        var row := ApplyPatch(parse, rows[i], p);
        if exists j :: 0 <= j < |rows| && j != i && rows[j].nis == row.nis then Rejected(UniqueViolation)
        else Updated(row)
  }

  /** The table after `delete from students where id = id`. */
  function WithoutId(rows: seq<Student>, id: int): (r: seq<Student>)
    ensures |r| <= |rows|
    ensures (forall i :: 0 <= i < |rows| ==> rows[i].id != id) ==> r == rows
  {
    match IndexOfId(rows, id)
    case None => rows
    case Some(i) => rows[..i] + rows[i + 1..]
  }

  /** Deleting keeps every other row, in order, and with ids unique removes
      every row with that id. */
  lemma DeleteRemovesOnlyThatRow(rows: seq<Student>, id: int)
    requires StudentIdsUnique(rows)
    ensures forall s :: s in WithoutId(rows, id) <==> s in rows && s.id != id
  {
    var r := WithoutId(rows, id);
    match IndexOfId(rows, id)
    case None =>
    case Some(i) =>
      forall s ensures s in r <==> s in rows && s.id != id {
        if s in rows && s.id != id {
          var k :| 0 <= k < |rows| && rows[k] == s;
          if k < i { assert r[k] == s; } else { assert k != i && r[k - 1] == s; }
        }
      }
  }

  /** The constraints of `students`: unique `nis` and id, ids below the
      serial counter. */
  predicate StudentTableValid(rows: seq<Student>, nextId: int) {
    && NisUnique(rows) && StudentIdsUnique(rows)
    && (forall i :: 0 <= i < |rows| ==> 1 <= rows[i].id < nextId)
  }

  /** An insert with the next id and a free `nis` keeps the constraints. */
  lemma AppendKeepsTable(rows: seq<Student>, nextId: int, row: Student)
    requires StudentTableValid(rows, nextId) && 1 <= nextId
    requires row.id == nextId && !NisTaken(rows, row.nis)
    ensures StudentTableValid(rows + [row], nextId + 1)
  {
    var r := rows + [row];
    assert forall a :: 0 <= a < |rows| ==> r[a] == rows[a];
  }

  /** Overwriting a row, its id kept, with a `nis` no other row holds, keeps
      the constraints. */
  lemma ReplaceKeepsTable(rows: seq<Student>, nextId: int, i: nat, row: Student)
    requires StudentTableValid(rows, nextId) && i < |rows|
    requires row.id == rows[i].id
    requires forall j :: 0 <= j < |rows| && j != i ==> rows[j].nis != row.nis
    ensures StudentTableValid(rows[i := row], nextId)
  {
    var r := rows[i := row];
    assert forall a :: 0 <= a < |rows| && a != i ==> r[a] == rows[a];
  }

  /** Removing a row keeps the constraints. */
  lemma RemoveKeepsTable(rows: seq<Student>, nextId: int, i: nat)
    requires StudentTableValid(rows, nextId) && i < |rows|
    ensures StudentTableValid(rows[..i] + rows[i + 1..], nextId)
  {
    var r := rows[..i] + rows[i + 1..];
    assert forall a :: 0 <= a < |r| ==> r[a] == rows[if a < i then a else a + 1];
  }

  // ---------------------------------------------------------------------
  // writes to `settings`

  /** The single row after `updateSettings(data)`: an existing row is updated
      in place and keeps its id (an update with no column is refused); with no
      row, one is inserted, `isOpen` defaulting to false and the date to null. */
  function SettingsUpsert(rows: seq<Setting>, nextId: int, data: InsertSetting): (r: Result<Setting, DbError>)
    ensures r.Err? <==> |rows| > 0 && data.announcementDate.None? && data.isOpen.None?
    ensures r.Ok? && |rows| > 0 ==> r.value.id == rows[0].id
    ensures r.Ok? && data.isOpen.Some? ==> r.value.isOpen == data.isOpen.value
    ensures r.Ok? && data.announcementDate.Some? ==> r.value.announcementDate == data.announcementDate.value
    ensures r.Ok? && |rows| > 0 && data.isOpen.None? ==> r.value.isOpen == rows[0].isOpen
    ensures r.Ok? && |rows| > 0 && data.announcementDate.None? ==> r.value.announcementDate == rows[0].announcementDate
    ensures |rows| == 0 ==> && r.Ok? && r.value.id == nextId
                            && (data.isOpen.None? ==> !r.value.isOpen)
                            && (data.announcementDate.None? ==> r.value.announcementDate.None?)
  {
    if |rows| > 0 then
      if data.announcementDate.None? && data.isOpen.None? then Err(NoValues)
      else Ok(Setting(rows[0].id, data.announcementDate.GetOr(rows[0].announcementDate),
                      data.isOpen.GetOr(rows[0].isOpen)))
    else Ok(Setting(nextId, data.announcementDate.GetOr(None), data.isOpen.GetOr(false)))
  }

  /** Inserting the first settings row without an `isOpen` leaves the gate
      closed and the date null. */
  lemma FirstSettingsRowDefaultsClosed(nextId: int, data: InsertSetting)
    requires data.isOpen.None? && data.announcementDate.None?
    ensures SettingsUpsert([], nextId, data) == Ok(Setting(nextId, None, false))
  {
  }

  // ---------------------------------------------------------------------
  // the store

  class DatabaseStorage {
    /** How the `date` column reads text. */
    const parseDate: DateParser
    var admins: seq<Admin>
    var students: seq<Student>
    var settingsRows: seq<Setting>
    var nextAdminId: int
    var nextStudentId: int
    var nextSettingId: int

    /** The table constraints: unique `email`, unique `nis`, primary keys
        below their serial counters, at most one settings row. */
    ghost predicate Valid()
      reads this
    {
      && 1 <= nextAdminId && 1 <= nextStudentId && 1 <= nextSettingId
      && EmailsUnique(admins) && AdminIdsUnique(admins)
      && (forall i :: 0 <= i < |admins| ==> 1 <= admins[i].id < nextAdminId)
      && StudentTableValid(students, nextStudentId)
      && |settingsRows| <= 1
      && (forall i :: 0 <= i < |settingsRows| ==> 1 <= settingsRows[i].id < nextSettingId)
    }

    constructor (parseDate: DateParser)
      ensures Valid() && this.parseDate == parseDate
      ensures admins == [] && students == [] && settingsRows == []
    {
      this.parseDate := parseDate;
      admins, students, settingsRows := [], [], [];
      nextAdminId, nextStudentId, nextSettingId := 1, 1, 1;
    }

    method GetAdminByEmail(email: string) returns (r: Option<Admin>)
      ensures r == FindAdminByEmail(admins, email)
    {
      var i := 0;
      while i < |admins|
        invariant 0 <= i <= |admins|
        invariant FindAdminByEmail(admins[i..], email) == FindAdminByEmail(admins, email)
      {
        if admins[i].email == email {
          return Some(admins[i]);
        }
        assert admins[i..][1..] == admins[i + 1..];
        i := i + 1;
      }
      return None;
    }

    /** An insert into `admins`; a second row with the same email violates
        the unique constraint and changes nothing. */
    method CreateAdmin(admin: InsertAdmin) returns (r: Result<Admin, DbError>)
      requires Valid()
      modifies this`admins, this`nextAdminId
      ensures Valid()
      ensures r.Err? <==> EmailTaken(old(admins), admin.email)
      ensures r.Err? ==> r.error == UniqueViolation && admins == old(admins) && nextAdminId == old(nextAdminId)
      ensures r.Ok? ==> r.value == Admin(old(nextAdminId), admin.email, admin.password)
                        && admins == old(admins) + [r.value] && nextAdminId == old(nextAdminId) + 1
    {
      if EmailTaken(admins, admin.email) {
        return Err(UniqueViolation);
      }
      var row := Admin(nextAdminId, admin.email, admin.password);
      admins := admins + [row];
      nextAdminId := nextAdminId + 1;
      return Ok(row);
    }

    method GetStudents() returns (rows: seq<Student>)
      ensures rows == students
    {
      rows := students;
    }

    method GetStudent(id: int) returns (r: Option<Student>)
      ensures r == FindStudentById(students, id)
    {
      var i := 0;
      while i < |students|
        invariant 0 <= i <= |students|
        invariant forall k :: 0 <= k < i ==> students[k].id != id
      {
        if students[i].id == id {
          assert IndexOfId(students, id) == Some(i);
          return Some(students[i]);
        }
        i := i + 1;
      }
      return None;
    }

    method GetStudentByNis(nis: string) returns (r: Option<Student>)
      ensures r == FindStudentByNis(students, nis)
    {
      var i := 0;
      while i < |students|
        invariant 0 <= i <= |students|
        invariant FindStudentByNis(students[i..], nis) == FindStudentByNis(students, nis)
      {
        if students[i].nis == nis {
          return Some(students[i]);
        }
        assert students[i..][1..] == students[i + 1..];
        i := i + 1;
      }
      return None;
    }

    /** An insert into `students`: on success exactly one row is appended,
        with a fresh id; on failure nothing changes. */
    method CreateStudent(input: InsertStudent) returns (r: Result<Student, DbError>)
      requires Valid()
      modifies this`students, this`nextStudentId
      ensures Valid()
      ensures r == NewStudentRow(parseDate, old(students), old(nextStudentId), input)
      ensures r.Ok? ==> students == old(students) + [r.value] && nextStudentId == old(nextStudentId) + 1
      ensures r.Err? ==> students == old(students) && nextStudentId == old(nextStudentId)
    {
      r := NewStudentRow(parseDate, students, nextStudentId, input);
      if r.Ok? {
        AppendKeepsTable(students, nextStudentId, r.value);
        students := students + [r.value];
        nextStudentId := nextStudentId + 1;
      }
    }

    /** An update of one row by id: only that row changes, and only in the
        columns the patch supplies; otherwise nothing changes. */
    method UpdateStudent(id: int, patch: StudentPatch) returns (r: UpdateResult)
      requires Valid()
      modifies this`students
      ensures Valid()
      ensures r == UpdatedRow(parseDate, old(students), id, patch)
      ensures !r.Updated? ==> students == old(students)
      ensures r.Updated? ==> exists i :: 0 <= i < |old(students)| && old(students)[i].id == id
                                         && students == old(students)[i := r.row]
    {
      r := UpdatedRow(parseDate, students, id, patch);
      if r.Updated? {
        var i := IndexOfId(students, id).value;
        ReplaceKeepsTable(students, nextStudentId, i, r.row);
        students := students[i := r.row];
      }
    }

    method DeleteStudent(id: int)
      requires Valid()
      modifies this`students
      ensures Valid()
      ensures students == WithoutId(old(students), id)
    {
      var rows := students;
      match IndexOfId(rows, id)
      case None =>
      case Some(i) =>
        RemoveKeepsTable(rows, nextStudentId, i);
        students := rows[..i] + rows[i + 1..];
    }

    method GetSettings() returns (r: Option<Setting>)
      ensures r == if settingsRows == [] then None else Some(settingsRows[0])
    {
      if settingsRows == [] {
        r := None;
      } else {
        r := Some(settingsRows[0]);
      }
    }

    /** The upsert that keeps the single settings row. */
    method UpdateSettings(data: InsertSetting) returns (r: Result<Setting, DbError>)
      requires Valid()
      modifies this`settingsRows, this`nextSettingId
      ensures Valid()
      ensures r == SettingsUpsert(old(settingsRows), old(nextSettingId), data)
      ensures r.Ok? ==> settingsRows == [r.value]
      ensures r.Err? ==> settingsRows == old(settingsRows)
    {
      r := SettingsUpsert(settingsRows, nextSettingId, data);
      if r.Ok? {
        if settingsRows == [] {
          nextSettingId := nextSettingId + 1;
        }
        settingsRows := [r.value];
      }
    }
  }
}
