/** The HTTP handlers: the public settings and result-check routes, the
    admin student routes behind `requireAuth`, the settings update, and the
    start-up seeding. A handler receives the request already resolved to a
    `SessionUser` and its body already parsed (None when the schema rejects
    it). */
module Routes {
  import opened Wrappers
  import opened Schema
  import opened Storage
  import opened Credentials
  import opened Http
  import opened Auth

  const GateClosedMessage := "Pengumuman belum dibuka"
  const NotFoundMessage := "Data siswa tidak ditemukan / Tanggal lahir salah"
  const InvalidInputMessage := "Invalid input format"
  const InternalErrorMessage := "Internal server error"
  const CreateFailedMessage := "Gagal menambahkan siswa (NIS mungkin duplikat)"
  const UpdateFailedMessage := "Gagal mengubah data siswa"
  const StudentMissingMessage := "Siswa tidak ditemukan"
  const ImportFailedMessage := "Invalid import format"
  const SettingsFailedMessage := "Gagal memperbarui pengaturan"
  const SettingsInvalidMessage := "Format tidak valid: "

  // ---------------------------------------------------------------------
  // public routes

  predicate GateOpen(settings: Option<Setting>) {
    settings.Some? && settings.value.isOpen
  }

  /** `GET /api/settings`: a missing row reads as closed with no date. */
  function PublicSettingsRoute(settings: Option<Setting>): (r: Response)
    ensures r.status == 200 && r.body.SettingsInfo?
    ensures r.body.isOpen == GateOpen(settings)
    ensures settings.None? ==> r.body.announcementDate.None?
    ensures settings.Some? ==> r.body.announcementDate == settings.value.announcementDate
  {
    match settings
    case None => Response(200, SettingsInfo(None, false))
    case Some(s) => Response(200, SettingsInfo(s.announcementDate, s.isOpen))
  }

  datatype CheckInput = CheckInput(nis: string, birthDate: string)

  /** `POST /api/check`. The body is parsed first (400); `dbUp` false stands
      for a failing database query (500). A closed or missing gate answers 403
      whatever the roster holds; otherwise the student is looked up by exact
      `nis` and the birth date compared as text, and both failures give the
      same 404. Success discloses name, major, status and notes only. */
  function CheckRoute(body: Option<CheckInput>, dbUp: bool, settings: Option<Setting>, roster: seq<Student>)
    : (r: Response)
    ensures body.None? ==> r == Response(400, Message(InvalidInputMessage))
    ensures body.Some? && !dbUp ==> r == Response(500, Message(InternalErrorMessage))
    ensures body.Some? && dbUp && !GateOpen(settings) ==> r == Response(403, Message(GateClosedMessage))
    ensures body.Some? && dbUp && GateOpen(settings) && !NisTaken(roster, body.value.nis)
            ==> r == Response(404, Message(NotFoundMessage))
    ensures r.status == 200 ==>
              exists i :: 0 <= i < |roster| && roster[i].nis == body.value.nis
                          && roster[i].birthDate == body.value.birthDate
                          && r.body == Disclosure(roster[i].name, roster[i].major, roster[i].status, roster[i].notes)
    ensures r.status in {200, 400, 403, 404, 500}
  {
    match body
    case None => Response(400, Message(InvalidInputMessage))
    case Some(input) =>
      if !dbUp then Response(500, Message(InternalErrorMessage))
      else if !GateOpen(settings) then Response(403, Message(GateClosedMessage))
      else match FindStudentByNis(roster, input.nis)
        case None => Response(404, Message(NotFoundMessage))
        case Some(student) =>
          if student.birthDate != input.birthDate then Response(404, Message(NotFoundMessage))
          else Response(200, Disclosure(student.name, student.major, student.status, student.notes))
  }

  /** With the gate open, the student whose `nis` and birth date both match
      is disclosed. */
  lemma CheckDisclosesMatch(settings: Option<Setting>, roster: seq<Student>, i: int)
    requires GateOpen(settings) && NisUnique(roster) && 0 <= i < |roster|
    ensures var s := roster[i];
            CheckRoute(Some(CheckInput(s.nis, s.birthDate)), true, settings, roster)
              == Response(200, Disclosure(s.name, s.major, s.status, s.notes))
  {
    FoundByNisIsOnly(roster, roster[i].nis, i);
  }

  /** Anti-enumeration: an unknown `nis` and a known `nis` with the wrong birth
      date get identical answers. */
  lemma UnknownNisLooksLikeWrongDate(settings: Option<Setting>, roster: seq<Student>,
                                     unknown: CheckInput, i: int, wrongDate: string)
    requires GateOpen(settings) && NisUnique(roster)
    requires !NisTaken(roster, unknown.nis)
    requires 0 <= i < |roster| && roster[i].birthDate != wrongDate
    ensures CheckRoute(Some(unknown), true, settings, roster)
            == CheckRoute(Some(CheckInput(roster[i].nis, wrongDate)), true, settings, roster)
            == Response(404, Message(NotFoundMessage))
  {
    FoundByNisIsOnly(roster, roster[i].nis, i);
  }

  /** The public settings route and the check route agree on the gate. */
  lemma SettingsRouteAgreesWithCheck(settings: Option<Setting>, roster: seq<Student>, input: CheckInput)
    requires !PublicSettingsRoute(settings).body.isOpen
    ensures CheckRoute(Some(input), true, settings, roster).status == 403
  {
  }

  // ---------------------------------------------------------------------
  // admin routes

  method ListStudentsRoute(user: SessionUser, db: DatabaseStorage) returns (r: Response)
    ensures !user.User? ==> r == RequireAuth(user).value
    ensures user.User? ==> r == Response(200, StudentList(db.students))
  {
    var denied := RequireAuth(user);
    if denied.Some? {
      return denied.value;
    }
    var rows := db.GetStudents();
    r := Response(200, StudentList(rows));
  }

  /** `POST /api/admin/students`: every failure, a duplicate `nis` among them,
      gets the same 400. */
  method CreateStudentRoute(user: SessionUser, db: DatabaseStorage, body: Option<InsertStudent>)
    returns (r: Response)
    requires db.Valid()
    modifies db`students, db`nextStudentId
    ensures db.Valid()
    ensures !user.User? ==> r == RequireAuth(user).value && db.students == old(db.students)
    ensures user.User? && body.None? ==> r == Response(400, Message(CreateFailedMessage)) && db.students == old(db.students)
    ensures user.User? && body.Some? ==>
              var out := NewStudentRow(db.parseDate, old(db.students), old(db.nextStudentId), body.value);
              && (out.Ok? ==> r == Response(201, StudentJson(out.value)) && db.students == old(db.students) + [out.value])
              && (out.Err? ==> r == Response(400, Message(CreateFailedMessage)) && db.students == old(db.students))
  {
    var denied := RequireAuth(user);
    if denied.Some? {
      return denied.value;
    }
    if body.None? {
      return Response(400, Message(CreateFailedMessage));
    }
    var out := db.CreateStudent(body.value);
    match out
    case Ok(student) => r := Response(201, StudentJson(student));
    case Err(_) => r := Response(400, Message(CreateFailedMessage));
  }

  /** `PUT /api/admin/students/:id`; `id` None stands for a path segment that
      is not an integer. The database refuses that, and an integer outside the
      id column's 32-bit range, as a failed query: the answer is 400. */
  method UpdateStudentRoute(user: SessionUser, db: DatabaseStorage, id: Option<int>, body: Option<StudentPatch>)
    returns (r: Response)
    requires db.Valid()
    modifies db`students
    ensures db.Valid()
    ensures r.status != 200 ==> db.students == old(db.students)
    ensures !user.User? ==> r == RequireAuth(user).value
    ensures user.User? && (body.None? || id.None? || !IsInt4(id.value)) ==> r == Response(400, Message(UpdateFailedMessage))
    ensures user.User? && body.Some? && id.Some? && IsInt4(id.value) ==>
              match UpdatedRow(db.parseDate, old(db.students), id.value, body.value)
              case Updated(row) => r == Response(200, StudentJson(row))
              case NoRow => r == Response(404, Message(StudentMissingMessage))
              case Rejected(_) => r == Response(400, Message(UpdateFailedMessage))
  {
    var denied := RequireAuth(user);
    if denied.Some? {
      return denied.value;
    }
    if body.None? || id.None? || !IsInt4(id.value) {
      return Response(400, Message(UpdateFailedMessage));
    }
    var out := db.UpdateStudent(id.value, body.value);
    match out
    case Updated(row) => r := Response(200, StudentJson(row));
    case NoRow => r := Response(404, Message(StudentMissingMessage));
    case Rejected(_) => r := Response(400, Message(UpdateFailedMessage));
  }

  /** `DELETE /api/admin/students/:id`: 204 whether or not the row existed. */
  method DeleteStudentRoute(user: SessionUser, db: DatabaseStorage, id: int) returns (r: Response)
    requires db.Valid()
    modifies db`students
    ensures db.Valid()
    ensures !user.User? ==> r == RequireAuth(user).value && db.students == old(db.students)
    ensures user.User? ==> r == Response(204, NoContent) && db.students == WithoutId(old(db.students), id)
  {
    var denied := RequireAuth(user);
    if denied.Some? {
      return denied.value;
    }
    db.DeleteStudent(id);
    r := Response(204, NoContent);
  }

  /** The table, serial counter and success count after inserting rows one
      by one, skipping each one the database refuses. */
  datatype ImportState = ImportState(rows: seq<Student>, nextId: int, count: nat)

  function ImportAll(parse: DateParser, rows: seq<Student>, nextId: int, inputs: seq<InsertStudent>)
    : (res: ImportState)
    ensures res.count <= |inputs|
    ensures |res.rows| == |rows| + res.count && res.rows[..|rows|] == rows
    decreases |inputs|
  {
    if |inputs| == 0 then ImportState(rows, nextId, 0)
    else match NewStudentRow(parse, rows, nextId, inputs[0])
      case Ok(row) =>
        var rest := ImportAll(parse, rows + [row], nextId + 1, inputs[1..]);
        assert rest.rows[..|rows|] == (rest.rows[..|rows| + 1])[..|rows|];
        ImportState(rest.rows, rest.nextId, rest.count + 1)
      case Err(_) => ImportAll(parse, rows, nextId, inputs[1..])
  }

  predicate NisDistinct(inputs: seq<InsertStudent>) {
    forall i, j :: 0 <= i < j < |inputs| ==> inputs[i].nis != inputs[j].nis
  }

  /** Rows with ISO dates, pairwise distinct `nis` and none already taken are
      all inserted. */
  lemma {:induction false} ImportAcceptsFreshRows(parse: DateParser, rows: seq<Student>, nextId: int,
                                                  inputs: seq<InsertStudent>)
    requires NisDistinct(inputs)
    requires forall k :: 0 <= k < |inputs| ==> IsIsoDate(inputs[k].birthDate) && !NisTaken(rows, inputs[k].nis)
    ensures ImportAll(parse, rows, nextId, inputs).count == |inputs|
    decreases |inputs|
  {
    if |inputs| > 0 {
      var out := NewStudentRow(parse, rows, nextId, inputs[0]);
      assert parse(inputs[0].birthDate) == Some(inputs[0].birthDate);
      assert out.Ok?;
      var rows' := rows + [out.value];
      forall k | 0 <= k < |inputs[1..]|
        ensures IsIsoDate(inputs[1..][k].birthDate) && !NisTaken(rows', inputs[1..][k].nis)
      {
        assert inputs[1..][k] == inputs[k + 1];
        assert inputs[k + 1].nis != inputs[0].nis;
      }
      ImportAcceptsFreshRows(parse, rows', nextId + 1, inputs[1..]);
    }
  }

  /** Rows whose `nis` is already taken are all skipped, and the table stays
      as it was. */
  lemma {:induction false} ImportSkipsTakenRows(parse: DateParser, rows: seq<Student>, nextId: int,
                                                inputs: seq<InsertStudent>)
    requires forall k :: 0 <= k < |inputs| ==> NisTaken(rows, inputs[k].nis)
    ensures ImportAll(parse, rows, nextId, inputs) == ImportState(rows, nextId, 0)
    decreases |inputs|
  {
    if |inputs| > 0 {
      assert NisTaken(rows, inputs[0].nis);
      ImportSkipsTakenRows(parse, rows, nextId, inputs[1..]);
    }
  }

  /** A refused row does not stop the import: the rows after it are tried
      against the same table. */
  lemma ImportContinuesAfterFailure(parse: DateParser, rows: seq<Student>, nextId: int,
                                    bad: InsertStudent, more: seq<InsertStudent>)
    requires NewStudentRow(parse, rows, nextId, bad).Err?
    ensures ImportAll(parse, rows, nextId, [bad] + more) == ImportAll(parse, rows, nextId, more)
  {
    assert ([bad] + more)[1..] == more;
  }

  /** Importing from position `i` is inserting row `i` and importing the
      rest from the table (`after`, `afterId`) that insert leaves. */
  lemma ImportAllStep(parse: DateParser, rows: seq<Student>, nextId: int, inputs: seq<InsertStudent>, i: nat,
                      out: Result<Student, DbError>, after: seq<Student>, afterId: int)
    requires i < |inputs| && out == NewStudentRow(parse, rows, nextId, inputs[i])
    requires after == (if out.Ok? then rows + [out.value] else rows)
    requires afterId == (if out.Ok? then nextId + 1 else nextId)
    ensures var all := ImportAll(parse, rows, nextId, inputs[i..]);
            var rest := ImportAll(parse, after, afterId, inputs[i + 1..]);
            all.rows == rest.rows && all.nextId == rest.nextId
            && all.count == rest.count + (if out.Ok? then 1 else 0)
  {
    assert inputs[i..][0] == inputs[i] && inputs[i..][1..] == inputs[i + 1..];
  }

  /** Importing from position 0 is importing everything; importing from the
      end changes nothing. */
  lemma ImportAllEnds(parse: DateParser, rows: seq<Student>, nextId: int, inputs: seq<InsertStudent>)
    ensures ImportAll(parse, rows, nextId, inputs[0..]) == ImportAll(parse, rows, nextId, inputs)
    ensures ImportAll(parse, rows, nextId, inputs[|inputs|..]) == ImportState(rows, nextId, 0)
  {
    assert inputs[0..] == inputs;
    assert inputs[|inputs|..] == [];
  }

  /** `POST /api/admin/students/import`: each row is inserted in turn, a
      failing row is skipped, and the answer counts the inserts that
      succeeded. */
  method ImportRoute(user: SessionUser, db: DatabaseStorage, body: Option<seq<InsertStudent>>)
    returns (r: Response)
    requires db.Valid()
    modifies db`students, db`nextStudentId
    ensures db.Valid()
    ensures !user.User? ==> r == RequireAuth(user).value && db.students == old(db.students)
    ensures user.User? && body.None? ==> r == Response(400, Message(ImportFailedMessage)) && db.students == old(db.students)
    ensures user.User? && body.Some? ==>
              var res := ImportAll(db.parseDate, old(db.students), old(db.nextStudentId), body.value);
              r == Response(201, ImportCount(res.count)) && db.students == res.rows && db.nextStudentId == res.nextId
  {
    var denied := RequireAuth(user);
    if denied.Some? {
      return denied.value;
    }
    if body.None? {
      return Response(400, Message(ImportFailedMessage));
    }
    var students := body.value;
    ghost var total := ImportAll(db.parseDate, db.students, db.nextStudentId, students);
    ImportAllEnds(db.parseDate, db.students, db.nextStudentId, students);
    var count: nat := 0;
    var i := 0;
    while i < |students|
      invariant 0 <= i <= |students|
      invariant db.Valid()
      invariant var rest := ImportAll(db.parseDate, db.students, db.nextStudentId, students[i..]);
                rest.rows == total.rows && rest.nextId == total.nextId && count + rest.count == total.count
    {
      ghost var rows, nextId := db.students, db.nextStudentId;
      var out := db.CreateStudent(students[i]);
      ImportAllStep(db.parseDate, rows, nextId, students, i, out, db.students, db.nextStudentId);
      if out.Ok? {
        count := count + 1;
      }
      i := i + 1;
    }
    ImportAllEnds(db.parseDate, db.students, db.nextStudentId, students);
    r := Response(201, ImportCount(count));
  }

  // ---------------------------------------------------------------------
  // settings update

  /** `PUT /api/admin/settings` as written: the handler parses with
      `insertSettingsSchema`, a name never imported into that file, so the
      call throws a ReferenceError inside the `try`; it is not a validation
      error, so every signed-in request gets 500 and the store is never
      written. */
  function SettingsUpdateRouteAsWritten(user: SessionUser, body: Option<InsertSetting>): (r: Response)
    ensures user.User? ==> r == Response(500, Message(SettingsFailedMessage))
    ensures !user.User? ==> r == RequireAuth(user).value
  {
    match RequireAuth(user)
    case Some(denied) => denied
    case None => Response(500, Message(SettingsFailedMessage))
  }

  /** The discrepancy exhibited: a signed-in admin asking to close the gate
      is refused, though the body is well-formed. */
  lemma SettingsUpdateAlwaysFails(admin: Admin)
    ensures SettingsUpdateRouteAsWritten(User(admin), Some(InsertSetting(Some(None), Some(false)))).status == 500
  {
  }

  /** `PUT /api/admin/settings` as intended: a parsed body is upserted into
      the single settings row and the row is returned, so the public routes
      see the new gate. */
  method SettingsUpdateRoute(user: SessionUser, db: DatabaseStorage, body: Option<InsertSetting>)
    returns (r: Response)
    requires db.Valid()
    modifies db`settingsRows, db`nextSettingId
    ensures db.Valid()
    ensures r.status != 200 ==> db.settingsRows == old(db.settingsRows)
    ensures !user.User? ==> r == RequireAuth(user).value
    ensures user.User? && body.None? ==> r == Response(400, Message(SettingsInvalidMessage))
    ensures user.User? && body.Some? && body.value.isOpen.Some? ==>
              r.status == 200 && |db.settingsRows| == 1
              && PublicSettingsRoute(Some(db.settingsRows[0])).body.isOpen == body.value.isOpen.value
    ensures user.User? && body.Some? ==>
              match SettingsUpsert(old(db.settingsRows), old(db.nextSettingId), body.value)
              case Ok(row) => r == Response(200, SettingJson(row)) && db.settingsRows == [row]
              case Err(_) => r == Response(500, Message(SettingsFailedMessage))
  {
    var denied := RequireAuth(user);
    if denied.Some? {
      return denied.value;
    }
    if body.None? {
      return Response(400, Message(SettingsInvalidMessage));
    }
    var out := db.UpdateSettings(body.value);
    match out
    case Ok(row) => r := Response(200, SettingJson(row));
    case Err(_) => r := Response(500, Message(SettingsFailedMessage));
  }

  // ---------------------------------------------------------------------
  // seeding

  const SeedAdminEmail := "admin@smkn2godean.sch.id"
  const SeedAdminPassword := "admin123"
  /** One day in milliseconds. */
  const OneDay: int := 86400000
  const SeedStudentA := InsertStudent("12345", "Budi Santoso", "Teknik Komputer dan Jaringan",
                                      "2006-05-15", "LULUS", Some("Selamat, tingkatkan terus prestasimu!"))
  const SeedStudentB := InsertStudent("12346", "Siti Aminah", "Rekayasa Perangkat Lunak",
                                      "2006-08-20", "TIDAK LULUS", Some("Jangan menyerah, tetap semangat belajar!"))

  /** The state seeding produces: a settings row, the seeded admin, and at
      least one student. */
  ghost predicate Seeded(db: DatabaseStorage)
    reads db
  {
    db.settingsRows != [] && EmailTaken(db.admins, SeedAdminEmail) && db.students != []
  }

  /** Seeds the settings row, open and announcing one day after `now`,
      unless one exists. */
  method SeedSettings(db: DatabaseStorage, now: Timestamp)
    requires db.Valid()
    modifies db`settingsRows, db`nextSettingId
    ensures db.Valid() && db.settingsRows != []
    ensures old(db.settingsRows) != [] ==> db.settingsRows == old(db.settingsRows)
    ensures old(db.settingsRows) == [] ==> db.settingsRows == [Setting(old(db.nextSettingId), Some(now + OneDay), true)]
  {
    var current := db.GetSettings();
    if current.None? {
      var _ := db.UpdateSettings(InsertSetting(Some(Some(now + OneDay)), Some(true)));
    }
  }

  /** Seeds the admin account, its password hashed with `salt`, unless the
      seeded email is already taken. */
  method SeedAdmin(db: DatabaseStorage, kdf: Kdf, salt: Salt)
    requires db.Valid()
    modifies db`admins, db`nextAdminId
    ensures db.Valid() && EmailTaken(db.admins, SeedAdminEmail)
    ensures EmailTaken(old(db.admins), SeedAdminEmail) ==> db.admins == old(db.admins)
    ensures !EmailTaken(old(db.admins), SeedAdminEmail) ==>
              db.admins == old(db.admins) + [Admin(old(db.nextAdminId), SeedAdminEmail,
                                                   HashPassword(kdf, SeedAdminPassword, salt))]
  {
    var admin := db.GetAdminByEmail(SeedAdminEmail);
    if admin.None? {
      var hashed := HashPassword(kdf, SeedAdminPassword, salt);
      var created := db.CreateAdmin(InsertAdmin(SeedAdminEmail, hashed));
      assert db.admins[|db.admins| - 1].email == SeedAdminEmail;
    }
  }

  /** The row an accepted insert of `input` adds under `id` when its date is
      ISO, and so stored as given. */
  function RowOf(id: int, input: InsertStudent): Student {
    Student(id, input.nis, input.name, input.major, input.birthDate, input.status, input.notes)
  }

  /** The sample students have ISO dates and distinct NIS. */
  lemma SeedStudentsInsertable()
    ensures IsIsoDate(SeedStudentA.birthDate) && IsIsoDate(SeedStudentB.birthDate)
    ensures SeedStudentA.nis != SeedStudentB.nis
  {
    assert SeedStudentA.nis[4] != SeedStudentB.nis[4];
  }

  lemma AppendToEmpty<T>(x: T)
    ensures [] + [x] == [x]
  {
  }

  lemma AppendPair<T>(x: T, y: T)
    ensures [x] + [y] == [x, y]
  {
  }

  /** Two rows with ISO dates and distinct NIS inserted into an empty table
      are both accepted, with the next two ids. */
  method InsertPair(db: DatabaseStorage, x: InsertStudent, y: InsertStudent)
    requires db.Valid() && db.students == []
    requires IsIsoDate(x.birthDate) && IsIsoDate(y.birthDate) && x.nis != y.nis
    modifies db`students, db`nextStudentId
    ensures db.Valid()
    ensures db.students == [RowOf(old(db.nextStudentId), x), RowOf(old(db.nextStudentId) + 1, y)]
  {
    ghost var n := db.nextStudentId;
    var a := db.CreateStudent(x);
    assert a == Ok(RowOf(n, x));
    AppendToEmpty(a.value);
    assert !NisTaken(db.students, y.nis);
    var b := db.CreateStudent(y);
    assert b == Ok(RowOf(n + 1, y));
    AppendPair(a.value, b.value);
  }

  /** Seeds the two sample students when the table is empty. */
  method SeedStudents(db: DatabaseStorage)
    requires db.Valid()
    modifies db`students, db`nextStudentId
    ensures db.Valid() && db.students != []
    ensures old(db.students) != [] ==> db.students == old(db.students)
    ensures old(db.students) == [] ==>
              db.students == [RowOf(old(db.nextStudentId), SeedStudentA), RowOf(old(db.nextStudentId) + 1, SeedStudentB)]
  {
    var list := db.GetStudents();
    if |list| == 0 {
      SeedStudentsInsertable();
      InsertPair(db, SeedStudentA, SeedStudentB);
    }
  }

  /** `seedDatabase`: each table is filled only when what it checks for is
      absent. On a seeded store it changes nothing, so seeding is
      idempotent. */
  method SeedDatabase(db: DatabaseStorage, kdf: Kdf, salt: Salt, now: Timestamp)
    requires db.Valid()
    modifies db
    ensures db.Valid() && Seeded(db)
    ensures old(Seeded(db)) ==> db.settingsRows == old(db.settingsRows) && db.admins == old(db.admins)
                                && db.students == old(db.students)
  {
    SeedSettings(db, now);
    SeedAdmin(db, kdf, salt);
    SeedStudents(db);
  }
}
