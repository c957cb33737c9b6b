/** The admin roster page's data handling: the CSV import parser, the
    search filter and the CSV export. */
module StudentsPage {
  import opened Wrappers
  import opened Text
  import opened Schema

  // ---------------------------------------------------------------------
  // CSV import

  /** Cell `i` of a split line; a cell past the end reads as "" (both are
      falsy where the parser tests them). */
  function Cell(cells: seq<string>, i: nat): string {
    if i < |cells| then cells[i] else ""
  }

  /** A trimmed, non-empty line `nis,name,major,birthDate,status,notes`:
      a record when the first five cells are non-empty, with missing or
      empty notes read as "". Cells past the sixth are ignored. */
  function ParseLine(line: string): (r: Option<InsertStudent>)
    ensures var cells := Split(line, ',');
            r.Some? <==> |Cell(cells, 0)| > 0 && |Cell(cells, 1)| > 0 && |Cell(cells, 2)| > 0
                         && |Cell(cells, 3)| > 0 && |Cell(cells, 4)| > 0
    ensures var cells := Split(line, ',');
            r.Some? ==> && r.value.nis == Cell(cells, 0) && r.value.name == Cell(cells, 1)
                        && r.value.major == Cell(cells, 2) && r.value.birthDate == Cell(cells, 3)
                        && r.value.status == Cell(cells, 4) && r.value.notes == Some(Cell(cells, 5))
    ensures r.Some? ==> |r.value.nis| > 0 && |r.value.name| > 0 && |r.value.major| > 0
                        && |r.value.birthDate| > 0 && |r.value.status| > 0 && r.value.notes.Some?
    ensures r.Some? ==> ',' !in r.value.nis && ',' !in r.value.name && ',' !in r.value.major
                        && ',' !in r.value.birthDate && ',' !in r.value.status && ',' !in r.value.notes.value
  {
    var cells := Split(line, ',');
    if Cell(cells, 0) != "" && Cell(cells, 1) != "" && Cell(cells, 2) != "" && Cell(cells, 3) != ""
       && Cell(cells, 4) != ""
    then Some(InsertStudent(Cell(cells, 0), Cell(cells, 1), Cell(cells, 2), Cell(cells, 3), Cell(cells, 4),
                            Some(Cell(cells, 5))))
    else None
  }

  /** The record one line yields, after trimming; a blank line yields
      nothing. */
  function LineRecords(line: string): (r: seq<InsertStudent>)
    ensures |r| <= 1
  {
    var trimmed := Trim(line);
    if trimmed == "" then []
    else match ParseLine(trimmed)
      case None => []
      case Some(student) => [student]
  }

  /** The records of a run of lines, in line order. */
  function ParseLines(lines: seq<string>): (r: seq<InsertStudent>)
    ensures |r| <= |lines|
    ensures forall k :: 0 <= k < |r| ==> |r[k].nis| > 0 && |r[k].status| > 0 && r[k].notes.Some?
  {
    if |lines| == 0 then [] else LineRecords(lines[0]) + ParseLines(lines[1..])
  }

  /** The records of a CSV text: every line after the first. */
  function CsvRecords(text: string): seq<InsertStudent> {
    ParseLines(Split(text, '\n')[1..])
  }

  /** One pass of `handleFileUpload`'s loop body: trim, skip a blank line,
      split, and push a complete record. */
  method ReadLine(raw: string) returns (records: seq<InsertStudent>)
    ensures records == LineRecords(raw)
  {
    records := [];
    var line := Trim(raw);
    if line == "" {
      return;
    }
    var record := ParseLine(line);
    if record.Some? {
      records := records + [record.value];
    }
  }

  /** `handleFileUpload`'s loop, from line 1 on. */
  method ParseCsv(text: string) returns (parsed: seq<InsertStudent>)
    ensures parsed == CsvRecords(text)
    ensures |parsed| <= |Split(text, '\n')| - 1
  {
    var lines := Split(text, '\n');
    parsed := [];
    var i := 1;
    while i < |lines|
      invariant 1 <= i <= |lines|
      invariant parsed + ParseLines(lines[i..]) == ParseLines(lines[1..])
    {
      ParseCsvStep(lines, i, parsed);
      var records := ReadLine(lines[i]);
      parsed := parsed + records;
      i := i + 1;
    }
    assert lines[i..] == [];
  }

  lemma ParseLinesStep(lines: seq<string>, i: nat)
    requires i < |lines|
    ensures ParseLines(lines[i..]) == LineRecords(lines[i]) + ParseLines(lines[i + 1..])
  {
    assert lines[i..][0] == lines[i] && lines[i..][1..] == lines[i + 1..];
  }

  /** One loop pass keeps `ParseCsv`'s invariant. */
  lemma ParseCsvStep(lines: seq<string>, i: nat, parsed: seq<InsertStudent>)
    requires 1 <= i < |lines|
    requires parsed + ParseLines(lines[i..]) == ParseLines(lines[1..])
    ensures (parsed + LineRecords(lines[i])) + ParseLines(lines[i + 1..]) == ParseLines(lines[1..])
  {
    ParseLinesStep(lines, i);
    ConcatAssoc(parsed, LineRecords(lines[i]), ParseLines(lines[i + 1..]));
  }

  lemma ConcatAssoc<T>(a: seq<T>, b: seq<T>, c: seq<T>)
    ensures (a + b) + c == a + (b + c)
  {
  }

  lemma {:induction false} ParseLinesAppend(a: seq<string>, b: seq<string>)
    ensures ParseLines(a + b) == ParseLines(a) + ParseLines(b)
    decreases |a|
  {
    if |a| > 0 {
      assert (a + b)[1..] == a[1..] + b;
      ParseLinesAppend(a[1..], b);
    } else {
      assert a + b == b;
    }
  }

  /** The first line is a header whatever it holds: it never yields a
      record. */
  lemma HeaderIgnored(header: string, body: string)
    requires '\n' !in header
    ensures CsvRecords(header + "\n" + body) == ParseLines(Split(body, '\n'))
  {
    SplitConcat(header, '\n', body);
  }

  /** Lines that are blank after trimming contribute nothing. */
  lemma {:induction false} BlankLinesSkipped(a: seq<string>, blank: string, b: seq<string>)
    requires Trim(blank) == ""
    ensures ParseLines(a + [blank] + b) == ParseLines(a + b)
  {
    assert ParseLines([blank]) == [] by {
      assert ParseLines([blank]) == LineRecords(blank) + ParseLines([blank][1..]);
    }
    calc {
      ParseLines(a + [blank] + b);
      == { ParseLinesAppend(a + [blank], b); }
      ParseLines(a + [blank]) + ParseLines(b);
      == { ParseLinesAppend(a, [blank]); }
      ParseLines(a) + ParseLines(b);
      == { ParseLinesAppend(a, b); }
      ParseLines(a + b);
    }
  }

  // ---------------------------------------------------------------------
  // search filter

  /** Name and major match the search ignoring case, the NIS exactly. */
  predicate Matches(s: Student, search: string)
    ensures search == "" ==> Matches(s, search)
    ensures Contains(s.nis, search) ==> Matches(s, search)
  {
    ContainsEmpty(s.nis);
    Contains(ToLower(s.name), ToLower(search)) || Contains(s.nis, search)
    || Contains(ToLower(s.major), ToLower(search))
  }

  /** `filteredStudents`. */
  function FilterStudents(rows: seq<Student>, search: string): (r: seq<Student>)
    ensures |r| <= |rows|
    ensures forall s :: s in r <==> s in rows && Matches(s, search)
  {
    if |rows| == 0 then []
    else (if Matches(rows[0], search) then [rows[0]] else []) + FilterStudents(rows[1..], search)
  }

  /** An empty search keeps every student, in order. */
  lemma {:induction false} EmptySearchKeepsAll(rows: seq<Student>)
    ensures FilterStudents(rows, "") == rows
  {
    if |rows| > 0 {
      ContainsEmpty(rows[0].nis);
      EmptySearchKeepsAll(rows[1..]);
      assert [rows[0]] + rows[1..] == rows;
    }
  }

  /** The filter keeps the roster's order: it drops rows, never reorders. */
  lemma {:induction false} FilterKeepsOrder(a: seq<Student>, b: seq<Student>, search: string)
    ensures FilterStudents(a + b, search) == FilterStudents(a, search) + FilterStudents(b, search)
    decreases |a|
  {
    if |a| > 0 {
      assert (a + b)[1..] == a[1..] + b;
      FilterKeepsOrder(a[1..], b, search);
    } else {
      assert a + b == b;
    }
  }

  // ---------------------------------------------------------------------
  // CSV export

  const ExportHeader := "NIS,Name,Major,BirthDate,Status,Notes"
  const CsvUriPrefix := "data:text/csv;charset=utf-8,"

  function Quote(s: string): string {
    "\"" + s + "\""
  }

  /** `s.notes || ''`. */
  function NotesText(notes: Option<string>): string {
    match notes
    case None => ""
    case Some(n) => n
  }

  /** The six cells of a student's export row: name and notes in double
      quotes, with no escaping. */
  function ExportCells(s: Student): seq<string> {
    [s.nis, Quote(s.name), s.major, s.birthDate, s.status, Quote(NotesText(s.notes))]
  }

  /** A row of an exportable student splits on ',' back into its six
      cells. */
  function ExportRow(s: Student): (r: string)
    ensures Exportable(s) ==> Split(r, ',') == ExportCells(s)
  {
    var cells := ExportCells(s);
    if Exportable(s) then
      assert forall k :: 0 <= k < |cells| ==> ',' !in cells[k];
      SplitJoin(cells, ',');
      Join(cells, ",")
    else Join(cells, ",")
  }

  function ExportRows(rows: seq<Student>): (r: seq<string>)
    ensures |r| == |rows| && forall k :: 0 <= k < |rows| ==> r[k] == ExportRow(rows[k])
  {
    seq(|rows|, k requires 0 <= k < |rows| => ExportRow(rows[k]))
  }

  /** The file contents: the header, then one line per student. */
  function ExportContent(rows: seq<Student>): string {
    Join([ExportHeader] + ExportRows(rows), "\n")
  }

  /** `handleExport`: nothing for a missing or empty roster, otherwise the
      `data:` URI text of the file. */
  function ExportCsv(students: Option<seq<Student>>): (r: Option<string>)
    ensures r.None? <==> students.None? || students.value == []
    ensures r.Some? ==> r.value == CsvUriPrefix + ExportContent(students.value)
  {
    match students
    case None => None
    case Some(rows) => if rows == [] then None else Some(CsvUriPrefix + ExportContent(rows))
  }

  /** A student whose cells survive the CSV text intact: no cell holds a
      comma or a line break, the unquoted cells are non-empty, and the NIS
      does not start with white space. */
  predicate Exportable(s: Student) {
    && |s.nis| > 0 && |s.major| > 0 && |s.birthDate| > 0 && |s.status| > 0
    && !IsWhitespace(s.nis[0])
    && ',' !in s.nis && ',' !in s.name && ',' !in s.major && ',' !in s.birthDate && ',' !in s.status
    && ',' !in NotesText(s.notes)
    && '\n' !in s.nis && '\n' !in s.name && '\n' !in s.major && '\n' !in s.birthDate && '\n' !in s.status
    && '\n' !in NotesText(s.notes)
  }

  lemma {:induction false} JoinAvoids(parts: seq<string>, sep: string, c: char)
    requires c !in sep && forall k :: 0 <= k < |parts| ==> c !in parts[k]
    ensures c !in Join(parts, sep)
  {
    if |parts| > 1 {
      JoinAvoids(parts[1..], sep, c);
    }
  }

  /** The export has one line per student after the header. */
  lemma ExportLines(rows: seq<Student>)
    requires forall k :: 0 <= k < |rows| ==> Exportable(rows[k])
    ensures Split(ExportContent(rows), '\n') == [ExportHeader] + ExportRows(rows)
  {
    var lines := [ExportHeader] + ExportRows(rows);
    forall k | 0 <= k < |lines|
      ensures '\n' !in lines[k]
    {
      if k > 0 {
        assert lines[k] == ExportRow(rows[k - 1]);
        RowAvoidsNewline(rows[k - 1]);
      }
    }
    SplitJoin(lines, '\n');
  }

  lemma RowAvoidsNewline(s: Student)
    requires Exportable(s)
    ensures '\n' !in ExportRow(s)
  {
    JoinAvoids(ExportCells(s), ",", '\n');
  }

  /** What the importer reads back from an exported row: the quotes written
      around name and notes stay part of them. */
  function Requoted(s: Student): InsertStudent {
    InsertStudent(s.nis, Quote(s.name), s.major, s.birthDate, s.status, Some(Quote(NotesText(s.notes))))
  }

  lemma ReimportRow(s: Student)
    requires Exportable(s)
    ensures LineRecords(ExportRow(s)) == [Requoted(s)]
  {
    var cells := ExportCells(s);
    var row := ExportRow(s);
    assert row == s.nis + "," + Join(cells[1..], ",");
    assert row[0] == s.nis[0];
    var notes := Quote(NotesText(s.notes));
    assert EndsWith(row, notes) && notes[|notes| - 1] == '"';
    assert row[|row| - 1] == notes[|notes| - 1];
    TrimUnchanged(row);
    assert Split(row, ',') == cells;
    assert ParseLine(row) == Some(Requoted(s));
  }

  /** The records the importer reads back from a roster's export rows. */
  function RequotedAll(rows: seq<Student>): (r: seq<InsertStudent>)
    ensures |r| == |rows| && forall k :: 0 <= k < |rows| ==> r[k] == Requoted(rows[k])
  {
    if |rows| == 0 then [] else [Requoted(rows[0])] + RequotedAll(rows[1..])
  }

  lemma TailOfCons<T>(x: T, s: seq<T>)
    ensures ([x] + s)[1..] == s
  {
  }

  lemma ExportRowsCons(rows: seq<Student>)
    requires |rows| > 0
    ensures ExportRows(rows) == [ExportRow(rows[0])] + ExportRows(rows[1..])
  {
  }

  lemma ParseLinesCons(line: string, more: seq<string>)
    ensures ParseLines([line] + more) == LineRecords(line) + ParseLines(more)
  {
    TailOfCons(line, more);
  }

  /** Importing an exported roster gives every student back in order, but
      with name and notes wrapped in the export's quotes. */
  lemma ReimportExport(rows: seq<Student>)
    requires forall k :: 0 <= k < |rows| ==> Exportable(rows[k])
    ensures CsvRecords(ExportContent(rows)) == RequotedAll(rows)
  {
    CsvOfExport(rows);
    ReimportRows(rows);
  }

  /** The importer reads an export's rows: the header line is skipped. */
  lemma CsvOfExport(rows: seq<Student>)
    requires forall k :: 0 <= k < |rows| ==> Exportable(rows[k])
    ensures CsvRecords(ExportContent(rows)) == ParseLines(ExportRows(rows))
  {
    ExportLines(rows);
    TailOfCons(ExportHeader, ExportRows(rows));
  }

  lemma {:induction false} ReimportRows(rows: seq<Student>)
    requires forall k :: 0 <= k < |rows| ==> Exportable(rows[k])
    ensures ParseLines(ExportRows(rows)) == RequotedAll(rows)
  {
    if |rows| > 0 {
      ExportRowsCons(rows);
      ParseLinesCons(ExportRow(rows[0]), ExportRows(rows[1..]));
      ReimportRow(rows[0]);
      ReimportRows(rows[1..]);
    } else {
      assert ExportRows(rows) == [];
    }
  }
}
