/** The class-creation dialog of `src/components/ClassCreateModal.js`: the
    roster read from the first sheet of an uploaded `.xlsx` file, the
    teacher-email field, the create button and the preview search.

    The binary workbook decoding is not modelled: the model starts from the
    grid `sheet_to_json(sheet, { header: 1 })` yields, rows of cells.
 */
module Roster {
  import opened Common
  import opened Text
  import ApiClient

  /** One extracted cell: text, or nothing (a hole or a missing column). */
  datatype Cell = Blank | Str(text: string)

  type Row = seq<Cell>
  type Grid = seq<Row>

  /** Marker of the course row, looked up in column 0. */
  const CourseMarker: string := "วิชา"
  /** Marker of the teacher row, looked up in column 5. */
  const TeacherMarker: string := "ผู้สอน"
  const CourseColumn: nat := 0
  const TeacherColumn: nat := 5
  const IdColumn: nat := 1
  const NameColumn: nat := 2
  const SectionColumn: nat := 3
  /** Index of the first row read as a student. */
  const FirstStudentRow: nat := 9
  const DefaultCourseCode: string := "000000"
  const DefaultCourseName: string := "ไม่พบชื่อวิชา"
  const DefaultSection: string := "1"

  /** `row[col]`, where a column past the end of the row reads as nothing. */
  function CellAt(row: Row, col: nat): Cell {
    if col < |row| then row[col] else Blank
  }

  /** The cell is a non-empty string, i.e. truthy in JavaScript. */
  predicate Filled(c: Cell) {
    c.Str? && c.text != ""
  }

  /** `row?.[col]?.includes(marker)`. */
  predicate HasMarker(row: Row, col: nat, marker: string) {
    CellAt(row, col).Str? && Includes(CellAt(row, col).text, marker)
  }

  /** `rows.find(...)` from index `from` on: the index of the first row whose
      cell in `col` includes `marker`. */
  function FindFrom(rows: Grid, col: nat, marker: string, from: nat): (r: Option<nat>)
    requires from <= |rows|
    ensures r.Some? ==> from <= r.value < |rows| && HasMarker(rows[r.value], col, marker)
    ensures r.Some? ==> forall j :: from <= j < r.value ==> !HasMarker(rows[j], col, marker)
    ensures r.None? ==> forall j :: from <= j < |rows| ==> !HasMarker(rows[j], col, marker)
    decreases |rows| - from
  {
    if from == |rows| then None
    else if HasMarker(rows[from], col, marker) then Some(from)
    else FindFrom(rows, col, marker, from + 1)
  }

  /** The first row carrying `marker` in column `col`, if any. */
  function FindRow(rows: Grid, col: nat, marker: string): (r: Option<nat>)
    ensures r.Some? ==> r.value < |rows| && HasMarker(rows[r.value], col, marker)
    ensures r.Some? ==> forall j :: 0 <= j < r.value ==> !HasMarker(rows[j], col, marker)
    ensures r.None? <==> forall j :: 0 <= j < |rows| ==> !HasMarker(rows[j], col, marker)
  {
    FindFrom(rows, col, marker, 0)
  }

  /** Course code: the second whitespace-separated piece of the course cell,
      or "000000" when there is none or it is empty. */
  function CourseCode(cell: string): (r: string)
    ensures r != "" && NoSpace(r)
  {
    var parts := SplitWs(cell);
    if |parts| >= 2 && parts[1] != "" then parts[1]
    else
      assert forall k :: 0 <= k < |DefaultCourseCode| ==> DefaultCourseCode[k] == '0';
      DefaultCourseCode
  }

  /** Course name: the pieces after the code joined by single spaces, or
      "ไม่พบชื่อวิชา" when that is empty. */
  function CourseName(cell: string): (r: string)
    ensures r != ""
  {
    var parts := SplitWs(cell);
    var name := if |parts| >= 2 then JoinSpace(parts[2..]) else "";
    if name != "" then name else DefaultCourseName
  }

  /** A course cell written as a label word, a code and title words, separated by
      single spaces, yields that code and that title. */
  lemma CourseHeaderRoundTrip(tag: string, code: string, title: seq<string>)
    requires tag != "" && NoSpace(tag) && code != "" && NoSpace(code)
    requires forall k :: 0 <= k < |title| ==> title[k] != "" && NoSpace(title[k])
    ensures CourseCode(JoinSpace([tag, code] + title)) == code
    ensures |title| > 0 ==> CourseName(JoinSpace([tag, code] + title)) == JoinSpace(title)
    ensures |title| == 0 ==> CourseName(JoinSpace([tag, code] + title)) == DefaultCourseName
  {
    var ws := [tag, code] + title;
    HeaderWords(tag, code, title);
    SplitJoin(ws);
    var parts := SplitWs(JoinSpace(ws));
    assert parts[1] == code;
    assert parts[2..] == title;
    if |title| > 0 {
      JoinSpaceStart(title);
    }
  }

  /** The words of a well-formed course cell are non-empty and
      whitespace-free. */
  lemma HeaderWords(tag: string, code: string, title: seq<string>)
    requires tag != "" && NoSpace(tag) && code != "" && NoSpace(code)
    requires forall k :: 0 <= k < |title| ==> title[k] != "" && NoSpace(title[k])
    ensures Words([tag, code] + title)
  {
    var ws := [tag, code] + title;
    forall k | 0 <= k < |ws|
      ensures |ws[k]| > 0 && NoSpace(ws[k])
    {
      if k >= 2 {
        assert ws[k] == title[k - 2];
      }
    }
  }

  /** A course cell of one word, with or without trailing whitespace, has
      no second piece, so it gets the default code. */
  lemma CourseCodeDefault(w: string)
    requires NoSpace(w)
    ensures CourseCode(w) == DefaultCourseCode
    ensures CourseCode(w + " ") == DefaultCourseCode
  {
    WordLenOfWord(w, "");
    assert w + "" == w;
    SplitWsWhole(w);
    var s := w + " ";
    WordLenOfWord(w, " ");
    assert s[|w|..] == " ";
    TrimStartAfterSpace(" ", "");
    assert " " + "" == " ";
    SplitWsStep(s);
    SplitWsWhole("");
  }

  /** A course cell with leading whitespace splits into an empty first
      piece and its words, so the code is the cell's first word, not its
      second. */
  lemma CourseCodeLeadingSpace(gap: string, ws: seq<string>)
    requires |gap| > 0 && AllSpace(gap) && |ws| >= 1 && Words(ws)
    ensures CourseCode(gap + JoinSpace(ws)) == ws[0]
  {
    JoinSpaceStart(ws);
    SplitLeadingSpace(gap, JoinSpace(ws));
    SplitJoin(ws);
  }

  /** Leading whitespace before a visible character splits off an empty
      first piece. */
  lemma SplitLeadingSpace(gap: string, t: string)
    requires |gap| > 0 && AllSpace(gap) && |t| > 0 && !IsSpace(t[0])
    ensures SplitWs(gap + t) == [""] + SplitWs(t)
  {
    var s := gap + t;
    assert IsSpace(s[0]);
    assert s[0..] == s && s[..0] == "";
    TrimStartAfterSpace(gap, t);
    SplitWsStep(s);
  }

  /** `cleanName`: every occurrence of "ผู้สอน" deleted, then trimmed. */
  function CleanName(raw: string): (r: string)
    ensures NoEdgeSpace(r)
    ensures |r| <= |raw|
  {
    Trim(RemoveAll(raw, TeacherMarker))
  }

  /** A cell made of the marker, some whitespace and a name that does not
      itself contain the marker cleans to exactly that name. */
  lemma CleanLabelledName(gap: string, name: string)
    requires AllSpace(gap) && NoEdgeSpace(name) && !Includes(name, TeacherMarker)
    ensures CleanName(TeacherMarker + gap + name) == name
  {
    var cell := TeacherMarker + gap + name;
    assert cell == TeacherMarker + (gap + name);
    assert TeacherMarker <= cell;
    assert cell[|TeacherMarker|..] == gap + name;
    SpacesThenNoMarker(gap, name);
    RemoveAllAbsent(gap + name, TeacherMarker);
    TrimPadded(gap, name, "");
    assert gap + name + "" == gap + name;
  }

  /** The marker starts with a visible character, so it cannot begin inside
      leading whitespace. */
  lemma SpacesThenNoMarker(gap: string, name: string)
    requires AllSpace(gap) && !Includes(name, TeacherMarker)
    ensures !Includes(gap + name, TeacherMarker)
  {
    IncludesAt(gap + name, TeacherMarker);
    IncludesAt(name, TeacherMarker);
    if exists i :: OccursAt(gap + name, TeacherMarker, i) {
      var i :| OccursAt(gap + name, TeacherMarker, i);
      var m := TeacherMarker;
      assert (gap + name)[i] == m[0];
      if i < |gap| {
        assert false;
      }
      assert (gap + name)[i..i + |m|] == name[i - |gap|..i - |gap| + |m|];
      assert OccursAt(name, m, i - |gap|);
    }
  }

  /** The deletion is a single pass: a marker split around another marker
      survives it. */
  lemma CleanNameSinglePass()
    ensures CleanName("ผู้ผู้สอนสอน") == TeacherMarker
  {
    MarkerAroundMarker();
    MarkerTrimmed();
  }

  /** The marker has no whitespace at its ends, so trimming keeps it. */
  lemma MarkerTrimmed()
    ensures Trim(TeacherMarker) == TeacherMarker
  {
    TrimNoEdge(TeacherMarker);
  }

  /** Deleting the inner marker of "ผู้ผู้สอนสอน" joins the outer halves into
      a new marker, which stays. */
  lemma MarkerAroundMarker()
    ensures RemoveAll("ผู้ผู้สอนสอน", TeacherMarker) == TeacherMarker
  {
    var m := TeacherMarker;
    var s := "ผู้ผู้สอนสอน";
    var tail := s[9..];
    InnerMarkerRemoved();
    assert s[2] != m[0] && s[1] != m[0] && s[3] != m[3];
    assert s[2..][1..] == s[3..] && s[1..][1..] == s[2..];
    RemoveAllKeepsHead(s[2..], m);
    RemoveAllKeepsHead(s[1..], m);
    RemoveAllKeepsHead(s, m);
    assert s[0] == m[0] && s[1] == m[1] && s[2] == m[2];
    SplitThree(m);
  }

  /** From the inner marker on, the marker is deleted and the rest kept. */
  lemma InnerMarkerRemoved()
    ensures var s := "ผู้ผู้สอนสอน"; RemoveAll(s[3..], TeacherMarker) == s[9..]
  {
    var m := TeacherMarker;
    var s := "ผู้ผู้สอนสอน";
    assert s == m[..3] + m + m[3..];
    var tail := s[9..];
    assert tail == m[3..];
    assert RemoveAll(tail, m) == tail by {
      ShortExcludes(tail, m);
      RemoveAllAbsent(tail, m);
    }
    assert m <= s[3..];
    assert s[3..][|m|..] == tail;
  }

  /** One roster entry as the dialog previews it. */
  datatype Student = Student(studentId: string, fullName: string, section: string)

  /** The course summary shown above the roster. */
  datatype Preview = Preview(courseCode: string, courseName: string, teacherName: string, section: string)

  const BlankPreview: Preview := Preview("", "", "", "")

  /** The student a data row describes: only when both the ID (column 1) and
      the name (column 2) are non-empty; the section (column 3) defaults to
      "1". */
  function RowStudent(row: Row): Option<Student> {
    if Filled(CellAt(row, IdColumn)) && Filled(CellAt(row, NameColumn)) then
      var section := if Filled(CellAt(row, SectionColumn)) then CellAt(row, SectionColumn).text else DefaultSection;
      Some(Student(CellAt(row, IdColumn).text, CellAt(row, NameColumn).text, section))
    else None
  }

  /** The students described by `rows`, in row order, duplicates kept. */
  function StudentsOf(rows: Grid): (r: seq<Student>)
    ensures |r| <= |rows|
  {
    if |rows| == 0 then []
    else
      var last := RowStudent(rows[|rows| - 1]);
      StudentsOf(rows[..|rows| - 1]) + (if last.Some? then [last.value] else [])
  }

  /** Rows before `FirstStudentRow` are headers and never contribute. */
  function Students(rows: Grid): seq<Student> {
    if |rows| <= FirstStudentRow then [] else StudentsOf(rows[FirstStudentRow..])
  }

  /** The `for (let i = 9; i < rows.length; i++)` loop of `handleFileSelect`. */
  method CollectStudents(rows: Grid) returns (students: seq<Student>)
    ensures students == Students(rows)
  {
    students := [];
    var i := FirstStudentRow;
    while i < |rows|
      invariant FirstStudentRow <= i
      invariant FirstStudentRow <= |rows| ==> i <= |rows|
      invariant i <= |rows| ==> students == StudentsOf(rows[FirstStudentRow..i])
      invariant |rows| < FirstStudentRow ==> students == []
    {
      var s := RowStudent(rows[i]);
      assert rows[FirstStudentRow..i + 1][..i - FirstStudentRow] == rows[FirstStudentRow..i];
      if s.Some? {
        students := students + [s.value];
      }
      i := i + 1;
    }
    if |rows| >= FirstStudentRow {
      assert rows[FirstStudentRow..|rows|] == rows[FirstStudentRow..];
    }
  }

  /** A student is collected exactly when some row of `rows` describes it. */
  lemma {:induction false} StudentsOfMembers(rows: Grid, s: Student)
    ensures s in StudentsOf(rows) <==> exists i :: 0 <= i < |rows| && RowStudent(rows[i]) == Some(s)
    decreases |rows|
  {
    if |rows| > 0 {
      var init := rows[..|rows| - 1];
      StudentsOfMembers(init, s);
      if exists i :: 0 <= i < |rows| && RowStudent(rows[i]) == Some(s) {
        var i :| 0 <= i < |rows| && RowStudent(rows[i]) == Some(s);
        if i < |rows| - 1 {
          assert RowStudent(init[i]) == Some(s);
        }
      }
      if exists i :: 0 <= i < |init| && RowStudent(init[i]) == Some(s) {
        var i :| 0 <= i < |init| && RowStudent(init[i]) == Some(s);
        assert RowStudent(rows[i]) == Some(s);
      }
    }
  }

  /** The roster holds exactly the students of rows 9 onward, and no more
      entries than there are such rows. */
  lemma StudentsCharacterised(rows: Grid, s: Student)
    ensures s in Students(rows) <==>
              exists i :: FirstStudentRow <= i < |rows| && RowStudent(rows[i]) == Some(s)
    ensures |Students(rows)| <= if |rows| <= FirstStudentRow then 0 else |rows| - FirstStudentRow
  {
    if |rows| > FirstStudentRow {
      var tail := rows[FirstStudentRow..];
      StudentsOfMembers(tail, s);
      if exists i :: 0 <= i < |tail| && RowStudent(tail[i]) == Some(s) {
        var i :| 0 <= i < |tail| && RowStudent(tail[i]) == Some(s);
        assert RowStudent(rows[i + FirstStudentRow]) == Some(s);
      }
      if exists i :: FirstStudentRow <= i < |rows| && RowStudent(rows[i]) == Some(s) {
        var i :| FirstStudentRow <= i < |rows| && RowStudent(rows[i]) == Some(s);
        assert RowStudent(tail[i - FirstStudentRow]) == Some(s);
      }
    }
  }

  /** Collecting distributes over concatenation, so students keep row order. */
  lemma {:induction false} StudentsOfAppend(a: Grid, b: Grid)
    ensures StudentsOf(a + b) == StudentsOf(a) + StudentsOf(b)
    decreases |b|
  {
    if |b| == 0 {
      assert a + b == a;
    } else {
      var b' := b[..|b| - 1];
      assert (a + b)[..|a + b| - 1] == a + b';
      StudentsOfAppend(a, b');
    }
  }

  /** Every collected entry has a non-empty ID, name and section. */
  lemma {:induction false} StudentsOfFilled(rows: Grid)
    ensures forall k :: 0 <= k < |StudentsOf(rows)| ==>
              var s := StudentsOf(rows)[k]; s.studentId != "" && s.fullName != "" && s.section != ""
    decreases |rows|
  {
    if |rows| > 0 {
      StudentsOfFilled(rows[..|rows| - 1]);
    }
  }

  /** Two identical data rows give two identical entries: nothing is
      de-duplicated. */
  lemma DuplicatesKept(header: Grid, row: Row)
    requires |header| == FirstStudentRow && RowStudent(row).Some?
    ensures Students(header + [row, row]) == [RowStudent(row).value, RowStudent(row).value]
  {
    var rows := header + [row, row];
    var s := RowStudent(row).value;
    assert rows[FirstStudentRow..] == [row, row];
    assert [row, row][..1] == [row];
    assert [row][..0] == [];
    assert StudentsOf([row]) == [s];
    assert StudentsOf([row, row]) == [s, s];
  }

  /** A successfully read roster. */
  datatype Roster = Roster(preview: Preview, students: seq<Student>)

  /** Why reading the roster stopped (each is an `alert` in the dialog). */
  datatype Alert =
    | WrongFileType          // not a `.xlsx` name
    | Unreadable             // the workbook could not be decoded
    | MissingCourseOrTeacher // no course row or no teacher row
    | NoStudents             // no data row with both ID and name

  /** The pure part of `handleFileSelect` after decoding: find the course and
      teacher rows, split the course cell, clean the teacher name and collect
      the students. */
  function ReadRoster(rows: Grid): (r: Result<Roster, Alert>)
    ensures r.Err? ==> r.error == MissingCourseOrTeacher || r.error == NoStudents
    ensures r.Err? && r.error == MissingCourseOrTeacher <==>
              FindRow(rows, CourseColumn, CourseMarker).None? || FindRow(rows, TeacherColumn, TeacherMarker).None?
    ensures r.Ok? ==>
              var c := FindRow(rows, CourseColumn, CourseMarker).value;
              var t := FindRow(rows, TeacherColumn, TeacherMarker).value;
              && r.value.students == Students(rows)
              && |r.value.students| > 0
              && r.value.preview.section == r.value.students[0].section
              && r.value.preview.courseCode == CourseCode(CellAt(rows[c], CourseColumn).text)
              && r.value.preview.courseName == CourseName(CellAt(rows[c], CourseColumn).text)
              && r.value.preview.teacherName == CleanName(CellAt(rows[t], TeacherColumn).text)
    ensures r.Err? && r.error == NoStudents <==>
              && FindRow(rows, CourseColumn, CourseMarker).Some?
              && FindRow(rows, TeacherColumn, TeacherMarker).Some?
              && Students(rows) == []
  {
    var courseRow := FindRow(rows, CourseColumn, CourseMarker);
    var teacherRow := FindRow(rows, TeacherColumn, TeacherMarker);
    if courseRow.None? || teacherRow.None? then Err(MissingCourseOrTeacher)
    else
      var courseCell := CellAt(rows[courseRow.value], CourseColumn).text;
      var teacherCell := CellAt(rows[teacherRow.value], TeacherColumn).text;
      var students := Students(rows);
      if |students| == 0 then Err(NoStudents)
      else
        Ok(Roster(Preview(CourseCode(courseCell), CourseName(courseCell), CleanName(teacherCell),
                          students[0].section),
                  students))
  }

  /** The dialog's state. `file` is the selected file's name. */
  datatype Dialog = Dialog(
    open: bool,
    file: Option<string>,
    email: string,
    emailLocked: bool,
    preview: Preview,
    students: seq<Student>,
    filter: string,
    valid: bool)

  /** The state right after a file is picked: the file is remembered and all
      file-derived state is cleared, so nothing can be created and the
      preview is empty until the file has been read. */
  function Cleared(d: Dialog, file: Option<string>): (r: Dialog)
    ensures r.file == file && r.open == d.open && r.filter == d.filter
    ensures !CanCreate(r) && !r.emailLocked && r.email == ""
    ensures r.preview == BlankPreview && FilteredStudents(r.students, r.filter) == []
  {
    d.(file := file, valid := false, students := [], preview := BlankPreview, email := "", emailLocked := false)
  }

  /** Nothing of an earlier pick survives a new one: the cleared dialog
      depends only on the new file, whether the dialog is open and the
      search text, and clearing twice is clearing once. */
  lemma ClearedForgets(d: Dialog, e: Dialog, file: Option<string>)
    requires d.open == e.open && d.filter == e.filter
    ensures Cleared(d, file) == Cleared(e, file)
    ensures Cleared(Cleared(d, file), file) == Cleared(d, file)
  {
  }

  /** The part of `handleFileSelect` after `await selectedFile.arrayBuffer()`,
      run on the dialog as it is when the file has been read: decode and read
      the roster, then look the teacher's email up. An alert leaves the
      dialog as it is; `grid` is `None` when decoding threw. */
  function FinishPick(d: Dialog, grid: Option<Grid>, directory: ApiClient.EmailResponse): (r: (Dialog, Option<Alert>))
    ensures r.0.file == d.file && r.0.open == d.open && r.0.filter == d.filter
    ensures r.1 != Some(WrongFileType)
    ensures r.1 == Some(Unreadable) <==> grid.None?
    ensures r.1.Some? ==> r.0 == d
    ensures r.1.None? ==> r.0.valid && grid.Some? && ReadRoster(grid.value) == Ok(Roster(r.0.preview, r.0.students))
    ensures r.1.None? && Trim(ApiClient.TeacherEmail(directory)) != "" ==>
              r.0.emailLocked && r.0.email == Trim(ApiClient.TeacherEmail(directory))
    ensures r.1.None? && Trim(ApiClient.TeacherEmail(directory)) == "" ==>
              r.0.emailLocked == d.emailLocked && r.0.email == d.email
  {
    if grid.None? then (d, Some(Unreadable))
    else match ReadRoster(grid.value)
      case Err(alert) => (d, Some(alert))
      case Ok(roster) =>
        var d1 := d.(preview := roster.preview, students := roster.students, valid := true);
        var found := Trim(ApiClient.TeacherEmail(directory));
        if found != "" then (d1.(email := found, emailLocked := true), None)
        else (d1, None)
  }

  /** `handleFileSelect`. `file` is the picked file's name (`None` when the
      picker was cancelled), `grid` the decoded first sheet (`None` when
      decoding threw) and `directory` the teacher-directory response. */
  function SelectFile(d: Dialog, file: Option<string>, grid: Option<Grid>,
                      directory: ApiClient.EmailResponse): (r: (Dialog, Option<Alert>))
    ensures r.0.file == file && r.0.open == d.open && r.0.filter == d.filter
    ensures r.1.None? <==> r.0.valid
    ensures r.1 == Some(WrongFileType) <==> file.None? || !EndsWith(file.value, ".xlsx")
    ensures r.1 == Some(Unreadable) <==> file.Some? && EndsWith(file.value, ".xlsx") && grid.None?
    ensures !r.0.valid ==> r.0 == Cleared(d, file)
    ensures r.0.valid ==> grid.Some? && ReadRoster(grid.value) == Ok(Roster(r.0.preview, r.0.students))
    ensures r.0.emailLocked <==> r.0.valid && Trim(ApiClient.TeacherEmail(directory)) != ""
    ensures r.0.emailLocked ==> r.0.email == Trim(ApiClient.TeacherEmail(directory))
    ensures !r.0.emailLocked ==> r.0.email == ""
  {
    var d0 := Cleared(d, file);
    if file.None? || !EndsWith(file.value, ".xlsx") then (d0, Some(WrongFileType))
    else FinishPick(d0, grid, directory)
  }

  /** For one uninterrupted pick, a successful selection makes the dialog
      ready to create once an email is present: the create gate then depends
      on the email alone. After an alert nothing can be created. */
  lemma SelectThenCreate(d: Dialog, file: Option<string>, grid: Option<Grid>,
                         directory: ApiClient.EmailResponse)
    ensures var r := SelectFile(d, file, grid, directory);
            r.1.None? ==> (CanCreate(r.0) <==> r.0.email != "")
    ensures var r := SelectFile(d, file, grid, directory);
            r.1.Some? ==> !CanCreate(r.0)
  {
  }

  /** A successful pick whose teacher the directory knows is ready to post:
      the picked file, the directory's email and the first student's
      section. */
  lemma SelectedRosterPosted(d: Dialog, file: Option<string>, grid: Option<Grid>,
                             directory: ApiClient.EmailResponse)
    ensures var r := SelectFile(d, file, grid, directory);
            r.1.None? && r.0.emailLocked ==>
              && |r.0.students| > 0
              && CreateRequest(r.0) == Some(CreateForm(file.value, Trim(ApiClient.TeacherEmail(directory)),
                                                       r.0.students[0].section))
  {
    TrimTwice(ApiClient.TeacherEmail(directory));
  }

  /** The awaits of `handleFileSelect` are not guarded against a newer pick.
      When a `.xlsx` file is still being read and a second pick of the wrong
      type is alerted, the first read completes on the second pick's dialog:
      the dialog turns valid with the rejected file selected, and with a
      known teacher creation is enabled. */
  lemma StaleReadValidatesWrongFile(d: Dialog, first: string, second: string, grid: Grid,
                                    directory: ApiClient.EmailResponse)
    requires EndsWith(first, ".xlsx") && !EndsWith(second, ".xlsx") && ReadRoster(grid).Ok?
    ensures var reading := Cleared(d, Some(first));
            var rejected := SelectFile(reading, Some(second), None, directory);
            var late := FinishPick(rejected.0, Some(grid), directory).0;
            && rejected.1 == Some(WrongFileType)
            && late.valid && late.file == Some(second)
            && (Trim(ApiClient.TeacherEmail(directory)) != "" ==> CanCreate(late))
  {
  }

  /** Characters the email field accepts: `[a-z0-9@.]`. */
  predicate EmailChar(c: char) {
    ('a' <= c <= 'z') || ('0' <= c <= '9') || c == '@' || c == '.'
  }

  predicate EmailText(s: string) {
    forall k :: 0 <= k < |s| ==> EmailChar(s[k])
  }

  /** A character `toLowerCase()` turns into an allowed one: an allowed
      character, an ASCII capital, or the KELVIN SIGN. */
  predicate Typable(c: char) {
    EmailChar(c) || IsCapital(c) || c == '\U{212A}'
  }

  /** The lower-cased text passes the pattern exactly when every typed
      character is typable, and allowed text is its own lower case. */
  lemma TypableLowered(typed: string)
    ensures EmailText(Lower(typed)) <==> forall k :: 0 <= k < |typed| ==> Typable(typed[k])
    ensures EmailText(typed) ==> Lower(typed) == typed
  {
    var value := Lower(typed);
    forall k | 0 <= k < |typed|
      ensures EmailChar(value[k]) <==> Typable(typed[k])
    {
      assert value[k] == LowerChar(typed[k]);
    }
  }

  /** `handleEmailChange`: only the email field can change. Text of allowed
      characters and capitals is stored lower-cased (allowed text as typed);
      a single other character refuses the whole keystroke. */
  function EmailChange(d: Dialog, typed: string): (r: Dialog)
    ensures r == d.(email := r.email)
    ensures (forall k :: 0 <= k < |typed| ==> Typable(typed[k])) ==> r.email == Lower(typed)
    ensures !(forall k :: 0 <= k < |typed| ==> Typable(typed[k])) ==> r == d
    ensures EmailText(typed) ==> r.email == typed
  {
    var value := Lower(typed);
    TypableLowered(typed);
    if EmailText(value) then d.(email := value) else d
  }

  /** Keystrokes alone can never put a character outside `[a-z0-9@.]` into
      the field. */
  lemma EmailChangeKeepsText(d: Dialog, typed: string)
    requires EmailText(d.email)
    ensures EmailText(EmailChange(d, typed).email)
  {
  }

  /** A stored value is accepted again unchanged: lower-casing leaves
      `[a-z0-9@.]` text alone. */
  lemma EmailChangeStable(d: Dialog, typed: string)
    ensures var e := EmailChange(d, typed).email;
            EmailText(e) ==> EmailChange(d, e).email == e
  {
    var e := EmailChange(d, typed).email;
    TypableLowered(e);
  }

  /** Capital letters are folded, not refused. */
  lemma EmailChangeFoldsCapitals(d: Dialog)
    ensures EmailChange(d, "T.A@KMUTNB").email == "t.a@kmutnb"
  {
    assert Lower("T.A@KMUTNB") == "t.a@kmutnb";
  }

  /** The create button is enabled, and `handleCreate` proceeds, only with a
      file, a valid roster and a non-empty email. */
  predicate CanCreate(d: Dialog) {
    d.file.Some? && d.valid && d.email != ""
  }

  /** The multipart form `handleCreate` posts. */
  datatype CreateForm = CreateForm(file: string, email: string, section: string)

  /** Text of allowed email characters has no whitespace to trim. */
  lemma EmailTrimmed(s: string)
    ensures EmailText(s) ==> Trim(s) == s
  {
    if EmailText(s) && |s| > 0 {
      assert EmailChar(s[0]) && EmailChar(s[|s| - 1]);
      TrimNoEdge(s);
    }
  }

  /** The form posted by `handleCreate`, or `None` when the gate refuses: a
      missing file, an unread roster or an empty email refuse; the form
      carries the file, the preview's section and the email without edge
      whitespace, which is the typed address itself when it was typed. */
  function CreateRequest(d: Dialog): (r: Option<CreateForm>)
    ensures r.None? <==> d.file.None? || !d.valid || d.email == ""
    ensures r.Some? ==> r.value.file == d.file.value && r.value.section == d.preview.section
    ensures r.Some? ==> NoEdgeSpace(r.value.email) && |r.value.email| <= |d.email|
    ensures r.Some? && EmailText(d.email) ==> r.value.email == d.email
  {
    if CanCreate(d) then
      EmailTrimmed(d.email);
      Some(CreateForm(d.file.value, Trim(d.email), d.preview.section))
    else None
  }

  /** The dialog after the creation request: closed and reset on success,
      unchanged on failure so the user can retry. */
  function AfterCreate(d: Dialog, succeeded: bool): (r: Dialog)
    ensures succeeded ==> r == Cleared(d, None).(open := false)
    ensures succeeded ==> !r.open && !CanCreate(r)
    ensures !succeeded ==> r == d
  {
    if succeeded then
      d.(open := false, file := None, email := "", emailLocked := false, valid := false,
         preview := BlankPreview, students := [])
    else d
  }

  /** The preview search: a student is shown when its ID or its name includes
      the search text. */
  function MatchesSearch(filter: string): Student -> bool {
    (s: Student) => Includes(s.studentId, filter) || Includes(s.fullName, filter)
  }

  /** `filteredStudents`: the matching students, in roster order. */
  function FilteredStudents(students: seq<Student>, filter: string): (r: seq<Student>)
    ensures forall s :: s in r <==> s in students && (Includes(s.studentId, filter) || Includes(s.fullName, filter))
    ensures |r| <= |students|
  {
    Filter(students, MatchesSearch(filter))
  }

  /** Searching a roster made of two parts gives the matches of the first
      part followed by those of the second: matches keep the roster order. */
  lemma FilteredStudentsAppend(a: seq<Student>, b: seq<Student>, filter: string)
    ensures FilteredStudents(a + b, filter) == FilteredStudents(a, filter) + FilteredStudents(b, filter)
  {
    FilterAppend(a, b, MatchesSearch(filter));
  }

  /** A single student is shown exactly when its ID or name contains the
      search text. */
  lemma FilteredStudentsOne(s: Student, filter: string)
    ensures FilteredStudents([s], filter) ==
              if Includes(s.studentId, filter) || Includes(s.fullName, filter) then [s] else []
  {
    assert [s][1..] == [];
  }

  /** An empty search shows the whole roster. */
  lemma EmptySearchShowsAll(students: seq<Student>)
    ensures FilteredStudents(students, "") == students
  {
    forall k | 0 <= k < |students|
      ensures MatchesSearch("")(students[k])
    {
      IncludesEmpty(students[k].studentId);
    }
    FilterKeepsAll(students, MatchesSearch(""));
  }
}
