/**
 * The teacher dashboard's records and the read-only views built from them: the students table
 * filter, the attendance table for one date, the attendance export and the students CSV import
 * parser. The store that the dashboard's handlers mutate is `DashboardStore.Store`.
 */
module Dashboard {
  import opened Wrappers
  import opened Text
  import Seqs
  import Csv

  type Id = string
  type Date = string

  datatype ClassRecord = ClassRecord(id: Id, name: string, nextClass: string)

  /** `classId` is `None` where the import fell back to `state.classes[0]?.id` with no classes. */
  datatype Student = Student(id: Id, name: string, roll: string, classId: Option<Id>, grade: string)

  datatype Slot = Slot(id: Id, classId: Id, day: string, start: string, end: string, subject: string, note: string)

  /** The timetable inputs' `data-field` values. */
  datatype SlotField = Day | Start | End | Subject | Note

  datatype Assignment = Assignment(id: Id, title: string, due: string, classId: Id, status: string)

  datatype Announcement = Announcement(id: Id, title: string, date: string, text: string)

  /** One date's attendance (student id to status) or notes (student id to note). */
  type Bucket = map<Id, string>
  type Days = map<Date, Bucket>

  /** The whole state tree, as `saveState` writes it to storage. */
  datatype Snapshot = Snapshot(
    classes: seq<ClassRecord>,
    students: seq<Student>,
    attendance: Days,
    attendanceNotes: Days,
    timetable: seq<Slot>,
    assignments: seq<Assignment>,
    announcements: seq<Announcement>)

  /** The demo data installed when storage is empty or unreadable. */
  const Demo := Snapshot(
    [ClassRecord("c1", "Math 101", "2025-09-10 10:00"), ClassRecord("c2", "Physics 2", "2025-09-11 14:00")],
    [Student("s1", "Aisha Khan", "M101-01", Some("c1"), "A-"),
     Student("s2", "Rohit Sharma", "M101-02", Some("c1"), "B+"),
     Student("s3", "Meera Patel", "P002-01", Some("c2"), "A")],
    map[],
    map[],
    [Slot("t1", "c1", "Monday", "10:00", "11:00", "Algebra", "Room 101"),
     Slot("t2", "c2", "Tuesday", "14:00", "16:00", "Mechanics", "Lab B")],
    [Assignment("a1", "Algebra HW 3", "2025-09-15", "c1", "Open")],
    [Announcement("ann1", "Exam Schedule Released", "2025-09-08", "Midterm schedule uploaded to portal.")])

  function StudentKey(s: Student): Id { s.id }
  function SlotKey(s: Slot): Id { s.id }
  function AssignmentKey(a: Assignment): Id { a.id }
  function AnnouncementKey(a: Announcement): Id { a.id }

  /** The value of one editable timetable field. */
  function FieldOf(s: Slot, f: SlotField): string {
    match f
    case Day => s.day
    case Start => s.start
    case End => s.end
    case Subject => s.subject
    case Note => s.note
  }

  /** `row[field] = value`: the named field takes the value and nothing else of the slot changes. */
  function WithField(s: Slot, f: SlotField, v: string): (r: Slot)
    ensures FieldOf(r, f) == v
    ensures forall g :: g != f ==> FieldOf(r, g) == FieldOf(s, g)
    ensures r.id == s.id && r.classId == s.classId
  {
    match f
    case Day => s.(day := v)
    case Start => s.(start := v)
    case End => s.(end := v)
    case Subject => s.(subject := v)
    case Note => s.(note := v)
  }

  // ---- Lookups and deletes by id ----

  /** `xs.findIndex(x => x.id === id)`: edits touch the first record with the id, or nothing. */
  function FindById<T>(xs: seq<T>, key: T -> Id, id: Id): (i: int)
    ensures -1 <= i < |xs|
    ensures i == -1 <==> forall j :: 0 <= j < |xs| ==> key(xs[j]) != id
    ensures 0 <= i ==> key(xs[i]) == id && forall j :: 0 <= j < i ==> key(xs[j]) != id
  {
    Seqs.FirstIndex(xs, x => key(x) == id)
  }

  /** `xs.filter(x => x.id !== id)`: no record with the id is left, every other record is. */
  function WithoutId<T>(xs: seq<T>, key: T -> Id, id: Id): (r: seq<T>)
    ensures |r| <= |xs|
    ensures forall i :: 0 <= i < |r| ==> key(r[i]) != id && r[i] in xs
    ensures forall i :: 0 <= i < |xs| && key(xs[i]) != id ==> xs[i] in r
  {
    Seqs.Keep(xs, x => key(x) != id)
  }

  /** Deleting by id keeps the other records in their original relative order. */
  lemma WithoutIdAppend<T>(a: seq<T>, b: seq<T>, key: T -> Id, id: Id)
    ensures WithoutId(a + b, key, id) == WithoutId(a, key, id) + WithoutId(b, key, id)
  {
    Seqs.KeepAppend(a, b, x => key(x) != id);
  }

  /** Deleting an id no record has changes nothing. */
  lemma WithoutAbsentId<T>(xs: seq<T>, key: T -> Id, id: Id)
    requires forall i :: 0 <= i < |xs| ==> key(xs[i]) != id
    ensures WithoutId(xs, key, id) == xs
  {
    Seqs.KeepAll(xs, x => key(x) != id);
  }

  // ---- The delete cascade into the attendance maps ----

  /**
   * Removes student `id` from the bucket of every date in `dates` that `days` has; other dates,
   * other students' entries and buckets left empty are kept.
   */
  function PurgeDays(days: Days, dates: set<Date>, id: Id): (r: Days)
    ensures r.Keys == days.Keys
    ensures forall d :: d in r && d in dates ==> id !in r[d]
    ensures forall d :: d in r ==> r[d].Keys == days[d].Keys - (if d in dates then {id} else {})
    ensures forall d, sid :: d in days && sid in r[d] ==> r[d][sid] == days[d][sid]
  {
    map d | d in days :: if d in dates then days[d] - {id} else days[d]
  }

  // ---- Students table (filter box) ----

  /** The filter of the students table: empty, or a case-insensitive match on name or roll. */
  predicate MatchesFilter(s: Student, filter: string) {
    || filter == ""
    || Includes(Lower(s.name), Lower(filter))
    || (s.roll != "" && Includes(Lower(s.roll), Lower(filter)))
  }

  /** The students the table lists for a filter text, in stored order; an empty filter lists all. */
  function StudentsTable(students: seq<Student>, filter: string): (r: seq<Student>)
    ensures forall i :: 0 <= i < |r| ==> r[i] in students && MatchesFilter(r[i], filter)
    ensures forall i :: 0 <= i < |students| && MatchesFilter(students[i], filter) ==> students[i] in r
    ensures filter == "" ==> r == students
  {
    if filter == "" then
      Seqs.KeepAll(students, s => MatchesFilter(s, filter));
      Seqs.Keep(students, s => MatchesFilter(s, filter))
    else Seqs.Keep(students, s => MatchesFilter(s, filter))
  }

  /** The filter is case-insensitive: typing it in lower case lists the same students. */
  lemma StudentsTableIgnoresCase(students: seq<Student>, filter: string)
    ensures StudentsTable(students, Lower(filter)) == StudentsTable(students, filter)
  {
    LowerIdempotent(filter);
    Seqs.KeepSame(students, s => MatchesFilter(s, Lower(filter)), s => MatchesFilter(s, filter));
  }

  // ---- Attendance table for one date ----

  /** `state.classes[0]?.id`. */
  function FirstClassId(classes: seq<ClassRecord>): Option<Id> {
    if classes == [] then None else Some(classes[0].id)
  }

  /** `window.activeClassId || state.classes[0]?.id`: an empty or missing choice falls back. */
  function ActiveClass(active: Option<Id>, classes: seq<ClassRecord>): (r: Option<Id>)
    ensures active.Some? && active.value != "" ==> r == active
    ensures (active.None? || active.value == "") ==> r == FirstClassId(classes)
  {
    if active.Some? && active.value != "" then active else FirstClassId(classes)
  }

  /** The values of the attendance select. */
  const StatusOptions: seq<string> := ["present", "absent", "late"]

  /** One row of the attendance table: the student, the select's value and the note input's value. */
  datatype AttendanceLine = AttendanceLine(student: Student, status: string, note: string)

  function BucketOr(days: Days, d: Date): Bucket {
    if d in days then days[d] else map[]
  }

  /**
   * The row shown for one student: a missing or empty status shows as `absent`, a missing note as
   * empty; a stored status that is not one of the select's options leaves the select empty.
   */
  function LineFor(s: Student, rec: Bucket, notes: Bucket): (r: AttendanceLine)
    ensures r.student == s
    ensures s.id !in rec ==> r.status == "absent"
    ensures s.id in rec && rec[s.id] == "" ==> r.status == "absent"
    ensures s.id in rec && rec[s.id] in StatusOptions ==> r.status == rec[s.id]
    ensures s.id in rec && rec[s.id] != "" && rec[s.id] !in StatusOptions ==> r.status == ""
    ensures r.status == "" || r.status in StatusOptions
    ensures s.id !in notes ==> r.note == ""
    ensures s.id in notes ==> r.note == notes[s.id]
  {
    var shown := if s.id in rec && rec[s.id] != "" then rec[s.id] else "absent";
    AttendanceLine(s, if shown in StatusOptions then shown else "", if s.id in notes then notes[s.id] else "")
  }

  function Lines(list: seq<Student>, rec: Bucket, notes: Bucket): (r: seq<AttendanceLine>)
    ensures |r| == |list|
    ensures forall k :: 0 <= k < |list| ==> r[k] == LineFor(list[k], rec, notes)
  {
    seq(|list|, k requires 0 <= k < |list| => LineFor(list[k], rec, notes))
  }

  predicate InClass(s: Student, classId: Option<Id>) {
    s.classId == classId
  }

  /**
   * `renderAttendanceTable(dateStr)`: the students of the active class (or the first class) in
   * stored order, each with the status and note recorded for the date (an empty date means today).
   */
  function AttendanceView(data: Snapshot, dateStr: Date, today: Date, active: Option<Id>): (r: seq<AttendanceLine>)
    ensures |r| <= |data.students|
  {
    var date := if dateStr != "" then dateStr else today;
    var c := ActiveClass(active, data.classes);
    Lines(Seqs.Keep(data.students, s => InClass(s, c)), BucketOr(data.attendance, date), BucketOr(data.attendanceNotes, date))
  }

  /** The attendance table lists exactly the stored students of the class shown. */
  lemma AttendanceViewClass(data: Snapshot, dateStr: Date, today: Date, active: Option<Id>)
    ensures var r := AttendanceView(data, dateStr, today, active);
      var c := ActiveClass(active, data.classes);
      forall k :: 0 <= k < |r| ==> r[k].student in data.students && InClass(r[k].student, c)
    ensures var r := AttendanceView(data, dateStr, today, active);
      var c := ActiveClass(active, data.classes);
      forall k :: 0 <= k < |data.students| && InClass(data.students[k], c) ==>
        exists j :: 0 <= j < |r| && r[j].student == data.students[k]
    ensures var r := AttendanceView(data, dateStr, today, active);
      var c := ActiveClass(active, data.classes);
      (forall k :: 0 <= k < |data.students| ==> InClass(data.students[k], c)) ==>
        |r| == |data.students| && forall k :: 0 <= k < |r| ==> r[k].student == data.students[k]
  {
    var r := AttendanceView(data, dateStr, today, active);
    var c := ActiveClass(active, data.classes);
    var list := Seqs.Keep(data.students, s => InClass(s, c));
    forall k | 0 <= k < |data.students| && InClass(data.students[k], c)
      ensures exists j :: 0 <= j < |r| && r[j].student == data.students[k]
    {
      var j :| 0 <= j < |list| && list[j] == data.students[k];
      assert r[j].student == list[j];
    }
    if forall k :: 0 <= k < |data.students| ==> InClass(data.students[k], c) {
      Seqs.KeepAll(data.students, s => InClass(s, c));
    }
  }

  // ---- Attendance export ----

  const ExportHeader: seq<string> := ["date", "studentId", "name", "roll", "status", "note"]

  /** One export row: date, id, the first student with that id's name and roll (or empty), status, note. */
  function ExportRow(students: seq<Student>, rec: Bucket, notes: Bucket, date: Date, sid: Id): (row: seq<string>)
    requires sid in rec
    ensures |row| == 6
  {
    var i := FindById(students, StudentKey, sid);
    [date, sid, if i < 0 then "" else students[i].name, if i < 0 then "" else students[i].roll,
     rec[sid], if sid in notes then notes[sid] else ""]
  }

  /** The cells of one export row. */
  lemma ExportRowFields(students: seq<Student>, rec: Bucket, notes: Bucket, date: Date, sid: Id)
    requires sid in rec
    ensures var row := ExportRow(students, rec, notes, date, sid);
      && row[0] == date && row[1] == sid && row[4] == rec[sid]
      && row[5] == (if sid in notes then notes[sid] else "")
      && var i := FindById(students, StudentKey, sid);
         row[2] == (if i < 0 then "" else students[i].name) && row[3] == (if i < 0 then "" else students[i].roll)
  {
  }

  /** The rows after the header, one per id of `order`. */
  function ExportBody(students: seq<Student>, rec: Bucket, notes: Bucket, date: Date, order: seq<Id>): (rows: seq<seq<string>>)
    requires forall k :: 0 <= k < |order| ==> order[k] in rec
    ensures |rows| == |order|
    ensures forall k :: 0 <= k < |rows| ==> |rows[k]| == 6
    decreases |order|
  {
    if order == [] then []
    else [ExportRow(students, rec, notes, date, order[0])] + ExportBody(students, rec, notes, date, order[1..])
  }

  /** The `k`-th row of the body is for the `k`-th id, with the status recorded for it. */
  lemma {:induction false} ExportBodyAt(students: seq<Student>, rec: Bucket, notes: Bucket, date: Date, order: seq<Id>, k: nat)
    requires forall j :: 0 <= j < |order| ==> order[j] in rec
    requires k < |order|
    ensures var body := ExportBody(students, rec, notes, date, order);
      |body| == |order| && body[k] == ExportRow(students, rec, notes, date, order[k])
      && |body[k]| == 6 && body[k][1] == order[k] && body[k][4] == rec[order[k]]
    decreases k
  {
    if k == 0 {
      ExportRowFields(students, rec, notes, date, order[0]);
    } else {
      ExportBodyAt(students, rec, notes, date, order[1..], k - 1);
    }
  }

  /** The written export reads back as its header and body rows. */
  lemma ExportReadsBack(students: seq<Student>, rec: Bucket, notes: Bucket, date: Date, order: seq<Id>)
    requires forall j :: 0 <= j < |order| ==> order[j] in rec
    ensures var rows := [ExportHeader] + ExportBody(students, rec, notes, date, order);
      Csv.Read(Csv.Document(rows)) == Some(rows)
  {
    var rows := [ExportHeader] + ExportBody(students, rec, notes, date, order);
    forall k | 0 <= k < |rows| ensures rows[k] != [] {
      if k > 0 {
        ExportBodyAt(students, rec, notes, date, order, k - 1);
      }
    }
    Csv.ReadDocument(rows);
  }

  /** `order` lists the keys of `rec` once each: the enumeration `Object.keys` gives. */
  predicate ListsKeys(order: seq<Id>, rec: Bucket) {
    && (forall k :: 0 <= k < |order| ==> order[k] in rec)
    && (forall sid :: sid in rec ==> sid in order)
    && (forall i, j :: 0 <= i < j < |order| ==> order[i] != order[j])
  }

  datatype Download = Download(filename: string, text: string)

  /**
   * `exportAttendanceCsv(date)`: the header, then one row per student id recorded for the date
   * (in the order `order` in which the bucket's keys enumerate), written as CSV to
   * `attendance-<date>.csv`; an empty date means today. Reading the file back gives the rows.
   */
  function ExportAttendance(data: Snapshot, dateStr: Date, today: Date, order: seq<Id>): (r: Download)
    requires ListsKeys(order, BucketOr(data.attendance, if dateStr != "" then dateStr else today))
    ensures var date := if dateStr != "" then dateStr else today;
      var rec := BucketOr(data.attendance, date);
      r.filename == "attendance-" + date + ".csv"
      && Csv.Read(r.text) == Some([ExportHeader] + ExportBody(data.students, rec, BucketOr(data.attendanceNotes, date), date, order))
  {
    var date := if dateStr != "" then dateStr else today;
    var rec := BucketOr(data.attendance, date);
    var rows := [ExportHeader] + ExportBody(data.students, rec, BucketOr(data.attendanceNotes, date), date, order);
    ExportReadsBack(data.students, rec, BucketOr(data.attendanceNotes, date), date, order);
    Download("attendance-" + date + ".csv", Csv.Document(rows))
  }

  /**
   * The export body has exactly one row per recorded student id, each with the status recorded for
   * it, and every row is for a recorded id.
   */
  lemma ExportCoversRecord(students: seq<Student>, rec: Bucket, notes: Bucket, date: Date, order: seq<Id>)
    requires ListsKeys(order, rec)
    ensures var body := ExportBody(students, rec, notes, date, order);
      && |body| == |rec|
      && (forall sid :: sid in rec ==> exists k :: 0 <= k < |body| && body[k][1] == sid && body[k][4] == rec[sid])
      && (forall k :: 0 <= k < |body| ==> body[k][1] in rec)
  {
    var body := ExportBody(students, rec, notes, date, order);
    assert |body| == |rec| by {
      DistinctCard(order, rec);
    }
    forall sid | sid in rec
      ensures exists k :: 0 <= k < |body| && body[k][1] == sid && body[k][4] == rec[sid]
    {
      ExportFindsId(students, rec, notes, date, order, sid);
    }
    assert forall k :: 0 <= k < |body| ==> body[k][1] in rec by {
      forall k | 0 <= k < |body| ensures body[k][1] in rec {
        ExportBodyAt(students, rec, notes, date, order, k);
      }
    }
  }

  /** A recorded id has a row in the export body, with its recorded status. */
  lemma ExportFindsId(students: seq<Student>, rec: Bucket, notes: Bucket, date: Date, order: seq<Id>, sid: Id)
    requires ListsKeys(order, rec)
    requires sid in rec
    ensures var body := ExportBody(students, rec, notes, date, order);
      exists k :: 0 <= k < |body| && body[k][1] == sid && body[k][4] == rec[sid]
  {
    var k :| 0 <= k < |order| && order[k] == sid;
    ExportBodyAt(students, rec, notes, date, order, k);
  }

  /** A duplicate-free listing of a map's keys is as long as the map. */
  lemma {:induction false} DistinctCard(order: seq<Id>, rec: Bucket)
    requires ListsKeys(order, rec)
    ensures |order| == |rec|
    decreases |order|
  {
    if order == [] {
      assert rec.Keys == {};
    } else {
      var rest := rec - {order[0]};
      assert ListsKeys(order[1..], rest) by {
        forall sid | sid in rest ensures sid in order[1..] {
          var k :| 0 <= k < |order| && order[k] == sid;
          assert k != 0;
          assert order[1..][k - 1] == sid;
        }
        forall k | 0 <= k < |order[1..]| ensures order[1..][k] in rest {
          assert order[1..][k] == order[k + 1] != order[0];
        }
      }
      DistinctCard(order[1..], rest);
    }
  }

  // ---- Students CSV import ----

  /** A student the import creates, before it is given an id. */
  datatype Entry = Entry(name: string, roll: string, classId: Option<Id>)

  /** `parts.map(c => c.trim())`: every cell comes out trimmed, and empty exactly when it was blank. */
  function TrimAll(parts: seq<string>): (r: seq<string>)
    ensures |r| == |parts|
    ensures forall k :: 0 <= k < |r| ==> Trim(r[k]) == r[k] && (r[k] == "" <==> Blank(parts[k]))
  {
    var r := seq(|parts|, k requires 0 <= k < |parts| => Trim(parts[k]));
    assert forall k :: 0 <= k < |r| ==> Trim(r[k]) == r[k] by {
      forall k | 0 <= k < |r| ensures Trim(r[k]) == r[k] {
        TrimTwice(parts[k]);
      }
    }
    r
  }

  predicate NonEmpty(s: string) { s != "" }

  /** `raw.split('\n').map(r => r.trim()).filter(Boolean)`: the trimmed non-blank lines. */
  function ImportLines(raw: string): (lines: seq<string>)
    ensures forall k :: 0 <= k < |lines| ==> lines[k] != "" && '\n' !in lines[k]
    ensures forall k :: 0 <= k < |lines| ==> Trim(lines[k]) == lines[k]
  {
    var pieces := Split(raw, '\n');
    var lines := Seqs.Keep(TrimAll(pieces), NonEmpty);
    assert forall k :: 0 <= k < |lines| ==> '\n' !in lines[k] by {
      forall k | 0 <= k < |lines| ensures '\n' !in lines[k] {
        var j :| 0 <= j < |pieces| && TrimAll(pieces)[j] == lines[k];
        TrimChars(pieces[j]);
      }
    }
    lines
  }

  /** Trimming cell by cell distributes over concatenation. */
  lemma TrimAllAppend(a: seq<string>, b: seq<string>)
    ensures TrimAll(a + b) == TrimAll(a) + TrimAll(b)
  {
    assert forall k :: 0 <= k < |a + b| ==> TrimAll(a + b)[k] == (TrimAll(a) + TrimAll(b))[k];
  }

  /** A single line imports as itself trimmed, or as nothing when it is blank. */
  lemma ImportLinesOne(a: string)
    requires '\n' !in a
    ensures ImportLines(a) == if Blank(a) then [] else [Trim(a)]
  {
    SplitNone(a, '\n');
    var t := Trim(a);
    assert TrimAll([a]) == [t];
    assert ImportLines(a) == Seqs.Keep([t], NonEmpty);
    assert Seqs.Keep([t], NonEmpty) == (if NonEmpty(t) then [t] else []) + Seqs.Keep([], NonEmpty);
  }

  /**
   * The import keeps the input's lines in order: the first line's contribution comes first and the
   * rest of the text contributes the rest, so no non-blank line is dropped and none is reordered.
   */
  lemma ImportLinesCons(a: string, b: string)
    requires '\n' !in a
    ensures ImportLines(a + "\n" + b) == ImportLines(a) + ImportLines(b)
  {
    SplitCons(a, b, '\n');
    SplitNone(a, '\n');
    TrimAllAppend([a], Split(b, '\n'));
    Seqs.KeepAppend(TrimAll([a]), TrimAll(Split(b, '\n')), NonEmpty);
  }

  /**
   * One line of the import: name = first cell, roll = second cell or empty, class = third cell,
   * or `firstClass` when it is missing or empty; cells are trimmed and extra cells are ignored.
   * A line whose name is empty gives no entry.
   */
  function EntryOf(line: string, firstClass: Option<Id>): (r: seq<Entry>)
    ensures |r| <= 1
    ensures r != [] ==> r[0].name != "" && ',' !in r[0].name
  {
    var cols := TrimAll(Split(line, ','));
    TrimChars(Split(line, ',')[0]);
    if cols[0] == "" then []
    else [Entry(cols[0], if |cols| > 1 then cols[1] else "", if |cols| > 2 && cols[2] != "" then Some(cols[2]) else firstClass)]
  }

  /**
   * The fields of a line's entry: the trimmed first cell is the name (no entry when it is empty),
   * the second the roll, the third the class id, falling back to the first class.
   */
  lemma EntryOfFields(line: string, firstClass: Option<Id>)
    ensures var r := EntryOf(line, firstClass);
      var cols := Split(line, ',');
      && (r == [] <==> Trim(cols[0]) == "")
      && (r != [] ==>
            && r[0].name == Trim(cols[0])
            && r[0].roll == (if |cols| > 1 then Trim(cols[1]) else "")
            && r[0].classId == (if |cols| > 2 && Trim(cols[2]) != "" then Some(Trim(cols[2])) else firstClass))
  {
  }

  /** The line parser of the import, for the fallback class `firstClass`. */
  function Parser(firstClass: Option<Id>): string -> seq<Entry> {
    line => EntryOf(line, firstClass)
  }

  /** The entries the lines yield under `parse`, in line order. */
  function Entries(lines: seq<string>, parse: string -> seq<Entry>): seq<Entry>
    decreases |lines|
  {
    if lines == [] then []
    else Entries(lines[..|lines| - 1], parse) + parse(lines[|lines| - 1])
  }

  /**
   * The import yields at most one entry per line, each with a non-empty name that holds no comma.
   */
  lemma {:induction false} ImportEntriesNamed(lines: seq<string>, firstClass: Option<Id>)
    ensures var r := Entries(lines, Parser(firstClass));
      |r| <= |lines| && forall k :: 0 <= k < |r| ==> r[k].name != "" && ',' !in r[k].name
    decreases |lines|
  {
    if lines != [] {
      ImportEntriesNamed(lines[..|lines| - 1], firstClass);
    }
  }

  /** What the import creates from the pasted text: nothing when the text is blank. */
  function ImportEntries(text: string, firstClass: Option<Id>): seq<Entry> {
    var raw := Trim(text);
    if raw == "" then [] else Entries(ImportLines(raw), Parser(firstClass))
  }

  /** The created students: the k-th gets id `uid(k)` and an empty grade. */
  function Imported(entries: seq<Entry>, uid: nat -> Id): seq<Student>
    decreases |entries|
  {
    if entries == [] then []
    else
      var e := entries[|entries| - 1];
      Imported(entries[..|entries| - 1], uid) + [Student(uid(|entries| - 1), e.name, e.roll, e.classId, "")]
  }

  /** The k-th imported entry becomes a student with id uid(k) and an empty grade. */
  lemma {:induction false} ImportedAt(entries: seq<Entry>, uid: nat -> Id)
    ensures |Imported(entries, uid)| == |entries|
    ensures forall k :: 0 <= k < |entries| ==>
      Imported(entries, uid)[k] == Student(uid(k), entries[k].name, entries[k].roll, entries[k].classId, "")
    decreases |entries|
  {
    if entries != [] {
      ImportedAt(entries[..|entries| - 1], uid);
    }
  }
}
