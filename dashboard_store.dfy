/**
 * The teacher dashboard's state store: one record of ordered lists and date-keyed maps that the
 * page handlers change in place, each successful change ending with `saveState`, which writes the
 * whole tree to the storage slot. Ids that `uid()` would draw at random, the answer of `confirm()`
 * and the values typed into the forms are parameters.
 */
module DashboardStore {
  import opened Wrappers
  import opened Text
  import opened Dashboard

  // ---- Saving the attendance table ----

  /** The attendance select of a table row: the student it is for and the chosen status. */
  datatype Selection = Selection(studentId: Id, status: string)

  /** A row of the attendance table; a row without a select is skipped, a missing note reads as empty. */
  datatype TableRow = TableRow(select: Option<Selection>, note: Option<string>)

  function StatusOf(r: TableRow): string {
    if r.select.Some? then r.select.value.status else ""
  }

  function NoteOf(r: TableRow): string {
    r.note.GetOr("")
  }

  /** The students the rows write to. */
  function RowIds(rows: seq<TableRow>): set<Id> {
    set k | 0 <= k < |rows| && rows[k].select.Some? :: rows[k].select.value.studentId
  }

  /** Row `k` is the last row of the table for its student. */
  predicate LastFor(rows: seq<TableRow>, k: int)
    requires 0 <= k < |rows| && rows[k].select.Some?
  {
    forall j :: k < j < |rows| && rows[j].select.Some? ==> rows[j].select.value.studentId != rows[k].select.value.studentId
  }

  /** The bucket after the rows are written into it in table order. */
  function Record(bucket: Bucket, rows: seq<TableRow>, val: TableRow -> string): Bucket
    decreases |rows|
  {
    if rows == [] then bucket
    else
      var b := Record(bucket, rows[..|rows| - 1], val);
      var row := rows[|rows| - 1];
      if row.select.Some? then b[row.select.value.studentId := val(row)] else b
  }

  /** Writing the first `i + 1` rows is writing the first `i`, then row `i`. */
  lemma RecordSnoc(bucket: Bucket, rows: seq<TableRow>, i: nat, val: TableRow -> string)
    requires i < |rows|
    ensures Record(bucket, rows[..i + 1], val) ==
      if rows[i].select.Some? then Record(bucket, rows[..i], val)[rows[i].select.value.studentId := val(rows[i])]
      else Record(bucket, rows[..i], val)
  {
    assert rows[..i + 1][..i] == rows[..i];
  }

  lemma RowIdsSnoc(rows: seq<TableRow>)
    requires rows != []
    ensures var row := rows[|rows| - 1];
      RowIds(rows) == RowIds(rows[..|rows| - 1]) + (if row.select.Some? then {row.select.value.studentId} else {})
  {
    var init := rows[..|rows| - 1];
    forall sid | sid in RowIds(rows)
      ensures sid in RowIds(init) || (rows[|rows| - 1].select.Some? && sid == rows[|rows| - 1].select.value.studentId)
    {
      var k :| 0 <= k < |rows| && rows[k].select.Some? && rows[k].select.value.studentId == sid;
      if k < |rows| - 1 {
        assert init[k] == rows[k];
      }
    }
    forall sid | sid in RowIds(init) ensures sid in RowIds(rows) {
      var k :| 0 <= k < |init| && init[k].select.Some? && init[k].select.value.studentId == sid;
      assert rows[k] == init[k];
    }
  }

  /**
   * Writing the rows gives every row's student the value of its last row, adds no other key and
   * keeps the entry of every student no row names.
   */
  lemma {:induction false} RecordWrites(bucket: Bucket, rows: seq<TableRow>, val: TableRow -> string)
    ensures var r := Record(bucket, rows, val);
      && r.Keys == bucket.Keys + RowIds(rows)
      && (forall sid :: sid in bucket && sid !in RowIds(rows) ==> r[sid] == bucket[sid])
      && (forall k :: 0 <= k < |rows| && rows[k].select.Some? && LastFor(rows, k) ==>
            r[rows[k].select.value.studentId] == val(rows[k]))
    decreases |rows|
  {
    if rows != [] {
      var init := rows[..|rows| - 1];
      var row := rows[|rows| - 1];
      RecordWrites(bucket, init, val);
      RowIdsSnoc(rows);
      var r := Record(bucket, rows, val);
      forall k | 0 <= k < |rows| && rows[k].select.Some? && LastFor(rows, k)
        ensures r[rows[k].select.value.studentId] == val(rows[k])
      {
        if k < |rows| - 1 {
          assert init[k] == rows[k];
          assert LastFor(init, k);
        }
      }
    }
  }

  /** The entries of the first `i + 1` lines are those of the first `i`, then line `i`'s. */
  lemma EntriesSnoc(lines: seq<string>, i: nat, parse: string -> seq<Entry>)
    requires i < |lines|
    ensures Entries(lines[..i + 1], parse) == Entries(lines[..i], parse) + parse(lines[i])
  {
    assert lines[..i + 1][..i] == lines[..i];
  }

  /** Creating one more student appends it with the next id. */
  lemma ImportedSnoc(before: seq<Entry>, e: Entry, uid: nat -> Id)
    ensures Imported(before + [e], uid) == Imported(before, uid) + [Student(uid(|before|), e.name, e.roll, e.classId, "")]
  {
    assert (before + [e])[..|before|] == before;
  }

  /** Creating the students of one more line's entries: none, or one with the next id. */
  lemma CreateStep(done: seq<Entry>, e: seq<Entry>, uid: nat -> Id)
    requires |e| <= 1
    ensures |done + e| == |done| + |e|
    ensures Imported(done + e, uid)
         == if e == [] then Imported(done, uid)
            else Imported(done, uid) + [Student(uid(|done|), e[0].name, e[0].roll, e[0].classId, "")]
  {
    if e != [] {
      assert e == [e[0]];
      ImportedSnoc(done, e[0], uid);
    } else {
      assert done + e == done;
    }
  }

  /** The date the attendance handlers use: the date input, or today when it is empty. */
  function EffectiveDate(dateInput: Date, today: Date): Date {
    if dateInput != "" then dateInput else today
  }

  /**
   * The loop of the import modal: each line yields at most one entry, and each entry a student
   * whose id is drawn in turn.
   */
  method CreateStudents(lines: seq<string>, parse: string -> seq<Entry>, uid: nat -> Id) returns (created: seq<Student>, count: nat)
    requires forall line :: |parse(line)| <= 1
    ensures count == |Entries(lines, parse)|
    ensures created == Imported(Entries(lines, parse), uid)
  {
    created := [];
    count := 0;
    ghost var done: seq<Entry> := [];
    var i := 0;
    while i < |lines|
      invariant 0 <= i <= |lines|
      invariant done == Entries(lines[..i], parse)
      invariant count == |done|
      invariant created == Imported(done, uid)
    {
      var e := parse(lines[i]);
      EntriesSnoc(lines, i, parse);
      CreateStep(done, e, uid);
      if e != [] {
        created := created + [Student(uid(count), e[0].name, e[0].roll, e[0].classId, "")];
        count := count + 1;
      }
      done := done + e;
      i := i + 1;
    }
    assert lines[..|lines|] == lines;
  }

  /**
   * The loop of the delete handler: for every date with attendance, the student's status is
   * removed, and so is the student's note for that date when the date has notes.
   */
  method PurgeStudent(att0: Days, notes0: Days, id: Id) returns (att: Days, notes: Days)
    ensures att == PurgeDays(att0, att0.Keys, id)
    ensures notes == PurgeDays(notes0, att0.Keys, id)
  {
    att, notes := att0, notes0;
    var dates := att.Keys;
    var todo := dates;
    while todo != {}
      invariant todo <= dates
      invariant att.Keys == att0.Keys && notes.Keys == notes0.Keys
      invariant forall e :: e in att ==> att[e] == if e in todo then att0[e] else att0[e] - {id}
      invariant forall e :: e in notes ==> notes[e] == if e in dates && e !in todo then notes0[e] - {id} else notes0[e]
      decreases todo
    {
      var d :| d in todo;
      att := att[d := att[d] - {id}];
      if d in notes {
        notes := notes[d := notes[d] - {id}];
      }
      todo := todo - {d};
    }
  }

  class Store {
    var classes: seq<ClassRecord>
    var students: seq<Student>
    var attendance: Days
    var attendanceNotes: Days
    var timetable: seq<Slot>
    var assignments: seq<Assignment>
    var announcements: seq<Announcement>

    /** The storage slot the tree is written to. */
    var stored: Snapshot

    /** The in-memory tree. */
    function Tree(): Snapshot
      reads this
    {
      Snapshot(classes, students, attendance, attendanceNotes, timetable, assignments, announcements)
    }

    /** What is in storage is the tree in memory: every change is saved. */
    ghost predicate Valid()
      reads this
    {
      stored == Tree()
    }

    /** `loadState`: the stored tree, or the demo data (written back) when storage is empty or corrupt. */
    constructor Load(saved: Option<Snapshot>)
      ensures Valid()
      ensures Tree() == saved.GetOr(Demo)
    {
      var t := saved.GetOr(Demo);
      classes, students := t.classes, t.students;
      attendance, attendanceNotes := t.attendance, t.attendanceNotes;
      timetable, assignments, announcements := t.timetable, t.assignments, t.announcements;
      stored := t;
    }

    /** `saveState`: writes the whole tree to storage. */
    method Save()
      modifies this
      ensures Valid()
      ensures Tree() == old(Tree())
    {
      stored := Tree();
    }

    /** `resetData`: once confirmed, storage is cleared and the demo data reloaded. */
    method ResetData(confirmed: bool)
      requires Valid()
      modifies this
      ensures Valid()
      ensures Tree() == if confirmed then Demo else old(Tree())
    {
      if !confirmed {
        return;
      }
      classes, students := Demo.classes, Demo.students;
      attendance, attendanceNotes := Demo.attendance, Demo.attendanceNotes;
      timetable, assignments, announcements := Demo.timetable, Demo.assignments, Demo.announcements;
      Save();
    }

    // ---- Students ----

    /** Add-student modal: a blank name aborts; otherwise one student with an empty grade is appended. */
    method AddStudent(id: Id, name: string, roll: string, classId: Id) returns (ok: bool)
      requires Valid()
      modifies this
      ensures Valid()
      ensures ok <==> Trim(name) != ""
      ensures Tree() == if ok then old(Tree()).(students := old(students) + [Student(id, Trim(name), Trim(roll), Some(classId), "")])
                        else old(Tree())
    {
      var n := Trim(name);
      if n == "" {
        return false;
      }
      students := students + [Student(id, n, Trim(roll), Some(classId), "")];
      Save();
      ok := true;
    }

    /** Edit-student modal: the first student with the id takes the name, roll and class as typed. */
    method EditStudent(id: Id, name: string, roll: string, classId: Id) returns (found: bool)
      requires Valid()
      modifies this
      ensures Valid()
      ensures var i := FindById(old(students), StudentKey, id);
        && (found <==> i >= 0)
        && Tree() == if found then old(Tree()).(students := old(students)[i := old(students)[i].(name := name, roll := roll, classId := Some(classId))])
                     else old(Tree())
    {
      var i := FindById(students, StudentKey, id);
      if i < 0 {
        return false;
      }
      students := students[i := students[i].(name := name, roll := roll, classId := Some(classId))];
      Save();
      found := true;
    }

    /** Grade cell blur: the first student with the id takes the trimmed text as grade. */
    method SetGrade(id: Id, text: string) returns (found: bool)
      requires Valid()
      modifies this
      ensures Valid()
      ensures var i := FindById(old(students), StudentKey, id);
        && (found <==> i >= 0)
        && Tree() == if found then old(Tree()).(students := old(students)[i := old(students)[i].(grade := Trim(text))])
                     else old(Tree())
    {
      var i := FindById(students, StudentKey, id);
      if i < 0 {
        return false;
      }
      students := students[i := students[i].(grade := Trim(text))];
      Save();
      found := true;
    }

    /**
     * Delete-student button: once confirmed, every student with the id is removed, and the id is
     * deleted from the attendance and note buckets of every date the attendance map has.
     */
    method DeleteStudent(id: Id, confirmed: bool)
      requires Valid()
      modifies this
      ensures Valid()
      ensures Tree() == if confirmed then old(Tree()).(
                          students := WithoutId(old(students), StudentKey, id),
                          attendance := PurgeDays(old(attendance), old(attendance).Keys, id),
                          attendanceNotes := PurgeDays(old(attendanceNotes), old(attendance).Keys, id))
                        else old(Tree())
    {
      if !confirmed {
        return;
      }
      var att, notes := PurgeStudent(attendance, attendanceNotes, id);
      students, attendance, attendanceNotes := WithoutId(students, StudentKey, id), att, notes;
      Save();
    }

    /** Import modal: see `ImportEntries`; a blank text changes nothing and is not saved. */
    method ImportCsv(text: string, uid: nat -> Id) returns (ok: bool, count: nat)
      requires Valid()
      modifies this
      ensures Valid()
      ensures ok <==> Trim(text) != ""
      ensures var entries := ImportEntries(text, FirstClassId(old(classes)));
        && count == |entries|
        && Tree() == if ok then old(Tree()).(students := old(students) + Imported(entries, uid)) else old(Tree())
    {
      var raw := Trim(text);
      if raw == "" {
        return false, 0;
      }
      var lines := ImportLines(raw);
      var created;
      created, count := CreateStudents(lines, Parser(FirstClassId(classes)), uid);
      students := students + created;
      Save();
      ok := true;
    }

    // ---- Attendance ----

    /**
     * `saveAttendanceFromTable`: under the chosen date (today when the input is empty; an empty
     * date aborts) each row's status and note are written, creating the date's buckets when
     * missing. Other dates are left as they were.
     */
    method SaveAttendance(dateInput: Date, today: Date, rows: seq<TableRow>) returns (saved: bool)
      requires Valid()
      modifies this
      ensures Valid()
      ensures var date := EffectiveDate(dateInput, today);
        && (saved <==> date != "")
        && Tree() == if saved then old(Tree()).(
                        attendance := old(attendance)[date := Record(BucketOr(old(attendance), date), rows, StatusOf)],
                        attendanceNotes := old(attendanceNotes)[date := Record(BucketOr(old(attendanceNotes), date), rows, NoteOf)])
                     else old(Tree())
    {
      var date := EffectiveDate(dateInput, today);
      if date == "" {
        return false;
      }
      ghost var att0, notes0 := attendance, attendanceNotes;
      var att := attendance[date := BucketOr(attendance, date)];
      var notes := attendanceNotes[date := BucketOr(attendanceNotes, date)];
      var i := 0;
      while i < |rows|
        invariant 0 <= i <= |rows|
        invariant Tree() == old(Tree())
        invariant att == att0[date := Record(BucketOr(att0, date), rows[..i], StatusOf)]
        invariant notes == notes0[date := Record(BucketOr(notes0, date), rows[..i], NoteOf)]
      {
        var row := rows[i];
        RecordSnoc(BucketOr(att0, date), rows, i, StatusOf);
        RecordSnoc(BucketOr(notes0, date), rows, i, NoteOf);
        if row.select.Some? {
          var sid := row.select.value.studentId;
          att := att[date := att[date][sid := StatusOf(row)]];
          notes := notes[date := notes[date][sid := NoteOf(row)]];
        }
        i := i + 1;
      }
      assert rows[..|rows|] == rows;
      assert att == att0[date := Record(BucketOr(att0, date), rows, StatusOf)];
      assert notes == notes0[date := Record(BucketOr(notes0, date), rows, NoteOf)];
      attendance, attendanceNotes := att, notes;
      Save();
      saved := true;
    }

    // ---- Timetable ----

    /** Timetable input blur: the named field of the first slot with the id takes the value. */
    method SetSlotField(id: Id, field: SlotField, value: string) returns (found: bool)
      requires Valid()
      modifies this
      ensures Valid()
      ensures var i := FindById(old(timetable), SlotKey, id);
        && (found <==> i >= 0)
        && Tree() == if found then old(Tree()).(timetable := old(timetable)[i := WithField(old(timetable)[i], field, value)])
                     else old(Tree())
    {
      var i := FindById(timetable, SlotKey, id);
      if i < 0 {
        return false;
      }
      timetable := timetable[i := WithField(timetable[i], field, value)];
      Save();
      found := true;
    }

    /** Delete-slot button: once confirmed, every slot with the id is removed. */
    method DeleteSlot(id: Id, confirmed: bool)
      requires Valid()
      modifies this
      ensures Valid()
      ensures Tree() == if confirmed then old(Tree()).(timetable := WithoutId(old(timetable), SlotKey, id)) else old(Tree())
    {
      if confirmed {
        timetable := WithoutId(timetable, SlotKey, id);
        Save();
      }
    }

    // ---- Assignments ----

    /** New-assignment modal: a blank title aborts; otherwise one `Open` assignment is appended. */
    method AddAssignment(id: Id, title: string, due: string, classId: Id) returns (ok: bool)
      requires Valid()
      modifies this
      ensures Valid()
      ensures ok <==> Trim(title) != ""
      ensures Tree() == if ok then old(Tree()).(assignments := old(assignments) + [Assignment(id, Trim(title), due, classId, "Open")])
                        else old(Tree())
    {
      var t := Trim(title);
      if t == "" {
        return false;
      }
      assignments := assignments + [Assignment(id, t, due, classId, "Open")];
      Save();
      ok := true;
    }

    /** Edit-assignment modal: the first assignment with the id takes the trimmed title, due date and status. */
    method EditAssignment(id: Id, title: string, due: string, status: string) returns (found: bool)
      requires Valid()
      modifies this
      ensures Valid()
      ensures var i := FindById(old(assignments), AssignmentKey, id);
        && (found <==> i >= 0)
        && Tree() == if found then old(Tree()).(assignments := old(assignments)[i := old(assignments)[i].(title := Trim(title), due := due, status := status)])
                     else old(Tree())
    {
      var i := FindById(assignments, AssignmentKey, id);
      if i < 0 {
        return false;
      }
      assignments := assignments[i := assignments[i].(title := Trim(title), due := due, status := status)];
      Save();
      found := true;
    }

    /** Delete-assignment button: once confirmed, every assignment with the id is removed. */
    method DeleteAssignment(id: Id, confirmed: bool)
      requires Valid()
      modifies this
      ensures Valid()
      ensures Tree() == if confirmed then old(Tree()).(assignments := WithoutId(old(assignments), AssignmentKey, id)) else old(Tree())
    {
      if confirmed {
        assignments := WithoutId(assignments, AssignmentKey, id);
        Save();
      }
    }

    // ---- Announcements ----

    /** Post-announcement modal: a blank title or text aborts; otherwise one announcement is appended. */
    method AddAnnouncement(id: Id, title: string, text: string, date: string) returns (ok: bool)
      requires Valid()
      modifies this
      ensures Valid()
      ensures ok <==> Trim(title) != "" && Trim(text) != ""
      ensures Tree() == if ok then old(Tree()).(announcements := old(announcements) + [Announcement(id, Trim(title), date, Trim(text))])
                        else old(Tree())
    {
      var t, x := Trim(title), Trim(text);
      if t == "" || x == "" {
        return false;
      }
      announcements := announcements + [Announcement(id, t, date, x)];
      Save();
      ok := true;
    }

    /** Edit-announcement modal: the first announcement with the id takes title, date and text as typed. */
    method EditAnnouncement(id: Id, title: string, date: string, text: string) returns (found: bool)
      requires Valid()
      modifies this
      ensures Valid()
      ensures var i := FindById(old(announcements), AnnouncementKey, id);
        && (found <==> i >= 0)
        && Tree() == if found then old(Tree()).(announcements := old(announcements)[i := Announcement(id, title, date, text)])
                     else old(Tree())
    {
      var i := FindById(announcements, AnnouncementKey, id);
      if i < 0 {
        return false;
      }
      announcements := announcements[i := announcements[i].(title := title, date := date, text := text)];
      Save();
      found := true;
    }

    /** Delete-announcement button: once confirmed, every announcement with the id is removed. */
    method DeleteAnnouncement(id: Id, confirmed: bool)
      requires Valid()
      modifies this
      ensures Valid()
      ensures Tree() == if confirmed then old(Tree()).(announcements := WithoutId(old(announcements), AnnouncementKey, id)) else old(Tree())
    {
      if confirmed {
        announcements := WithoutId(announcements, AnnouncementKey, id);
        Save();
      }
    }
  }
}
