/**
 * The attendance page: a form of student rows (a name and a status each) for one year, the
 * submission that checks every row and appends one record to the stored history, and the history
 * panel that lists the records newest first with their status counts.
 */
module Attendance {
  import opened Text

  /** The three choices of a row's status select. */
  datatype Status = Present | Absent | Late

  /** One row of the form as typed: the name input's raw value and the selected status. */
  datatype Row = Row(name: string, status: Status)

  /** One student of a submitted record. */
  datatype Entry = Entry(name: string, status: Status)

  /** One element of the stored `attendanceHistory` array. */
  datatype Record = Record(year: string, timestamp: string, students: seq<Entry>)

  /** What the submit handler ends with: one of its three alerts, or the submission. */
  datatype Outcome = NoYear | NoStudents | MissingName | Submitted(count: nat)

  /** The row `addStudentRow()` appends when called without arguments. */
  const BlankRow := Row("", Present)

  /** Every row's name is non-blank once trimmed. */
  predicate AllNamed(rows: seq<Row>) {
    forall i :: 0 <= i < |rows| ==> Trim(rows[i].name) != ""
  }

  /** The entries a form submits: each row's trimmed name with its status, in row order. */
  function Marked(rows: seq<Row>): (r: seq<Entry>)
    ensures |r| == |rows|
    ensures forall i :: 0 <= i < |rows| ==> r[i] == Entry(Trim(rows[i].name), rows[i].status)
  {
    seq(|rows|, i requires 0 <= i < |rows| => Entry(Trim(rows[i].name), rows[i].status))
  }

  /** A record as a submission produces it: a chosen year and at least one named, trimmed student. */
  predicate WellFormed(r: Record) {
    && r.year != ""
    && |r.students| > 0
    && forall i :: 0 <= i < |r.students| ==> r.students[i].name != "" && Trim(r.students[i].name) == r.students[i].name
  }

  /** The entries of a fully named form have non-empty names that trimming leaves as they are. */
  lemma MarkedNamed(rows: seq<Row>)
    requires AllNamed(rows)
    ensures forall i :: 0 <= i < |rows| ==> Marked(rows)[i].name != "" && Trim(Marked(rows)[i].name) == Marked(rows)[i].name
  {
    forall i | 0 <= i < |rows|
      ensures Trim(Marked(rows)[i].name) == Marked(rows)[i].name
    {
      TrimTwice(rows[i].name);
    }
  }

  /**
   * The loop over the rows: collects the entries, and gives up at the first row whose trimmed name is
   * empty.
   */
  method CollectStudents(rows: seq<Row>) returns (students: seq<Entry>, ok: bool)
    ensures ok <==> AllNamed(rows)
    ensures ok ==> students == Marked(rows)
  {
    students := [];
    var i := 0;
    while i < |rows|
      invariant 0 <= i <= |rows|
      invariant AllNamed(rows[..i])
      invariant students == Marked(rows[..i])
    {
      var name := Trim(rows[i].name);
      if name == "" {
        return students, false;
      }
      students := students + [Entry(name, rows[i].status)];
      i := i + 1;
    }
    assert rows[..i] == rows;
    ok := true;
  }

  /** How many students have status `s` (`students.filter(s => s.status === ...).length`). */
  function CountStatus(students: seq<Entry>, s: Status): (n: nat)
    ensures n <= |students|
    decreases |students|
  {
    if students == [] then 0
    else (if students[0].status == s then 1 else 0) + CountStatus(students[1..], s)
  }

  /** Every student is counted under exactly one status, so the three counts add up to the total. */
  lemma {:induction false} StatusCounts(students: seq<Entry>)
    ensures CountStatus(students, Present) + CountStatus(students, Absent) + CountStatus(students, Late)
         == |students|
    decreases |students|
  {
    if students != [] {
      StatusCounts(students[1..]);
    }
  }

  /** A status is counted exactly when some student has it. */
  lemma {:induction false} CountStatusPositive(students: seq<Entry>, s: Status)
    ensures CountStatus(students, s) > 0 <==> exists i :: 0 <= i < |students| && students[i].status == s
    decreases |students|
  {
    if students != [] {
      CountStatusPositive(students[1..], s);
      if CountStatus(students[1..], s) > 0 {
        var i :| 0 <= i < |students[1..]| && students[1..][i].status == s;
        assert students[i + 1].status == s;
      }
      if exists i :: 0 <= i < |students| && students[i].status == s {
        var i :| 0 <= i < |students| && students[i].status == s;
        if i > 0 {
          assert students[1..][i - 1].status == s;
        }
      }
    }
  }

  /** One item of the history panel. */
  datatype Summary = Summary(timestamp: string, year: string, total: nat, present: nat, absent: nat, late: nat)

  function Summarize(r: Record): (s: Summary)
    ensures s.present + s.absent + s.late == s.total == |r.students|
  {
    StatusCounts(r.students);
    Summary(r.timestamp, r.year, |r.students|,
            CountStatus(r.students, Present), CountStatus(r.students, Absent), CountStatus(r.students, Late))
  }

  /** What the history panel shows: the "no history" notice, or one summary per record. */
  datatype Panel = NoHistory | Items(items: seq<Summary>)

  /** `loadHistory`: newest record first. */
  function HistoryPanel(history: seq<Record>): (p: Panel)
  {
    if history == [] then NoHistory
    else Items(SummariesNewestFirst(history))
  }

  /** `history.slice().reverse()`, each record summarised. */
  function SummariesNewestFirst(history: seq<Record>): (r: seq<Summary>)
    ensures |r| == |history|
    decreases |history|
  {
    if history == [] then [] else [Summarize(history[|history| - 1])] + SummariesNewestFirst(history[..|history| - 1])
  }

  /**
   * The panel shows the notice exactly when the history is empty, and otherwise the summary of
   * every record, the i-th item being the i-th most recent record.
   */
  lemma {:induction false} HistoryPanelOrder(history: seq<Record>)
    ensures HistoryPanel(history) == NoHistory <==> history == []
    ensures HistoryPanel(history).Items? ==>
      && |HistoryPanel(history).items| == |history|
      && forall i :: 0 <= i < |history| ==> HistoryPanel(history).items[i] == Summarize(history[|history| - 1 - i])
  {
    SummariesAt(history);
  }

  lemma {:induction false} SummariesAt(history: seq<Record>)
    ensures forall i :: 0 <= i < |history| ==> SummariesNewestFirst(history)[i] == Summarize(history[|history| - 1 - i])
    decreases |history|
  {
    if history != [] {
      SummariesAt(history[..|history| - 1]);
    }
  }

  /** After a submission the panel's first item is the record just added. */
  lemma NewestFirstAfterSubmit(history: seq<Record>, r: Record)
    ensures HistoryPanel(history + [r]) == Items([Summarize(r)] + SummariesNewestFirst(history))
  {
    assert (history + [r])[..|history|] == history;
  }

  class AttendancePage {
    /** The year select's value (empty while no year is chosen). */
    var year: string
    /** The rows of the students container, in document order. */
    var rows: seq<Row>
    /** The stored `attendanceHistory`, oldest record first. */
    var history: seq<Record>

    /**
     * The page as loaded: one blank row, the year select's initial value (set by the page's
     * markup), and the history found in storage.
     */
    constructor (initialYear: string, stored: seq<Record>)
      ensures year == initialYear && rows == [BlankRow] && history == stored
    {
      year, rows, history := initialYear, [BlankRow], stored;
    }

    /** The add-student button: one more blank row, present by default, at the end. */
    method AddStudentRow()
      modifies this
      ensures rows == old(rows) + [BlankRow]
      ensures year == old(year) && history == old(history)
    {
      rows := rows + [BlankRow];
    }

    /** A row's remove button: that row leaves the container, the others keep their order. */
    method RemoveRow(k: nat)
      requires k < |rows|
      modifies this
      ensures rows == old(rows)[..k] + old(rows)[k + 1..]
      ensures year == old(year) && history == old(history)
    {
      rows := rows[..k] + rows[k + 1..];
    }

    /**
     * The clear-history button: the history is emptied only when the confirmation is accepted.
     */
    method ClearHistory(confirmed: bool)
      modifies this
      ensures history == if confirmed then [] else old(history)
      ensures year == old(year) && rows == old(rows)
    {
      if confirmed {
        history := [];
      }
    }

    /**
     * The form's submit handler, with the clock's reading as `timestamp`. A missing year, an empty
     * container or a row with a blank name stops it with nothing changed. Otherwise one record with
     * every row's trimmed name and status, in row order, is appended to the history, earlier
     * records untouched, and the form is reset to no year and one blank row.
     */
    method Submit(timestamp: string) returns (outcome: Outcome)
      modifies this
      ensures outcome == NoYear <==> old(year) == ""
      ensures outcome == NoStudents <==> old(year) != "" && old(rows) == []
      ensures outcome == MissingName <==> old(year) != "" && old(rows) != [] && !AllNamed(old(rows))
      ensures outcome.Submitted? ==>
        && outcome.count == |old(rows)|
        && history == old(history) + [Record(old(year), timestamp, Marked(old(rows)))]
        && WellFormed(history[|history| - 1])
        && year == "" && rows == [BlankRow]
      ensures !outcome.Submitted? ==> year == old(year) && rows == old(rows) && history == old(history)
    {
      if year == "" {
        return NoYear;
      }
      if rows == [] {
        return NoStudents;
      }
      var students, ok := CollectStudents(rows);
      if !ok {
        return MissingName;
      }
      MarkedNamed(rows);
      outcome := Submitted(|students|);
      history := history + [Record(year, timestamp, students)];
      year := "";
      rows := [BlankRow];
    }
  }
}
