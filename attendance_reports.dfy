/** The read side of the attendance controller: the daily summary of
    `getAttendanceByDate` and the per-student range report of `getReport`,
    each a pure function of the stored records. */
module AttendanceReports {
  import opened Options
  import opened Seqs
  import opened Strings
  import opened Sorting
  import opened StudentModel
  import opened AttendanceModel

  predicate IsPresent(x: AttendanceRecord) { x.status == Present }
  predicate IsAbsent(x: AttendanceRecord) { x.status == Absent }
  predicate IsLeave(x: AttendanceRecord) { x.status == Leave }

  /** Every record has exactly one of the three statuses. */
  lemma StatusesPartition(s: seq<AttendanceRecord>)
    ensures |Filter(s, IsPresent)| + |Filter(s, IsAbsent)| + |Filter(s, IsLeave)| == |s|
  {
    FilterPartitionLength(s, IsPresent, IsAbsent, IsLeave);
  }

  /** `Attendance.find({ date })` */
  function OnDate(records: seq<AttendanceRecord>, date: Date): (r: seq<AttendanceRecord>)
    ensures forall x :: x in r <==> x in records && x.date == date
    ensures Sublist(r, records)
  {
    Filter(records, (x: AttendanceRecord) => x.date == date)
  }

  datatype DaySummary = DaySummary(
    date: Date,
    totalMarked: nat,
    presentCount: nat,
    absentCount: nat,
    records: seq<AttendanceRecord>)

  /** `getAttendanceByDate`: the day's records and their counts.  `Leave`
      records count towards the total only. */
  function GetAttendanceByDate(records: seq<AttendanceRecord>, date: Date): (s: DaySummary)
    ensures s.date == date && s.totalMarked == |s.records|
    ensures forall x :: x in s.records <==> x in records && x.date == date
    ensures s.presentCount == |Filter(s.records, IsPresent)| && s.absentCount == |Filter(s.records, IsAbsent)|
    ensures s.presentCount + s.absentCount + |Filter(s.records, IsLeave)| == s.totalMarked
    ensures s.presentCount + s.absentCount <= s.totalMarked
  {
    var day := OnDate(records, date);
    StatusesPartition(day);
    DaySummary(date, |day|, |Filter(day, IsPresent)|, |Filter(day, IsAbsent)|, day)
  }

  /** Marking one more record on the day raises the total by one, and
      the present (absent) count by one exactly when it is present (absent);
      a record for another day changes no count. */
  lemma SummaryAfterAppend(records: seq<AttendanceRecord>, r: AttendanceRecord, date: Date)
    ensures var before := GetAttendanceByDate(records, date);
            var after := GetAttendanceByDate(records + [r], date);
            && after.totalMarked == before.totalMarked + (if r.date == date then 1 else 0)
            && after.presentCount == before.presentCount + (if r.date == date && r.status == Present then 1 else 0)
            && after.absentCount == before.absentCount + (if r.date == date && r.status == Absent then 1 else 0)
  {
    var day := OnDate(records, date);
    OnDateAppend(records, r, date);
    if r.date == date {
      FilterAppend(day, r, IsPresent);
      FilterAppend(day, r, IsAbsent);
    } else {
      assert OnDate(records + [r], date) == day;
    }
  }

  lemma OnDateAppend(records: seq<AttendanceRecord>, r: AttendanceRecord, date: Date)
    ensures OnDate(records + [r], date) == OnDate(records, date) + (if r.date == date then [r] else [])
  {
    FilterAppend(records, r, (x: AttendanceRecord) => x.date == date);
  }

  /** The `from`, `to` and `studentId` query parameters, `None` when absent. */
  datatype ReportQuery = ReportQuery(from: Option<Date>, to: Option<Date>, studentId: Option<StudentId>)

  /** The `$match` stage: the inclusive string range and the student filter. */
  predicate InQuery(x: AttendanceRecord, q: ReportQuery)
  {
    && (q.from.None? || LexLe(q.from.value, x.date))
    && (q.to.None? || LexLe(x.date, q.to.value))
    && (q.studentId.None? || x.studentId == q.studentId.value)
  }

  function Matched(records: seq<AttendanceRecord>, q: ReportQuery): (r: seq<AttendanceRecord>)
    ensures forall x :: x in r <==> x in records && InQuery(x, q)
  {
    Filter(records, (x: AttendanceRecord) => InQuery(x, q))
  }

  /** Some record in `rs` belongs to `id`. */
  ghost predicate HasRecordOf(rs: seq<AttendanceRecord>, id: StudentId)
  {
    exists i :: 0 <= i < |rs| && rs[i].studentId == id
  }

  /** The keys of `$group: { _id: '$studentId' }`, each once. */
  function GroupIds(rs: seq<AttendanceRecord>): (ids: seq<StudentId>)
    ensures forall id :: id in ids <==> HasRecordOf(rs, id)
    ensures forall i, j :: 0 <= i < j < |ids| ==> ids[i] != ids[j]
  {
    if rs == [] then []
    else
      var rest := GroupIds(rs[1..]);
      assert forall id :: HasRecordOf(rs[1..], id) ==> HasRecordOf(rs, id) by {
        forall id | HasRecordOf(rs[1..], id) ensures HasRecordOf(rs, id) {
          var i :| 0 <= i < |rs[1..]| && rs[1..][i].studentId == id;
          assert rs[i + 1].studentId == id;
        }
      }
      assert forall id :: HasRecordOf(rs, id) ==> id == rs[0].studentId || HasRecordOf(rs[1..], id) by {
        forall id | HasRecordOf(rs, id) && id != rs[0].studentId ensures HasRecordOf(rs[1..], id) {
          var i :| 0 <= i < |rs| && rs[i].studentId == id;
          assert rs[1..][i - 1].studentId == id;
        }
      }
      if rs[0].studentId in rest then rest else [rs[0].studentId] + rest
  }

  /** One element of the report after `$project`. */
  datatype ReportRow = ReportRow(
    student: StudentRef,
    totalDays: nat,
    presentDays: nat,
    absentDays: nat,
    attendancePercentage: real)

  function RowName(row: ReportRow): string
  {
    row.student.name
  }

  function RowStudentId(row: ReportRow): StudentId
  {
    row.student.id
  }

  /** `presentDays / totalDays * 100`, before `$round`. */
  function Percentage(present: nat, total: nat): (p: real)
    requires present <= total && total > 0
    ensures 0.0 <= p <= 100.0
    ensures p == 100.0 <==> present == total
    ensures p == 0.0 <==> present == 0
  {
    PercentageBounds(present, total);
    (present as real) / (total as real) * 100.0
  }

  lemma PercentageBounds(present: nat, total: nat)
    requires present <= total && total > 0
    ensures var p := (present as real) / (total as real) * 100.0;
            && 0.0 <= p <= 100.0
            && (p == 100.0 <==> present == total)
            && (p == 0.0 <==> present == 0)
  {
    var f := (present as real) / (total as real);
    assert f * (total as real) == present as real;
    assert (1.0 - f) * (total as real) == (total - present) as real;
  }

  /** What the report promises of every row: the student has at least
      one record, present and absent days are among them, and the
      percentage is the present share. */
  predicate RowBounds(row: ReportRow)
  {
    && row.totalDays >= 1
    && row.presentDays + row.absentDays <= row.totalDays
    && 0.0 <= row.attendancePercentage <= 100.0
    && row.attendancePercentage == Percentage(row.presentDays, row.totalDays)
  }

  /** The matched records of one student. */
  function RecordsOf(matched: seq<AttendanceRecord>, id: StudentId): (mine: seq<AttendanceRecord>)
    ensures forall x :: x in mine <==> x in matched && x.studentId == id
  {
    Filter(matched, (x: AttendanceRecord) => x.studentId == id)
  }

  /** The group for student `s`: counts over its matched records. */
  function RowFor(matched: seq<AttendanceRecord>, s: Student): (row: ReportRow)
    requires HasRecordOf(matched, s.id)
    ensures row.student == RefOf(s)
    ensures RowBounds(row)
  {
    var mine := RecordsOf(matched, s.id);
    var i :| 0 <= i < |matched| && matched[i].studentId == s.id;
    assert matched[i] in mine;
    StatusesPartition(mine);
    var present := |Filter(mine, IsPresent)|;
    var absent := |Filter(mine, IsAbsent)|;
    ReportRow(RefOf(s), |mine|, present, absent,
              Percentage(present, |mine|))
  }

  /** `$lookup` + `$unwind` + `$project`: a row per group whose student
      still exists; groups of deleted students are dropped. */
  function BuildRows(ids: seq<StudentId>, matched: seq<AttendanceRecord>, students: seq<Student>): (rows: seq<ReportRow>)
    requires forall id :: id in ids ==> HasRecordOf(matched, id)
    ensures forall row :: row in rows ==> row.student.id in ids && FindById(students, row.student.id).Some?
    ensures forall row :: row in rows ==> RowBounds(row)
  {
    if ids == [] then []
    else
      var rest := BuildRows(ids[1..], matched, students);
      match FindById(students, ids[0])
      case None => rest
      case Some(k) =>
        var row := RowFor(matched, students[k]);
        assert forall r :: r in [row] + rest ==> r == row || r in rest;
        [row] + rest
  }

  /** Every group whose student still exists has a row. */
  lemma {:induction false} BuildRowsComplete(ids: seq<StudentId>, matched: seq<AttendanceRecord>, students: seq<Student>, id: StudentId)
    requires forall id :: id in ids ==> HasRecordOf(matched, id)
    requires id in ids && FindById(students, id).Some?
    ensures exists row :: row in BuildRows(ids, matched, students) && row.student.id == id
  {
    var rest := BuildRows(ids[1..], matched, students);
    if id != ids[0] {
      BuildRowsComplete(ids[1..], matched, students, id);
      var row :| row in rest && row.student.id == id;
      assert row in BuildRows(ids, matched, students);
    } else {
      var row := RowFor(matched, students[FindById(students, id).value]);
      assert BuildRows(ids, matched, students) == [row] + rest;
    }
  }

  /** Each row is the group of its student, built from that student's
      stored document. */
  lemma {:induction false} BuildRowsAreGroups(ids: seq<StudentId>, matched: seq<AttendanceRecord>, students: seq<Student>, row: ReportRow)
    requires forall id :: id in ids ==> HasRecordOf(matched, id)
    requires row in BuildRows(ids, matched, students)
    ensures FindById(students, row.student.id).Some?
    ensures HasRecordOf(matched, row.student.id)
    ensures row == RowFor(matched, students[FindById(students, row.student.id).value])
  {
    var rest := BuildRows(ids[1..], matched, students);
    if row in rest {
      BuildRowsAreGroups(ids[1..], matched, students, row);
    }
  }

  /** Distinct groups give rows for distinct students. */
  lemma {:induction false} BuildRowsDistinct(ids: seq<StudentId>, matched: seq<AttendanceRecord>, students: seq<Student>)
    requires forall id :: id in ids ==> HasRecordOf(matched, id)
    requires forall i, j :: 0 <= i < j < |ids| ==> ids[i] != ids[j]
    ensures DistinctBy(BuildRows(ids, matched, students), RowStudentId)
  {
    if ids != [] {
      var tail := ids[1..];
      forall i, j | 0 <= i < j < |tail| ensures tail[i] != tail[j] {
        assert tail[i] == ids[i + 1] && tail[j] == ids[j + 1];
      }
      BuildRowsDistinct(tail, matched, students);
      var rest := BuildRows(tail, matched, students);
      if FindById(students, ids[0]).Some? {
        forall j | 0 <= j < |tail| ensures tail[j] != ids[0] {
          assert tail[j] == ids[j + 1];
        }
        var head := RowFor(matched, students[FindById(students, ids[0]).value]);
        assert forall row :: row in rest ==> RowStudentId(row) != RowStudentId(head);
        ConsDistinct(head, rest, RowStudentId);
        assert BuildRows(ids, matched, students) == [head] + rest;
      }
    }
  }

  /** `getReport`: one row per matched student that still exists, sorted
      by name ascending. */
  function GetReport(records: seq<AttendanceRecord>, students: seq<Student>, q: ReportQuery): (rows: seq<ReportRow>)
    ensures SortedBy(rows, RowName)
    ensures DistinctBy(rows, RowStudentId)
    ensures forall row :: row in rows ==>
      && row.totalDays >= 1
      && row.presentDays + row.absentDays <= row.totalDays
      && 0.0 <= row.attendancePercentage <= 100.0
      && row.attendancePercentage == Percentage(row.presentDays, row.totalDays)
  {
    var matched := Matched(records, q);
    var ids := GroupIds(matched);
    var unsorted := BuildRows(ids, matched, students);
    BuildRowsDistinct(ids, matched, students);
    SortByKeepsDistinct(unsorted, RowName, RowStudentId);
    var rows := SortBy(unsorted, RowName);
    forall row | row in rows ensures row in unsorted {
      SortByMembers(unsorted, RowName, row);
    }
    rows
  }

  /** Some row of the report is about student `id`. */
  ghost predicate HasRowFor(rows: seq<ReportRow>, id: StudentId)
  {
    exists row :: row in rows && row.student.id == id
  }

  /** Some stored record of `id` passes the query. */
  ghost predicate HasMatchedRecord(records: seq<AttendanceRecord>, q: ReportQuery, id: StudentId)
  {
    exists i :: 0 <= i < |records| && InQuery(records[i], q) && records[i].studentId == id
  }

  /** A student has a row exactly when the student still exists and has
      at least one record passing the query. */
  lemma ReportComplete(records: seq<AttendanceRecord>, students: seq<Student>, q: ReportQuery, id: StudentId)
    ensures HasRowFor(GetReport(records, students, q), id) <==>
            HasMatchedRecord(records, q, id) && FindById(students, id).Some?
  {
    var matched := Matched(records, q);
    var unsorted := BuildRows(GroupIds(matched), matched, students);
    var rows := GetReport(records, students, q);
    MatchedRecordsOf(records, q, id);
    ReportRowsAreBuilt(records, students, q);
    if HasRowFor(rows, id) {
      var row :| row in rows && row.student.id == id;
      assert row in unsorted;
    }
    if HasRecordOf(matched, id) && FindById(students, id).Some? {
      assert id in GroupIds(matched);
      BuildRowsComplete(GroupIds(matched), matched, students, id);
      var row :| row in unsorted && row.student.id == id;
      assert row in rows;
    }
  }

  lemma MatchedRecordsOf(records: seq<AttendanceRecord>, q: ReportQuery, id: StudentId)
    ensures HasRecordOf(Matched(records, q), id) <==> HasMatchedRecord(records, q, id)
  {
    var matched := Matched(records, q);
    if HasRecordOf(matched, id) {
      var i :| 0 <= i < |matched| && matched[i].studentId == id;
      assert matched[i] in records;
      var k :| 0 <= k < |records| && records[k] == matched[i];
    }
    if HasMatchedRecord(records, q, id) {
      var i :| 0 <= i < |records| && InQuery(records[i], q) && records[i].studentId == id;
      assert records[i] in matched;
      var k :| 0 <= k < |matched| && matched[k] == records[i];
    }
  }

  /** The report holds the built rows, reordered. */
  lemma ReportRowsAreBuilt(records: seq<AttendanceRecord>, students: seq<Student>, q: ReportQuery)
    ensures var matched := Matched(records, q);
            forall row :: row in GetReport(records, students, q) <==> row in BuildRows(GroupIds(matched), matched, students)
  {
    var matched := Matched(records, q);
    var unsorted := BuildRows(GroupIds(matched), matched, students);
    forall row ensures row in GetReport(records, students, q) <==> row in unsorted {
      SortByMembers(unsorted, RowName, row);
    }
  }

  /** A row counts exactly its student's records that pass the query:
      all of them, the present ones and the absent ones; its student
      fields are those of the stored student. */
  lemma ReportRowCounts(records: seq<AttendanceRecord>, students: seq<Student>, q: ReportQuery, row: ReportRow)
    requires row in GetReport(records, students, q)
    ensures FindById(students, row.student.id).Some?
    ensures row.student == RefOf(students[FindById(students, row.student.id).value])
    ensures row.totalDays ==
      |Filter(records, (x: AttendanceRecord) => InQuery(x, q) && x.studentId == row.student.id)|
    ensures row.presentDays ==
      |Filter(records, (x: AttendanceRecord) => InQuery(x, q) && x.studentId == row.student.id && x.status == Present)|
    ensures row.absentDays ==
      |Filter(records, (x: AttendanceRecord) => InQuery(x, q) && x.studentId == row.student.id && x.status == Absent)|
  {
    var matched := Matched(records, q);
    ReportRowsAreBuilt(records, students, q);
    BuildRowsAreGroups(GroupIds(matched), matched, students, row);
    RowForCounts(records, q, students[FindById(students, row.student.id).value]);
  }

  /** The counts of a student's group, stated over the whole collection. */
  lemma RowForCounts(records: seq<AttendanceRecord>, q: ReportQuery, s: Student)
    requires HasRecordOf(Matched(records, q), s.id)
    ensures var row := RowFor(Matched(records, q), s);
      && row.totalDays ==
         |Filter(records, (x: AttendanceRecord) => InQuery(x, q) && x.studentId == s.id)|
      && row.presentDays ==
         |Filter(records, (x: AttendanceRecord) => InQuery(x, q) && x.studentId == s.id && x.status == Present)|
      && row.absentDays ==
         |Filter(records, (x: AttendanceRecord) => InQuery(x, q) && x.studentId == s.id && x.status == Absent)|
  {
    var id := s.id;
    var matched := Matched(records, q);
    var inq := (x: AttendanceRecord) => InQuery(x, q);
    var mineOf := (x: AttendanceRecord) => x.studentId == id;
    var both := (x: AttendanceRecord) => InQuery(x, q) && x.studentId == id;
    FilterOfFilter(records, inq, mineOf, both);
    assert RecordsOf(matched, id) == Filter(records, both);
    FilterOfFilter(records, both, IsPresent,
      (x: AttendanceRecord) => InQuery(x, q) && x.studentId == id && x.status == Present);
    FilterOfFilter(records, both, IsAbsent,
      (x: AttendanceRecord) => InQuery(x, q) && x.studentId == id && x.status == Absent);
  }
}
