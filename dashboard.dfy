/** The Dashboard page's split of the day into present records and
    absent students. */
module Dashboard {
  import opened Options
  import opened Seqs
  import opened StudentModel
  import opened AttendanceModel

  /** A record as `getAttendanceByDate` returns it: `studentId` populated
      with the student's fields, or null when that student no longer exists. */
  datatype ShownRecord = ShownRecord(id: RecordId, student: Option<StudentRef>, status: Status, time: Option<Time>)

  /** `attendance?.records?.filter(r => r.status === 'Present') || []`;
      `attendance` is `None` before any data has loaded. */
  function PresentStudents(attendance: Option<seq<ShownRecord>>): (r: seq<ShownRecord>)
    ensures attendance.None? ==> r == []
    ensures attendance.Some? ==> forall x :: x in r <==> x in attendance.value && x.status == Present
    ensures attendance.Some? ==> Sublist(r, attendance.value)
  {
    if attendance.None? then [] else Filter(attendance.value, (x: ShownRecord) => x.status == Present)
  }

  /** Some record is about student `id` (records of deleted students are
      about nobody). */
  predicate HasRecord(records: seq<ShownRecord>, id: StudentId)
  {
    exists i :: 0 <= i < |records| && records[i].student.Some? && records[i].student.value.id == id
  }

  /** `records.some(r => r.studentId._id === id)` as written: `None` when
      it reaches a record whose student is null before a match, where
      reading `_id` of null throws a TypeError. */
  function SomeAsWritten(records: seq<ShownRecord>, id: StudentId): (r: Option<bool>)
    ensures r.None? ==> exists i :: 0 <= i < |records| && records[i].student.None?
    ensures r == Some(true) ==> HasRecord(records, id)
    decreases |records|
  {
    if records == [] then Some(false)
    else if records[0].student.None? then None
    else if records[0].student.value.id == id then Some(true)
    else
      var rest := SomeAsWritten(records[1..], id);
      assert forall i :: 0 < i < |records| ==> records[i] == records[1..][i - 1];
      assert HasRecord(records[1..], id) ==> HasRecord(records, id);
      rest
  }

  /** `students.filter(s => !attendance?.records?.some(...))` as written:
      `None` when the filter throws. */
  function AbsentAsWritten(students: seq<Student>, attendance: Option<seq<ShownRecord>>): (r: Option<seq<Student>>)
    ensures attendance.None? ==> r == Some(students)
    decreases |students|
  {
    if students == [] then Some([])
    else if attendance.None? then
      var rest := AbsentAsWritten(students[1..], attendance);
      assert [students[0]] + students[1..] == students;
      Some([students[0]] + rest.value)
    else
      match SomeAsWritten(attendance.value, students[0].id)
      case None => None
      case Some(marked) =>
        match AbsentAsWritten(students[1..], attendance)
        case None => None
        case Some(rest) => Some(if marked then rest else [students[0]] + rest)
  }

  /** The absent list with null students skipped (`r.studentId?._id`):
      exactly the students no record is about, in student order; all of
      them before any data has loaded. */
  function AbsentStudents(students: seq<Student>, attendance: Option<seq<ShownRecord>>): (r: seq<Student>)
    ensures attendance.None? ==> r == students
    ensures forall s :: s in r <==> s in students && (attendance.None? || !HasRecord(attendance.value, s.id))
    ensures Sublist(r, students)
  {
    if attendance.None? then
      FilterKeepsAll(students, (s: Student) => true);
      Filter(students, (s: Student) => true)
    else
      Filter(students, (s: Student) => !HasRecord(attendance.value, s.id))
  }

  /** One orphaned record is enough for the page as written to throw, as
      soon as there is a student to check. */
  lemma AbsentAsWrittenThrows(s: Student, orphan: ShownRecord)
    requires orphan.student.None?
    ensures AbsentAsWritten([s], Some([orphan])) == None
  {
  }

  /** Without orphaned records the page as written computes the
      corrected list. */
  lemma {:induction false} AbsentAgreesWithoutOrphans(students: seq<Student>, records: seq<ShownRecord>)
    requires forall i :: 0 <= i < |records| ==> records[i].student.Some?
    ensures AbsentAsWritten(students, Some(records)) == Some(AbsentStudents(students, Some(records)))
    decreases |students|
  {
    if students != [] {
      AbsentAgreesWithoutOrphans(students[1..], records);
      SomeIsHasRecord(records, students[0].id);
    }
  }

  lemma {:induction false} SomeIsHasRecord(records: seq<ShownRecord>, id: StudentId)
    requires forall i :: 0 <= i < |records| ==> records[i].student.Some?
    ensures SomeAsWritten(records, id) == Some(HasRecord(records, id))
    decreases |records|
  {
    if records != [] {
      SomeIsHasRecord(records[1..], id);
      if records[0].student.value.id != id {
        assert HasRecord(records, id) ==> HasRecord(records[1..], id) by {
          if HasRecord(records, id) {
            var i :| 0 <= i < |records| && records[i].student.Some? && records[i].student.value.id == id;
            assert records[1..][i - 1] == records[i];
          }
        }
        assert HasRecord(records[1..], id) ==> HasRecord(records, id) by {
          if HasRecord(records[1..], id) {
            var i :| 0 <= i < |records[1..]| && records[1..][i].student.Some? && records[1..][i].student.value.id == id;
            assert records[i + 1] == records[1..][i];
          }
        }
      }
    }
  }

  /** A student whose records are all Absent or Leave is in neither list. */
  lemma NotPresentNotAbsent(students: seq<Student>, records: seq<ShownRecord>, s: Student)
    requires HasRecord(records, s.id)
    requires forall i :: 0 <= i < |records| && records[i].student.Some? && records[i].student.value.id == s.id
               ==> records[i].status != Present
    ensures s !in AbsentStudents(students, Some(records))
    ensures forall x :: x in PresentStudents(Some(records)) ==> x.student.None? || x.student.value.id != s.id
  {
    forall x | x in PresentStudents(Some(records)) ensures x.student.None? || x.student.value.id != s.id {
      var i :| 0 <= i < |records| && records[i] == x;
    }
  }

  /** Before any data has loaded, and on a day with no records, nobody
      is present and everybody is absent. */
  lemma NoDataAllAbsent(students: seq<Student>)
    ensures PresentStudents(None) == [] && AbsentStudents(students, None) == students
    ensures PresentStudents(Some([])) == [] && AbsentStudents(students, Some([])) == students
  {
    FilterKeepsAll(students, (s: Student) => !HasRecord([], s.id));
  }
}
