/** The `Attendance` document: one mark of one student on one day, with
    its enums and defaults, and the unique index on (studentId, date). */
module AttendanceModel {
  import opened Options
  import opened StudentModel

  type RecordId = nat

  /** A calendar day as stored: `YYYY-MM-DD`. */
  type Date = string

  /** A time of day as stored: `HH:MM:SS`. */
  type Time = string

  datatype Status = Present | Absent | Leave

  datatype Source = AutoFace | Manual

  /** The stored spelling of a status. */
  function StatusName(st: Status): string
  {
    match st
    case Present => "Present"
    case Absent => "Absent"
    case Leave => "Leave"
  }

  /** The `enum` validator of `status`: one of the three names, or
      rejected (`None`), in which case `Attendance.create` throws. */
  function ParseStatus(s: string): (r: Option<Status>)
    ensures r.Some? ==> StatusName(r.value) == s
  {
    if s == "Present" then Some(Present)
    else if s == "Absent" then Some(Absent)
    else if s == "Leave" then Some(Leave)
    else None
  }

  /** The validator accepts exactly the three stored names, each as its own status. */
  lemma ParseStatusIff(s: string, st: Status)
    ensures ParseStatus(s) == Some(st) <==> s == StatusName(st)
    ensures ParseStatus(s).None? <==> s != "Present" && s != "Absent" && s != "Leave"
  {
    if s == StatusName(st) {
      match st
      case Present =>
      case Absent =>
        assert s != "Present" by { assert s[0] != "Present"[0]; }
      case Leave =>
        assert s != "Present" by { assert s[0] != "Present"[0]; }
        assert s != "Absent" by { assert s[0] != "Absent"[0]; }
    }
  }

  /** `studentId` and `date` are required, so they are never absent;
      `time` and `confidence` may be null. */
  datatype AttendanceRecord = AttendanceRecord(
    id: RecordId,
    studentId: StudentId,
    date: Date,
    time: Option<Time>,
    status: Status,
    confidence: Option<real>,
    source: Source)

  /** `Attendance.create(fields)`: fields left out take the schema
      defaults (status Present, source manual, time and confidence null). */
  function NewRecord(id: RecordId, studentId: StudentId, date: Date, time: Option<Time>,
                     status: Option<Status>, confidence: Option<real>, source: Option<Source>): (r: AttendanceRecord)
    ensures r.id == id && r.studentId == studentId && r.date == date
    ensures r.time == time && r.confidence == confidence
    ensures status.None? ==> r.status == Present
    ensures status.Some? ==> r.status == status.value
    ensures source.None? ==> r.source == Manual
    ensures source.Some? ==> r.source == source.value
  {
    AttendanceRecord(id, studentId, date, time,
      if status.Some? then status.value else Present,
      confidence,
      if source.Some? then source.value else Manual)
  }

  /** `Attendance.findOne({ studentId, date })` finds something. */
  predicate IsMarked(records: seq<AttendanceRecord>, studentId: StudentId, date: Date)
  {
    exists i :: 0 <= i < |records| && records[i].studentId == studentId && records[i].date == date
  }

  /** The unique index `{ studentId: 1, date: 1 }`. */
  ghost predicate OnePerDay(records: seq<AttendanceRecord>)
  {
    forall i, j :: 0 <= i < j < |records| ==>
      records[i].studentId != records[j].studentId || records[i].date != records[j].date
  }

  /** `_id` is unique. */
  ghost predicate RecordIdsUnique(records: seq<AttendanceRecord>)
  {
    forall i, j :: 0 <= i < j < |records| ==> records[i].id != records[j].id
  }

  /** Under the index, a (student, day) pair names at most one record. */
  lemma OnePerDayAtMostOne(records: seq<AttendanceRecord>, i: nat, j: nat)
    requires OnePerDay(records) && i < |records| && j < |records|
    requires records[i].studentId == records[j].studentId && records[i].date == records[j].date
    ensures i == j
  {
  }

  /** Adding a record for an unmarked (student, day) keeps the index satisfied. */
  lemma AppendKeepsOnePerDay(records: seq<AttendanceRecord>, r: AttendanceRecord)
    requires OnePerDay(records) && !IsMarked(records, r.studentId, r.date)
    ensures OnePerDay(records + [r])
  {
  }

  /** Removing one record keeps the index satisfied. */
  lemma RemoveKeepsOnePerDay(records: seq<AttendanceRecord>, k: nat)
    requires OnePerDay(records) && k < |records|
    ensures OnePerDay(records[..k] + records[k + 1..])
  {
    var rest := records[..k] + records[k + 1..];
    forall i, j | 0 <= i < j < |rest|
      ensures rest[i].studentId != rest[j].studentId || rest[i].date != rest[j].date
    {
      var i' := if i < k then i else i + 1;
      var j' := if j < k then j else j + 1;
      assert rest[i] == records[i'] && rest[j] == records[j'];
    }
  }
}
