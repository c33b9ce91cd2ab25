/** `markAttendance` and `deleteAttendance`: the server's nearest-match
    scan over enrolled students and the attendance ledger it appends to. */
module AttendanceController {
  import opened Options
  import opened Embedding
  import opened Seqs
  import opened StudentModel
  import opened AttendanceModel

  /** `euclideanDistance(embedding1, embedding2)`, squared. */
  method EuclideanDistance(embedding1: Vec, embedding2: Vec) returns (d: Dist)
    ensures d == Distance(embedding1, embedding2)
  {
    if embedding1.NonArray? || embedding2.NonArray? {
      return Infinite;
    }
    var a, b := embedding1.items, embedding2.items;
    var sum := 0.0;
    var length := if |a| < |b| then |a| else |b|;
    var i := 0;
    while i < length
      invariant 0 <= i <= length == Overlap(a, b)
      invariant sum == SumSq(a, b, i)
    {
      var diff := Coerce(a[i]) - Coerce(b[i]);
      sum := sum + Square(diff);
      i := i + 1;
    }
    return Fin(sum);
  }

  /** `Student.find({ isEnrolled: true, faceEmbedding: { $exists: true, $ne: [] } })`,
      in collection order. */
  function Enrolled(students: seq<Student>): (r: seq<Student>)
    ensures forall s :: s in r <==> s in students && s.isEnrolled && s.faceEmbedding != []
    ensures forall i :: 0 <= i < |r| ==> r[i].isEnrolled && r[i].faceEmbedding != []
    ensures Sublist(r, students)
  {
    Filter(students, (s: Student) => s.isEnrolled && s.faceEmbedding != [])
  }

  /** The stored embeddings of the scanned students, as candidates. */
  function Candidates(enrolled: seq<Student>): (embs: seq<Option<Vec>>)
    ensures |embs| == |enrolled|
    ensures forall i :: 0 <= i < |enrolled| ==> embs[i] == Some(Arr(enrolled[i].faceEmbedding))
  {
    seq(|enrolled|, i requires 0 <= i < |enrolled| => Some(Arr(enrolled[i].faceEmbedding)))
  }

  /** The `forEach` over the enrolled students: keeps the first strictly
      nearest student with a non-empty embedding. */
  method ScanBestMatch(inputEmbedding: seq<Entry>, enrolled: seq<Student>) returns (best: Option<nat>, bestDistance: Dist)
    ensures best.None? ==> bestDistance == Infinite && NoneFiniteWithin(Arr(inputEmbedding), Candidates(enrolled), |enrolled|)
    ensures best.Some? ==>
      && IsFirstArgmin(Arr(inputEmbedding), Candidates(enrolled), best.value)
      && bestDistance == Distance(Arr(inputEmbedding), Arr(enrolled[best.value].faceEmbedding))
  {
    ghost var embs := Candidates(enrolled);
    best, bestDistance := None, Infinite;
    for i := 0 to |enrolled|
      invariant best.None? ==> bestDistance == Infinite && NoneFiniteWithin(Arr(inputEmbedding), embs, i)
      invariant best.Some? ==>
        FirstMinWithin(Arr(inputEmbedding), embs, best.value, i) &&
        bestDistance == DistTo(Arr(inputEmbedding), embs[best.value])
    {
      var student := enrolled[i];
      if |student.faceEmbedding| == 0 {
        continue;
      }
      var distance := EuclideanDistance(Arr(inputEmbedding), Arr(student.faceEmbedding));
      if Less(distance, bestDistance) {
        best, bestDistance := Some(i), distance;
      }
    }
  }

  /** With an array probe and at least one enrolled student the scan
      always finds someone: every distance between two arrays is finite. */
  lemma ScanFindsSomeone(inputEmbedding: seq<Entry>, enrolled: seq<Student>)
    requires enrolled != [] && forall i :: 0 <= i < |enrolled| ==> enrolled[i].faceEmbedding != []
    ensures !NoneFiniteWithin(Arr(inputEmbedding), Candidates(enrolled), |enrolled|)
  {
    assert Eligible(Candidates(enrolled)[0]);
  }

  /** The body of a `POST /attendance/mark` request, with `date` and
      `time` already resolved (`formatDate(date || new Date())`,
      `time || getCurrentTime()`).  `faceEmbedding` and `studentId` are
      `None` when absent or falsy; `status` is the raw string sent, `None`
      when absent. */
  datatype MarkRequest = MarkRequest(
    faceEmbedding: Option<Vec>,
    studentId: Option<StudentId>,
    date: Date,
    time: Time,
    status: Option<string>)

  /** `status = 'Present'`: the default applies only when the field is absent. */
  function RequestedStatus(req: MarkRequest): (s: string)
    ensures req.status.None? ==> s == StatusName(Present)
    ensures req.status.Some? ==> s == req.status.value
  {
    if req.status.Some? then req.status.value else "Present"
  }

  datatype Branch = ManualBranch(studentId: StudentId) | FaceBranch(inputEmbedding: seq<Entry>) | NoBranch

  /** Which case of `markAttendance` runs. */
  function BranchOf(req: MarkRequest): (b: Branch)
    ensures b.ManualBranch? <==> req.studentId.Some? && req.faceEmbedding.None?
    ensures b.ManualBranch? ==> b.studentId == req.studentId.value
    ensures b.FaceBranch? <==> req.faceEmbedding.Some? && req.faceEmbedding.value.Arr?
    ensures b.FaceBranch? ==> b.inputEmbedding == req.faceEmbedding.value.items
  {
    if req.studentId.Some? && req.faceEmbedding.None? then ManualBranch(req.studentId.value)
    else if req.faceEmbedding.Some? && req.faceEmbedding.value.Arr? then FaceBranch(req.faceEmbedding.value.items)
    else NoBranch
  }

  /** A request carrying both a student id and an array embedding is
      matched by face; the id is ignored. */
  lemma FaceWinsOverStudentId(req: MarkRequest)
    requires req.studentId.Some? && req.faceEmbedding.Some? && req.faceEmbedding.value.Arr?
    ensures BranchOf(req) == FaceBranch(req.faceEmbedding.value.items)
  {
  }

  datatype MarkError =
    | StudentNotFound            // 404 'Student not found'
    | NoEnrolledStudents         // 404 'No enrolled students found'
    | NoMatch(bestDistance: Dist)  // 400 'No matching face found'
    | AlreadyMarked              // 400 'Attendance already marked for this student today'
    | InvalidEmbedding(received: nat)  // 400, probe is not a full descriptor
    | InvalidRequest             // 400 'Invalid request'
    | InvalidStatus              // `Attendance.create` rejects the status; passed to next(err)

  datatype MarkOutcome = Marked(record: AttendanceRecord) | Failed(error: MarkError)

  /** Under the unique index, adding a record for an unmarked (student,
      day) with a fresh id keeps the ledger's invariant. */
  ghost predicate LedgerInvariant(records: seq<AttendanceRecord>, nextId: RecordId)
  {
    && OnePerDay(records)
    && RecordIdsUnique(records)
    && forall i :: 0 <= i < |records| ==> records[i].id < nextId
  }

  lemma AppendKeepsLedgerInvariant(records: seq<AttendanceRecord>, nextId: RecordId, r: AttendanceRecord)
    requires LedgerInvariant(records, nextId) && r.id == nextId
    requires !IsMarked(records, r.studentId, r.date)
    ensures LedgerInvariant(records + [r], nextId + 1)
  {
    AppendKeepsOnePerDay(records, r);
    var s := records + [r];
    forall i, j | 0 <= i < j < |s| ensures s[i].id != s[j].id {
      assert s[i] == records[i];
    }
  }

  /** The attendance collection. */
  class AttendanceLedger {
    var records: seq<AttendanceRecord>
    var nextId: RecordId

    ghost predicate Valid()
      reads this
    {
      LedgerInvariant(records, nextId)
    }

    constructor()
      ensures Valid() && records == [] && nextId == 0
    {
      records, nextId := [], 0;
    }

    /** Appends `Attendance.create(...)` for an unmarked (student, day). */
    method Append(studentId: StudentId, date: Date, time: Time, status: Status,
                  confidence: Option<real>, source: Source) returns (r: AttendanceRecord)
      requires Valid() && !IsMarked(records, studentId, date)
      modifies this
      ensures Valid()
      ensures r == NewRecord(old(nextId), studentId, date, Some(time), Some(status), confidence, Some(source))
      ensures records == old(records) + [r] && nextId == old(nextId) + 1
    {
      r := NewRecord(nextId, studentId, date, Some(time), Some(status), confidence, Some(source));
      AppendKeepsLedgerInvariant(records, nextId, r);
      records := records + [r];
      nextId := nextId + 1;
    }

    /** Case 1 of `markAttendance`: the student must exist and be unmarked
        on the day, and the status must pass the schema's enum; the record
        is `manual` with no confidence. */
    method MarkManual(students: seq<Student>, studentId: StudentId, date: Date, time: Time, status: string)
      returns (r: MarkOutcome)
      requires Valid()
      modifies this
      ensures Valid()
      ensures FindById(students, studentId).None? ==> r == Failed(StudentNotFound)
      ensures FindById(students, studentId).Some? && IsMarked(old(records), studentId, date) ==> r == Failed(AlreadyMarked)
      ensures FindById(students, studentId).Some? && !IsMarked(old(records), studentId, date) && ParseStatus(status).None? ==>
                r == Failed(InvalidStatus)
      ensures FindById(students, studentId).Some? && !IsMarked(old(records), studentId, date) && ParseStatus(status).Some? ==>
                r == Marked(NewRecord(old(nextId), studentId, date, Some(time), ParseStatus(status), None, Some(Manual)))
      ensures r.Failed? ==> records == old(records) && nextId == old(nextId)
      ensures r.Marked? ==> records == old(records) + [r.record] && nextId == old(nextId) + 1
    {
      if FindById(students, studentId).None? {
        return Failed(StudentNotFound);
      }
      if IsMarked(records, studentId, date) {
        return Failed(AlreadyMarked);
      }
      var st := ParseStatus(status);
      if st.None? {
        return Failed(InvalidStatus);
      }
      var record := Append(studentId, date, time, st.value, None, Manual);
      r := Marked(record);
    }

    /** Case 2 of `markAttendance`, with the probe checked first: only a
        full descriptor goes on to `MarkFaceAsWritten`. */
    method MarkFace(students: seq<Student>, inputEmbedding: seq<Entry>, date: Date, time: Time,
                    status: string, threshold: real) returns (r: MarkOutcome)
      requires Valid() && threshold >= 0.0
      modifies this
      ensures Valid()
      ensures |inputEmbedding| != Dimension ==> r == Failed(InvalidEmbedding(|inputEmbedding|))
      ensures |inputEmbedding| == Dimension && Enrolled(students) == [] ==> r == Failed(NoEnrolledStudents)
      ensures |inputEmbedding| == Dimension && Enrolled(students) != [] ==>
        FaceDecided(old(records), old(nextId), Enrolled(students), inputEmbedding, date, time, status, threshold, r)
      ensures r.Failed? ==> records == old(records) && nextId == old(nextId)
      ensures r.Marked? ==> records == old(records) + [r.record] && nextId == old(nextId) + 1
    {
      if |inputEmbedding| != Dimension {
        return Failed(InvalidEmbedding(|inputEmbedding|));
      }
      r := MarkFaceAsWritten(students, inputEmbedding, date, time, status, threshold);
    }

    /** Case 2 of `markAttendance` as the source has it, for any array
        probe: someone must be enrolled, the first nearest enrolled student
        must lie within `threshold` and be unmarked on the day; the record
        is `auto-face` and carries the match distance as its confidence. */
    method MarkFaceAsWritten(students: seq<Student>, inputEmbedding: seq<Entry>, date: Date, time: Time,
                             status: string, threshold: real) returns (r: MarkOutcome)
      requires Valid() && threshold >= 0.0
      modifies this
      ensures Valid()
      ensures Enrolled(students) == [] ==> r == Failed(NoEnrolledStudents)
      ensures Enrolled(students) != [] ==>
        FaceDecided(old(records), old(nextId), Enrolled(students), inputEmbedding, date, time, status, threshold, r)
      ensures r.Failed? ==> records == old(records) && nextId == old(nextId)
      ensures r.Marked? ==> records == old(records) + [r.record] && nextId == old(nextId) + 1
    {
      var enrolled := Enrolled(students);
      if |enrolled| == 0 {
        return Failed(NoEnrolledStudents);
      }
      var best, bestDistance := ScanBestMatch(inputEmbedding, enrolled);
      if best.None? {
        ScanFindsSomeone(inputEmbedding, enrolled);
        assert false;
      }
      r := MarkBest(enrolled, inputEmbedding, best.value, bestDistance, date, time, status, threshold);
    }

    /** The end of case 2, once the scan has chosen `best`: threshold,
        then duplicate check, then the `auto-face` record, which the
        schema's enum may still reject. */
    method MarkBest(enrolled: seq<Student>, inputEmbedding: seq<Entry>, best: nat, bestDistance: Dist,
                    date: Date, time: Time, status: string, threshold: real) returns (r: MarkOutcome)
      requires Valid() && threshold >= 0.0
      requires IsFirstArgmin(Arr(inputEmbedding), Candidates(enrolled), best)
      requires bestDistance == Distance(Arr(inputEmbedding), Arr(enrolled[best].faceEmbedding))
      modifies this
      ensures Valid()
      ensures FaceDecidedAt(old(records), old(nextId), enrolled, inputEmbedding, date, time, status, threshold, r, best)
      ensures r.Failed? ==> records == old(records) && nextId == old(nextId)
      ensures r.Marked? ==> records == old(records) + [r.record] && nextId == old(nextId) + 1
    {
      if Exceeds(bestDistance, threshold) {
        return Failed(NoMatch(bestDistance));
      }
      var student := enrolled[best];
      if IsMarked(records, student.id, date) {
        return Failed(AlreadyMarked);
      }
      var st := ParseStatus(status);
      if st.None? {
        return Failed(InvalidStatus);
      }
      var record := Append(student.id, date, time, st.value, Some(bestDistance.sq), AutoFace);
      r := Marked(record);
    }

    /** `markAttendance` as written: dispatches on the request, and any
        array probe goes to the face branch.  `threshold` is the parsed
        `FACE_DISTANCE_THRESHOLD` (0.48 when unset). */
    method MarkAttendance(students: seq<Student>, req: MarkRequest, threshold: real) returns (r: MarkOutcome)
      requires Valid() && threshold >= 0.0
      modifies this
      ensures Valid()
      ensures r.Failed? ==> records == old(records) && nextId == old(nextId)
      ensures r.Marked? ==> records == old(records) + [r.record] && nextId == old(nextId) + 1
      ensures r.Marked? ==> !IsMarked(old(records), r.record.studentId, req.date)
      ensures BranchOf(req).NoBranch? ==> r == Failed(InvalidRequest)
      ensures BranchOf(req).ManualBranch? ==> ManualDecided(old(records), old(nextId), students, req, r)
      ensures BranchOf(req).FaceBranch? ==> var p := BranchOf(req).inputEmbedding;
        && (Enrolled(students) == [] ==> r == Failed(NoEnrolledStudents))
        && (Enrolled(students) != [] ==>
              FaceDecided(old(records), old(nextId), Enrolled(students), p, req.date, req.time, RequestedStatus(req), threshold, r))
    {
      match BranchOf(req)
      case ManualBranch(id) =>
        r := MarkManual(students, id, req.date, req.time, RequestedStatus(req));
      case FaceBranch(p) =>
        r := MarkFaceAsWritten(students, p, req.date, req.time, RequestedStatus(req), threshold);
      case NoBranch =>
        r := Failed(InvalidRequest);
    }

    /** `markAttendance` with the corrected face branch: a probe that is
        not a full descriptor is refused before any matching. */
    method MarkAttendanceCorrected(students: seq<Student>, req: MarkRequest, threshold: real) returns (r: MarkOutcome)
      requires Valid() && threshold >= 0.0
      modifies this
      ensures Valid()
      ensures r.Failed? ==> records == old(records) && nextId == old(nextId)
      ensures r.Marked? ==> records == old(records) + [r.record] && nextId == old(nextId) + 1
      ensures r.Marked? ==> !IsMarked(old(records), r.record.studentId, req.date)
      ensures BranchOf(req).NoBranch? ==> r == Failed(InvalidRequest)
      ensures BranchOf(req).ManualBranch? ==> ManualDecided(old(records), old(nextId), students, req, r)
      ensures BranchOf(req).FaceBranch? ==> var p := BranchOf(req).inputEmbedding;
        && (|p| != Dimension ==> r == Failed(InvalidEmbedding(|p|)))
        && (|p| == Dimension && Enrolled(students) == [] ==> r == Failed(NoEnrolledStudents))
        && (|p| == Dimension && Enrolled(students) != [] ==>
              FaceDecided(old(records), old(nextId), Enrolled(students), p, req.date, req.time, RequestedStatus(req), threshold, r))
    {
      match BranchOf(req)
      case ManualBranch(id) =>
        r := MarkManual(students, id, req.date, req.time, RequestedStatus(req));
      case FaceBranch(p) =>
        r := MarkFace(students, p, req.date, req.time, RequestedStatus(req), threshold);
      case NoBranch =>
        r := Failed(InvalidRequest);
    }

    /** `deleteAttendance`: removes the record with that id, or reports
        not-found and changes nothing. */
    method DeleteAttendance(id: RecordId) returns (found: bool)
      requires Valid()
      modifies this
      ensures Valid() && nextId == old(nextId)
      ensures found <==> exists k :: 0 <= k < |old(records)| && old(records)[k].id == id
      ensures !found ==> records == old(records)
      ensures found ==> exists k :: 0 <= k < |old(records)| && old(records)[k].id == id
                                   && records == old(records)[..k] + old(records)[k + 1..]
    {
      var k := 0;
      while k < |records| && records[k].id != id
        invariant 0 <= k <= |records|
        invariant forall j :: 0 <= j < k ==> records[j].id != id
      {
        k := k + 1;
      }
      if k == |records| {
        return false;
      }
      ghost var before := records;
      RemoveKeepsOnePerDay(records, k);
      records := records[..k] + records[k + 1..];
      forall i, j | 0 <= i < j < |records| ensures records[i].id != records[j].id && records[i].id < nextId {
        assert records[i] == before[if i < k then i else i + 1];
        assert records[j] == before[if j < k then j else j + 1];
      }
      return true;
    }
  }

  /** The manual branch's outcome for a request naming student `id`. */
  ghost predicate ManualDecided(records: seq<AttendanceRecord>, nextId: RecordId, students: seq<Student>,
                                req: MarkRequest, r: MarkOutcome)
    requires BranchOf(req).ManualBranch?
  {
    var id := BranchOf(req).studentId;
    var st := ParseStatus(RequestedStatus(req));
    && (FindById(students, id).None? ==> r == Failed(StudentNotFound))
    && (FindById(students, id).Some? && IsMarked(records, id, req.date) ==> r == Failed(AlreadyMarked))
    && (FindById(students, id).Some? && !IsMarked(records, id, req.date) && st.None? ==> r == Failed(InvalidStatus))
    && (FindById(students, id).Some? && !IsMarked(records, id, req.date) && st.Some? ==>
          r == Marked(NewRecord(nextId, id, req.date, Some(req.time), st, None, Some(Manual))))
  }

  /** The face branch's outcome once a full probe meets a non-empty
      enrolled list: the first nearest enrolled student `k` is rejected
      when farther than the threshold, refused when already marked, the
      record refused when the status fails the enum, and otherwise `k` is
      marked with the match distance. */
  ghost predicate FaceDecidedAt(records: seq<AttendanceRecord>, nextId: RecordId, enrolled: seq<Student>,
                                inputEmbedding: seq<Entry>, date: Date, time: Time, status: string,
                                threshold: real, r: MarkOutcome, k: nat)
    requires threshold >= 0.0
  {
    IsFirstArgmin(Arr(inputEmbedding), Candidates(enrolled), k) &&
    var d := Distance(Arr(inputEmbedding), Arr(enrolled[k].faceEmbedding));
    && (Exceeds(d, threshold) ==> r == Failed(NoMatch(d)))
    && (!Exceeds(d, threshold) && IsMarked(records, enrolled[k].id, date) ==> r == Failed(AlreadyMarked))
    && (!Exceeds(d, threshold) && !IsMarked(records, enrolled[k].id, date) && ParseStatus(status).None? ==>
          r == Failed(InvalidStatus))
    && (!Exceeds(d, threshold) && !IsMarked(records, enrolled[k].id, date) && ParseStatus(status).Some? ==>
          r == Marked(NewRecord(nextId, enrolled[k].id, date, Some(time), ParseStatus(status), Some(d.sq), Some(AutoFace))))
  }

  ghost predicate FaceDecided(records: seq<AttendanceRecord>, nextId: RecordId, enrolled: seq<Student>,
                              inputEmbedding: seq<Entry>, date: Date, time: Time, status: string,
                              threshold: real, r: MarkOutcome)
    requires threshold >= 0.0
  {
    exists k: nat :: FaceDecidedAt(records, nextId, enrolled, inputEmbedding, date, time, status, threshold, r, k)
  }

  /** As written, the face branch accepts any array as the probe.  An
      empty array overlaps no stored entry, so every enrolled student is
      at distance zero and the first one is the match, whatever the
      threshold. */
  lemma EmptyProbeMatchesFirstEnrolled(enrolled: seq<Student>, threshold: real)
    requires enrolled != [] && forall i :: 0 <= i < |enrolled| ==> enrolled[i].faceEmbedding != []
    requires threshold >= 0.0
    ensures IsFirstArgmin(Arr([]), Candidates(enrolled), 0)
    ensures Distance(Arr([]), Arr(enrolled[0].faceEmbedding)) == Fin(0.0)
    ensures !Exceeds(Distance(Arr([]), Arr(enrolled[0].faceEmbedding)), threshold)
  {
    var embs := Candidates(enrolled);
    forall j | 0 <= j < |embs| ensures DistTo(Arr([]), embs[j]) == Fin(0.0) {
      assert Overlap([], enrolled[j].faceEmbedding) == 0;
    }
    assert Eligible(embs[0]);
  }

  /** So `MarkFaceAsWritten` with an empty probe marks the first enrolled
      student, at distance zero, unless that student is already marked
      (or the status is one the schema rejects). */
  lemma EmptyProbeMarksFirstEnrolled(records: seq<AttendanceRecord>, nextId: RecordId, enrolled: seq<Student>,
                                     date: Date, time: Time, status: string, threshold: real, r: MarkOutcome)
    requires enrolled != [] && forall i :: 0 <= i < |enrolled| ==> enrolled[i].faceEmbedding != []
    requires threshold >= 0.0
    requires FaceDecided(records, nextId, enrolled, [], date, time, status, threshold, r)
    requires !IsMarked(records, enrolled[0].id, date) && ParseStatus(status).Some?
    ensures r == Marked(NewRecord(nextId, enrolled[0].id, date, Some(time), ParseStatus(status), Some(0.0), Some(AutoFace)))
  {
    var k: nat :| FaceDecidedAt(records, nextId, enrolled, [], date, time, status, threshold, r, k);
    EmptyProbeMatchesFirstEnrolled(enrolled, threshold);
    FirstArgminUnique(Arr([]), Candidates(enrolled), k, 0);
  }
}
