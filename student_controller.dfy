/** The student endpoints: registration, face enrolment, deletion and
    the list queries, over an in-memory student collection. */
module StudentController {
  import opened Options
  import opened Embedding
  import opened Seqs
  import opened Sorting
  import opened StudentModel

  datatype StudentError =
    | MissingFields               // 400 'name and rollNumber are required'
    | DuplicateRollNumber         // 400 'Student with this roll number already exists'
    | ValidationFailed            // schema validation rejects the document; passed to next(err)
    | MissingStudentId            // 400 'studentId is required'
    | NoFaceDetected              // 400 'No face detected'
    | WrongDimension(received: nat)  // 400 'Invalid face embedding dimension'
    | StudentNotFound             // 404 'Student not found'

  datatype Result<T> = Ok(value: T) | Err(error: StudentError)

  function NameOf(s: Student): string
  {
    s.name
  }

  /** The filter `getStudents` builds: `className` when non-empty, and
      `isEnrolled === 'true'` when the parameter is present at all. */
  predicate QueryMatches(s: Student, className: string, isEnrolled: Option<string>)
  {
    && (className == [] || s.className == className)
    && (isEnrolled.None? || s.isEnrolled == (isEnrolled.value == "true"))
  }

  /** `getStudents` (without `search`): the matching students sorted by name. */
  function GetStudents(students: seq<Student>, className: string, isEnrolled: Option<string>): (r: seq<Student>)
    ensures forall s :: s in r <==> s in students && QueryMatches(s, className, isEnrolled)
    ensures SortedBy(r, NameOf)
    ensures multiset(r) == multiset(Filter(students, (s: Student) => QueryMatches(s, className, isEnrolled)))
  {
    var matching := Filter(students, (s: Student) => QueryMatches(s, className, isEnrolled));
    var r := SortBy(matching, NameOf);
    forall s ensures s in r <==> s in matching {
      SortByMembers(matching, NameOf, s);
    }
    r
  }

  /** `getEnrolledStudents`: the enrolled students, in collection order. */
  function GetEnrolledStudents(students: seq<Student>): (r: seq<Student>)
    ensures forall s :: s in r <==> s in students && s.isEnrolled
    ensures Sublist(r, students)
  {
    Filter(students, (s: Student) => s.isEnrolled)
  }

  /** What the collection keeps true: unique roll numbers and ids, every
      id below the next one handed out, every stored student well formed. */
  ghost predicate StoreInvariant(students: seq<Student>, nextId: nat)
  {
    && RollNumbersUnique(students)
    && IdsUnique(students)
    && forall i :: 0 <= i < |students| ==> students[i].id < nextId && WellFormed(students[i])
  }

  /** Registering a well-formed student with an unused roll number under
      the next id keeps the invariant. */
  lemma AddKeepsStoreInvariant(students: seq<Student>, nextId: nat, s: Student)
    requires StoreInvariant(students, nextId)
    requires !HasRollNumber(students, s.rollNumber) && s.id == nextId && WellFormed(s)
    ensures StoreInvariant(students + [s], nextId + 1)
  {
    AppendKeepsUnique(students, s);
    var r := students + [s];
    forall i | 0 <= i < |r| ensures r[i].id < nextId + 1 && WellFormed(r[i]) {
      if i < |students| {
        assert r[i] == students[i];
      }
    }
  }

  /** What `createStudent` answers: both fields present, the trimmed roll
      number unused, both still non-empty once trimmed (the schema's
      `required`), and then a new unenrolled student under the next id. */
  function Register(students: seq<Student>, nextId: nat, name: string, rollNumber: string, className: string)
    : (r: Result<Student>)
    ensures name == [] || rollNumber == [] ==> r == Err(MissingFields)
    ensures name != [] && rollNumber != [] && HasRollNumber(students, Trim(rollNumber))
            ==> r == Err(DuplicateRollNumber)
    ensures r.Ok? <==> && name != [] && rollNumber != [] && Trim(name) != [] && Trim(rollNumber) != []
                       && !HasRollNumber(students, Trim(rollNumber))
    ensures (&& name != [] && rollNumber != [] && !HasRollNumber(students, Trim(rollNumber))
             && (Trim(name) == [] || Trim(rollNumber) == []))
            ==> r == Err(ValidationFailed)
    ensures r.Ok? ==> && r.value.id == nextId && WellFormed(r.value) && !r.value.isEnrolled
                      && r.value.name == Trim(name) && r.value.rollNumber == Trim(rollNumber)
                      && r.value.className == className
                      && !HasRollNumber(students, r.value.rollNumber)
  {
    if name == [] || rollNumber == [] then Err(MissingFields)
    else if HasRollNumber(students, Trim(rollNumber)) then Err(DuplicateRollNumber)
    else if Trim(name) == [] || Trim(rollNumber) == [] then Err(ValidationFailed)
    else Ok(NewStudent(nextId, name, rollNumber, className))
  }

  /** Removing any one student keeps the invariant. */
  lemma RemoveKeepsStoreInvariant(students: seq<Student>, nextId: nat, k: nat)
    requires StoreInvariant(students, nextId) && k < |students|
    ensures StoreInvariant(students[..k] + students[k + 1..], nextId)
  {
    var r := students[..k] + students[k + 1..];
    forall i, j | 0 <= i < j < |r|
      ensures r[i].rollNumber != r[j].rollNumber && r[i].id != r[j].id
    {
      var i' := if i < k then i else i + 1;
      var j' := if j < k then j else j + 1;
      assert r[i] == students[i'] && r[j] == students[j'];
    }
    forall i | 0 <= i < |r| ensures r[i].id < nextId && WellFormed(r[i]) {
      assert r[i] == students[if i < k then i else i + 1];
    }
  }

  /** The student collection. */
  class StudentStore {
    var students: seq<Student>
    var nextId: nat

    ghost predicate Valid()
      reads this
    {
      StoreInvariant(students, nextId)
    }

    constructor()
      ensures Valid() && students == [] && nextId == 0
    {
      students, nextId := [], 0;
    }

    /** `createStudent`: the outcome `Register` decides; on success the
        new student is appended and the next id advances. */
    method CreateStudent(name: string, rollNumber: string, className: string) returns (r: Result<Student>)
      requires Valid()
      modifies this
      ensures Valid()
      ensures r == Register(old(students), old(nextId), name, rollNumber, className)
      ensures r.Err? ==> students == old(students) && nextId == old(nextId)
      ensures r.Ok? ==> students == old(students) + [r.value] && nextId == old(nextId) + 1
    {
      r := Register(students, nextId, name, rollNumber, className);
      if r.Ok? {
        AddKeepsStoreInvariant(students, nextId, r.value);
        students := students + [r.value];
        nextId := nextId + 1;
      }
    }

    /** `enrollFace`: validates the request in order, then overwrites the
        stored embedding and marks the student enrolled.  `savedImage` is
        the URL of the written image file, `None` when no data URL was sent
        or writing it failed; either way the enrolment goes ahead. */
    method EnrollFace(studentId: Option<StudentId>, faceEmbedding: Option<Vec>, savedImage: Option<string>, now: Timestamp)
      returns (r: Result<nat>)
      requires Valid()
      modifies this
      ensures Valid() && nextId == old(nextId) && |students| == |old(students)|
      ensures studentId.None? ==> r == Err(MissingStudentId)
      ensures studentId.Some? && (faceEmbedding.None? || faceEmbedding.value.NonArray? || |faceEmbedding.value.items| == 0)
              ==> r == Err(NoFaceDetected)
      ensures studentId.Some? && faceEmbedding.Some? && faceEmbedding.value.Arr?
              && 0 < |faceEmbedding.value.items| != Dimension
              ==> r == Err(WrongDimension(|faceEmbedding.value.items|))
      ensures studentId.Some? && faceEmbedding.Some? && faceEmbedding.value.Arr?
              && |faceEmbedding.value.items| == Dimension && FindById(old(students), studentId.value).None?
              ==> r == Err(StudentNotFound)
      ensures r.Err? ==> students == old(students)
      ensures r.Ok? <==> && studentId.Some? && faceEmbedding.Some? && faceEmbedding.value.Arr?
                         && |faceEmbedding.value.items| == Dimension
                         && FindById(old(students), studentId.value).Some?
      ensures r.Ok? ==>
        && r.value == Dimension
        && studentId.Some? && faceEmbedding.Some? && faceEmbedding.value.Arr?
        && FindById(old(students), studentId.value).Some?
        && var k := FindById(old(students), studentId.value).value;
           var s := old(students)[k];
           students == old(students)[k := s.(
             faceEmbedding := faceEmbedding.value.items,
             faceImage := if savedImage.Some? then savedImage.value else s.faceImage,
             isEnrolled := true,
             enrolledAt := Some(now))]
    {
      if studentId.None? {
        return Err(MissingStudentId);
      }
      if faceEmbedding.None? || faceEmbedding.value.NonArray? || |faceEmbedding.value.items| == 0 {
        return Err(NoFaceDetected);
      }
      var items := faceEmbedding.value.items;
      if |items| != Dimension {
        return Err(WrongDimension(|items|));
      }
      var found := FindById(students, studentId.value);
      if found.None? {
        return Err(StudentNotFound);
      }
      var k := found.value;
      var student := students[k];
      student := student.(faceEmbedding := items);
      if savedImage.Some? {
        student := student.(faceImage := savedImage.value);
      }
      student := student.(isEnrolled := true, enrolledAt := Some(now));
      students := students[k := student];
      r := Ok(|student.faceEmbedding|);
    }

    /** `deleteStudent`: removes the student, or reports not-found and
        changes nothing.  Attendance records are left in place. */
    method DeleteStudent(id: StudentId) returns (found: bool)
      requires Valid()
      modifies this
      ensures Valid() && nextId == old(nextId)
      ensures found <==> FindById(old(students), id).Some?
      ensures !found ==> students == old(students)
      ensures found ==> var k := FindById(old(students), id).value;
                        students == old(students)[..k] + old(students)[k + 1..]
    {
      var at := FindById(students, id);
      if at.None? {
        return false;
      }
      var k := at.value;
      RemoveKeepsStoreInvariant(students, nextId, k);
      students := students[..k] + students[k + 1..];
      return true;
    }
  }

  /** When ids are unique, removing the found position is removing every
      student with that id, which is what the page does to its list. */
  lemma RemoveAtIsRemoveById(students: seq<Student>, id: StudentId)
    requires IdsUnique(students) && FindById(students, id).Some?
    ensures var k := FindById(students, id).value;
            students[..k] + students[k + 1..] == RemoveById(students, id)
  {
    var k := FindById(students, id).value;
    RemoveAtIsFilter(students, id, k);
  }

  lemma {:induction false} RemoveAtIsFilter(students: seq<Student>, id: StudentId, k: nat)
    requires k < |students| && students[k].id == id
    requires forall j :: 0 <= j < |students| && j != k ==> students[j].id != id
    ensures students[..k] + students[k + 1..] == Filter(students, (s: Student) => s.id != id)
  {
    if k == 0 {
      RemoveHeadIsFilter(students, id);
    } else {
      var keep := (s: Student) => s.id != id;
      var tail := students[1..];
      assert Filter(students, keep) == [students[0]] + Filter(tail, keep);
      forall j | 0 <= j < |tail| && j != k - 1 ensures tail[j].id != id {
        assert tail[j] == students[j + 1];
      }
      RemoveAtIsFilter(tail, id, k - 1);
      RemoveAtOfTail(students, k);
    }
  }

  /** Removing position `k > 0` keeps the head and removes `k - 1` from the tail. */
  lemma RemoveAtOfTail<T>(s: seq<T>, k: nat)
    requires 0 < k < |s|
    ensures s[..k] + s[k + 1..] == [s[0]] + (s[1..][..k - 1] + s[1..][k..])
  {
    assert s[..k] == [s[0]] + s[1..][..k - 1];
    assert s[k + 1..] == s[1..][k..];
  }

  lemma RemoveHeadIsFilter(students: seq<Student>, id: StudentId)
    requires 0 < |students| && students[0].id == id
    requires forall j :: 0 < j < |students| ==> students[j].id != id
    ensures students[1..] == Filter(students, (s: Student) => s.id != id)
  {
    var keep := (s: Student) => s.id != id;
    var tail := students[1..];
    assert Filter(students, keep) == Filter(tail, keep);
    forall x | x in tail ensures keep(x) {
      var j :| 0 <= j < |tail| && tail[j] == x;
      assert tail[j] == students[j + 1];
    }
    FilterKeepsAll(tail, keep);
  }
}
