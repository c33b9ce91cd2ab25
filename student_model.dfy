/** The `Student` document: its fields and defaults, the `trim` applied
    to `name` and `rollNumber`, and the uniqueness of `rollNumber`. */
module StudentModel {
  import opened Options
  import opened Embedding
  import opened Seqs

  type StudentId = nat

  /** Milliseconds since the epoch. */
  type Timestamp = int

  datatype Student = Student(
    id: StudentId,
    name: string,
    rollNumber: string,
    className: string,
    faceImage: string,
    faceEmbedding: seq<Entry>,
    faceEmbeddings: seq<seq<Entry>>,
    isEnrolled: bool,
    enrolledAt: Option<Timestamp>)

  /** The student fields a populated reference or a report row carries:
      `_id`, `name`, `rollNumber`, `className`. */
  datatype StudentRef = StudentRef(id: StudentId, name: string, rollNumber: string, className: string)

  function RefOf(s: Student): StudentRef
  {
    StudentRef(s.id, s.name, s.rollNumber, s.className)
  }

  /** The characters `String.prototype.trim` removes: ECMAScript's
      WhiteSpace and LineTerminator code points. */
  predicate IsSpace(c: char)
  {
    || c == ' ' || c == '\t' || c == '\n' || c == '\r' || c == '\U{000B}' || c == '\U{000C}'
    || c == '\U{00A0}' || c == '\U{1680}' || ('\U{2000}' <= c <= '\U{200A}')
    || c == '\U{2028}' || c == '\U{2029}' || c == '\U{202F}' || c == '\U{205F}'
    || c == '\U{3000}' || c == '\U{FEFF}'
  }

  /** Drops white space from the front. */
  function TrimStart(s: string): (r: string)
    ensures |r| <= |s|
  {
    if s != [] && IsSpace(s[0]) then TrimStart(s[1..]) else s
  }

  /** Drops white space from the back. */
  function TrimEnd(s: string): (r: string)
    ensures |r| <= |s|
  {
    if s != [] && IsSpace(s[|s| - 1]) then TrimEnd(s[..|s| - 1]) else s
  }

  /** `TrimStart` leaves the suffix of `s` after its leading white space. */
  lemma {:induction false} TrimStartShape(s: string)
    ensures var r := TrimStart(s);
            && r == s[|s| - |r|..]
            && (forall i :: 0 <= i < |s| - |r| ==> IsSpace(s[i]))
            && (r == [] || !IsSpace(r[0]))
  {
    if s != [] && IsSpace(s[0]) {
      TrimStartShape(s[1..]);
      var r := TrimStart(s);
      forall i | 0 <= i < |s| - |r| ensures IsSpace(s[i]) {
        if i > 0 {
          assert s[i] == s[1..][i - 1];
        }
      }
    }
  }

  /** `TrimEnd` leaves the prefix of `s` before its trailing white space. */
  lemma {:induction false} TrimEndShape(s: string)
    ensures var r := TrimEnd(s);
            && r == s[..|r|]
            && (forall i :: |r| <= i < |s| ==> IsSpace(s[i]))
            && (r == [] || !IsSpace(r[|r| - 1]))
  {
    if s != [] && IsSpace(s[|s| - 1]) {
      TrimEndShape(s[..|s| - 1]);
      var r := TrimEnd(s);
      forall i | |r| <= i < |s| ensures IsSpace(s[i]) {
        if i < |s| - 1 {
          assert s[i] == s[..|s| - 1][i];
        }
      }
    }
  }

  /** `r` is `s[lo..lo + |r|]` and everything of `s` around it is white space. */
  ghost predicate SliceBetweenSpaces(s: string, r: string, lo: nat)
  {
    && lo + |r| <= |s| && r == s[lo..lo + |r|]
    && (forall i :: 0 <= i < lo ==> IsSpace(s[i]))
    && (forall i :: lo + |r| <= i < |s| ==> IsSpace(s[i]))
  }

  /** `s.trim()`: white space dropped at both ends; what is left neither
      starts nor ends with white space. */
  function Trim(s: string): (r: string)
    ensures |r| <= |s|
    ensures Trimmed(r)
  {
    var t := TrimStart(s);
    TrimStartShape(s);
    TrimEndShape(t);
    TrimEnds(t, TrimEnd(t));
    TrimEnd(t)
  }

  /** What `trim` leaves is a slice of the input with only white space
      around it. */
  lemma TrimIsSliceBetweenSpaces(s: string)
    ensures exists lo :: SliceBetweenSpaces(s, Trim(s), lo)
  {
    var t := TrimStart(s);
    TrimStartShape(s);
    TrimEndShape(t);
    TrimShape(s, t, TrimEnd(t));
    assert Trim(s) == TrimEnd(t);
    assert SliceBetweenSpaces(s, Trim(s), |s| - |t|);
  }

  /** Dropping white space from the front (`t`) and then from the back
      (`r`) leaves a slice of `s` with white space around it. */
  lemma TrimShape(s: string, t: string, r: string)
    requires |t| <= |s| && t == s[|s| - |t|..] && forall i :: 0 <= i < |s| - |t| ==> IsSpace(s[i])
    requires |r| <= |t| && r == t[..|r|] && forall i :: |r| <= i < |t| ==> IsSpace(t[i])
    ensures SliceBetweenSpaces(s, r, |s| - |t|)
  {
    var lo := |s| - |t|;
    SliceOfSlice(s, lo, |r|);
    forall i | lo + |r| <= i < |s| ensures IsSpace(s[i]) {
      assert s[i] == t[i - lo];
    }
  }

  lemma TrimEnds(t: string, r: string)
    requires t == [] || !IsSpace(t[0])
    requires |r| <= |t| && r == t[..|r|] && (r == [] || !IsSpace(r[|r| - 1]))
    ensures Trimmed(r)
  {
    if r != [] {
      assert r[0] == t[0];
    }
  }

  lemma SliceOfSlice(s: string, lo: nat, n: nat)
    requires lo + n <= |s|
    ensures s[lo..][..n] == s[lo..lo + n]
  {
  }

  lemma TrimIdempotent(s: string)
    ensures Trim(Trim(s)) == Trim(s)
  {
    TrimmedIsFixed(Trim(s));
  }

  /** Neither starts nor ends with white space: what `trim` leaves. */
  predicate Trimmed(s: string)
  {
    s == [] || (!IsSpace(s[0]) && !IsSpace(s[|s| - 1]))
  }

  /** Trimming a trimmed string changes nothing. */
  lemma TrimmedIsFixed(s: string)
    requires Trimmed(s)
    ensures Trim(s) == s
  {
    assert TrimStart(s) == s;
  }

  /** A stored document satisfies the schema: `name` and `rollNumber`
      are present (non-empty) and already trimmed. */
  predicate WellFormed(s: Student)
  {
    s.name != [] && s.rollNumber != [] && Trimmed(s.name) && Trimmed(s.rollNumber)
  }

  /** The document `Student.create` builds from a name, roll number and
      class, with every other field at its schema default. */
  function NewStudent(id: StudentId, name: string, rollNumber: string, className: string): (s: Student)
    ensures s.id == id && s.name == Trim(name) && s.rollNumber == Trim(rollNumber) && s.className == className
    ensures s.faceImage == "" && s.faceEmbedding == [] && s.faceEmbeddings == []
    ensures !s.isEnrolled && s.enrolledAt == None
    ensures Trim(name) != [] && Trim(rollNumber) != [] ==> WellFormed(s)
  {
    Student(id, Trim(name), Trim(rollNumber), className, "", [], [], false, None)
  }

  /** The unique index on `rollNumber`. */
  ghost predicate RollNumbersUnique(students: seq<Student>)
  {
    forall i, j :: 0 <= i < j < |students| ==> students[i].rollNumber != students[j].rollNumber
  }

  /** `_id` is unique. */
  ghost predicate IdsUnique(students: seq<Student>)
  {
    forall i, j :: 0 <= i < j < |students| ==> students[i].id != students[j].id
  }

  predicate HasRollNumber(students: seq<Student>, rollNumber: string)
  {
    exists i :: 0 <= i < |students| && students[i].rollNumber == rollNumber
  }

  /** Adding a student whose roll number is unused and whose id is above
      every existing id keeps both uniqueness invariants. */
  lemma AppendKeepsUnique(students: seq<Student>, s: Student)
    requires RollNumbersUnique(students) && IdsUnique(students)
    requires !HasRollNumber(students, s.rollNumber)
    requires forall i :: 0 <= i < |students| ==> students[i].id < s.id
    ensures RollNumbersUnique(students + [s]) && IdsUnique(students + [s])
  {
    var r := students + [s];
    forall i, j | 0 <= i < j < |r|
      ensures r[i].rollNumber != r[j].rollNumber && r[i].id != r[j].id
    {
      assert r[i] == students[i];
      if j < |students| {
        assert r[j] == students[j];
      }
    }
  }

  /** `Student.findById(id)`: the position of the first student with that id. */
  function FindById(students: seq<Student>, id: StudentId): (r: Option<nat>)
    ensures r.Some? ==> r.value < |students| && students[r.value].id == id
    ensures r.Some? ==> forall j :: 0 <= j < r.value ==> students[j].id != id
    ensures r.None? <==> forall j :: 0 <= j < |students| ==> students[j].id != id
  {
    if students == [] then None
    else if students[0].id == id then Some(0)
    else
      match FindById(students[1..], id)
      case None => None
      case Some(k) => Some(k + 1)
  }

  /** `list.filter(s => s._id !== id)`, also what `findByIdAndDelete` leaves behind. */
  function RemoveById(students: seq<Student>, id: StudentId): (r: seq<Student>)
    ensures forall s :: s in r <==> s in students && s.id != id
    ensures Sublist(r, students)
  {
    Filter(students, (s: Student) => s.id != id)
  }
}
