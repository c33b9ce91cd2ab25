/** The Students page: the in-page search, the enrolment counts, the
    list update after a delete, and the query built for the server. */
module StudentsPage {
  import opened Options
  import opened Seqs
  import opened Strings
  import opened StudentModel
  import opened StudentController

  /** The search test: the lower-cased term occurs in the lower-cased
      name or roll number. */
  predicate MatchesTerm(s: Student, searchTerm: string)
  {
    Includes(Lower(s.name), Lower(searchTerm)) || Includes(Lower(s.rollNumber), Lower(searchTerm))
  }

  /** `filteredStudents` */
  function FilteredStudents(students: seq<Student>, searchTerm: string): (r: seq<Student>)
    ensures forall s :: s in r <==> s in students && MatchesTerm(s, searchTerm)
    ensures Sublist(r, students)
  {
    Filter(students, (s: Student) => MatchesTerm(s, searchTerm))
  }

  /** The empty term occurs in every string, so it keeps everyone. */
  lemma EmptyTermKeepsAll(students: seq<Student>)
    ensures FilteredStudents(students, "") == students
  {
    forall s | s in students ensures MatchesTerm(s, "") {
      assert Lower("") == "";
    }
    FilterKeepsAll(students, (s: Student) => MatchesTerm(s, ""));
  }

  /** The "Enrolled" card. */
  function EnrolledCount(students: seq<Student>): nat
  {
    |Filter(students, (s: Student) => s.isEnrolled)|
  }

  /** The "Pending Enrollment" card. */
  function PendingCount(students: seq<Student>): nat
  {
    |Filter(students, (s: Student) => !s.isEnrolled)|
  }

  /** Enrolled and pending make up the "Total Students" card. */
  lemma CountsAddUp(students: seq<Student>)
    ensures EnrolledCount(students) + PendingCount(students) == |students|
  {
    FilterComplementLength(students, (s: Student) => s.isEnrolled, (s: Student) => !s.isEnrolled);
  }

  /** `handleDelete`'s update of the list after the server confirmed:
      every entry with that id goes, the rest keep their order. */
  function HandleDelete(students: seq<Student>, id: StudentId): (r: seq<Student>)
    ensures forall s :: s in r <==> s in students && s.id != id
    ensures Sublist(r, students)
  {
    RemoveById(students, id)
  }

  /** While ids are unique, the page's list after a delete is the
      server's collection after `deleteStudent`. */
  lemma DeleteAgreesWithServer(students: seq<Student>, id: StudentId)
    requires IdsUnique(students) && FindById(students, id).Some?
    ensures var k := FindById(students, id).value;
            HandleDelete(students, id) == students[..k] + students[k + 1..]
  {
    RemoveAtIsRemoveById(students, id);
  }

  /** The `filterEnrolled` select. */
  datatype EnrolledFilter = All | EnrolledOnly | NotEnrolled

  /** The query of `getStudents(params)`. */
  datatype Params = Params(isEnrolled: Option<string>, search: Option<string>)

  /** The parameters `loadStudents` sends. */
  function LoadParams(filter: EnrolledFilter, searchTerm: string): (p: Params)
    ensures filter == EnrolledOnly <==> p.isEnrolled == Some("true")
    ensures filter == NotEnrolled <==> p.isEnrolled == Some("false")
    ensures filter == All <==> p.isEnrolled.None?
    ensures searchTerm == [] <==> p.search.None?
    ensures p.search.Some? ==> p.search.value == searchTerm
  {
    Params(
      match filter
      case EnrolledOnly => Some("true")
      case NotEnrolled => Some("false")
      case All => None,
      if searchTerm == [] then None else Some(searchTerm))
  }

  /** With no search term, the list the server returns for each choice
      of the select: the enrolled students, the unenrolled ones, or all. */
  lemma LoadedListFollowsFilter(students: seq<Student>, filter: EnrolledFilter, s: Student)
    ensures s in GetStudents(students, "", LoadParams(filter, "").isEnrolled) <==>
            s in students && (filter == All || s.isEnrolled == (filter == EnrolledOnly))
  {
  }
}
