/** The Enroll page: collecting face captures, averaging their
    descriptors into one template, and the guards of its two buttons. */
module EnrollPage {
  import opened Options
  import opened Embedding
  import opened StudentModel
  import opened StudentController
  import opened Sorting

  /** One captured sample: its descriptor (an array of numbers) and the
      image data URL. */
  datatype Capture = Capture(descriptor: seq<real>, image: string)

  /** `descriptor[j]`: undefined, which arithmetic turns into NaN, past the end. */
  function At(d: seq<real>, j: nat): (e: Entry)
    ensures e.Num? <==> j < |d|
    ensures j < |d| ==> e.value == d[j]
  {
    if j < |d| then Num(d[j]) else NaN
  }

  /** `+` on numbers, with NaN absorbing. */
  function Plus(a: Entry, b: Entry): (e: Entry)
    ensures e.Num? <==> a.Num? && b.Num?
    ensures e.Num? ==> e.value == a.value + b.value
  {
    if a.Num? && b.Num? then Num(a.value + b.value) else NaN
  }

  /** `/ n` on numbers, with NaN absorbing. */
  function DivBy(a: Entry, n: nat): (e: Entry)
    requires n > 0
    ensures e.Num? <==> a.Num?
    ensures e.Num? ==> e.value == a.value / (n as real)
  {
    if a.Num? then Num(a.value / (n as real)) else NaN
  }

  /** Component `j` of the running sum after adding the first `n`
      descriptors, starting from a copy of the first. */
  function SumAt(ds: seq<seq<real>>, j: nat, n: nat): Entry
    requires 1 <= n <= |ds| && j < |ds[0]|
  {
    if n == 1 then Num(ds[0][j]) else Plus(SumAt(ds, j, n - 1), At(ds[n - 1], j))
  }

  /** The template `handleEnroll` sends: componentwise mean, as long as
      the first descriptor. */
  function Mean(ds: seq<seq<real>>): (m: seq<Entry>)
    requires |ds| > 0
    ensures |m| == |ds[0]|
    ensures forall j :: 0 <= j < |m| ==> m[j] == DivBy(SumAt(ds, j, |ds|), |ds|)
  {
    seq(|ds[0]|, j requires 0 <= j < |ds[0]| => DivBy(SumAt(ds, j, |ds|), |ds|))
  }

  /** The copy-accumulate-divide loops of `handleEnroll`, on an array. */
  method MeanDescriptor(descriptors: seq<seq<real>>) returns (meanDescriptor: seq<Entry>)
    requires |descriptors| > 0
    ensures meanDescriptor == Mean(descriptors)
  {
    var first := descriptors[0];
    var m := new Entry[|first|](j requires 0 <= j < |first| => Num(first[j]));
    var i := 1;
    while i < |descriptors|
      invariant 1 <= i <= |descriptors|
      invariant forall k :: 0 <= k < m.Length ==> m[k] == SumAt(descriptors, k, i)
    {
      var j := 0;
      while j < m.Length
        invariant 0 <= j <= m.Length
        invariant forall k :: 0 <= k < j ==> m[k] == SumAt(descriptors, k, i + 1)
        invariant forall k :: j <= k < m.Length ==> m[k] == SumAt(descriptors, k, i)
      {
        m[j] := Plus(m[j], At(descriptors[i], j));
        j := j + 1;
      }
      i := i + 1;
    }
    var j := 0;
    while j < m.Length
      invariant 0 <= j <= m.Length
      invariant forall k :: 0 <= k < j ==> m[k] == DivBy(SumAt(descriptors, k, |descriptors|), |descriptors|)
      invariant forall k :: j <= k < m.Length ==> m[k] == SumAt(descriptors, k, |descriptors|)
    {
      m[j] := DivBy(m[j], |descriptors|);
      j := j + 1;
    }
    meanDescriptor := m[..];
  }

  /** The plain sum of component `j` over the first `n` descriptors. */
  function RealSum(ds: seq<seq<real>>, j: nat, n: nat): real
    requires n <= |ds| && forall i :: 0 <= i < n ==> j < |ds[i]|
  {
    if n == 0 then 0.0 else RealSum(ds, j, n - 1) + ds[n - 1][j]
  }

  /** When every descriptor reaches component `j`, the running sum is the
      plain sum; otherwise it is NaN. */
  lemma {:induction false} SumAtIsRealSum(ds: seq<seq<real>>, j: nat, n: nat)
    requires 1 <= n <= |ds| && j < |ds[0]|
    ensures (forall i :: 0 <= i < n ==> j < |ds[i]|) ==> SumAt(ds, j, n) == Num(RealSum(ds, j, n))
    ensures (exists i :: 0 <= i < n && j >= |ds[i]|) ==> SumAt(ds, j, n) == NaN
  {
    if n > 1 {
      SumAtIsRealSum(ds, j, n - 1);
    }
  }

  /** Component `j` of the mean is the sum over captures of `descriptor[j]`
      divided by the number of captures, when all captures have one. */
  lemma MeanComponent(ds: seq<seq<real>>, j: nat)
    requires |ds| > 0 && j < |ds[0]|
    requires forall i :: 0 <= i < |ds| ==> j < |ds[i]|
    ensures Mean(ds)[j] == Num(RealSum(ds, j, |ds|) / (|ds| as real))
  {
    SumAtIsRealSum(ds, j, |ds|);
  }

  /** A single capture is sent unchanged. */
  lemma MeanOfOne(d: seq<real>)
    ensures Mean([d]) == seq(|d|, j requires 0 <= j < |d| => Num(d[j]))
  {
    var m := Mean([d]);
    forall j | 0 <= j < |d| ensures m[j] == Num(d[j]) {
      assert SumAt([d], j, 1) == Num(d[j]);
      assert d[j] / 1.0 == d[j];
    }
  }

  /** Averaging identical captures gives back the descriptor. */
  lemma MeanOfIdentical(ds: seq<seq<real>>, d: seq<real>)
    requires |ds| > 0 && forall i :: 0 <= i < |ds| ==> ds[i] == d
    ensures Mean(ds) == seq(|d|, j requires 0 <= j < |d| => Num(d[j]))
  {
    var m := Mean(ds);
    forall j | 0 <= j < |d| ensures m[j] == Num(d[j]) {
      SumAtIsRealSum(ds, j, |ds|);
      RealSumOfIdentical(ds, d, j, |ds|);
      var n := |ds| as real;
      assert RealSum(ds, j, |ds|) == n * d[j];
      DivCancel(n, d[j]);
    }
  }

  lemma DivCancel(n: real, x: real)
    requires n > 0.0
    ensures n * x / n == x
  {
  }

  lemma {:induction false} RealSumOfIdentical(ds: seq<seq<real>>, d: seq<real>, j: nat, n: nat)
    requires n <= |ds| && j < |d| && forall i :: 0 <= i < |ds| ==> ds[i] == d
    ensures RealSum(ds, j, n) == (n as real) * d[j]
  {
    if n > 0 {
      RealSumOfIdentical(ds, d, j, n - 1);
    }
  }

  /** `loadStudents` asks for `{ isEnrolled: false }`, which reaches the
      server as the string `'false'`: the page lists the students not yet
      enrolled, sorted by name. */
  lemma LoadedStudentsAreUnenrolled(students: seq<Student>, s: Student)
    ensures var shown := GetStudents(students, "", Some("false"));
            && (s in shown <==> s in students && !s.isEnrolled)
            && SortedBy(shown, NameOf)
  {
  }

  /** The body of the `enrollFace` request. */
  datatype EnrollPayload = EnrollPayload(studentId: StudentId, faceEmbedding: seq<Entry>, faceImage: string)

  function Descriptors(captures: seq<Capture>): (ds: seq<seq<real>>)
    ensures |ds| == |captures|
    ensures forall i :: 0 <= i < |captures| ==> ds[i] == captures[i].descriptor
  {
    seq(|captures|, i requires 0 <= i < |captures| => captures[i].descriptor)
  }

  /** The page's state: the student list, the selection (`None` for ''),
      the captures and the three form fields. */
  class EnrollForm {
    var students: seq<Student>
    var selected: Option<StudentId>
    var captures: seq<Capture>
    var name: string
    var rollNumber: string
    var className: string

    constructor(students: seq<Student>)
      ensures this.students == students && selected.None? && captures == []
      ensures name == [] && rollNumber == [] && className == []
    {
      this.students := students;
      selected, captures := None, [];
      name, rollNumber, className := [], [], [];
    }

    /** `handleDescriptorCaptured`: one more capture, at the end. */
    method HandleDescriptorCaptured(item: Capture)
      modifies this
      ensures captures == old(captures) + [item]
      ensures students == old(students) && selected == old(selected)
      ensures name == old(name) && rollNumber == old(rollNumber) && className == old(className)
    {
      captures := captures + [item];
    }

    /** `handleEnroll`: refuses without a selection or without captures;
        otherwise sends the mean template with the first capture's image.
        `accepted` is whether the server accepted it; only then are the
        captures and the selection cleared. */
    method HandleEnroll(accepted: bool) returns (sent: Option<EnrollPayload>)
      modifies this
      ensures old(selected).None? || old(captures) == [] ==> sent.None?
      ensures old(selected).Some? && old(captures) != [] ==>
                sent == Some(EnrollPayload(old(selected).value, Mean(Descriptors(old(captures))), old(captures)[0].image))
      ensures sent.Some? && accepted ==> captures == [] && selected.None?
      ensures sent.None? || !accepted ==> captures == old(captures) && selected == old(selected)
      ensures students == old(students)
      ensures name == old(name) && rollNumber == old(rollNumber) && className == old(className)
    {
      if selected.None? {
        return None;
      }
      if |captures| == 0 {
        return None;
      }
      var descriptors := Descriptors(captures);
      var meanDescriptor := MeanDescriptor(descriptors);
      sent := Some(EnrollPayload(selected.value, meanDescriptor, captures[0].image));
      if accepted {
        captures := [];
        selected := None;
      }
    }

    /** `handleCreateStudent`: refuses while name or roll number is empty.
        `created` is the server's answer (`None` when it failed); a created
        student joins the list, becomes the selection and clears the form. */
    method HandleCreateStudent(created: Option<Student>) returns (requested: bool)
      modifies this
      ensures requested <==> old(name) != [] && old(rollNumber) != []
      ensures requested && created.Some? ==>
        && students == old(students) + [created.value]
        && selected == Some(created.value.id)
        && name == [] && rollNumber == [] && className == []
      ensures !(requested && created.Some?) ==>
        && students == old(students) && selected == old(selected)
        && name == old(name) && rollNumber == old(rollNumber) && className == old(className)
      ensures captures == old(captures)
    {
      if name == [] || rollNumber == [] {
        return false;
      }
      requested := true;
      if created.Some? {
        students := students + [created.value];
        selected := Some(created.value.id);
        name, rollNumber, className := [], [], [];
      }
    }
  }
}
