/** The browser's face matching (`calculateDistance`, `findBestMatch`),
    run against the enrolled list before a mark is sent to the server. */
module FaceService {
  import opened Options
  import opened Embedding

  /** One element of the `students` list: `{ _id, name, faceEmbedding }`;
      `faceEmbedding` is `None` when missing or falsy. */
  datatype Candidate = Candidate(id: nat, name: string, faceEmbedding: Option<Vec>)

  /** `{ student, distance }` */
  datatype Match = Match(index: nat, student: Candidate, distance: Dist)

  function Embeddings(students: seq<Candidate>): (embs: seq<Option<Vec>>)
    ensures |embs| == |students|
    ensures forall i :: 0 <= i < |students| ==> embs[i] == students[i].faceEmbedding
  {
    seq(|students|, i requires 0 <= i < |students| => students[i].faceEmbedding)
  }

  /** `calculateDistance(descriptor1, descriptor2)`, squared. */
  method CalculateDistance(descriptor1: Vec, descriptor2: Vec) returns (d: Dist)
    ensures d == Distance(descriptor1, descriptor2)
  {
    if descriptor1.NonArray? || descriptor2.NonArray? {
      return Infinite;
    }
    var a, b := descriptor1.items, descriptor2.items;
    var sum := 0.0;
    var length := if |a| < |b| then |a| else |b|;
    for i := 0 to length
      invariant sum == SumSq(a, b, i)
    {
      var diff := Coerce(a[i]) - Coerce(b[i]);
      sum := sum + Square(diff);
    }
    return Fin(sum);
  }

  /** `findBestMatch(faceDescriptor, students, threshold = 0.48)`: the
      first nearest student with a usable embedding, when it lies within
      the threshold (`students` is `None` when it is not an array). */
  method FindBestMatch(faceDescriptor: Vec, students: Option<seq<Candidate>>, threshold: Option<real>)
    returns (r: Option<Match>)
    requires ThresholdOr(threshold) >= 0.0
    ensures r.Some? ==>
      && students.Some?
      && IsFirstArgmin(faceDescriptor, Embeddings(students.value), r.value.index)
      && r.value.student == students.value[r.value.index]
      && r.value.distance == DistTo(faceDescriptor, r.value.student.faceEmbedding)
      && !Exceeds(r.value.distance, ThresholdOr(threshold))
    ensures r.None? ==>
      || students.None?
      || forall k: nat :: IsFirstArgmin(faceDescriptor, Embeddings(students.value), k) ==>
           Exceeds(DistTo(faceDescriptor, students.value[k].faceEmbedding), ThresholdOr(threshold))
  {
    if students.None? || |students.value| == 0 {
      return None;
    }
    var list := students.value;
    ghost var embs := Embeddings(list);
    var best: Option<nat> := None;
    var bestDistance := Infinite;
    for i := 0 to |list|
      invariant best.None? ==> bestDistance == Infinite && NoneFiniteWithin(faceDescriptor, embs, i)
      invariant best.Some? ==>
        FirstMinWithin(faceDescriptor, embs, best.value, i) &&
        bestDistance == DistTo(faceDescriptor, embs[best.value])
    {
      var e := list[i].faceEmbedding;
      if e.None? || e.value.NonArray? || |e.value.items| == 0 {
        continue;
      }
      var distance := CalculateDistance(faceDescriptor, e.value);
      if Less(distance, bestDistance) {
        best, bestDistance := Some(i), distance;
      }
    }
    if Exceeds(bestDistance, ThresholdOr(threshold)) {
      forall k: nat | IsFirstArgmin(faceDescriptor, embs, k)
        ensures Exceeds(DistTo(faceDescriptor, list[k].faceEmbedding), ThresholdOr(threshold))
      {
        FirstArgminUnique(faceDescriptor, embs, k, best.value);
      }
      return None;
    }
    r := Some(Match(best.value, list[best.value], bestDistance));
  }
}
