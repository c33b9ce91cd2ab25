/** Face descriptors, the Euclidean distance between two of them, and
    the nearest-match predicates that the server's `markAttendance` scan
    and the browser's `findBestMatch` both satisfy.

    Distances are kept SQUARED: the source returns `Math.sqrt(sum)`, and
    since the square root is strictly increasing on non-negative reals
    and every threshold is non-negative, comparing squares decides every
    comparison the source makes (see `SquaredOrderAgrees` and
    `SquaredThresholdAgrees`). */
module Embedding {
  import opened Options

  /** The value of `Number(v)` for one descriptor entry: a number or NaN. */
  datatype Entry = Num(value: real) | NaN

  /** A request value that `Array.isArray` accepts, or one it rejects. */
  datatype Vec = Arr(items: seq<Entry>) | NonArray

  /** A distance, squared; `Infinite` is JavaScript's `Infinity`. */
  datatype Dist = Fin(sq: real) | Infinite

  /** Length of a face-api.js descriptor. */
  const Dimension: nat := 128

  /** Default match threshold of both the server and the browser. */
  const DefaultThreshold: real := 0.48

  function ThresholdOr(t: Option<real>): real
  {
    if t.Some? then t.value else DefaultThreshold
  }

  /** `Number(x) || 0`: NaN (and zero) become zero. */
  function Coerce(e: Entry): real
  {
    if e.Num? then e.value else 0.0
  }

  function Overlap(a: seq<Entry>, b: seq<Entry>): (n: nat)
    ensures n <= |a| && n <= |b| && (n == |a| || n == |b|)
  {
    if |a| < |b| then |a| else |b|
  }

  function Square(x: real): real
  {
    x * x
  }

  /** Sum of the squared coerced differences over the first `n` positions. */
  function SumSq(a: seq<Entry>, b: seq<Entry>, n: nat): real
    requires n <= |a| && n <= |b|
  {
    if n == 0 then 0.0
    else SumSq(a, b, n - 1) + Square(Coerce(a[n - 1]) - Coerce(b[n - 1]))
  }

  /** The squared Euclidean distance over the common prefix, or
      `Infinite` when either argument is not an array. */
  function Distance(a: Vec, b: Vec): Dist
  {
    if a.NonArray? || b.NonArray? then Infinite
    else Fin(SumSq(a.items, b.items, Overlap(a.items, b.items)))
  }

  /** `d < e` on distances, `Infinity` included. */
  predicate Less(d: Dist, e: Dist)
  {
    match d
    case Infinite => false
    case Fin(x) => e.Infinite? || x < e.sq
  }

  /** `distance > threshold` for a non-negative threshold. */
  predicate Exceeds(d: Dist, threshold: real)
    requires threshold >= 0.0
  {
    d.Infinite? || d.sq > threshold * threshold
  }

  // ----- the distance -----

  lemma SquareFacts(x: real, y: real)
    ensures Square(x - y) >= 0.0
    ensures Square(x - y) == Square(y - x)
    ensures Square(x - y) == 0.0 <==> x == y
  {
    if x != y {
      SquarePositive(x - y);
    }
  }

  lemma {:induction false} SumSqNonnegative(a: seq<Entry>, b: seq<Entry>, n: nat)
    requires n <= |a| && n <= |b|
    ensures SumSq(a, b, n) >= 0.0
  {
    if n > 0 {
      SumSqNonnegative(a, b, n - 1);
      SquareFacts(Coerce(a[n - 1]), Coerce(b[n - 1]));
    }
  }

  lemma {:induction false} SumSqSymmetric(a: seq<Entry>, b: seq<Entry>, n: nat)
    requires n <= |a| && n <= |b|
    ensures SumSq(a, b, n) == SumSq(b, a, n)
  {
    if n > 0 {
      SumSqSymmetric(a, b, n - 1);
      SquareFacts(Coerce(a[n - 1]), Coerce(b[n - 1]));
    }
  }

  /** The sum is zero exactly when the coerced entries agree on every position. */
  lemma {:induction false} SumSqZeroIff(a: seq<Entry>, b: seq<Entry>, n: nat)
    requires n <= |a| && n <= |b|
    ensures SumSq(a, b, n) == 0.0 <==> forall i :: 0 <= i < n ==> Coerce(a[i]) == Coerce(b[i])
  {
    if n > 0 {
      SumSqZeroIff(a, b, n - 1);
      SumSqNonnegative(a, b, n - 1);
      SquareFacts(Coerce(a[n - 1]), Coerce(b[n - 1]));
    }
  }

  lemma SquarePositive(x: real)
    requires x != 0.0
    ensures Square(x) > 0.0
  {
    calc {
      Square(x);
      x * x;
    > { ProductPositive(x); }
      0.0;
    }
  }

  lemma ProductPositive(x: real)
    requires x != 0.0
    ensures x * x > 0.0
  {
    if x < 0.0 {
      assert x * x == (-x) * (-x);
    }
  }

  /** Only the first `n` positions of either argument enter the sum. */
  lemma {:induction false} SumSqPrefix(a: seq<Entry>, b: seq<Entry>, c: seq<Entry>, d: seq<Entry>, n: nat)
    requires n <= |a| && n <= |b| && n <= |c| && n <= |d|
    requires a[..n] == c[..n] && b[..n] == d[..n]
    ensures SumSq(a, b, n) == SumSq(c, d, n)
  {
    if n > 0 {
      assert a[n - 1] == a[..n][n - 1] && c[n - 1] == c[..n][n - 1];
      assert b[n - 1] == b[..n][n - 1] && d[n - 1] == d[..n][n - 1];
      assert a[..n - 1] == a[..n][..n - 1] && c[..n - 1] == c[..n][..n - 1];
      assert b[..n - 1] == b[..n][..n - 1] && d[..n - 1] == d[..n][..n - 1];
      SumSqPrefix(a, b, c, d, n - 1);
    }
  }

  lemma DistanceNonnegative(a: Vec, b: Vec)
    ensures Distance(a, b).Fin? <==> a.Arr? && b.Arr?
    ensures Distance(a, b).Fin? ==> Distance(a, b).sq >= 0.0
  {
    if a.Arr? && b.Arr? {
      SumSqNonnegative(a.items, b.items, Overlap(a.items, b.items));
    }
  }

  lemma DistanceSymmetric(a: Vec, b: Vec)
    ensures Distance(a, b) == Distance(b, a)
  {
    if a.Arr? && b.Arr? {
      SumSqSymmetric(a.items, b.items, Overlap(a.items, b.items));
    }
  }

  lemma DistanceToSelf(a: seq<Entry>)
    ensures Distance(Arr(a), Arr(a)) == Fin(0.0)
  {
    SumSqZeroIff(a, a, |a|);
  }

  /** Two arrays are at distance zero exactly when their coerced entries
      agree on the common prefix. */
  lemma DistanceZeroIff(a: seq<Entry>, b: seq<Entry>)
    ensures Distance(Arr(a), Arr(b)) == Fin(0.0) <==>
            forall i :: 0 <= i < Overlap(a, b) ==> Coerce(a[i]) == Coerce(b[i])
  {
    SumSqZeroIff(a, b, Overlap(a, b));
  }

  /** Entries past the shorter argument's end are never compared. */
  lemma DistanceIgnoresExtraEntries(a: seq<Entry>, b: seq<Entry>, extra: seq<Entry>)
    requires |b| <= |a|
    ensures Distance(Arr(a + extra), Arr(b)) == Distance(Arr(a), Arr(b))
  {
    var n := |b|;
    assert (a + extra)[..n] == a[..n];
    SumSqPrefix(a + extra, b, a, b, n);
  }

  // ----- why squares may stand for distances -----

  lemma SquaredOrderAgrees(x: real, y: real)
    requires x >= 0.0 && y >= 0.0
    ensures Less(Fin(x * x), Fin(y * y)) <==> x < y
  {
    assert y * y - x * x == (y - x) * (y + x);
    if x < y {
      ProductOfPositives(y - x, y + x);
    } else {
      ProductNonnegative(x - y, x + y);
    }
  }

  lemma ProductOfPositives(a: real, b: real)
    requires a > 0.0 && b > 0.0
    ensures a * b > 0.0
  {
  }

  lemma ProductNonnegative(a: real, b: real)
    requires a >= 0.0 && b >= 0.0
    ensures a * b >= 0.0
  {
  }

  lemma SquaredThresholdAgrees(x: real, threshold: real)
    requires x >= 0.0 && threshold >= 0.0
    ensures Exceeds(Fin(x * x), threshold) <==> x > threshold
  {
    SquaredOrderAgrees(threshold, x);
  }

  /** `Math.max(0, 1 - distance / 2)`: the 0-1 score reported beside a match. */
  function MatchConfidence(distance: real): (c: real)
    requires distance >= 0.0
    ensures 0.0 <= c <= 1.0
    ensures c == 1.0 <==> distance == 0.0
    ensures c == 0.0 <==> distance >= 2.0
  {
    if 1.0 - distance / 2.0 > 0.0 then 1.0 - distance / 2.0 else 0.0
  }

  /** A larger distance never gets a higher score. */
  lemma ConfidenceDecreasing(d: real, e: real)
    requires 0.0 <= d <= e
    ensures MatchConfidence(e) <= MatchConfidence(d)
  {
  }

  // ----- nearest match -----

  /** The scan skips a candidate whose embedding is missing, not an array, or empty. */
  predicate Eligible(e: Option<Vec>)
  {
    e.Some? && e.value.Arr? && |e.value.items| > 0
  }

  function DistTo(probe: Vec, e: Option<Vec>): Dist
    requires Eligible(e)
  {
    Distance(probe, e.value)
  }

  /** Among the first `n` candidates, `k` is eligible, at a finite
      distance, no farther than any eligible candidate, and strictly
      nearer than every eligible candidate before it: what a left-to-right
      scan keeping the first strict minimum selects. */
  ghost predicate FirstMinWithin(probe: Vec, embs: seq<Option<Vec>>, k: nat, n: nat)
    requires n <= |embs|
  {
    && k < n
    && Eligible(embs[k])
    && DistTo(probe, embs[k]).Fin?
    && (forall j :: 0 <= j < n && Eligible(embs[j]) ==> !Less(DistTo(probe, embs[j]), DistTo(probe, embs[k])))
    && (forall j :: 0 <= j < k && Eligible(embs[j]) ==> Less(DistTo(probe, embs[k]), DistTo(probe, embs[j])))
  }

  ghost predicate IsFirstArgmin(probe: Vec, embs: seq<Option<Vec>>, k: nat)
  {
    FirstMinWithin(probe, embs, k, |embs|)
  }

  /** No eligible candidate among the first `n` is at a finite distance. */
  ghost predicate NoneFiniteWithin(probe: Vec, embs: seq<Option<Vec>>, n: nat)
    requires n <= |embs|
  {
    forall j :: 0 <= j < n && Eligible(embs[j]) ==> DistTo(probe, embs[j]).Infinite?
  }

  /** The first minimum is unique, so a scan's result is determined. */
  lemma FirstArgminUnique(probe: Vec, embs: seq<Option<Vec>>, k: nat, m: nat)
    requires IsFirstArgmin(probe, embs, k) && IsFirstArgmin(probe, embs, m)
    ensures k == m
  {
  }

  /** Either some candidate is the first minimum, or none is at a finite distance. */
  lemma {:induction false} FirstArgminExists(probe: Vec, embs: seq<Option<Vec>>, n: nat)
    requires n <= |embs|
    ensures NoneFiniteWithin(probe, embs, n) || exists k :: FirstMinWithin(probe, embs, k, n)
  {
    if n > 0 && !NoneFiniteWithin(probe, embs, n) {
      FirstArgminExists(probe, embs, n - 1);
      var e := embs[n - 1];
      if NoneFiniteWithin(probe, embs, n - 1) {
        assert FirstMinWithin(probe, embs, n - 1, n);
      } else {
        var k: nat :| FirstMinWithin(probe, embs, k, n - 1);
        if Eligible(e) && Less(DistTo(probe, e), DistTo(probe, embs[k])) {
          assert FirstMinWithin(probe, embs, n - 1, n);
        } else {
          assert FirstMinWithin(probe, embs, k, n);
        }
      }
    }
  }
}
