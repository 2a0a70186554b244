/**
 * Robust-estimation helpers of the photometric-stereo solver
 * (photometricStereo.cpp): the soft threshold `shrink`, the `median` of a
 * matrix's coefficients and the file-name ordering `compareFunction`.
 *
 * Eigen matrices are `array2<real>`; the coefficients of the matrix given to
 * `median`, which it only reads, are a `seq<real>` in storage order.
 */
module PhotometricStereo {

  function Abs(x: real): real
  {
    if x < 0.0 then -x else x
  }

  function Max(a: real, b: real): real
  {
    if a < b then b else a
  }

  // ---------------------------------------------------------------------------
  // shrink
  // ---------------------------------------------------------------------------

  /**
   * The value `shrink` writes for a coefficient m: its magnitude reduced by rho
   * and clamped at zero, with the sign of m (zero counts as not positive).
   */
  function SoftThreshold(m: real, rho: real): (r: real)
    ensures m > 0.0 ==> r >= 0.0
    ensures m <= 0.0 ==> r <= 0.0
    ensures Abs(m) <= rho ==> r == 0.0
    ensures Abs(m) > rho ==> Abs(r) == Abs(m) - rho
    ensures rho >= 0.0 ==> Abs(r) <= Abs(m)
  {
    if m > 0.0 then Max(Abs(m) - rho, 0.0) else -Max(Abs(m) - rho, 0.0)
  }

  /**
   * `shrink`: every cell of `E` (its own extent; `mat` is read at the same
   * positions) receives the soft threshold of the corresponding coefficient of
   * `mat`. Each coefficient is read before its cell is written, so the result is
   * the same when `mat` and `E` are one matrix.
   */
  method Shrink(mat: array2<real>, rho: real, E: array2<real>)
    requires E.Length0 == 0 || E.Length1 == 0 || (E.Length0 <= mat.Length0 && E.Length1 <= mat.Length1)
    modifies E
    ensures forall i, j :: 0 <= i < E.Length0 && 0 <= j < E.Length1 ==>
      E[i, j] == SoftThreshold(old(mat[i, j]), rho)
  {
    for i := 0 to E.Length0
      invariant forall a, b :: 0 <= a < E.Length0 && 0 <= b < E.Length1 ==>
        E[a, b] == if a < i then SoftThreshold(old(mat[a, b]), rho) else old(E[a, b])
      invariant forall a, b :: 0 <= a < E.Length0 && 0 <= b < E.Length1 && a >= i ==> mat[a, b] == old(mat[a, b])
    {
      for j := 0 to E.Length1
        invariant forall a, b :: 0 <= a < E.Length0 && 0 <= b < E.Length1 ==>
          E[a, b] == if a < i || (a == i && b < j) then SoftThreshold(old(mat[a, b]), rho) else old(E[a, b])
        invariant forall a, b :: 0 <= a < E.Length0 && 0 <= b < E.Length1 && (a > i || (a == i && b >= j)) ==>
          mat[a, b] == old(mat[a, b])
      {
        if mat[i, j] > 0.0 {
          E[i, j] := Max(Abs(mat[i, j]) - rho, 0.0);
        } else {
          E[i, j] := -Max(Abs(mat[i, j]) - rho, 0.0);
        }
      }
    }
  }

  /** The cost the soft threshold minimises: squared distance to m plus rho times the magnitude. */
  function ShrinkCost(x: real, m: real, rho: real): real
  {
    (x - m) * (x - m) / 2.0 + rho * Abs(x)
  }

  /**
   * For rho >= 0 the soft threshold of m is the minimiser of
   * (x - m)^2 / 2 + rho |x| over all x, the proximal step of the L1 penalty that
   * the robust solve takes when it calls `shrink` with rho = 1/mu.
   */
  lemma SoftThresholdMinimizes(m: real, rho: real, x: real)
    requires rho >= 0.0
    ensures ShrinkCost(SoftThreshold(m, rho), m, rho) <= ShrinkCost(x, m, rho)
  {
    if m > rho {
      MinimizerShifted(m, rho, x);
    } else if m < -rho {
      MinimizerShifted(-m, rho, -x);
      assert ShrinkCost(-x, -m, rho) == ShrinkCost(x, m, rho);
      assert ShrinkCost(-(m + rho), -m, rho) == ShrinkCost(m + rho, m, rho);
    } else {
      MinimizerZero(m, rho, x);
    }
  }

  /** Above the threshold the minimiser is m - rho. */
  lemma MinimizerShifted(m: real, rho: real, x: real)
    requires rho >= 0.0 && m > rho
    ensures ShrinkCost(m - rho, m, rho) <= ShrinkCost(x, m, rho)
  {
    var d := x - m;
    assert (x - m) * (x - m) == d * d;
    assert (m - rho - m) * (m - rho - m) == rho * rho;
    assert (x - (m - rho)) * (x - (m - rho)) == d * d + 2.0 * rho * d + rho * rho;
    assert rho * Abs(x) >= rho * x by {
      if x < 0.0 {
        assert rho * Abs(x) - rho * x == rho * (-2.0 * x);
      }
    }
    assert rho * Abs(m - rho) == rho * (m - rho);
  }

  /** Within the threshold the minimiser is 0. */
  lemma MinimizerZero(m: real, rho: real, x: real)
    requires rho >= 0.0 && -rho <= m <= rho
    ensures ShrinkCost(0.0, m, rho) <= ShrinkCost(x, m, rho)
  {
    assert ShrinkCost(0.0, m, rho) == m * m / 2.0;
    assert (x - m) * (x - m) == x * x - 2.0 * x * m + m * m;
    if x >= 0.0 {
      assert x * m <= x * rho;
      assert rho * Abs(x) == rho * x;
    } else {
      assert x * m <= -x * rho;
      assert rho * Abs(x) == -rho * x;
    }
  }

  // ---------------------------------------------------------------------------
  // median
  // ---------------------------------------------------------------------------

  predicate Sorted(s: seq<real>)
  {
    forall p, q :: 0 <= p < q < |s| ==> s[p] <= s[q]
  }

  /** Inserts x into t before the first element not smaller than x. */
  function Insert(x: real, t: seq<real>): (r: seq<real>)
    ensures |r| == |t| + 1
    ensures multiset(r) == multiset(t) + multiset{x}
  {
    if |t| == 0 then [x]
    else if x <= t[0] then [x] + t
    else assert t == [t[0]] + t[1..]; [t[0]] + Insert(x, t[1..])
  }

  /** The values of s in increasing order, the result `std::sort` leaves in the copy. */
  function SortSeq(s: seq<real>): (t: seq<real>)
    ensures |t| == |s|
    ensures multiset(t) == multiset(s)
  {
    if |s| == 0 then []
    else assert s == [s[0]] + s[1..]; Insert(s[0], SortSeq(s[1..]))
  }

  lemma {:induction false} InsertSorted(x: real, t: seq<real>)
    requires Sorted(t)
    ensures Sorted(Insert(x, t))
  {
    if |t| > 0 && x > t[0] {
      InsertSorted(x, t[1..]);
      var rest := Insert(x, t[1..]);
      forall k | 0 <= k < |rest|
        ensures t[0] <= rest[k]
      {
        var v := rest[k];
        assert v in multiset(t[1..]) + multiset{x};
        if v != x {
          assert v in t[1..];
          var n :| 0 <= n < |t[1..]| && t[1..][n] == v;
          assert t[n + 1] == v;
        }
      }
      SortedCons(t[0], rest);
    }
  }

  /** A value below every element of a sorted sequence can go in front of it. */
  lemma SortedCons(h: real, r: seq<real>)
    requires Sorted(r) && forall k :: 0 <= k < |r| ==> h <= r[k]
    ensures Sorted([h] + r)
  {
    var u := [h] + r;
    forall p, q | 0 <= p < q < |u|
      ensures u[p] <= u[q]
    {
      assert u[q] == r[q - 1];
      if p > 0 {
        assert u[p] == r[p - 1];
      }
    }
  }

  /** `SortSeq` sorts. */
  lemma {:induction false} SortSeqSorted(s: seq<real>)
    ensures Sorted(SortSeq(s))
  {
    if |s| > 0 {
      SortSeqSorted(s[1..]);
      InsertSorted(s[0], SortSeq(s[1..]));
    }
  }

  /** The first element of a sorted sequence is its least. */
  lemma SortedFirstLeast(s: seq<real>, v: real)
    requires Sorted(s) && v in s
    ensures s[0] <= v
  {
  }

  lemma MultisetTail(s: seq<real>)
    requires |s| > 0
    ensures multiset(s[1..]) == multiset(s) - multiset{s[0]}
  {
    assert s == [s[0]] + s[1..];
  }

  lemma SortedTail(s: seq<real>)
    requires |s| > 0 && Sorted(s)
    ensures Sorted(s[1..])
  {
    forall p, q | 0 <= p < q < |s| - 1
      ensures s[1..][p] <= s[1..][q]
    {
      assert s[1..][p] == s[p + 1] && s[1..][q] == s[q + 1];
    }
  }

  /** Two sorted sequences holding the same values are equal. */
  lemma {:induction false} SortedUnique(a: seq<real>, b: seq<real>)
    requires Sorted(a) && Sorted(b) && multiset(a) == multiset(b)
    ensures a == b
    decreases |a|
  {
    assert |a| == |multiset(a)| == |multiset(b)| == |b|;
    if |a| > 0 {
      assert a[0] in multiset(b) && b[0] in multiset(a);
      SortedFirstLeast(a, b[0]);
      SortedFirstLeast(b, a[0]);
      MultisetTail(a);
      MultisetTail(b);
      SortedTail(a);
      SortedTail(b);
      assert a[0] == b[0];
      assert multiset(a[1..]) == multiset(b[1..]);
      SortedUnique(a[1..], b[1..]);
      forall k | 0 < k < |a|
        ensures a[k] == b[k]
      {
        assert a[k] == a[1..][k - 1] && b[k] == b[1..][k - 1];
      }
    }
  }

  /**
   * What `median` returns for the sorted coefficients t, as written: the middle
   * element for an odd count, and for an even count the element at (n-1)/2 plus
   * the element at (n+1)/2.
   */
  function MiddleAsWritten(t: seq<real>): (r: real)
    requires |t| > 0
  {
    if |t| % 2 == 0 then t[(|t| - 1) / 2] + t[(|t| + 1) / 2] else t[|t| / 2]
  }

  /**
   * The value `median` returns, read off the sorted coefficients: t[n/2] for an
   * odd count n, and the sum t[n/2 - 1] + t[n/2] of the two middle elements for an
   * even one.
   */
  lemma MiddleAsWrittenCases(t: seq<real>)
    requires |t| > 0
    ensures |t| % 2 == 1 ==> MiddleAsWritten(t) == t[|t| / 2]
    ensures |t| % 2 == 0 ==> MiddleAsWritten(t) == t[|t| / 2 - 1] + t[|t| / 2]
  {
  }

  /** The first n values of s are in increasing order. */
  predicate SortedPrefix(s: seq<real>, n: nat)
    requires n <= |s|
  {
    forall p, q :: 0 <= p < q < n ==> s[p] <= s[q]
  }

  /**
   * Halfway through sinking s[i]: the moving value sits at j, every other pair of
   * s[..i+1] is in order, and the moving value is below everything after it.
   */
  predicate Sinking(s: seq<real>, i: nat, j: nat)
    requires j <= i < |s|
  {
    (forall p, q :: 0 <= p < q <= i && q != j ==> s[p] <= s[q]) &&
    (forall q :: j < q <= i ==> s[j] <= s[q])
  }

  /** One exchange of the moving value with its larger left neighbour. */
  lemma SinkStep(s: seq<real>, i: nat, j: nat)
    requires 0 < j <= i < |s| && s[j - 1] > s[j] && Sinking(s, i, j)
    ensures Sinking(s[j - 1 := s[j]][j := s[j - 1]], i, j - 1)
    ensures multiset(s[j - 1 := s[j]][j := s[j - 1]]) == multiset(s)
  {
    var t := s[j - 1 := s[j]][j := s[j - 1]];
    forall p, q | 0 <= p < q <= i && q != j - 1
      ensures t[p] <= t[q]
    {
      if q == j {
        assert t[q] == s[j - 1];
      } else if p == j - 1 || p == j {
        assert t[q] == s[q];
      }
    }
  }

  /** Sorts `a` in place: the effect of `std::sort` on the copied coefficients. */
  method SortInPlace(a: array<real>)
    modifies a
    ensures Sorted(a[..])
    ensures multiset(a[..]) == multiset(old(a[..]))
  {
    var i := 0;
    while i < a.Length
      invariant 0 <= i <= a.Length
      invariant SortedPrefix(a[..], i)
      invariant multiset(a[..]) == multiset(old(a[..]))
    {
      SinkInto(a, i);
      i := i + 1;
    }
  }

  /** Moves a[i] down into the sorted prefix a[..i], leaving a[..i+1] sorted. */
  method SinkInto(a: array<real>, i: nat)
    requires i < a.Length && SortedPrefix(a[..], i)
    modifies a
    ensures SortedPrefix(a[..], i + 1)
    ensures multiset(a[..]) == multiset(old(a[..]))
    ensures a[i + 1..] == old(a[i + 1..])
  {
    var j := i;
    while j > 0 && a[j - 1] > a[j]
      invariant 0 <= j <= i
      invariant multiset(a[..]) == multiset(old(a[..]))
      invariant a[i + 1..] == old(a[i + 1..])
      invariant Sinking(a[..], i, j)
    {
      ghost var s := a[..];
      SinkStep(s, i, j);
      a[j - 1], a[j] := a[j], a[j - 1];
      assert a[..] == s[j - 1 := s[j]][j := s[j - 1]];
      j := j - 1;
    }
  }

  /**
   * `median`: copies the coefficients, sorts the copy and reads the middle of it.
   * The input is left as it was (it is a value here; the source takes it by const
   * reference), and the result is `MiddleAsWritten` of the sorted values. An empty
   * matrix is excluded: the source then reads the copy at an out-of-range index.
   */
  method Median(d: seq<real>) returns (median: real)
    requires |d| > 0
    ensures median == MiddleAsWritten(SortSeq(d))
  {
    var aux := SortedCopy(d);
    var size := aux.Length;
    var middle := size / 2;
    if size % 2 == 0 {
      EvenMiddle(size);
      median := aux[(size - 1) / 2] + aux[(size + 1) / 2];
    } else {
      median := aux[middle];
    }
    assert median == MiddleAsWritten(aux[..]);
  }

  /** For an even count n, (n-1)/2 and (n+1)/2 are the two middle positions n/2-1 and n/2. */
  lemma EvenMiddle(n: nat)
    requires n > 0 && n % 2 == 0
    ensures (n - 1) / 2 == n / 2 - 1 && (n + 1) / 2 == n / 2 && 0 < n / 2 < n
  {
  }

  /** `aux = d; std::sort(aux.begin(), aux.end())`: a fresh array holding d in increasing order. */
  method SortedCopy(d: seq<real>) returns (aux: array<real>)
    ensures fresh(aux) && aux.Length == |d| && aux[..] == SortSeq(d)
  {
    aux := new real[|d|](k requires 0 <= k < |d| => d[k]);
    assert aux[..] == d;
    SortInPlace(aux);
    SortSeqSorted(d);
    SortedUnique(aux[..], SortSeq(d));
  }

  /** The result of `median` depends only on the multiset of coefficients. */
  lemma MedianPermutationInvariant(d: seq<real>, e: seq<real>)
    requires |d| > 0 && multiset(d) == multiset(e)
    ensures |e| > 0
    ensures MiddleAsWritten(SortSeq(d)) == MiddleAsWritten(SortSeq(e))
  {
    assert |e| == |multiset(e)| == |multiset(d)| == |d|;
    SortSeqSorted(d);
    SortSeqSorted(e);
    SortedUnique(SortSeq(d), SortSeq(e));
  }

  /**
   * As written, `median` of the two coefficients 3 and 1 is 4, which exceeds every
   * coefficient: an even count does not give a median.
   */
  lemma MedianSumExceedsLargest()
    ensures SortSeq([3.0, 1.0]) == [1.0, 3.0]
    ensures MiddleAsWritten(SortSeq([3.0, 1.0])) == 4.0
  {
    SortSeqSorted([3.0, 1.0]);
    SortedUnique(SortSeq([3.0, 1.0]), [1.0, 3.0]);
  }

  /**
   * The median the documentation of `median` describes: the middle element for an
   * odd count and the mean of the two middle elements for an even one.
   */
  function MiddleMean(t: seq<real>): (r: real)
    requires |t| > 0
  {
    if |t| % 2 == 0 then (t[|t| / 2 - 1] + t[|t| / 2]) / 2.0 else t[|t| / 2]
  }

  /**
   * `MiddleMean` of sorted values splits them in halves: the lower half (up to
   * the middle) lies at or below it, the upper half at or above it.
   */
  lemma MiddleMeanSplits(t: seq<real>)
    requires |t| > 0 && Sorted(t)
    ensures forall k :: 0 <= k < (|t| + 1) / 2 ==> t[k] <= MiddleMean(t)
    ensures forall k :: |t| / 2 <= k < |t| ==> MiddleMean(t) <= t[k]
  {
    var n := |t|;
    if n % 2 == 0 {
      assert t[n / 2 - 1] <= t[n / 2];
      forall k | 0 <= k < (n + 1) / 2
        ensures t[k] <= MiddleMean(t)
      {
        assert t[k] <= t[n / 2 - 1];
      }
      forall k | n / 2 <= k < n
        ensures MiddleMean(t) <= t[k]
      {
        assert t[n / 2] <= t[k];
      }
    } else {
      forall k | 0 <= k < (n + 1) / 2
        ensures t[k] <= MiddleMean(t)
      {
        assert t[k] <= t[n / 2];
      }
    }
  }

  /**
   * `median` with the even case corrected to the documented median: the mean of
   * the two middle coefficients. The result splits the sorted coefficients in halves.
   */
  method MedianCorrected(d: seq<real>) returns (median: real)
    requires |d| > 0
    ensures median == MiddleMean(SortSeq(d))
    ensures forall k :: 0 <= k < (|d| + 1) / 2 ==> SortSeq(d)[k] <= median
    ensures forall k :: |d| / 2 <= k < |d| ==> median <= SortSeq(d)[k]
  {
    var aux := SortedCopy(d);
    var size := aux.Length;
    var middle := size / 2;
    if size % 2 == 0 {
      EvenMiddle(size);
      median := (aux[middle - 1] + aux[middle]) / 2.0;
    } else {
      median := aux[middle];
    }
    assert median == MiddleMean(aux[..]);
    SortSeqSorted(d);
    MiddleMeanSplits(aux[..]);
  }

  // ---------------------------------------------------------------------------
  // compareFunction
  // ---------------------------------------------------------------------------

  /**
   * `compareFunction`, the `<` of `std::string`: lexicographic order on characters,
   * a proper prefix coming first.
   */
  function LexLess(a: string, b: string): (r: bool)
    ensures a == b ==> !r
  {
    if |b| == 0 then false
    else if |a| == 0 then true
    else if a[0] != b[0] then a[0] < b[0]
    else LexLess(a[1..], b[1..])
  }

  /**
   * a and b agree on their first k characters and, at position k, a has ended
   * while b goes on, or a holds the smaller character.
   */
  predicate LessAt(a: string, b: string, k: nat)
  {
    k <= |a| && k < |b| && a[..k] == b[..k] && (k == |a| || a[k] < b[k])
  }

  /**
   * The independent description of the order: a is less than b exactly when there
   * is a position where a is the first to end or to hold the smaller character.
   */
  lemma {:induction false} LexLessIff(a: string, b: string)
    ensures LexLess(a, b) <==> exists k :: LessAt(a, b, k)
  {
    if |a| == 0 && |b| > 0 {
      assert LessAt(a, b, 0);
    } else if |a| > 0 && |b| > 0 {
      forall k | 0 < k <= |a| && k < |b| && a[..k] == b[..k]
        ensures a[0] == b[0]
      {
        assert a[..k][0] == b[..k][0];
      }
      if a[0] != b[0] {
        if a[0] < b[0] {
          assert LessAt(a, b, 0);
        }
      } else {
        LexLessIff(a[1..], b[1..]);
        if exists k :: LessAt(a, b, k) {
          var k: nat :| LessAt(a, b, k);
          assert k > 0;
          assert a[1..][..k - 1] == a[..k][1..] && b[1..][..k - 1] == b[..k][1..];
          assert LessAt(a[1..], b[1..], k - 1);
        }
        if exists k :: LessAt(a[1..], b[1..], k) {
          var k: nat :| LessAt(a[1..], b[1..], k);
          assert a[..k + 1] == [a[0]] + a[1..][..k];
          assert b[..k + 1] == [b[0]] + b[1..][..k];
          assert LessAt(a, b, k + 1);
        }
      }
    }
  }

  /** The order is transitive, so `std::sort` may use it. */
  lemma {:induction false} LexLessTransitive(a: string, b: string, c: string)
    requires LexLess(a, b) && LexLess(b, c)
    ensures LexLess(a, c)
  {
    if |a| > 0 && a[0] == b[0] && b[0] == c[0] {
      LexLessTransitive(a[1..], b[1..], c[1..]);
    }
  }

  /** Any two different strings are ordered one way or the other, and never both. */
  lemma {:induction false} LexLessTotal(a: string, b: string)
    ensures a == b || LexLess(a, b) || LexLess(b, a)
    ensures !(LexLess(a, b) && LexLess(b, a))
  {
    if |a| > 0 && |b| > 0 && a[0] == b[0] {
      LexLessTotal(a[1..], b[1..]);
      if a[1..] == b[1..] {
        assert a == [a[0]] + a[1..] && b == [b[0]] + b[1..];
      }
    }
  }
}
