/** The bracketing scanner `incremental_search` of utils.py: walk lb, lb+inc,
    lb+2inc, ... while the point does not exceed ub, and record an interval
    wherever f is exactly zero or changes sign over the next step. */
module IncrementalSearch {
  import opened Roots

  /** One entry `[lower, upper]` of the returned interval list. */
  datatype Interval = Interval(lo: real, hi: real)

  /** The k-th point the scan visits. Python reaches it by adding the
      increment k times; over the reals that is exactly lb + k * inc. */
  function SamplePoint(lb: real, inc: real, k: nat): (x: real)
    ensures k == 0 ==> x == lb
    ensures inc > 0.0 ==> lb <= x
  {
    lb + k as real * inc
  }

  /** Each point is the previous one plus the increment, the step
      `lb += increment_length` takes. */
  lemma SamplePointStep(lb: real, inc: real, k: nat)
    ensures SamplePoint(lb, inc, k + 1) == SamplePoint(lb, inc, k) + inc
  {
  }

  /** How many points the scan visits: exactly those not above ub. */
  function SampleCount(lb: real, ub: real, inc: real): (n: nat)
    requires inc > 0.0
    ensures forall k: nat :: k < n <==> SamplePoint(lb, inc, k) <= ub
  {
    SampleCountCorrect(lb, ub, inc);
    if lb > ub then 0 else ((ub - lb) / inc).Floor + 1
  }

  lemma SampleCountCorrect(lb: real, ub: real, inc: real)
    requires inc > 0.0
    ensures lb > ub ==> forall k: nat :: SamplePoint(lb, inc, k) > ub
    ensures lb <= ub ==> forall k: nat :: k <= ((ub - lb) / inc).Floor <==> SamplePoint(lb, inc, k) <= ub
  {
    var y := (ub - lb) / inc;
    assert y * inc == ub - lb;
    forall k: nat
      ensures SamplePoint(lb, inc, k) >= lb
      ensures k as real <= y <==> SamplePoint(lb, inc, k) <= ub
    {
      assert k as real * inc >= 0.0;
      if k as real <= y {
        assert k as real * inc <= y * inc;
      } else {
        assert k as real * inc > y * inc;
      }
    }
  }

  /** What one pass of the loop body appends at point x: the source's two
      independent `if`s, an exact zero first, then a sign change. */
  function Emitted(f: real -> real, x: real, inc: real): (s: seq<Interval>)
    ensures |s| <= 1
    ensures forall iv :: iv in s ==> BracketAt(f, x, inc, iv)
    ensures f(x) == 0.0 || SignChange(f, x, x + inc) ==> |s| == 1
  {
    (if f(x) == 0.0 then [Interval(x - inc, x + inc)] else [])
    + (if f(x) * f(x + inc) < 0.0 then [Interval(x, x + inc)] else [])
  }

  /** The intervals recorded after the first n points of the scan. */
  function Scanned(f: real -> real, lb: real, inc: real, n: nat): seq<Interval>
    decreases n
  {
    if n == 0 then [] else Scanned(f, lb, inc, n - 1) + Emitted(f, SamplePoint(lb, inc, n - 1), inc)
  }

  /** The intervals `incremental_search(f, lb, ub, inc)` returns. */
  function SearchIntervals(f: real -> real, lb: real, ub: real, inc: real): seq<Interval>
    requires inc > 0.0
  {
    Scanned(f, lb, inc, SampleCount(lb, ub, inc))
  }

  /** iv has one of the two shapes the scan records at point x. */
  predicate BracketAt(f: real -> real, x: real, inc: real, iv: Interval)
  {
    (f(x) == 0.0 && iv == Interval(x - inc, x + inc))
    || (SignChange(f, x, x + inc) && iv == Interval(x, x + inc))
  }

  /** The position of an interval along the axis. */
  function Center(iv: Interval): real
  {
    (iv.lo + iv.hi) / 2.0
  }

  /** `incremental_search`. The loop counts and records together, so the
      count is the length of the list; the list is the one the scan defines. */
  method Search(f: real -> real, lb: real, ub: real, incrementLength: real)
      returns (numberOfRoots: int, intervals: seq<Interval>)
    requires incrementLength > 0.0
    ensures numberOfRoots == |intervals|
    ensures intervals == SearchIntervals(f, lb, ub, incrementLength)
  {
    intervals := [];
    numberOfRoots := 0;
    var x := lb;
    ghost var k: nat := 0;
    ghost var n := SampleCount(lb, ub, incrementLength);
    while x <= ub
      invariant x == SamplePoint(lb, incrementLength, k)
      invariant k <= n
      invariant numberOfRoots == |intervals|
      invariant intervals == Scanned(f, lb, incrementLength, k)
      decreases n - k
    {
      if f(x) == 0.0 {
        numberOfRoots := numberOfRoots + 1;
        intervals := intervals + [Interval(x - incrementLength, x + incrementLength)];
      }
      if f(x) * f(x + incrementLength) < 0.0 {
        numberOfRoots := numberOfRoots + 1;
        intervals := intervals + [Interval(x, x + incrementLength)];
      }
      x := x + incrementLength;
      k := k + 1;
    }
  }

  /** At most one interval per point: an exact zero excludes a sign change. */
  lemma EmittedAtMostOne(f: real -> real, x: real, inc: real)
    ensures Emitted(f, x, inc) ==
      if f(x) == 0.0 then [Interval(x - inc, x + inc)]
      else if SignChange(f, x, x + inc) then [Interval(x, x + inc)]
      else []
  {
  }

  /** Every recorded interval was recorded at one of the visited points, with one of the two shapes. */
  lemma {:induction false} ScannedShape(f: real -> real, lb: real, inc: real, n: nat)
    ensures forall i :: 0 <= i < |Scanned(f, lb, inc, n)| ==>
      exists k: nat :: k < n && BracketAt(f, SamplePoint(lb, inc, k), inc, Scanned(f, lb, inc, n)[i])
  {
    if n > 0 {
      ScannedShape(f, lb, inc, n - 1);
      var prev := Scanned(f, lb, inc, n - 1);
      var x := SamplePoint(lb, inc, n - 1);
      EmittedAtMostOne(f, x, inc);
      forall i | 0 <= i < |Scanned(f, lb, inc, n)|
        ensures exists k: nat :: k < n && BracketAt(f, SamplePoint(lb, inc, k), inc, Scanned(f, lb, inc, n)[i])
      {
        if i < |prev| {
          assert Scanned(f, lb, inc, n)[i] == prev[i];
          var k: nat :| k < n - 1 && BracketAt(f, SamplePoint(lb, inc, k), inc, prev[i]);
          assert k < n && BracketAt(f, SamplePoint(lb, inc, k), inc, Scanned(f, lb, inc, n)[i]);
        } else {
          assert BracketAt(f, SamplePoint(lb, inc, n - 1), inc, Scanned(f, lb, inc, n)[i]);
        }
      }
    } else {
      assert Scanned(f, lb, inc, n) == [];
    }
  }

  /** Conversely, every visited zero and every visited sign change is recorded. */
  lemma {:induction false} ScannedComplete(f: real -> real, lb: real, inc: real, n: nat, k: nat)
    requires k < n
    ensures var x := SamplePoint(lb, inc, k);
      (f(x) == 0.0 ==> Interval(x - inc, x + inc) in Scanned(f, lb, inc, n))
      && (SignChange(f, x, x + inc) ==> Interval(x, x + inc) in Scanned(f, lb, inc, n))
  {
    if k < n - 1 {
      ScannedComplete(f, lb, inc, n - 1, k);
    } else {
      EmittedAtMostOne(f, SamplePoint(lb, inc, k), inc);
    }
  }

  /** The list is in scan order: centres strictly increase, and all lie
      between lb and the next point to be visited. */
  lemma {:induction false} ScannedInOrder(f: real -> real, lb: real, inc: real, n: nat)
    requires inc > 0.0
    ensures forall i :: 0 <= i < |Scanned(f, lb, inc, n)| ==>
      lb <= Center(Scanned(f, lb, inc, n)[i]) < SamplePoint(lb, inc, n)
    ensures forall i, j :: 0 <= i < j < |Scanned(f, lb, inc, n)| ==>
      Center(Scanned(f, lb, inc, n)[i]) < Center(Scanned(f, lb, inc, n)[j])
  {
    if n > 0 {
      ScannedInOrder(f, lb, inc, n - 1);
      var prev := Scanned(f, lb, inc, n - 1);
      var s := Scanned(f, lb, inc, n);
      var x := SamplePoint(lb, inc, n - 1);
      assert SamplePoint(lb, inc, n) == x + inc;
      assert x >= lb by { assert (n - 1) as real * inc >= 0.0; }
      EmittedAtMostOne(f, x, inc);
      forall i | |prev| <= i < |s|
        ensures x <= Center(s[i]) < x + inc
      {
      }
      forall i | 0 <= i < |prev|
        ensures s[i] == prev[i] && Center(s[i]) < x
      {
      }
    }
  }

  /** The result of `incremental_search`: each interval was recorded at a
      visited point x with lb <= x <= ub, and is [x-inc, x+inc] with f(x) == 0
      or [x, x+inc] with f(x) * f(x+inc) < 0. */
  lemma SearchIntervalsShape(f: real -> real, lb: real, ub: real, inc: real)
    requires inc > 0.0
    ensures forall i :: 0 <= i < |SearchIntervals(f, lb, ub, inc)| ==>
      exists k: nat :: lb <= SamplePoint(lb, inc, k) <= ub
        && BracketAt(f, SamplePoint(lb, inc, k), inc, SearchIntervals(f, lb, ub, inc)[i])
  {
    var n := SampleCount(lb, ub, inc);
    var s := SearchIntervals(f, lb, ub, inc);
    ScannedShape(f, lb, inc, n);
    forall i | 0 <= i < |s|
      ensures exists k: nat :: lb <= SamplePoint(lb, inc, k) <= ub && BracketAt(f, SamplePoint(lb, inc, k), inc, s[i])
    {
      var k: nat :| k < n && BracketAt(f, SamplePoint(lb, inc, k), inc, s[i]);
      assert k as real * inc >= 0.0;
    }
  }

  /** Every point of [lb, ub] the scan visits where f is zero or changes sign appears in the result. */
  lemma SearchIntervalsComplete(f: real -> real, lb: real, ub: real, inc: real, k: nat)
    requires inc > 0.0 && SamplePoint(lb, inc, k) <= ub
    ensures var x := SamplePoint(lb, inc, k);
      (f(x) == 0.0 ==> Interval(x - inc, x + inc) in SearchIntervals(f, lb, ub, inc))
      && (SignChange(f, x, x + inc) ==> Interval(x, x + inc) in SearchIntervals(f, lb, ub, inc))
  {
    ScannedComplete(f, lb, inc, SampleCount(lb, ub, inc), k);
  }

  /** An interval recorded for an exact zero need not straddle a sign change:
      for f(x) = x*x on [0, 0] with step 1 the only interval is [-1, 1], and
      f(-1) * f(1) > 0. */
  lemma ZeroBracketMayNotStraddle()
    ensures SearchIntervals((x: real) => x * x, 0.0, 0.0, 1.0) == [Interval(-1.0, 1.0)]
    ensures ((x: real) => x * x)(-1.0) * ((x: real) => x * x)(1.0) > 0.0
  {
  }

  /** The sample function of the demonstration driver, f(x) = x*x - 7x + 10
      (roots 2 and 5), scanned over [-4, 8] in steps of 0.8: exactly two
      intervals, [1.6, 2.4] around 2 and [4.8, 5.6] around 5. */
  lemma QuadraticScan()
    ensures SearchIntervals((x: real) => x * x - 7.0 * x + 10.0, -4.0, 8.0, 0.8)
      == [Interval(1.6, 2.4), Interval(4.8, 5.6)]
  {
    var f := (x: real) => x * x - 7.0 * x + 10.0;
    assert SampleCount(-4.0, 8.0, 0.8) == 16;
    assert Scanned(f, -4.0, 0.8, 1) == [];
    assert Scanned(f, -4.0, 0.8, 2) == [];
    assert Scanned(f, -4.0, 0.8, 3) == [];
    assert Scanned(f, -4.0, 0.8, 4) == [];
    assert Scanned(f, -4.0, 0.8, 5) == [];
    assert Scanned(f, -4.0, 0.8, 6) == [];
    assert Scanned(f, -4.0, 0.8, 7) == [];
    assert Scanned(f, -4.0, 0.8, 8) == [Interval(1.6, 2.4)];
    assert Scanned(f, -4.0, 0.8, 9) == [Interval(1.6, 2.4)];
    assert Scanned(f, -4.0, 0.8, 10) == [Interval(1.6, 2.4)];
    assert Scanned(f, -4.0, 0.8, 11) == [Interval(1.6, 2.4)];
    assert Scanned(f, -4.0, 0.8, 12) == [Interval(1.6, 2.4), Interval(4.8, 5.6)];
    assert Scanned(f, -4.0, 0.8, 13) == [Interval(1.6, 2.4), Interval(4.8, 5.6)];
    assert Scanned(f, -4.0, 0.8, 14) == [Interval(1.6, 2.4), Interval(4.8, 5.6)];
    assert Scanned(f, -4.0, 0.8, 15) == [Interval(1.6, 2.4), Interval(4.8, 5.6)];
    assert Scanned(f, -4.0, 0.8, 16) == [Interval(1.6, 2.4), Interval(4.8, 5.6)];
  }
}
