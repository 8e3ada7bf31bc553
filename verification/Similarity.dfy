/**
 Cosine similarity over exact reals: the one-pass and the three-pass scalar
 versions of the benchmark, normalised inputs, and the engine's own function.

 A square root is passed in as a value `r` with `IsRoot(r, x)`. Products and
 quotients of whole sums are named, so that a step about two sums is proved once
 on plain numbers.
 */
module Similarity {
  import opened Common

  function Times(x: real, y: real): real {
    x * y
  }

  function Quotient(x: real, y: real): real
    requires y != 0.0
  {
    x / y
  }

  predicate IsRoot(r: real, x: real) {
    r >= 0.0 && Times(r, r) == x
  }

  function Shorter(a: seq<real>, b: seq<real>): nat {
    if |a| <= |b| then |a| else |b|
  }

  /** The dot product of the first `n` components. */
  function Dot(a: seq<real>, b: seq<real>, n: nat): real
    requires n <= |a| && n <= |b|
  {
    if n == 0 then 0.0 else Dot(a, b, n - 1) + Times(a[n - 1], b[n - 1])
  }

  /** The squared magnitude of the first `n` components. */
  function SumSquares(a: seq<real>, n: nat): real
    requires n <= |a|
  {
    if n == 0 then 0.0 else SumSquares(a, n - 1) + Times(a[n - 1], a[n - 1])
  }

  function SquaredDistance(a: seq<real>, b: seq<real>, n: nat): real
    requires n <= |a| && n <= |b|
  {
    if n == 0 then 0.0
    else
      var diff := a[n - 1] - b[n - 1];
      SquaredDistance(a, b, n - 1) + Times(diff, diff)
  }

  /** The single fold over the zipped components. */
  function Fold(a: seq<real>, b: seq<real>, n: nat): (real, real, real)
    requires n <= |a| && n <= |b|
  {
    if n == 0 then (0.0, 0.0, 0.0)
    else
      var (d, ma, mb) := Fold(a, b, n - 1);
      var ai, bi := a[n - 1], b[n - 1];
      (d + Times(ai, bi), ma + Times(ai, ai), mb + Times(bi, bi))
  }

  function Clamp(x: real): real {
    if x < -1.0 then -1.0 else if x > 1.0 then 1.0 else x
  }

  // ------------------------------------------------------------------------
  // The functions under comparison

  function OneRoot(dot: real, magnitude: real): real {
    if magnitude == 0.0 then 0.0 else Clamp(Quotient(dot, magnitude))
  }

  function TwoRoots(dot: real, magA: real, magB: real): real {
    if magA == 0.0 || magB == 0.0 then 0.0
    else
      NonZeroProduct(magA, magB);
      Clamp(Quotient(dot, Times(magA, magB)))
  }

  /** Zipping stops at the shorter vector, for the magnitudes as well. */
  function OnePass(a: seq<real>, b: seq<real>, magnitude: real): real
    requires var (_, ma, mb) := Fold(a, b, Shorter(a, b)); IsRoot(magnitude, Times(ma, mb))
  {
    OneRoot(Fold(a, b, Shorter(a, b)).0, magnitude)
  }

  /** The magnitudes are those of the whole vectors. */
  function ThreePass(a: seq<real>, b: seq<real>, magA: real, magB: real): real
    requires IsRoot(magA, SumSquares(a, |a|)) && IsRoot(magB, SumSquares(b, |b|))
  {
    TwoRoots(Dot(a, b, Shorter(a, b)), magA, magB)
  }

  const SQUARED_MAGNITUDE_THRESHOLD: real := 0.000_000_000_000_000_000_000_000_000_001

  /** The engine rejects different lengths and treats tiny vectors as zero. */
  function EngineCosine(a: seq<real>, b: seq<real>, magA: real, magB: real): Option<real>
    requires IsRoot(magA, SumSquares(a, |a|)) && IsRoot(magB, SumSquares(b, |b|))
  {
    if |a| != |b| then None
    else if |a| == 0 then Some(0.0)
    else
      var (dot, magASq, magBSq) := Fold(a, b, |a|);
      if magASq < SQUARED_MAGNITUDE_THRESHOLD || magBSq < SQUARED_MAGNITUDE_THRESHOLD then Some(0.0)
      else if Times(magA, magB) == 0.0 then Some(0.0)
      else Some(Clamp(Quotient(dot, Times(magA, magB))))
  }

  /** The engine's shortcut for unit vectors. */
  function NormalizedCosine(a: seq<real>, b: seq<real>): Option<real> {
    if |a| != |b| then None
    else if |a| == 0 then Some(0.0)
    else Some(Clamp(Dot(a, b, |a|)))
  }

  /** Every component divided by the magnitude. */
  function Normalise(a: seq<real>, mag: real): seq<real>
    requires mag != 0.0
  {
    seq(|a|, i requires 0 <= i < |a| => Quotient(a[i], mag))
  }

  // ------------------------------------------------------------------------
  // Arithmetic on plain numbers

  lemma NonZeroProduct(x: real, y: real)
    ensures Times(x, y) == 0.0 <==> x == 0.0 || y == 0.0
  {
  }

  lemma MulPositive(x: real, y: real)
    requires x > 0.0 && y > 0.0
    ensures Times(x, y) > 0.0
  {
  }

  lemma Commute(x: real, y: real)
    ensures Times(x, y) == Times(y, x)
  {
  }

  lemma Distribute(x: real, y: real, z: real)
    ensures Times(x, y + z) == Times(x, y) + Times(x, z)
  {
  }

  lemma Associate(x: real, y: real, z: real)
    ensures Times(Times(x, y), z) == Times(x, Times(y, z))
  {
  }

  lemma Negate(x: real, y: real)
    ensures Times(-x, y) == -Times(x, y)
  {
  }

  lemma QuotientUndone(x: real, y: real)
    requires y != 0.0
    ensures Times(Quotient(x, y), y) == x
  {
  }

  lemma SquareNonNegative(x: real)
    ensures Times(x, x) >= 0.0
    ensures Times(x, x) == 0.0 <==> x == 0.0
  {
    if x > 0.0 {
      MulPositive(x, x);
    } else if x < 0.0 {
      MulPositive(-x, -x);
      Negate(x, -x);
      Commute(x, -x);
      Negate(x, x);
    }
  }

  lemma DifferenceOfSquares(r: real, s: real)
    ensures Times(s, s) - Times(r, r) == Times(s - r, s + r)
  {
  }

  lemma RootsCompare(r: real, s: real)
    requires r >= 0.0 && s >= 0.0
    ensures Times(r, r) <= Times(s, s) <==> r <= s
    ensures Times(r, r) == Times(s, s) <==> r == s
  {
    DifferenceOfSquares(r, s);
    if r < s {
      MulPositive(s - r, s + r);
    } else if s < r {
      DifferenceOfSquares(s, r);
      MulPositive(r - s, r + s);
    }
  }

  /** The product of two products, paired the other way. */
  lemma Regroup(c: real, x: real, d: real, y: real)
    ensures Times(Times(c, x), Times(d, y)) == Times(Times(c, d), Times(x, y))
  {
    Associate(c, x, Times(d, y));
    Associate(x, d, y);
    Commute(x, d);
    Associate(d, x, y);
    Associate(c, d, Times(x, y));
  }

  lemma RootOfProduct(p: real, q: real, x: real, y: real)
    requires IsRoot(p, x) && IsRoot(q, y)
    ensures IsRoot(Times(p, q), Times(x, y))
  {
    Regroup(p, q, p, q);
    if p > 0.0 && q > 0.0 {
      MulPositive(p, q);
    }
  }

  /** The square of `x + t y`, expanded. */
  lemma SquareOfSum(x: real, y: real, t: real)
    ensures Times(x + Times(t, y), x + Times(t, y))
         == Times(x, x) + 2.0 * Times(t, Times(x, y)) + Times(Times(t, t), Times(y, y))
  {
    var u := Times(t, y);
    assert Times(x + u, x + u) == Times(x, x) + 2.0 * Times(x, u) + Times(u, u);
    Regroup(t, y, t, y);
    Commute(x, u);
    Associate(t, y, x);
    Commute(y, x);
  }

  // ------------------------------------------------------------------------
  // Sums

  lemma {:induction false} FoldIsSums(a: seq<real>, b: seq<real>, n: nat)
    requires n <= |a| && n <= |b|
    ensures Fold(a, b, n) == (Dot(a, b, n), SumSquares(a, n), SumSquares(b, n))
  {
    if n > 0 {
      FoldIsSums(a, b, n - 1);
    }
  }

  lemma {:induction false} SumSquaresMonotone(a: seq<real>, m: nat, n: nat)
    requires m <= n <= |a|
    ensures 0.0 <= SumSquares(a, m) <= SumSquares(a, n)
    ensures SumSquares(a, m) == SumSquares(a, n) <==> forall i :: m <= i < n ==> a[i] == 0.0
    decreases n
  {
    if n > 0 {
      SquareNonNegative(a[n - 1]);
      if m < n {
        SumSquaresMonotone(a, m, n - 1);
      } else {
        SumSquaresMonotone(a, m - 1, n - 1);
      }
    }
  }

  /** The squared length of `a + t b`. */
  function Shifted(a: seq<real>, b: seq<real>, t: real, n: nat): real
    requires n <= |a| && n <= |b|
  {
    if n == 0 then 0.0
    else
      var c := a[n - 1] + Times(t, b[n - 1]);
      Shifted(a, b, t, n - 1) + Times(c, c)
  }

  lemma {:induction false} ShiftedExpands(a: seq<real>, b: seq<real>, t: real, n: nat)
    requires n <= |a| && n <= |b|
    ensures Shifted(a, b, t, n) ==
              SumSquares(a, n) + 2.0 * Times(t, Dot(a, b, n)) + Times(Times(t, t), SumSquares(b, n))
    ensures Shifted(a, b, t, n) >= 0.0
  {
    if n == 0 {
      NonZeroProduct(t, 0.0);
      NonZeroProduct(Times(t, t), 0.0);
    } else {
      ShiftedExpands(a, b, t, n - 1);
      var x, y := a[n - 1], b[n - 1];
      SquareOfSum(x, y, t);
      SquareNonNegative(x + Times(t, y));
      Distribute(t, Dot(a, b, n - 1), Times(x, y));
      Distribute(Times(t, t), SumSquares(b, n - 1), Times(y, y));
    }
  }

  lemma {:induction false} DotWithZeros(a: seq<real>, b: seq<real>, n: nat)
    requires n <= |a| && n <= |b| && forall i :: 0 <= i < n ==> b[i] == 0.0
    ensures Dot(a, b, n) == 0.0
  {
    if n > 0 {
      DotWithZeros(a, b, n - 1);
      NonZeroProduct(a[n - 1], b[n - 1]);
    }
  }

  /** The discriminant argument at `t = -d / y`. */
  lemma Discriminant(x: real, y: real, d: real, t: real)
    requires y > 0.0 && t == -Quotient(d, y)
    requires x + 2.0 * Times(t, d) + Times(Times(t, t), y) >= 0.0
    ensures Times(d, d) <= Times(x, y)
  {
    var q := Quotient(d, y);
    QuotientUndone(d, y);
    Negate(q, y);
    Associate(t, t, y);
    Commute(t, -d);
    Negate(d, t);
    Commute(d, t);
    assert Times(Times(t, t), y) == -Times(t, d);
    assert x + Times(t, d) >= 0.0;
    NonNegativeProduct(y, x + Times(t, d));
    Distribute(y, x, Times(t, d));
    Commute(y, x);
    Commute(y, Times(t, d));
    Commute(t, d);
    Associate(d, t, y);
    Commute(d, -d);
    Negate(d, d);
  }

  lemma NonNegativeProduct(x: real, y: real)
    requires x >= 0.0 && y >= 0.0
    ensures Times(x, y) >= 0.0
  {
  }

  /** Cauchy-Schwarz, for vectors of any length. */
  lemma CauchySchwarz(a: seq<real>, b: seq<real>, n: nat)
    requires n <= |a| && n <= |b|
    ensures Times(Dot(a, b, n), Dot(a, b, n)) <= Times(SumSquares(a, n), SumSquares(b, n))
  {
    var d, x, y := Dot(a, b, n), SumSquares(a, n), SumSquares(b, n);
    SumSquaresMonotone(b, 0, n);
    if y == 0.0 {
      DotWithZeros(a, b, n);
      NonZeroProduct(d, d);
      NonZeroProduct(x, y);
    } else {
      var t := -Quotient(d, y);
      ShiftedExpands(a, b, t, n);
      Discriminant(x, y, d, t);
    }
  }

  // ------------------------------------------------------------------------
  // Quotients

  lemma QuotientInRange(d: real, m: real)
    requires m > 0.0 && Times(d, d) <= Times(m, m)
    ensures -1.0 <= Quotient(d, m) <= 1.0
  {
    var size := if d < 0.0 then -d else d;
    Negate(d, -d);
    Commute(d, -d);
    Negate(d, d);
    RootsCompare(size, m);
    QuotientBetween(d, m);
  }

  lemma QuotientBetween(d: real, m: real)
    requires m > 0.0 && -m <= d <= m
    ensures -1.0 <= Quotient(d, m) <= 1.0
  {
    var q := Quotient(d, m);
    QuotientUndone(d, m);
    if q > 1.0 {
      Distribute(m, q, -1.0);
      Commute(m, q);
      MulPositive(m, q - 1.0);
    } else if q < -1.0 {
      Negate(q, m);
      Distribute(m, -q, -1.0);
      Commute(m, -q);
      MulPositive(m, -q - 1.0);
    }
  }

  lemma QuotientsEqual(d: real, m: real, n: real)
    requires m > 0.0 && n > 0.0 && d != 0.0
    ensures Quotient(d, m) == Quotient(d, n) <==> m == n
  {
    var p, q := Quotient(d, m), Quotient(d, n);
    QuotientUndone(d, m);
    QuotientUndone(d, n);
    if p == q {
      Distribute(p, m, -n);
      Negate(n, p);
      Commute(-n, p);
      Commute(n, p);
      NonZeroProduct(p, m - n);
      NonZeroProduct(p, m);
    }
  }

  lemma QuotientZero(d: real, m: real)
    requires m != 0.0
    ensures Quotient(d, m) == 0.0 <==> d == 0.0
  {
    QuotientUndone(d, m);
    NonZeroProduct(Quotient(d, m), m);
  }

  // ------------------------------------------------------------------------
  // The two versions

  /** Rounding aside, the clamp never changes the one-pass result. */
  lemma OnePassUnclamped(a: seq<real>, b: seq<real>, magnitude: real)
    requires var (_, ma, mb) := Fold(a, b, Shorter(a, b)); IsRoot(magnitude, Times(ma, mb))
    ensures magnitude != 0.0 ==> OnePass(a, b, magnitude) == Dot(a, b, Shorter(a, b)) / magnitude
    ensures -1.0 <= OnePass(a, b, magnitude) <= 1.0
  {
    FoldIsSums(a, b, Shorter(a, b));
    CauchySchwarz(a, b, Shorter(a, b));
    if magnitude != 0.0 {
      QuotientInRange(Dot(a, b, Shorter(a, b)), magnitude);
    }
  }

  /** Components past the end of the other vector. */
  predicate ZeroTail(a: seq<real>, n: nat)
    requires n <= |a|
  {
    forall i :: n <= i < |a| ==> a[i] == 0.0
  }

  lemma ProductsCompare(x: real, y: real, x': real, y': real)
    requires 0.0 < x <= x' && 0.0 < y <= y'
    ensures Times(x, y) <= Times(x', y')
    ensures Times(x, y) == Times(x', y') <==> x == x' && y == y'
  {
    Distribute(x', y, y' - y);
    Distribute(y, x, x' - x);
    Commute(y, x);
    Commute(y, x');
    NonNegativeProduct(x', y' - y);
    NonNegativeProduct(y, x' - x);
    NonZeroProduct(x', y' - y);
    NonZeroProduct(y, x' - x);
  }

  /** A non-zero dot product makes everything else positive. */
  lemma NonZeroDot(d: real, x: real, y: real, magA: real, magB: real)
    requires d != 0.0 && Times(d, d) <= Times(x, y) && x >= 0.0 && y >= 0.0 && IsRoot(magA, x) && IsRoot(magB, y)
    ensures x > 0.0 && y > 0.0 && Times(x, y) > 0.0
    ensures magA > 0.0 && magB > 0.0 && Times(magA, magB) > 0.0
  {
    SquareNonNegative(d);
    NonZeroProduct(x, y);
    NonZeroProduct(magA, magA);
    NonZeroProduct(magB, magB);
    MulPositive(magA, magB);
  }

  /** The comparison on the sums alone: `x`, `y` over the common part, `x'`, `y'` over the whole vectors. */
  lemma QuotientsAgree(d: real, x: real, y: real, x': real, y': real, magnitude: real, magA: real, magB: real)
    requires d != 0.0 && Times(d, d) <= Times(x, y) && 0.0 <= x <= x' && 0.0 <= y <= y'
    requires IsRoot(magnitude, Times(x, y)) && IsRoot(magA, x') && IsRoot(magB, y')
    ensures OneRoot(d, magnitude) == TwoRoots(d, magA, magB) <==> x == x' && y == y'
  {
    SquareNonNegative(d);
    NonZeroProduct(x, y);
    ProductsCompare(x, y, x', y');
    NonZeroDot(d, x', y', magA, magB);
    NonZeroProduct(magnitude, magnitude);
    RootOfProduct(magA, magB, x', y');
    var m := Times(magA, magB);
    RootsCompare(magnitude, m);
    QuotientInRange(d, magnitude);
    QuotientInRange(d, m);
    QuotientsEqual(d, magnitude, m);
  }

  /**
   The one-pass and the three-pass version agree exactly when the vectors are
   orthogonal on their common part or everything past it is zero; in particular
   for all vectors of equal length, zero vectors included.
   */
  lemma OnePassIsThreePass(a: seq<real>, b: seq<real>, magnitude: real, magA: real, magB: real)
    requires var (_, ma, mb) := Fold(a, b, Shorter(a, b)); IsRoot(magnitude, Times(ma, mb))
    requires IsRoot(magA, SumSquares(a, |a|)) && IsRoot(magB, SumSquares(b, |b|))
    ensures OnePass(a, b, magnitude) == ThreePass(a, b, magA, magB) <==>
              Dot(a, b, Shorter(a, b)) == 0.0 || (ZeroTail(a, Shorter(a, b)) && ZeroTail(b, Shorter(a, b)))
    ensures |a| == |b| ==> OnePass(a, b, magnitude) == ThreePass(a, b, magA, magB)
  {
    var n := Shorter(a, b);
    var d := Dot(a, b, n);
    FoldIsSums(a, b, n);
    CauchySchwarz(a, b, n);
    SumSquaresMonotone(a, 0, n);
    SumSquaresMonotone(b, 0, n);
    SumSquaresMonotone(a, n, |a|);
    SumSquaresMonotone(b, n, |b|);
    if d != 0.0 {
      QuotientsAgree(d, SumSquares(a, n), SumSquares(b, n), SumSquares(a, |a|), SumSquares(b, |b|),
                     magnitude, magA, magB);
    } else {
      ZeroQuotients(magnitude, magA, magB);
    }
  }

  /** With lengths 1 and 2 they can differ: 1 against 0.6. */
  lemma DifferentLengthsDiffer()
    ensures var a, b := [1.0], [3.0, 4.0];
            && Fold(a, b, 1) == (3.0, 1.0, 9.0) && IsRoot(3.0, Times(1.0, 9.0))
            && IsRoot(1.0, SumSquares(a, 1)) && IsRoot(5.0, SumSquares(b, 2))
            && OnePass(a, b, 3.0) == 1.0 && ThreePass(a, b, 1.0, 5.0) == 0.6
  {
    var a, b := [1.0], [3.0, 4.0];
    assert Fold(a, b, 0) == (0.0, 0.0, 0.0);
    assert SumSquares(b, 1) == 9.0 && SumSquares(b, 2) == 25.0;
    assert Dot(a, b, 0) == 0.0 && Dot(a, b, 1) == 3.0;
  }

  lemma ZeroQuotients(magnitude: real, magA: real, magB: real)
    ensures OneRoot(0.0, magnitude) == 0.0 == TwoRoots(0.0, magA, magB)
  {
    if magA != 0.0 && magB != 0.0 {
      NonZeroProduct(magA, magB);
      QuotientZero(0.0, Times(magA, magB));
    }
    if magnitude != 0.0 {
      QuotientZero(0.0, magnitude);
    }
  }

  // ------------------------------------------------------------------------
  // Normalising

  lemma QuotientsMultiply(x: real, p: real, y: real, q: real)
    requires p != 0.0 && q != 0.0
    ensures Times(p, q) != 0.0
    ensures Times(Quotient(x, p), Quotient(y, q)) == Quotient(Times(x, y), Times(p, q))
  {
    NonZeroProduct(p, q);
    var u, v := Quotient(x, p), Quotient(y, q);
    QuotientUndone(x, p);
    QuotientUndone(y, q);
    Regroup(u, p, v, q);
    CancelFactor(Times(u, v), Times(x, y), Times(p, q));
  }

  lemma CancelFactor(x: real, y: real, m: real)
    requires m != 0.0 && Times(x, m) == y
    ensures x == Quotient(y, m)
  {
  }

  lemma QuotientsAdd(x: real, y: real, m: real)
    requires m != 0.0
    ensures Quotient(x, m) + Quotient(y, m) == Quotient(x + y, m)
  {
  }

  lemma {:induction false} NormalisedDot(a: seq<real>, b: seq<real>, p: real, q: real, n: nat)
    requires n <= |a| && n <= |b| && p != 0.0 && q != 0.0 && Times(p, q) != 0.0
    ensures Dot(Normalise(a, p), Normalise(b, q), n) == Quotient(Dot(a, b, n), Times(p, q))
  {
    if n == 0 {
      QuotientZero(0.0, Times(p, q));
    } else {
      NormalisedDot(a, b, p, q, n - 1);
      var x, y := a[n - 1], b[n - 1];
      QuotientsMultiply(x, p, y, q);
      QuotientsAdd(Dot(a, b, n - 1), Times(x, y), Times(p, q));
    }
  }

  lemma {:induction false} SquaresAreDot(a: seq<real>, n: nat)
    requires n <= |a|
    ensures SumSquares(a, n) == Dot(a, a, n)
  {
    if n > 0 {
      SquaresAreDot(a, n - 1);
    }
  }

  /** A vector divided by its magnitude has length one. */
  lemma UnitLength(a: seq<real>, mag: real)
    requires IsRoot(mag, SumSquares(a, |a|)) && mag > 0.0
    ensures IsRoot(1.0, SumSquares(Normalise(a, mag), |a|))
  {
    MulPositive(mag, mag);
    NormalisedDot(a, a, mag, mag, |a|);
    SquaresAreDot(a, |a|);
    SquaresAreDot(Normalise(a, mag), |a|);
    CancelFactor(1.0, Times(mag, mag), Times(mag, mag));
  }

  /**
   Normalising both inputs leaves the similarity unchanged, and on the
   normalised vectors the engine's shortcut is the same value again.
   */
  lemma NormalisingKeepsCosine(a: seq<real>, b: seq<real>, magA: real, magB: real)
    requires |a| == |b| && IsRoot(magA, SumSquares(a, |a|)) && IsRoot(magB, SumSquares(b, |b|))
    requires magA > 0.0 && magB > 0.0
    ensures var u, v := Normalise(a, magA), Normalise(b, magB);
            && IsRoot(1.0, SumSquares(u, |u|)) && IsRoot(1.0, SumSquares(v, |v|))
            && ThreePass(u, v, 1.0, 1.0) == ThreePass(a, b, magA, magB)
            && NormalizedCosine(u, v) == Some(ThreePass(a, b, magA, magB))
  {
    var u, v := Normalise(a, magA), Normalise(b, magB);
    UnitLength(a, magA);
    UnitLength(b, magB);
    MulPositive(magA, magB);
    NormalisedDot(a, b, magA, magB, |a|);
    CancelFactor(Dot(u, v, |a|), Dot(u, v, |a|), 1.0);
  }

  /**
   The engine agrees with the scalar versions exactly when the vectors have
   equal length and are orthogonal or both above the magnitude threshold.
   */
  lemma EngineIsThreePass(a: seq<real>, b: seq<real>, magA: real, magB: real)
    requires IsRoot(magA, SumSquares(a, |a|)) && IsRoot(magB, SumSquares(b, |b|))
    ensures EngineCosine(a, b, magA, magB) == Some(ThreePass(a, b, magA, magB)) <==>
              && |a| == |b|
              && (|| Dot(a, b, |a|) == 0.0
                  || (SumSquares(a, |a|) >= SQUARED_MAGNITUDE_THRESHOLD &&
                      SumSquares(b, |b|) >= SQUARED_MAGNITUDE_THRESHOLD))
  {
    if |a| == |b| {
      FoldIsSums(a, b, |a|);
      CauchySchwarz(a, b, |a|);
      SumSquaresMonotone(a, 0, |a|);
      SumSquaresMonotone(b, 0, |b|);
      NonZeroProduct(magA, magB);
      ZeroQuotients(1.0, magA, magB);
      if Dot(a, b, |a|) != 0.0 {
        NonZeroQuotient(Dot(a, b, |a|), SumSquares(a, |a|), SumSquares(b, |b|), magA, magB);
      }
    }
  }

  /** A non-zero dot product gives a non-zero similarity. */
  lemma NonZeroQuotient(d: real, x: real, y: real, magA: real, magB: real)
    requires d != 0.0 && Times(d, d) <= Times(x, y) && x >= 0.0 && y >= 0.0 && IsRoot(magA, x) && IsRoot(magB, y)
    ensures TwoRoots(d, magA, magB) != 0.0 && Times(magA, magB) != 0.0
  {
    NonZeroDot(d, x, y, magA, magB);
    RootOfProduct(magA, magB, x, y);
    QuotientInRange(d, Times(magA, magB));
    QuotientZero(d, Times(magA, magB));
  }

  /** The squared distance, through dot product and magnitudes. */
  lemma {:induction false} DistanceFromDot(a: seq<real>, b: seq<real>, n: nat)
    requires n <= |a| && n <= |b|
    ensures SquaredDistance(a, b, n) == SumSquares(a, n) + SumSquares(b, n) - 2.0 * Dot(a, b, n)
  {
    if n > 0 {
      DistanceFromDot(a, b, n - 1);
      var x, y := a[n - 1], b[n - 1];
      SquareOfDifference(x, y);
    }
  }

  lemma SquareOfDifference(x: real, y: real)
    ensures Times(x - y, x - y) == Times(x, x) + Times(y, y) - 2.0 * Times(x, y)
  {
  }
}
