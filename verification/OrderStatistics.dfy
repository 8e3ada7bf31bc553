/**
 Percentiles of latency samples: the summary of the round-trip benchmark and the
 three rank definitions the benchmarks use, with a fraction as an exact real.
 */
module OrderStatistics {
  import opened Common

  predicate Ascending(s: seq<int>) {
    forall i, j :: 0 <= i < j < |s| ==> s[i] <= s[j]
  }

  function Insert(s: seq<int>, x: int): seq<int> {
    if |s| == 0 || s[|s| - 1] <= x then s + [x]
    else Insert(s[..|s| - 1], x) + [s[|s| - 1]]
  }

  /** What the library sort leaves in the vector. */
  function Sort(s: seq<int>): seq<int> {
    if |s| == 0 then [] else Insert(Sort(s[..|s| - 1]), s[|s| - 1])
  }

  /** How many samples are less than `x`. */
  function Below(s: seq<int>, x: int): nat {
    if |s| == 0 then 0
    else Below(s[..|s| - 1], x) + (if s[|s| - 1] < x then 1 else 0)
  }

  /** How many samples are at most `x`. */
  function AtMost(s: seq<int>, x: int): nat {
    Below(s, x + 1)
  }

  // ------------------------------------------------------------------------
  // Sorting and counting

  predicate UpTo(s: seq<int>, b: int) {
    forall i :: 0 <= i < |s| ==> s[i] <= b
  }

  lemma {:induction false} InsertUpTo(s: seq<int>, x: int, b: int)
    requires UpTo(s, b) && x <= b
    ensures UpTo(Insert(s, x), b)
  {
    if |s| > 0 && s[|s| - 1] > x {
      InsertUpTo(s[..|s| - 1], x, b);
    }
  }

  lemma {:induction false} InsertAscending(s: seq<int>, x: int)
    requires Ascending(s)
    ensures Ascending(Insert(s, x)) && |Insert(s, x)| == |s| + 1
  {
    if |s| > 0 && s[|s| - 1] > x {
      InsertAscending(s[..|s| - 1], x);
      InsertUpTo(s[..|s| - 1], x, s[|s| - 1]);
    }
  }

  lemma {:induction false} SortAscending(s: seq<int>)
    ensures Ascending(Sort(s)) && |Sort(s)| == |s|
  {
    if |s| > 0 {
      SortAscending(s[..|s| - 1]);
      InsertAscending(Sort(s[..|s| - 1]), s[|s| - 1]);
    }
  }

  lemma LastOut(s: seq<int>)
    requires |s| > 0
    ensures multiset(s) == multiset(s[..|s| - 1]) + multiset{s[|s| - 1]}
  {
    assert s == s[..|s| - 1] + [s[|s| - 1]];
  }

  lemma {:induction false} InsertKeeps(s: seq<int>, x: int)
    ensures multiset(Insert(s, x)) == multiset(s) + multiset{x}
  {
    if |s| > 0 && s[|s| - 1] > x {
      InsertKeeps(s[..|s| - 1], x);
      LastOut(s);
    }
  }

  lemma {:induction false} SortKeeps(s: seq<int>)
    ensures multiset(Sort(s)) == multiset(s)
  {
    if |s| > 0 {
      SortKeeps(s[..|s| - 1]);
      InsertKeeps(Sort(s[..|s| - 1]), s[|s| - 1]);
      LastOut(s);
    }
  }

  lemma BelowSnoc(s: seq<int>, y: int, x: int)
    ensures Below(s + [y], x) == Below(s, x) + (if y < x then 1 else 0)
  {
    assert (s + [y])[..|s|] == s;
  }

  lemma {:induction false} InsertBelow(s: seq<int>, y: int, x: int)
    ensures Below(Insert(s, y), x) == Below(s, x) + (if y < x then 1 else 0)
  {
    if |s| == 0 || s[|s| - 1] <= y {
      BelowSnoc(s, y, x);
    } else {
      InsertBelow(s[..|s| - 1], y, x);
      BelowSnoc(Insert(s[..|s| - 1], y), s[|s| - 1], x);
    }
  }

  lemma {:induction false} SortBelow(s: seq<int>, x: int)
    ensures Below(Sort(s), x) == Below(s, x)
  {
    if |s| > 0 {
      SortBelow(s[..|s| - 1], x);
      InsertBelow(Sort(s[..|s| - 1]), s[|s| - 1], x);
    }
  }

  /** In an ascending list the samples below `x` are a prefix. */
  lemma {:induction false} BelowIsPrefix(s: seq<int>, x: int)
    requires Ascending(s)
    ensures Below(s, x) <= |s|
    ensures forall i :: 0 <= i < |s| ==> (s[i] < x <==> i < Below(s, x))
  {
    if |s| > 0 {
      BelowIsPrefix(s[..|s| - 1], x);
      forall i | 0 <= i < |s| - 1 ensures s[i] < x <==> i < Below(s[..|s| - 1], x) {
        assert s[..|s| - 1][i] == s[i];
      }
    }
  }

  /** The k-th smallest sample. */
  function Kth(s: seq<int>, k: nat): int
    requires k < |s|
  {
    SortAscending(s);
    Sort(s)[k]
  }

  lemma SortedCounts(t: seq<int>, k: nat, x: int)
    requires Ascending(t) && k < |t| && t[k] == x
    ensures Below(t, x) <= k < Below(t, x + 1)
  {
    BelowIsPrefix(t, x);
    BelowIsPrefix(t, x + 1);
  }

  lemma KthCounts(s: seq<int>, k: nat, x: int)
    requires k < |s| && x == Kth(s, k)
    ensures Below(s, x) <= k < AtMost(s, x)
  {
    SortBelow(s, x);
    SortBelow(s, x + 1);
    SortedKth(s, k, x);
  }

  lemma SortedKth(s: seq<int>, k: nat, x: int)
    requires k < |s| && x == Kth(s, k)
    ensures Below(Sort(s), x) <= k < Below(Sort(s), x + 1)
  {
    SortAscending(s);
    SortedCounts(Sort(s), k, x);
  }

  lemma {:induction false} BelowMonotone(s: seq<int>, x: int, y: int)
    requires x <= y
    ensures Below(s, x) <= Below(s, y)
  {
    if |s| > 0 {
      BelowMonotone(s[..|s| - 1], x, y);
    }
  }

  lemma CountsUnique(s: seq<int>, k: nat, x: int, y: int)
    requires Below(s, x) <= k < AtMost(s, x) && Below(s, y) <= k < AtMost(s, y)
    ensures x == y
  {
    if x < y {
      BelowMonotone(s, x + 1, y);
    } else if y < x {
      BelowMonotone(s, y + 1, x);
    }
  }

  /**
   The k-th smallest sample without sorting: at most k samples are below it,
   more than k are at most it, and no other number has both.
   */
  lemma KthByCounting(s: seq<int>, k: nat, x: int)
    requires k < |s|
    ensures Kth(s, k) == x <==> Below(s, x) <= k < AtMost(s, x)
  {
    KthCounts(s, k, Kth(s, k));
    if Below(s, x) <= k < AtMost(s, x) {
      CountsUnique(s, k, x, Kth(s, k));
    }
  }

  lemma KthIsSample(s: seq<int>, k: nat)
    requires k < |s|
    ensures Kth(s, k) in s
  {
    SortAscending(s);
    SortKeeps(s);
    assert Sort(s)[k] in multiset(Sort(s));
    assert Kth(s, k) in multiset(s);
  }

  lemma SampleBounds(s: seq<int>, i: nat)
    requires i < |s|
    ensures Kth(s, 0) <= s[i] <= Kth(s, |s| - 1)
  {
    SortAscending(s);
    SortKeeps(s);
    assert s[i] in multiset(s);
    assert s[i] in multiset(Sort(s));
    var j :| 0 <= j < |Sort(s)| && Sort(s)[j] == s[i];
  }

  /** Any sorted rearrangement is the same list, whichever sort made it. */
  lemma AnySort(s: seq<int>, t: seq<int>)
    requires Ascending(t) && multiset(t) == multiset(s)
    ensures t == Sort(s)
  {
    SortAscending(s);
    SortKeeps(s);
    AscendingUnique(t, Sort(s));
  }

  lemma LastIsLargest(s: seq<int>, x: int)
    requires Ascending(s) && x in multiset(s)
    ensures |s| > 0 && x <= s[|s| - 1]
  {
    assert x in s;
  }

  lemma {:induction false} AscendingUnique(s: seq<int>, t: seq<int>)
    requires Ascending(s) && Ascending(t) && multiset(s) == multiset(t)
    ensures s == t
  {
    assert |multiset(s)| == |s| && |multiset(t)| == |t|;
    if |s| > 0 {
      LastIsLargest(t, s[|s| - 1]);
      LastIsLargest(s, t[|t| - 1]);
      SameRest(s, t);
      AscendingUnique(s[..|s| - 1], t[..|t| - 1]);
      assert s == s[..|s| - 1] + [s[|s| - 1]] && t == t[..|t| - 1] + [t[|t| - 1]];
    }
  }

  lemma SameRest(s: seq<int>, t: seq<int>)
    requires |s| > 0 && |t| > 0 && s[|s| - 1] == t[|t| - 1] && multiset(s) == multiset(t)
    ensures multiset(s[..|s| - 1]) == multiset(t[..|t| - 1])
  {
    LastOut(s);
    LastOut(t);
    var x := multiset{s[|s| - 1]};
    assert multiset(s[..|s| - 1]) == multiset(s) - x;
    assert multiset(t[..|t| - 1]) == multiset(t) - x;
  }

  // ------------------------------------------------------------------------
  // Order statistics under injected latency

  /** Each sample of `b` is its partner in `a` plus at least `c`. */
  predicate SlowerBy(a: seq<int>, b: seq<int>, c: int) {
    |a| == |b| && forall i :: 0 <= i < |a| ==> a[i] + c <= b[i]
  }

  lemma {:induction false} SlowerCounts(a: seq<int>, b: seq<int>, c: int, x: int)
    requires SlowerBy(a, b, c)
    ensures Below(b, x + c) <= Below(a, x)
  {
    if |a| > 0 {
      SlowerCounts(a[..|a| - 1], b[..|b| - 1], c, x);
    }
  }

  /** Slowing every sample by at least `c` moves every order statistic by at least `c`. */
  lemma SlowerKth(a: seq<int>, b: seq<int>, c: int, k: nat)
    requires SlowerBy(a, b, c) && k < |a|
    ensures Kth(a, k) + c <= Kth(b, k)
  {
    var x, y := Kth(a, k), Kth(b, k);
    KthCounts(a, k, x);
    KthCounts(b, k, y);
    SlowerCounts(a, b, c, y + 1 - c);
    if y - c < x {
      BelowMonotone(a, y - c + 1, x);
    }
  }

  /** A uniform shift moves every order statistic by exactly that much. */
  lemma ShiftedKth(a: seq<int>, b: seq<int>, c: int, k: nat)
    requires |a| == |b| && k < |a| && forall i :: 0 <= i < |a| ==> b[i] == a[i] + c
    ensures Kth(b, k) == Kth(a, k) + c
  {
    SlowerKth(a, b, c, k);
    SlowerKth(b, a, -c, k);
  }

  // ------------------------------------------------------------------------
  // The three rank definitions

  function Ceil(x: real): int {
    -((-x).Floor)
  }

  /** Rounds halves away from zero. */
  function Round(x: real): int {
    if x < 0.0 then -((-x + 0.5).Floor) else (x + 0.5).Floor
  }

  /** A float converted to an unsigned index: truncated, and zero when negative. */
  function AsIndex(x: real): nat {
    if x < 0.0 then 0 else x.Floor
  }

  function Clamp(x: int, lo: int, hi: int): int {
    if x < lo then lo else if hi < x then hi else x
  }

  function Scale(q: real, n: int): real {
    q * n as real
  }

  /** The nearest rank of the round-trip summary. */
  function NearestRank(q: real, n: nat): (k: nat)
    requires n > 0
    ensures k < n
  {
    Clamp(AsIndex(Ceil(Scale(q, n)) as real), 1, n) - 1
  }

  /** The rounded rank of the provenance benchmark. */
  function RoundedRank(q: real, n: nat): (k: nat)
    requires n > 0
    ensures k < n
  {
    Min(AsIndex(Round(Scale(q, n - 1)) as real), n - 1)
  }

  /** The floor rank of the cold-storage benchmark. */
  function FloorRank(q: real, n: nat): (k: nat)
    requires n > 0
    ensures k < n
  {
    Min(AsIndex(Scale(q, n)), n - 1)
  }

  lemma ScaleMonotone(q: real, r: real, n: nat)
    requires q <= r
    ensures Scale(q, n) <= Scale(r, n)
  {
    assert (r - q) * n as real >= 0.0;
    assert (r - q) * n as real == r * n as real - q * n as real;
  }

  lemma ScaleBounds(q: real, n: nat)
    requires 0.0 <= q <= 1.0 && n > 0
    ensures 0.0 <= Scale(q, n) <= n as real
    ensures Scale(q, n) - 1.0 <= Scale(q, n - 1) <= Scale(q, n)
    ensures 0.0 <= Scale(q, n - 1) <= n as real - 1.0
  {
    ScaleMonotone(0.0, q, n);
    ScaleMonotone(q, 1.0, n);
    ScaleMonotone(0.0, q, n - 1);
    ScaleMonotone(q, 1.0, n - 1);
    assert q * (n as real - 1.0) == q * n as real - q;
  }

  /** All three ranks grow with the fraction, for every fraction. */
  lemma RanksMonotone(q: real, r: real, n: nat)
    requires n > 0 && q <= r
    ensures NearestRank(q, n) <= NearestRank(r, n)
    ensures RoundedRank(q, n) <= RoundedRank(r, n)
    ensures FloorRank(q, n) <= FloorRank(r, n)
  {
    ScaleMonotone(q, r, n);
    ScaleMonotone(q, r, n - 1);
  }

  /**
   On fractions from 0 to 1 any two of the ranks are at most one apart. Nearest
   and floor differ exactly when `q * n` is a whole number strictly between 0 and n.
   */
  lemma RanksWithinOne(q: real, n: nat)
    requires n > 0 && 0.0 <= q <= 1.0
    ensures NearestRank(q, n) <= FloorRank(q, n) <= NearestRank(q, n) + 1
    ensures -1 <= RoundedRank(q, n) - FloorRank(q, n) <= 1
    ensures -1 <= RoundedRank(q, n) - NearestRank(q, n) <= 1
    ensures NearestRank(q, n) != FloorRank(q, n) <==>
              Scale(q, n) == Scale(q, n).Floor as real && 0.0 < Scale(q, n) < n as real
  {
    ScaleBounds(q, n);
  }

  /** Any other fraction is clamped to an end by all three. */
  lemma RanksOutside(q: real, n: nat)
    requires n > 0 && !(0.0 <= q <= 1.0)
    ensures NearestRank(q, n) == RoundedRank(q, n) == FloorRank(q, n) == if q < 0.0 then 0 else n - 1
  {
    if q < 0.0 {
      ScaleMonotone(q, 0.0, n);
      ScaleMonotone(q, 0.0, n - 1);
    } else {
      ScaleMonotone(1.0, q, n);
      ScaleMonotone(1.0, q, n - 1);
    }
  }

  // ------------------------------------------------------------------------
  // The summary

  datatype Stats = Stats(n: nat, min: int, p50: int, p95: int, p99: int, max: int, mean: int)

  function Sum(s: seq<int>): int {
    if |s| == 0 then 0 else Sum(s[..|s| - 1]) + s[|s| - 1]
  }

  function Percentile(s: seq<int>, q: real): int {
    if |s| == 0 then 0 else Kth(s, NearestRank(q, |s|))
  }

  function FromSamples(samples: seq<int>): Stats {
    var n := |samples|;
    Stats(n,
          if n == 0 then 0 else Kth(samples, 0),
          Percentile(samples, 0.50),
          Percentile(samples, 0.95),
          Percentile(samples, 0.99),
          if n == 0 then 0 else Kth(samples, n - 1),
          if n == 0 then 0 else Sum(Sort(samples)) / n)
  }

  /**
   The nearest-rank promise, stated without ranks: the percentile is a sample,
   at least a fraction `q` of the samples are at most it, and it is the least
   number of which that is true.
   */
  lemma NearestRankIsLeast(s: seq<int>, q: real)
    requires |s| > 0 && 0.0 < q <= 1.0
    ensures Percentile(s, q) in s
    ensures AtMost(s, Percentile(s, q)) as real >= Scale(q, |s|)
    ensures forall x :: x < Percentile(s, q) ==> AtMost(s, x) as real < Scale(q, |s|)
  {
    var n, p := |s|, Percentile(s, q);
    var k := NearestRank(q, n);
    ScaleBounds(q, n);
    assert q * n as real > 0.0;
    assert k == Ceil(Scale(q, n)) - 1;
    KthCounts(s, k, p);
    KthIsSample(s, k);
    forall x | x < p ensures AtMost(s, x) as real < Scale(q, n) {
      BelowMonotone(s, x + 1, p);
    }
  }

  lemma {:induction false} SumInsert(s: seq<int>, x: int)
    ensures Sum(Insert(s, x)) == Sum(s) + x
  {
    if |s| == 0 || s[|s| - 1] <= x {
      assert (s + [x])[..|s|] == s;
    } else {
      SumInsert(s[..|s| - 1], x);
      var t := Insert(s[..|s| - 1], x);
      assert (t + [s[|s| - 1]])[..|t|] == t;
    }
  }

  lemma {:induction false} SumSort(s: seq<int>)
    ensures Sum(Sort(s)) == Sum(s)
  {
    if |s| > 0 {
      SumSort(s[..|s| - 1]);
      SumInsert(Sort(s[..|s| - 1]), s[|s| - 1]);
    }
  }

  lemma {:induction false} SumBounds(s: seq<int>, lo: int, hi: int)
    requires forall i :: 0 <= i < |s| ==> lo <= s[i] <= hi
    ensures |s| * lo <= Sum(s) <= |s| * hi
  {
    if |s| > 0 {
      SumBounds(s[..|s| - 1], lo, hi);
      assert |s| * lo == (|s| - 1) * lo + lo && |s| * hi == (|s| - 1) * hi + hi;
    }
  }

  lemma Multiples(n: int, a: int, b: int)
    requires n > 0
    ensures n * a <= n * b <==> a <= b
    ensures n * (a + b) == n * a + n * b
  {
    if a < b {
      assert n * (b - a) > 0;
    } else if b < a {
      assert n * (a - b) > 0;
    }
  }

  lemma Division(x: int, n: int)
    requires n > 0
    ensures n * (x / n) <= x < n * (x / n + 1)
  {
    Multiples(n, x / n, 1);
  }

  lemma MeanBounds(sum: int, n: int, lo: int, hi: int)
    requires n > 0 && n * lo <= sum <= n * hi
    ensures lo <= sum / n <= hi
  {
    var q := sum / n;
    Division(sum, n);
    Multiples(n, q + 1, lo);
    Multiples(n, q, hi);
  }

  /** The summary is ordered, its extremes bound every sample, and the mean lies between them. */
  lemma SummaryOrdered(s: seq<int>)
    requires |s| > 0
    ensures var st := FromSamples(s);
            && st.min <= st.p50 <= st.p95 <= st.p99 <= st.max
            && st.min <= st.mean <= st.max
            && st.min in s && st.max in s
            && forall i :: 0 <= i < |s| ==> st.min <= s[i] <= st.max
  {
    var n := |s|;
    KthIsSample(s, 0);
    KthIsSample(s, n - 1);
    forall i | 0 <= i < n ensures Kth(s, 0) <= s[i] <= Kth(s, n - 1) {
      SampleBounds(s, i);
    }
    KthMonotone(s, 0, NearestRank(0.50, n));
    RanksMonotone(0.50, 0.95, n);
    KthMonotone(s, NearestRank(0.50, n), NearestRank(0.95, n));
    RanksMonotone(0.95, 0.99, n);
    KthMonotone(s, NearestRank(0.95, n), NearestRank(0.99, n));
    KthMonotone(s, NearestRank(0.99, n), n - 1);
    SumSort(s);
    SumBounds(s, Kth(s, 0), Kth(s, n - 1));
    MeanBounds(Sum(s), n, Kth(s, 0), Kth(s, n - 1));
  }

  lemma KthMonotone(s: seq<int>, k: nat, m: nat)
    requires k <= m < |s|
    ensures Kth(s, k) <= Kth(s, m)
  {
    SortAscending(s);
  }

  lemma {:induction false} SlowerSum(a: seq<int>, b: seq<int>, c: int)
    requires SlowerBy(a, b, c)
    ensures Sum(a) + |a| * c <= Sum(b)
  {
    if |a| > 0 {
      SlowerSum(a[..|a| - 1], b[..|b| - 1], c);
      assert |a| * c == (|a| - 1) * c + c;
    }
  }

  lemma SlowerMean(x: int, y: int, n: int, c: int)
    requires n > 0 && x + n * c <= y
    ensures x / n + c <= y / n
  {
    Division(x, n);
    Division(y, n);
    Multiples(n, x / n, c);
    Multiples(n, y / n + 1, x / n + c);
  }

  /** Every figure of `y` is at least that of `x` plus `c`. */
  predicate FiguresSlower(x: Stats, y: Stats, c: int) {
    && x.n == y.n
    && x.min + c <= y.min && x.p50 + c <= y.p50 && x.p95 + c <= y.p95
    && x.p99 + c <= y.p99 && x.max + c <= y.max && x.mean + c <= y.mean
  }

  /** Slowing every sample by at least `c` moves every figure of the summary by at least `c`. */
  lemma SlowerSummary(a: seq<int>, b: seq<int>, c: int)
    requires SlowerBy(a, b, c) && |a| > 0
    ensures FiguresSlower(FromSamples(a), FromSamples(b), c)
  {
    var n := |a|;
    SlowerKth(a, b, c, 0);
    SlowerKth(a, b, c, n - 1);
    SlowerKth(a, b, c, NearestRank(0.50, n));
    SlowerKth(a, b, c, NearestRank(0.95, n));
    SlowerKth(a, b, c, NearestRank(0.99, n));
    SumSort(a);
    SumSort(b);
    SlowerSum(a, b, c);
    SlowerMean(Sum(a), Sum(b), n, c);
  }

  function Shift(x: Stats, c: int): Stats {
    Stats(x.n, x.min + c, x.p50 + c, x.p95 + c, x.p99 + c, x.max + c, x.mean + c)
  }

  lemma Squeezed(x: Stats, y: Stats, c: int)
    requires FiguresSlower(x, y, c) && FiguresSlower(y, x, -c)
    ensures y == Shift(x, c)
  {
  }

  lemma SqueezedSummary(a: seq<int>, b: seq<int>, c: int, x: Stats, y: Stats)
    requires SlowerBy(a, b, c) && SlowerBy(b, a, -c) && |a| > 0 && x == FromSamples(a) && y == FromSamples(b)
    ensures y == Shift(x, c)
  {
    assert FiguresSlower(x, y, c) by {
      SlowerSummary(a, b, c);
    }
    assert FiguresSlower(y, x, -c) by {
      SlowerSummary(b, a, -c);
    }
    Squeezed(x, y, c);
  }

  /** A uniform shift moves every figure by exactly that much. */
  lemma ShiftedSummary(a: seq<int>, b: seq<int>, c: int)
    requires |a| == |b| && |a| > 0 && forall i :: 0 <= i < |a| ==> b[i] == a[i] + c
    ensures FromSamples(b) == Shift(FromSamples(a), c)
  {
    SqueezedSummary(a, b, c, FromSamples(a), FromSamples(b));
  }
}
