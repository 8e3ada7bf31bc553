/**
 Ranking by score: the stable descending sort that the baseline rerankers use,
 its first k elements, and the bounded buffer that computes the same ranking
 one element at a time.
 */
module TopK {
  import opened Common

  datatype Scored<T> = Scored(item: T, score: real)

  // ------------------------------------------------------------------------
  // Stable descending sort

  /** Insert behind everything that scores at least as high. */
  function Insert<T>(s: seq<Scored<T>>, x: Scored<T>): (r: seq<Scored<T>>)
    ensures |r| == |s| + 1
  {
    if s == [] || s[|s| - 1].score >= x.score then s + [x]
    else Insert(s[..|s| - 1], x) + [s[|s| - 1]]
  }

  /** `sort_by` with the descending comparison; equal scores keep their order. */
  function Sort<T>(xs: seq<Scored<T>>): (r: seq<Scored<T>>)
    ensures |r| == |xs|
  {
    if xs == [] then [] else Insert(Sort(xs[..|xs| - 1]), xs[|xs| - 1])
  }

  function Top<T>(k: nat, xs: seq<Scored<T>>): seq<Scored<T>> {
    Truncate(Sort(xs), k)
  }

  // ------------------------------------------------------------------------
  // What a stable sort is

  ghost predicate Descending<T>(s: seq<Scored<T>>) {
    forall i, j :: 0 <= i < j < |s| ==> s[i].score >= s[j].score
  }

  /** The elements with score `v`, in order. */
  function WithScore<T>(v: real, s: seq<Scored<T>>): seq<Scored<T>> {
    if s == [] then []
    else WithScore(v, s[..|s| - 1]) + (if s[|s| - 1].score == v then [s[|s| - 1]] else [])
  }

  lemma {:induction false} InsertKeeps<T>(s: seq<Scored<T>>, x: Scored<T>)
    ensures multiset(Insert(s, x)) == multiset(s) + multiset{x}
  {
    var n := |s| - 1;
    if n >= 0 && s[n].score < x.score {
      InsertKeeps(s[..n], x);
      assert s == s[..n] + [s[n]];
    }
  }

  lemma {:induction false} InsertAbove<T>(s: seq<Scored<T>>, x: Scored<T>, v: real)
    requires x.score >= v && forall i :: 0 <= i < |s| ==> s[i].score >= v
    ensures forall i :: 0 <= i < |Insert(s, x)| ==> Insert(s, x)[i].score >= v
  {
    var n := |s| - 1;
    if n >= 0 && s[n].score < x.score {
      InsertAbove(s[..n], x, v);
    }
  }

  lemma {:induction false} InsertDescending<T>(s: seq<Scored<T>>, x: Scored<T>)
    requires Descending(s)
    ensures Descending(Insert(s, x)) && multiset(Insert(s, x)) == multiset(s) + multiset{x}
  {
    InsertKeeps(s, x);
    var n := |s| - 1;
    if n >= 0 && s[n].score < x.score {
      InsertDescending(s[..n], x);
      InsertAbove(s[..n], x, s[n].score);
    }
  }

  lemma {:induction false} WithScoreNone<T>(v: real, s: seq<Scored<T>>)
    ensures WithScore(v, s) == [] <==> forall i :: 0 <= i < |s| ==> s[i].score != v
  {
    if s != [] {
      WithScoreNone(v, s[..|s| - 1]);
    }
  }

  lemma {:induction false} InsertStable<T>(s: seq<Scored<T>>, x: Scored<T>, v: real)
    requires Descending(s)
    ensures WithScore(v, Insert(s, x)) == WithScore(v, s + [x])
  {
    var n := |s| - 1;
    assert (s + [x])[..|s|] == s;
    if n >= 0 && s[n].score < x.score {
      InsertStable(s[..n], x, v);
      assert (Insert(s[..n], x) + [s[n]])[..n + 1] == Insert(s[..n], x);
      assert (s[..n] + [x])[..n] == s[..n];
    }
  }

  /** Sorting gives a descending permutation that keeps equal scores in order. */
  lemma {:induction false} SortIsStable<T>(xs: seq<Scored<T>>, v: real)
    ensures Descending(Sort(xs)) && multiset(Sort(xs)) == multiset(xs)
    ensures WithScore(v, Sort(xs)) == WithScore(v, xs)
  {
    SortDescending(xs);
    SortKeepsGroups(xs, v);
  }

  lemma {:induction false} SortDescending<T>(xs: seq<Scored<T>>)
    ensures Descending(Sort(xs)) && multiset(Sort(xs)) == multiset(xs)
  {
    var n := |xs| - 1;
    if n >= 0 {
      hide Insert, Descending;
      SortDescending(xs[..n]);
      InsertDescending(Sort(xs[..n]), xs[n]);
      assert xs == xs[..n] + [xs[n]];
    }
  }

  lemma WithScoreSnoc<T>(v: real, s: seq<Scored<T>>, x: Scored<T>)
    ensures WithScore(v, s + [x]) == WithScore(v, s) + (if x.score == v then [x] else [])
  {
    assert (s + [x])[..|s|] == s;
  }

  lemma {:induction false} SortKeepsGroups<T>(xs: seq<Scored<T>>, v: real)
    ensures WithScore(v, Sort(xs)) == WithScore(v, xs)
  {
    var n := |xs| - 1;
    if n >= 0 {
      var early := Sort(xs[..n]);
      SortKeepsGroups(xs[..n], v);
      SortDescending(xs[..n]);
      assert Sort(xs) == Insert(early, xs[n]);
      hide Sort, Insert, Descending;
      InsertStable(early, xs[n], v);
      WithScoreSnoc(v, early, xs[n]);
    }
  }

  /** Only one list is descending and keeps every group of equal scores in order. */
  lemma {:induction false} StableSortUnique<T>(a: seq<Scored<T>>, b: seq<Scored<T>>)
    requires Descending(a) && Descending(b)
    requires forall v :: WithScore(v, a) == WithScore(v, b)
    ensures a == b
    decreases |a|
  {
    if a == [] || b == [] {
      if a != [] {
        assert WithScore(a[0].score, a) == [];
        WithScoreNone(a[0].score, a);
      } else if b != [] {
        assert WithScore(b[0].score, b) == [];
        WithScoreNone(b[0].score, b);
      }
    } else {
      var m, n := |a| - 1, |b| - 1;
      LastMatches(a, b);
      forall v
        ensures WithScore(v, a[..m]) == WithScore(v, b[..n])
      {
        assert WithScore(v, a) == WithScore(v, b);
        if a[m].score == v {
          assert WithScore(v, a[..m]) == WithScore(v, a)[..|WithScore(v, a)| - 1];
          assert WithScore(v, b[..n]) == WithScore(v, b)[..|WithScore(v, b)| - 1];
        } else {
          assert WithScore(v, a) == WithScore(v, a[..m]) && WithScore(v, b) == WithScore(v, b[..n]);
        }
      }
      StableSortUnique(a[..m], b[..n]);
    }
  }

  lemma LastScore<T>(a: seq<Scored<T>>, b: seq<Scored<T>>)
    requires a != [] && b != [] && Descending(b)
    requires forall v :: WithScore(v, a) == WithScore(v, b)
    ensures b[|b| - 1].score <= a[|a| - 1].score
  {
    var v := a[|a| - 1].score;
    WithScoreNone(v, a);
    WithScoreNone(v, b);
    assert WithScore(v, a) == WithScore(v, b);
    var i :| 0 <= i < |b| && b[i].score == v;
  }

  lemma LastMatches<T>(a: seq<Scored<T>>, b: seq<Scored<T>>)
    requires a != [] && b != [] && Descending(a) && Descending(b)
    requires forall v :: WithScore(v, a) == WithScore(v, b)
    ensures a[|a| - 1] == b[|b| - 1]
  {
    var v := a[|a| - 1].score;
    LastScore(a, b);
    LastScore(b, a);
    var group := WithScore(v, a);
    assert group == WithScore(v, b);
    assert group[|group| - 1] == a[|a| - 1];
    assert group[|group| - 1] == b[|b| - 1];
  }

  /** So whatever the library's stable sort returns is `Sort`. */
  lemma AnyStableSort<T>(xs: seq<Scored<T>>, ys: seq<Scored<T>>)
    requires Descending(ys) && forall v :: WithScore(v, ys) == WithScore(v, xs)
    ensures ys == Sort(xs)
  {
    SortIsStable(xs, 0.0);
    forall v
      ensures WithScore(v, ys) == WithScore(v, Sort(xs))
    {
      SortIsStable(xs, v);
    }
    StableSortUnique(ys, Sort(xs));
  }

  // ------------------------------------------------------------------------
  // Streaming

  lemma {:induction false} InsertTruncated<T>(s: seq<Scored<T>>, x: Scored<T>, k: nat)
    requires Descending(s)
    ensures Truncate(Insert(s, x), k) == Truncate(Insert(Truncate(s, k), x), k)
  {
    var n := |s| - 1;
    if |s| > k {
      if s[n].score >= x.score {
        InsertBeyond(s[..k], x, k);
        assert Insert(s, x)[..k] == s[..k];
      } else {
        InsertTruncated(s[..n], x, k);
        assert Truncate(s, k) == Truncate(s[..n], k);
      }
    }
  }

  lemma InsertBeyond<T>(s: seq<Scored<T>>, x: Scored<T>, k: nat)
    requires |s| == k && (s == [] || s[|s| - 1].score >= x.score)
    ensures Truncate(Insert(s, x), k) == s
  {
  }

  /** Keeping only the best k between elements loses nothing. */
  lemma TopStep<T>(k: nat, xs: seq<Scored<T>>, x: Scored<T>)
    ensures Top(k, xs + [x]) == Truncate(Insert(Top(k, xs), x), k)
  {
    assert (xs + [x])[..|xs|] == xs;
    SortIsStable(xs, 0.0);
    InsertTruncated(Sort(xs), x, k);
  }

  lemma PrefixDescending<T>(s: seq<Scored<T>>, k: nat)
    requires Descending(s)
    ensures Descending(Truncate(s, k)) && multiset(Truncate(s, k)) <= multiset(s)
  {
    if |s| > k {
      assert s == s[..k] + s[k..];
    }
  }

  lemma TruncateDescending<T>(k: nat, xs: seq<Scored<T>>)
    ensures Descending(Top(k, xs)) && multiset(Top(k, xs)) <= multiset(xs)
  {
    SortDescending(xs);
    hide Sort;
    PrefixDescending(Sort(xs), k);
  }

  lemma {:induction false} SortOfDescending<T>(s: seq<Scored<T>>)
    requires Descending(s)
    ensures Sort(s) == s
  {
    if s != [] {
      SortOfDescending(s[..|s| - 1]);
      assert s == s[..|s| - 1] + [s[|s| - 1]];
    }
  }

  /**
   The streaming law: ranking a prefix first, then ranking its best k together
   with the rest, is ranking the whole, tie order included.
   */
  lemma {:induction false} TopStreams<T>(k: nat, xs: seq<Scored<T>>, ys: seq<Scored<T>>)
    ensures Top(k, Top(k, xs) + ys) == Top(k, xs + ys)
    decreases |ys|
  {
    if ys == [] {
      TruncateDescending(k, xs);
      SortOfDescending(Top(k, xs));
      assert xs + ys == xs && Top(k, xs) + ys == Top(k, xs);
    } else {
      var n := |ys| - 1;
      TopStreams(k, xs, ys[..n]);
      TopStep(k, xs + ys[..n], ys[n]);
      TopStep(k, Top(k, xs) + ys[..n], ys[n]);
      assert xs + ys == (xs + ys[..n]) + [ys[n]];
      assert Top(k, xs) + ys == (Top(k, xs) + ys[..n]) + [ys[n]];
    }
  }

  // ------------------------------------------------------------------------
  // Scores alone

  function Scores<T>(s: seq<Scored<T>>): seq<real> {
    seq(|s|, i requires 0 <= i < |s| => s[i].score)
  }

  ghost predicate Falling(a: seq<real>) {
    forall i, j :: 0 <= i < j < |a| ==> a[i] >= a[j]
  }

  lemma ScoresFall<T>(s: seq<Scored<T>>)
    requires Descending(s)
    ensures Falling(Scores(s))
  {
  }

  lemma ScoreAmong<T>(s: seq<Scored<T>>, x: Scored<T>)
    requires x in multiset(s)
    ensures x.score in multiset(Scores(s))
  {
    var i :| 0 <= i < |s| && s[i] == x;
    assert Scores(s)[i] == x.score;
  }

  lemma ButLast(a: seq<real>)
    requires a != []
    ensures multiset(a[..|a| - 1]) == multiset(a) - multiset{a[|a| - 1]}
  {
    assert a == a[..|a| - 1] + [a[|a| - 1]];
  }

  lemma LeastIsLast(a: seq<real>, v: real)
    requires Falling(a) && v in multiset(a)
    ensures a != [] && a[|a| - 1] <= v
  {
    var i :| 0 <= i < |a| && a[i] == v;
  }

  lemma SameButLast(a: seq<real>, b: seq<real>)
    requires |a| == |b| && a != [] && a[|a| - 1] == b[|b| - 1] && multiset(a) == multiset(b)
    ensures multiset(a[..|a| - 1]) == multiset(b[..|b| - 1])
  {
    ButLast(a);
    ButLast(b);
  }

  lemma {:induction false} DescendingUnique(a: seq<real>, b: seq<real>)
    requires Falling(a) && Falling(b) && multiset(a) == multiset(b)
    ensures a == b
  {
    assert |a| == |multiset(a)| == |multiset(b)| == |b|;
    if a != [] {
      var n := |a| - 1;
      assert a[n] in multiset(a) && b[n] in multiset(b);
      LeastIsLast(a, b[n]);
      LeastIsLast(b, a[n]);
      SameButLast(a, b);
      assert Falling(a[..n]) && Falling(b[..n]);
      hide Falling;
      DescendingUnique(a[..n], b[..n]);
      assert a == a[..n] + [a[n]] && b == b[..n] + [b[n]];
    }
  }

  lemma ScoresOfParts<T>(s: seq<Scored<T>>, t: seq<Scored<T>>)
    ensures Scores(s + t) == Scores(s) + Scores(t)
  {
  }

  lemma {:induction false} InsertScores<T>(s: seq<Scored<T>>, x: Scored<T>)
    ensures multiset(Scores(Insert(s, x))) == multiset(Scores(s)) + multiset{x.score}
  {
    var n := |s| - 1;
    if n >= 0 && s[n].score < x.score {
      InsertScores(s[..n], x);
      ScoresOfParts(Insert(s[..n], x), [s[n]]);
      ScoresOfParts(s[..n], [s[n]]);
      assert s == s[..n] + [s[n]];
    } else {
      ScoresOfParts(s, [x]);
    }
  }

  function Without<T>(s: seq<T>, i: nat): seq<T>
    requires i < |s|
  {
    s[..i] + s[i + 1..]
  }

  lemma WithoutBag<T>(s: seq<Scored<T>>, i: nat)
    requires i < |s|
    ensures multiset(Without(s, i)) == multiset(s) - multiset{s[i]}
    ensures multiset(Scores(Without(s, i))) == multiset(Scores(s)) - multiset{s[i].score}
  {
    assert s == s[..i] + [s[i]] + s[i + 1..];
    ScoresOfParts(s[..i], s[i + 1..]);
    ScoresOfParts(s[..i] + [s[i]], s[i + 1..]);
    ScoresOfParts(s[..i], [s[i]]);
  }

  lemma PutBack<T>(s: seq<Scored<T>>, i: nat)
    requires i < |s|
    ensures |Without(s, i)| == |s| - 1
    ensures multiset(s) == multiset(Without(s, i)) + multiset{s[i]}
    ensures multiset(Scores(s)) == multiset(Scores(Without(s, i))) + multiset{s[i].score}
  {
    WithoutBag(s, i);
    assert s[i] in multiset(s);
    assert Scores(s)[i] in multiset(Scores(s));
  }

  lemma Cancel<T>(a: multiset<T>, b: multiset<T>, c: multiset<T>)
    requires a + c <= b + c
    ensures a <= b
  {
    forall x ensures a[x] <= b[x] {
      assert (a + c)[x] <= (b + c)[x];
    }
  }

  lemma {:induction false} SameScores<T>(a: seq<Scored<T>>, b: seq<Scored<T>>)
    requires multiset(a) == multiset(b)
    ensures multiset(Scores(a)) == multiset(Scores(b))
    decreases |a|
  {
    assert |a| == |multiset(a)| == |multiset(b)| == |b|;
    if a != [] {
      var n := |a| - 1;
      assert a[n] in multiset(b);
      var i :| 0 <= i < |b| && b[i] == a[n];
      PutBack(a, n);
      PutBack(b, i);
      hide Without, Scores;
      Cancel(multiset(Without(a, n)), multiset(Without(b, i)), multiset{a[n]});
      Cancel(multiset(Without(b, i)), multiset(Without(a, n)), multiset{a[n]});
      SameScores(Without(a, n), Without(b, i));
    }
  }

  /** What is left of `xs` when the elements of `r` are taken out. */
  lemma {:induction false} Leftover<T>(xs: seq<Scored<T>>, r: seq<Scored<T>>) returns (rest: seq<Scored<T>>)
    requires multiset(r) <= multiset(xs)
    ensures multiset(r + rest) == multiset(xs) && multiset(rest) == multiset(xs) - multiset(r)
    decreases |r|
  {
    if r == [] {
      rest := xs;
    } else {
      var n := |r| - 1;
      assert r[n] in multiset(xs);
      var i :| 0 <= i < |xs| && xs[i] == r[n];
      PutBack(r, n);
      PutBack(xs, i);
      Cancel(multiset(Without(r, n)), multiset(Without(xs, i)), multiset{r[n]});
      rest := Leftover(Without(xs, i), Without(r, n));
      assert multiset(r + rest) == multiset(Without(r, n) + rest) + multiset{r[n]};
    }
  }

  // ------------------------------------------------------------------------
  // Rankings up to ties, which is what a bounded heap promises

  /** The best k elements of `xs` in order: nothing left out scores more than anything kept. */
  ghost predicate IsRanking<T>(k: nat, xs: seq<Scored<T>>, r: seq<Scored<T>>) {
    && Descending(r) && |r| == Min(k, |xs|) && multiset(r) <= multiset(xs)
    && forall x, y :: x in multiset(xs) - multiset(r) && y in multiset(r) ==> x.score <= y.score
  }

  lemma CutScores<T>(s: seq<Scored<T>>, n: nat)
    requires n <= |s|
    ensures Scores(s)[..n] == Scores(s[..n])
  {
  }

  /** Splitting `xs` in two splits its scores likewise, and so does sorting and cutting. */
  lemma SplitScores<T>(k: nat, xs: seq<Scored<T>>, r: seq<Scored<T>>, rest: seq<Scored<T>>)
    requires multiset(r + rest) == multiset(xs) && |r| == Min(k, |xs|)
    ensures multiset(Scores(Sort(xs))) == multiset(Scores(r)) + multiset(Scores(rest))
    ensures Scores(Sort(xs))[..|r|] == Scores(Top(k, xs))
  {
    SortDescending(xs);
    hide Sort, Descending;
    CutScores(Sort(xs), |r|);
    hide Scores;
    SameScores(r + rest, Sort(xs));
    ScoresOfParts(r, rest);
  }

  lemma JoinDescending<T>(r: seq<Scored<T>>, rest: seq<Scored<T>>)
    requires Descending(r) && Descending(rest)
    requires forall x, y :: x in multiset(rest) && y in multiset(r) ==> x.score <= y.score
    ensures Falling(Scores(r + rest))
  {
    forall i, j | 0 <= i < j < |r + rest| ensures (r + rest)[i].score >= (r + rest)[j].score {
      if i < |r| <= j {
        assert r[i] in multiset(r) && rest[j - |r|] in multiset(rest);
      }
    }
  }

  /** The scores of any ranking are those of the sorted prefix. */
  lemma RankingHasScores<T>(k: nat, xs: seq<Scored<T>>, r: seq<Scored<T>>)
    requires IsRanking(k, xs, r)
    ensures Scores(r) == Scores(Top(k, xs))
  {
    var rest := Leftover(xs, r);
    SortDescending(rest);
    SortDescending(xs);
    ScoresFall(Sort(xs));
    var ordered := Sort(rest);
    assert multiset(r + ordered) == multiset(xs);
    JoinDescending(r, ordered);
    hide Sort, Top, IsRanking, Descending, Falling;
    SplitScores(k, xs, r, ordered);
    ScoresOfParts(r, ordered);
    DescendingUnique(Scores(r + ordered), Scores(Sort(xs)));
  }

  /** What is left of a falling sequence without its front is nowhere above the front. */
  lemma RestBelow(all: seq<real>, n: nat, rest: multiset<real>, v: real, i: nat)
    requires i < n <= |all| && Falling(all) && multiset(all) == multiset(all[..n]) + rest && v in rest
    ensures v <= all[i]
  {
    assert all == all[..n] + all[n..];
    assert multiset(all)[v] == multiset(all[..n])[v] + multiset(all[n..])[v];
    assert (multiset(all[..n]) + rest)[v] == multiset(all[..n])[v] + rest[v];
    var j :| 0 <= j < |all[n..]| && all[n..][j] == v;
  }

  /** Elements of `xs` with the scores of the sorted prefix are a ranking. */
  lemma ScoresMakeRanking<T>(k: nat, xs: seq<Scored<T>>, r: seq<Scored<T>>)
    requires Descending(r) && multiset(r) <= multiset(xs) && Scores(r) == Scores(Top(k, xs))
    ensures IsRanking(k, xs, r)
  {
    assert |r| == |Scores(r)| == |Scores(Top(k, xs))| == Min(k, |xs|);
    var rest := Leftover(xs, r);
    SplitScores(k, xs, r, rest);
    SortDescending(xs);
    ScoresFall(Sort(xs));
    hide Sort, Top, Descending, Falling;
    forall x: Scored<T>, y: Scored<T> | x in multiset(rest) && y in multiset(r) ensures x.score <= y.score {
      ScoreAmong(rest, x);
      var j :| 0 <= j < |r| && r[j] == y;
      assert Scores(r)[j] == y.score;
      RestBelow(Scores(Sort(xs)), |r|, multiset(Scores(rest)), x.score, j);
    }
  }

  /** A ranking, up to ties, is what sorting and cutting gives. */
  lemma RankingScores<T>(k: nat, xs: seq<Scored<T>>, r: seq<Scored<T>>)
    ensures IsRanking(k, xs, r) <==>
              Descending(r) && multiset(r) <= multiset(xs) && Scores(r) == Scores(Top(k, xs))
  {
    if IsRanking(k, xs, r) {
      RankingHasScores(k, xs, r);
    } else if Descending(r) && multiset(r) <= multiset(xs) && Scores(r) == Scores(Top(k, xs)) {
      ScoresMakeRanking(k, xs, r);
    }
  }

  /** Sorting and cutting keeps the best k: whatever is left out scores no more than anything kept. */
  lemma TopIsRanking<T>(k: nat, xs: seq<Scored<T>>)
    ensures IsRanking(k, xs, Top(k, xs))
  {
    TruncateDescending(k, xs);
    ScoresMakeRanking(k, xs, Top(k, xs));
  }

  /** When no two scores are equal a ranking is the sorted prefix itself. */
  lemma RankingWithoutTies<T>(k: nat, xs: seq<Scored<T>>, r: seq<Scored<T>>)
    requires IsRanking(k, xs, r)
    requires forall i, j :: 0 <= i < j < |xs| ==> xs[i].score != xs[j].score
    ensures r == Top(k, xs)
  {
    var top := Top(k, xs);
    TruncateDescending(k, xs);
    RankingScores(k, xs, r);
    assert |Scores(r)| == |Scores(top)|;
    forall i | 0 <= i < |r|
      ensures r[i] == top[i]
    {
      assert r[i].score == Scores(r)[i] == Scores(top)[i] == top[i].score;
      assert r[i] in multiset(r) && top[i] in multiset(top);
      var a :| 0 <= a < |xs| && xs[a] == r[i];
      var b :| 0 <= b < |xs| && xs[b] == top[i];
    }
  }

  /** What the heap holds against what sorting the same elements would keep. */
  ghost predicate Tracks<T>(k: nat, xs: seq<Scored<T>>, heap: seq<Scored<T>>) {
    && multiset(heap) <= multiset(xs)
    && multiset(Scores(heap)) == multiset(Scores(Top(k, xs)))
    && |heap| == |Top(k, xs)|
  }

  lemma TracksPush<T>(k: nat, xs: seq<Scored<T>>, heap: seq<Scored<T>>, x: Scored<T>)
    requires Tracks(k, xs, heap) && |heap| < k
    ensures Tracks(k, xs + [x], heap + [x])
  {
    TopStep(k, xs, x);
    InsertScores(Top(k, xs), x);
    ScoresOfParts(heap, [x]);
  }

  ghost predicate IsMinimum<T>(heap: seq<Scored<T>>, m: nat) {
    m < |heap| && forall i :: 0 <= i < |heap| ==> heap[m].score <= heap[i].score
  }

  /** The least score in the heap is the last score of the sorted prefix. */
  lemma MinimumIsLast<T>(k: nat, xs: seq<Scored<T>>, heap: seq<Scored<T>>, m: nat)
    requires Tracks(k, xs, heap) && IsMinimum(heap, m)
    ensures heap[m].score == Top(k, xs)[|heap| - 1].score
  {
    var top := Top(k, xs);
    TruncateDescending(k, xs);
    var hs, ts := Scores(heap), Scores(top);
    assert hs[m] in multiset(ts) && ts[|ts| - 1] in multiset(hs);
  }

  lemma TracksKeep<T>(k: nat, xs: seq<Scored<T>>, heap: seq<Scored<T>>, m: nat, x: Scored<T>)
    requires Tracks(k, xs, heap) && |heap| == k
    requires k > 0 ==> IsMinimum(heap, m) && x.score <= heap[m].score
    ensures Tracks(k, xs + [x], heap)
  {
    TopStep(k, xs, x);
    if k > 0 {
      MinimumIsLast(k, xs, heap, m);
      InsertBeyond(Top(k, xs), x, k);
    }
  }

  /** Inserting above the last of k elements pushes that one out. */
  lemma InsertEvicts<T>(top: seq<Scored<T>>, x: Scored<T>)
    requires top != [] && x.score > top[|top| - 1].score
    ensures var r := Truncate(Insert(top, x), |top|);
            && |r| == |top|
            && multiset(Scores(r)) == multiset(Scores(top)) - multiset{top[|top| - 1].score} + multiset{x.score}
  {
    var n := |top| - 1;
    assert Insert(top, x)[..n + 1] == Insert(top[..n], x);
    InsertScores(top[..n], x);
    ScoresOfParts(top[..n], [top[n]]);
    assert top == top[..n] + [top[n]];
    assert Scores([top[n]]) == [top[n].score];
  }

  lemma TracksReplace<T>(k: nat, xs: seq<Scored<T>>, heap: seq<Scored<T>>, m: nat, x: Scored<T>)
    requires Tracks(k, xs, heap) && |heap| == k && IsMinimum(heap, m) && x.score > heap[m].score
    ensures Tracks(k, xs + [x], Without(heap, m) + [x])
  {
    MinimumIsLast(k, xs, heap, m);
    TopStep(k, xs, x);
    InsertEvicts(Top(k, xs), x);
    WithoutBag(heap, m);
    ScoresOfParts(Without(heap, m), [x]);
    assert Scores([x]) == [x.score];
  }

  /** Emptying the heap in descending order, ties in any order, gives a ranking. */
  lemma DrainedHeapRanks<T>(k: nat, xs: seq<Scored<T>>, heap: seq<Scored<T>>, r: seq<Scored<T>>)
    requires Tracks(k, xs, heap) && Descending(r) && multiset(r) == multiset(heap)
    requires multiset(Scores(r)) == multiset(Scores(heap))
    ensures IsRanking(k, xs, r)
  {
    TruncateDescending(k, xs);
    ScoresFall(r);
    ScoresFall(Top(k, xs));
    DescendingUnique(Scores(r), Scores(Top(k, xs)));
    ScoresMakeRanking(k, xs, r);
  }
}
