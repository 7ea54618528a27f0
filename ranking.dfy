/** The ranking half of the mix recommendation engine: every candidate row
    is scored against the base row, the scored rows are sorted in place by
    ascending score with a stable sort, and the caller may keep a prefix. */
module Ranking {
  import opened RecommendationEngine

  /** A candidate row republished with its similarity score attached. */
  datatype Scored = Scored(row: Row, similarityScore: real)

  predicate SortedByScore(s: seq<Scored>) {
    forall i, j :: 0 <= i < j < |s| ==> s[i].similarityScore <= s[j].similarityScore
  }

  /** The entries of `s` whose score is exactly `v`, in their order in `s`.
      A sort is stable when it keeps this subsequence for every `v`. */
  function WithScore(s: seq<Scored>, v: real): seq<Scored> {
    if s == [] then []
    else WithScore(s[..|s| - 1], v) + (if s[|s| - 1].similarityScore == v then [s[|s| - 1]] else [])
  }

  /* ---------------- Specification of the stable sort ---------------- */

  /** Inserts `x` after the last entry of `s` whose score is not above its
      own: the insertion step of a stable insertion sort. */
  function Insert(s: seq<Scored>, x: Scored): (r: seq<Scored>)
    ensures |r| == |s| + 1
  {
    if s == [] || s[|s| - 1].similarityScore <= x.similarityScore then
      s + [x]
    else
      Insert(s[..|s| - 1], x) + [s[|s| - 1]]
  }

  /** Insertion adds exactly `x` to the entries. */
  lemma {:induction false} InsertPermutes(s: seq<Scored>, x: Scored)
    ensures multiset(Insert(s, x)) == multiset(s) + multiset{x}
    decreases |s|
  {
    if s != [] && s[|s| - 1].similarityScore > x.similarityScore {
      var p := s[..|s| - 1];
      assert s == p + [s[|s| - 1]];
      InsertPermutes(p, x);
    }
  }

  /** Insertion into a sorted sequence keeps it sorted. */
  lemma {:induction false} InsertSorted(s: seq<Scored>, x: Scored)
    requires SortedByScore(s)
    ensures SortedByScore(Insert(s, x))
    decreases |s|
  {
    if s != [] && s[|s| - 1].similarityScore > x.similarityScore {
      var p := s[..|s| - 1];
      var last := s[|s| - 1];
      var q := Insert(p, x);
      assert SortedByScore(p);
      InsertSorted(p, x);
      InsertPermutes(p, x);
      forall i | 0 <= i < |q| ensures q[i].similarityScore <= last.similarityScore {
        assert q[i] in multiset(q);
        if q[i] != x {
          assert q[i] in multiset(p);
          var k :| 0 <= k < |p| && p[k] == q[i];
          assert s[k] == p[k];
        }
      }
      assert Insert(s, x) == q + [last];
    }
  }

  /** The stable sort by ascending score, as a function of the input. */
  function SortByScore(s: seq<Scored>): (r: seq<Scored>)
    ensures |r| == |s|
    ensures SortedByScore(r)
    ensures multiset(r) == multiset(s)
  {
    if s == [] then []
    else
      assert s == s[..|s| - 1] + [s[|s| - 1]];
      InsertSorted(SortByScore(s[..|s| - 1]), s[|s| - 1]);
      InsertPermutes(SortByScore(s[..|s| - 1]), s[|s| - 1]);
      Insert(SortByScore(s[..|s| - 1]), s[|s| - 1])
  }

  lemma {:induction false} WithScoreAppend(s: seq<Scored>, t: seq<Scored>, v: real)
    ensures WithScore(s + t, v) == WithScore(s, v) + WithScore(t, v)
    decreases |t|
  {
    if t == [] {
      assert s + t == s;
    } else {
      var t' := t[..|t| - 1];
      assert (s + t)[..|s + t| - 1] == s + t';
      WithScoreAppend(s, t', v);
    }
  }

  lemma WithScoreSingle(x: Scored, v: real)
    ensures WithScore([x], v) == if x.similarityScore == v then [x] else []
  {
    assert [x][..0] == [];
  }

  /** Two pieces of which at least one is empty may be swapped. */
  lemma SwapEmpty(a: seq<Scored>, b: seq<Scored>, c: seq<Scored>)
    requires b == [] || c == []
    ensures a + b + c == a + c + b
  {
    if b == [] {
      assert a + b == a;
      assert a + c + b == a + c;
    } else {
      assert a + c == a;
      assert a + b + c == a + b;
    }
  }

  /** Insertion places `x` after every entry of equal score. */
  lemma {:induction false} InsertWithScore(s: seq<Scored>, x: Scored, v: real)
    ensures WithScore(Insert(s, x), v) == WithScore(s, v) + WithScore([x], v)
    decreases |s|
  {
    if s == [] || s[|s| - 1].similarityScore <= x.similarityScore {
      WithScoreAppend(s, [x], v);
    } else {
      var p := s[..|s| - 1];
      var last := s[|s| - 1];
      var ip := Insert(p, x);
      assert s == p + [last];
      assert Insert(s, x) == ip + [last];
      InsertWithScore(p, x, v);
      WithScoreAppend(ip, [last], v);
      WithScoreAppend(p, [last], v);
      WithScoreSingle(x, v);
      WithScoreSingle(last, v);
      var wx, wl, wp := WithScore([x], v), WithScore([last], v), WithScore(p, v);
      SwapEmpty(wp, wx, wl);
    }
  }

  /** Stability: sorting keeps the relative order of entries of equal score. */
  lemma {:induction false} SortByScoreStable(s: seq<Scored>, v: real)
    ensures WithScore(SortByScore(s), v) == WithScore(s, v)
    decreases |s|
  {
    if s != [] {
      var p := s[..|s| - 1];
      assert s == p + [s[|s| - 1]];
      SortByScoreStable(p, v);
      InsertWithScore(SortByScore(p), s[|s| - 1], v);
      WithScoreAppend(p, [s[|s| - 1]], v);
    }
  }

  /* ---------------- The in-place sort ---------------- */

  /** Splitting at `j` commutes with appending one more entry. */
  lemma SnocSplit(p: seq<Scored>, last: Scored, x: Scored, j: nat)
    requires j <= |p|
    ensures (p[..j] + [x] + p[j..]) + [last] == (p + [last])[..j] + [x] + (p + [last])[j..]
  {
    assert (p + [last])[..j] == p[..j];
    assert (p + [last])[j..] == p[j..] + [last];
  }

  /** Where the insertion loop stops, Insert puts its element. */
  lemma {:induction false} InsertAt(s: seq<Scored>, x: Scored, j: nat)
    requires j <= |s|
    requires j == 0 || s[j - 1].similarityScore <= x.similarityScore
    requires forall k :: j <= k < |s| ==> s[k].similarityScore > x.similarityScore
    ensures Insert(s, x) == s[..j] + [x] + s[j..]
    decreases |s| - j
  {
    if j < |s| {
      var p := s[..|s| - 1];
      var last := s[|s| - 1];
      assert s == p + [last];
      InsertAt(p, x, j);
      SnocSplit(p, last, x, j);
    } else {
      assert s[..j] == s && s[j..] == [];
    }
  }

  /** Moves a[i] left past every larger-scored entry of a[..i]: one pass
      of the insertion sort. */
  method InsertIntoPrefix(a: array<Scored>, i: nat)
    requires i < a.Length
    modifies a
    ensures a[..i + 1] == Insert(old(a[..i]), old(a[i]))
    ensures a[i + 1..] == old(a[i + 1..])
  {
    ghost var o := a[..];
    var x := a[i];
    var j := i;
    while j > 0 && a[j - 1].similarityScore > x.similarityScore
      invariant 0 <= j <= i
      invariant forall k :: 0 <= k < j ==> a[k] == o[k]
      invariant forall k :: j < k <= i ==> a[k] == o[k - 1]
      invariant forall k :: i < k < a.Length ==> a[k] == o[k]
      invariant forall k :: j <= k < i ==> o[k].similarityScore > x.similarityScore
    {
      a[j] := a[j - 1];
      j := j - 1;
    }
    a[j] := x;
    ghost var prefix := o[..i];
    assert a[..i + 1] == prefix[..j] + [x] + prefix[j..] by {
      forall k | 0 <= k <= i ensures a[k] == (prefix[..j] + [x] + prefix[j..])[k] {
        if k < j {
        } else if k == j {
        } else {
          assert (prefix[..j] + [x] + prefix[j..])[k] == prefix[k - 1];
        }
      }
    }
    assert a[i + 1..] == o[i + 1..];
    InsertAt(prefix, x, j);
  }

  /** Sorting one more element of the input is one more insertion. */
  lemma SortByScoreSnoc(s: seq<Scored>, i: nat)
    requires i < |s|
    ensures SortByScore(s[..i + 1]) == Insert(SortByScore(s[..i]), s[i])
  {
    assert s[..i + 1][..i] == s[..i];
  }

  /** The untouched suffix of the array still starts with the next element. */
  lemma SuffixStep(b: seq<Scored>, o: seq<Scored>, i: nat)
    requires i < |b| == |o|
    requires b[i..] == o[i..]
    ensures b[i] == o[i]
    ensures b[i + 1..] == o[i + 1..]
  {
    assert b[i] == b[i..][0];
    assert b[i + 1..] == b[i..][1..];
    assert o[i + 1..] == o[i..][1..];
  }

  /** Stable in-place sort by ascending score. */
  method SortInPlace(a: array<Scored>)
    modifies a
    ensures a[..] == SortByScore(old(a[..]))
  {
    ghost var o := a[..];
    var i := 0;
    while i < a.Length
      invariant 0 <= i <= a.Length
      invariant a[..i] == SortByScore(o[..i])
      invariant a[i..] == o[i..]
    {
      ghost var before := a[..];
      SuffixStep(before, o, i);
      InsertIntoPrefix(a, i);
      SortByScoreSnoc(o, i);
      i := i + 1;
    }
    assert a[..] == a[..a.Length];
    assert o[..a.Length] == o;
  }

  /* ---------------- Ranking ---------------- */

  /** Each candidate with its score against the base, in input order. */
  function ScoreAll(base: Row, candidates: seq<Row>): seq<Scored> {
    seq(|candidates|, k requires 0 <= k < |candidates| =>
      Scored(candidates[k],
             ComputeSimilarityScore(MapDbRowToFeatures(base), MapDbRowToFeatures(candidates[k]))))
  }

  /** Scores every candidate against the base and returns them all, best
      first. Nothing is dropped or deduplicated; ties keep input order. */
  method RankCandidatesForTrack(base: Row, candidates: seq<Row>) returns (ranked: seq<Scored>)
    ensures ranked == SortByScore(ScoreAll(base, candidates))
    ensures |ranked| == |candidates|
    ensures SortedByScore(ranked)
    ensures multiset(ranked) == multiset(ScoreAll(base, candidates))
    ensures forall v :: WithScore(ranked, v) == WithScore(ScoreAll(base, candidates), v)
    ensures forall k :: 0 <= k < |ranked| ==> ranked[k].similarityScore >= 0.0
  {
    var baseFeatures := MapDbRowToFeatures(base);
    var scored := new Scored[|candidates|];
    for i := 0 to |candidates|
      invariant scored[..i] == ScoreAll(base, candidates)[..i]
    {
      var candFeatures := MapDbRowToFeatures(candidates[i]);
      var similarityScore := ComputeSimilarityScore(baseFeatures, candFeatures);
      scored[i] := Scored(candidates[i], similarityScore);
    }
    assert scored[..] == ScoreAll(base, candidates);
    SortInPlace(scored);
    ranked := scored[..];
    forall v ensures WithScore(ranked, v) == WithScore(ScoreAll(base, candidates), v) {
      SortByScoreStable(ScoreAll(base, candidates), v);
    }
    forall k | 0 <= k < |ranked| ensures ranked[k].similarityScore >= 0.0 {
      assert ranked[k] in multiset(ScoreAll(base, candidates));
    }
  }

  /** How many recommendations the mix endpoint keeps. */
  const TopN: nat := 10

  /** The first `n` entries of a ranking (all of them if there are fewer). */
  function Take(ranked: seq<Scored>, n: nat): (r: seq<Scored>)
    ensures |r| == if n < |ranked| then n else |ranked|
    ensures r == ranked[..|r|]
    ensures SortedByScore(ranked) ==>
              SortedByScore(r) &&
              forall i, j :: 0 <= i < |r| <= j < |ranked| ==> r[i].similarityScore <= ranked[j].similarityScore
  {
    if n < |ranked| then ranked[..n] else ranked
  }

  /** The mix recommendations for a base track: every candidate ranked,
      then the best `TopN` kept. */
  method Recommend(base: Row, candidates: seq<Row>) returns (recommendations: seq<Scored>)
    ensures recommendations == Take(SortByScore(ScoreAll(base, candidates)), TopN)
    ensures candidates == [] ==> recommendations == []
    ensures |recommendations| == if TopN < |candidates| then TopN else |candidates|
    ensures SortedByScore(recommendations)
    ensures forall i, j :: 0 <= i < |recommendations| && |recommendations| <= j < |candidates| ==>
              recommendations[i].similarityScore <= SortByScore(ScoreAll(base, candidates))[j].similarityScore
    ensures forall k :: 0 <= k < |recommendations| ==> recommendations[k] in multiset(ScoreAll(base, candidates))
  {
    if |candidates| == 0 {
      return [];
    }
    var ranked := RankCandidatesForTrack(base, candidates);
    recommendations := Take(ranked, TopN);
    forall k | 0 <= k < |recommendations|
      ensures recommendations[k] in multiset(ScoreAll(base, candidates))
    {
      InMultiset(ranked, k);
    }
  }

  /** Two entries with different scores come out of the sort lower first,
      whatever their input order. */
  lemma SortPair(lo: Scored, hi: Scored)
    requires lo.similarityScore < hi.similarityScore
    ensures SortByScore([lo, hi]) == [lo, hi]
    ensures SortByScore([hi, lo]) == [lo, hi]
  {
    assert [lo, hi][..1] == [lo];
    assert [hi, lo][..1] == [hi];
  }

  /** An entry of a sequence is in its multiset. */
  lemma InMultiset(s: seq<Scored>, k: nat)
    requires k < |s|
    ensures s[k] in multiset(s)
  {
  }

  /** Between two candidates, the one with the strictly lower score is
      ranked first whatever their input order. */
  lemma LowerScoreRanksFirst(base: Row, a: Row, b: Row)
    requires ComputeSimilarityScore(MapDbRowToFeatures(base), MapDbRowToFeatures(a))
           < ComputeSimilarityScore(MapDbRowToFeatures(base), MapDbRowToFeatures(b))
    ensures SortByScore(ScoreAll(base, [a, b]))[0].row == a
    ensures SortByScore(ScoreAll(base, [b, a]))[0].row == a
  {
    ScoreAllPair(base, a, b);
    ScoreAllPair(base, b, a);
    SortPair(ScoreAll(base, [a, b])[0], ScoreAll(base, [a, b])[1]);
  }

  /** Scoring two candidates gives them in input order with their scores. */
  lemma ScoreAllPair(base: Row, a: Row, b: Row)
    ensures ScoreAll(base, [a, b]) == [ScoreAll(base, [a])[0], ScoreAll(base, [b])[0]]
    ensures ScoreAll(base, [a])[0].row == a
    ensures ScoreAll(base, [a])[0].similarityScore ==
              ComputeSimilarityScore(MapDbRowToFeatures(base), MapDbRowToFeatures(a))
  {
  }
}
