/**
 * Ranking of scored pairs as the recommender does it twice:
 * `sorted(pairs, key=score, reverse=True)[:n]`. Python's sort is stable and
 * `reverse=True` keeps equal elements in their original order, so the order of
 * the input decides ties. `SortDesc` is an insertion sort with that behaviour.
 */
module Ranking {
  import opened Dicts

  /** Scores never increase along `s`. */
  ghost predicate NonIncreasing<K>(s: seq<(K, real)>) {
    forall i, j :: 0 <= i < j < |s| ==> s[i].1 >= s[j].1
  }

  /** The elements of `s` whose score is `v`, in their order in `s`. */
  ghost function WithScore<K>(s: seq<(K, real)>, v: real): seq<(K, real)> {
    if |s| == 0 then [] else (if s[0].1 == v then [s[0]] else []) + WithScore(s[1..], v)
  }

  /** Insert `x` into a non-increasing `s` after every element that scores at least as much. */
  function Insert<K>(x: (K, real), s: seq<(K, real)>): (r: seq<(K, real)>)
    ensures |r| == |s| + 1
    ensures multiset(r) == multiset(s) + multiset{x}
  {
    if |s| == 0 then [x]
    else if s[0].1 >= x.1 then
      var r := [s[0]] + Insert(x, s[1..]);
      assert s == [s[0]] + s[1..];
      r
    else [x] + s
  }

  /** `sorted(s, key=score, reverse=True)`: non-increasing by score, a permutation of `s`. */
  function SortDesc<K>(s: seq<(K, real)>): (r: seq<(K, real)>)
    ensures |r| == |s|
    ensures multiset(r) == multiset(s)
    ensures NonIncreasing(r)
  {
    if |s| == 0 then []
    else
      var n := |s| - 1;
      assert s == s[..n] + [s[n]];
      InsertNonIncreasing(s[n], SortDesc(s[..n]));
      Insert(s[n], SortDesc(s[..n]))
  }

  lemma {:induction false} InsertNonIncreasing<K>(x: (K, real), s: seq<(K, real)>)
    requires NonIncreasing(s)
    ensures NonIncreasing(Insert(x, s))
  {
    var r := Insert(x, s);
    if |s| > 0 && s[0].1 >= x.1 {
      var rest := Insert(x, s[1..]);
      InsertNonIncreasing(x, s[1..]);
      assert r == [s[0]] + rest;
      forall j | 0 <= j < |rest| ensures rest[j].1 <= s[0].1 {
        assert rest[j] in multiset(rest);
        if rest[j] != x {
          assert rest[j] in multiset(s[1..]);
        }
      }
    } else if |s| > 0 {
      assert r == [x] + s;
    }
  }

  /** The slice `s[:n]` for a non-negative bound. */
  function Take<T>(s: seq<T>, n: nat): (r: seq<T>)
    ensures |r| == if n <= |s| then n else |s|
    ensures r == s[..|r|]
  {
    if n <= |s| then s[..n] else s
  }

  /** `sorted(s, key=score, reverse=True)[:n]`. */
  function TopN<K>(s: seq<(K, real)>, n: nat): seq<(K, real)> {
    Take(SortDesc(s), n)
  }

  lemma {:induction false} WithScoreConcat<K>(s: seq<(K, real)>, t: seq<(K, real)>, v: real)
    ensures WithScore(s + t, v) == WithScore(s, v) + WithScore(t, v)
  {
    if |s| > 0 {
      assert (s + t)[1..] == s[1..] + t;
      WithScoreConcat(s[1..], t, v);
    } else {
      assert s + t == t;
    }
  }

  lemma {:induction false} WithScoreAbsent<K>(s: seq<(K, real)>, v: real)
    requires forall i :: 0 <= i < |s| ==> s[i].1 != v
    ensures WithScore(s, v) == []
  {
    if |s| > 0 {
      WithScoreAbsent(s[1..], v);
    }
  }

  lemma {:induction false} InsertWithScore<K>(x: (K, real), s: seq<(K, real)>, v: real)
    requires NonIncreasing(s)
    ensures WithScore(Insert(x, s), v) == WithScore(s, v) + (if x.1 == v then [x] else [])
  {
    if |s| == 0 {
      assert Insert(x, s) == [x];
      assert WithScore([x], v) == (if x.1 == v then [x] else []) + WithScore([], v);
    } else if s[0].1 >= x.1 {
      InsertWithScore(x, s[1..], v);
      InsertBehindWithScore(x, s, v);
    } else {
      InsertInFrontWithScore(x, s, v);
    }
  }

  lemma InsertBehindWithScore<K>(x: (K, real), s: seq<(K, real)>, v: real)
    requires |s| > 0 && s[0].1 >= x.1
    requires WithScore(Insert(x, s[1..]), v) == WithScore(s[1..], v) + (if x.1 == v then [x] else [])
    ensures WithScore(Insert(x, s), v) == WithScore(s, v) + (if x.1 == v then [x] else [])
  {
    var rest := Insert(x, s[1..]);
    assert Insert(x, s) == [s[0]] + rest;
    WithScoreCons(s[0], rest, v);
    WithScoreCons(s[0], s[1..], v);
    assert s == [s[0]] + s[1..];
  }

  lemma WithScoreCons<K>(x: (K, real), s: seq<(K, real)>, v: real)
    ensures WithScore([x] + s, v) == (if x.1 == v then [x] else []) + WithScore(s, v)
  {
    assert ([x] + s)[0] == x && ([x] + s)[1..] == s;
  }

  lemma InsertInFrontWithScore<K>(x: (K, real), s: seq<(K, real)>, v: real)
    requires NonIncreasing(s)
    requires |s| > 0 && s[0].1 < x.1
    ensures WithScore(Insert(x, s), v) == WithScore(s, v) + (if x.1 == v then [x] else [])
  {
    var r := Insert(x, s);
    assert r == [x] + s;
    assert r[0] == x && r[1..] == s;
    assert WithScore(r, v) == (if x.1 == v then [x] else []) + WithScore(s, v);
    if x.1 == v {
      WithScoreAbsent(s, v);
    }
  }

  /** Stability: for every score, the elements with that score keep their relative order. */
  lemma {:induction false} SortDescStable<K>(s: seq<(K, real)>, v: real)
    ensures WithScore(SortDesc(s), v) == WithScore(s, v)
  {
    if |s| > 0 {
      var n := |s| - 1;
      var x, pre := s[n], s[..n];
      var t := SortDesc(pre);
      var tail: seq<(K, real)> := if x.1 == v then [x] else [];
      assert SortDesc(s) == Insert(x, t);
      SortDescStable(pre, v);
      InsertWithScore(x, t, v);
      assert s == pre + [x];
      WithScoreConcat(pre, [x], v);
      WithScoreCons(x, [], v);
      assert [x] + [] == [x];
    }
  }

  lemma {:induction false} CountInDistinct<T>(s: seq<T>, x: T)
    requires Distinct(s)
    ensures multiset(s)[x] <= 1
  {
    if |s| > 0 {
      var n := |s| - 1;
      assert s == s[..n] + [s[n]];
      CountInDistinct(s[..n], x);
      if x == s[n] {
        assert x !in s[..n];
      }
    }
  }

  /** A permutation of a sequence whose keys are distinct has distinct keys too. */
  lemma PermutationKeepsKeysDistinct<K>(s: seq<(K, real)>, t: seq<(K, real)>)
    requires multiset(s) == multiset(t)
    requires Distinct(KeysOf(s))
    ensures Distinct(KeysOf(t))
  {
    forall i, j | 0 <= i < j < |t|
      ensures t[i].0 != t[j].0
    {
      if t[i].0 == t[j].0 {
        assert t[i] in multiset(s) && t[j] in multiset(s);
        var p :| 0 <= p < |s| && s[p] == t[i];
        var q :| 0 <= q < |s| && s[q] == t[j];
        assert KeysOf(s)[p] == KeysOf(s)[q];
        assert t[..j] + t[j..] == t;
        assert t[i] in multiset(t[..j]) && t[i] in multiset(t[j..]);
        assert multiset(t)[t[i]] >= 2;
        assert Distinct(s) by {
          forall a, b | 0 <= a < b < |s| ensures s[a] != s[b] {
            assert KeysOf(s)[a] != KeysOf(s)[b];
          }
        }
        CountInDistinct(s, t[i]);
        assert false;
      }
    }
  }

  /** Ties in the first `n` are the first elements of `s` with that score, in their order in `s`. */
  lemma TopNStable<K>(s: seq<(K, real)>, n: nat, v: real)
    ensures WithScore(TopN(s, n), v) <= WithScore(s, v)
  {
    var r := SortDesc(s);
    var t := TopN(s, n);
    assert r == t + r[|t|..];
    SortDescStable(s, v);
    WithScoreConcat(t, r[|t|..], v);
  }

  /** An element of `s` that is not among the first `n` scores no more than any of them. */
  lemma TopNCut<K>(s: seq<(K, real)>, n: nat, x: (K, real), i: nat)
    requires x in s && x !in TopN(s, n) && i < |TopN(s, n)|
    ensures x.1 <= TopN(s, n)[i].1
  {
    var r := SortDesc(s);
    var t := TopN(s, n);
    assert x in multiset(r);
    var j :| 0 <= j < |r| && r[j] == x;
    assert j >= |t| by {
      assert forall m :: 0 <= m < |t| ==> t[m] == r[m];
    }
  }

  lemma TopNDistinct<K>(s: seq<(K, real)>, n: nat)
    requires Distinct(KeysOf(s))
    ensures Distinct(KeysOf(TopN(s, n)))
  {
    var r := SortDesc(s);
    PermutationKeepsKeysDistinct(s, r);
    assert KeysOf(TopN(s, n)) == KeysOf(r)[..|TopN(s, n)|];
  }

  /**
   * What `sorted(s, key=score, reverse=True)[:n]` delivers: `min(n, |s|)`
   * elements of `s`, non-increasing by score; elements with equal scores are
   * the first ones of `s` with that score, in their order in `s`; every
   * element left out scores no more than every element kept; and distinct
   * keys stay distinct.
   */
  lemma TopNSpec<K>(s: seq<(K, real)>, n: nat)
    ensures |TopN(s, n)| == if n <= |s| then n else |s|
    ensures NonIncreasing(TopN(s, n))
    ensures multiset(TopN(s, n)) <= multiset(s)
    ensures forall v :: WithScore(TopN(s, n), v) <= WithScore(s, v)
    ensures forall x, i :: x in s && x !in TopN(s, n) && 0 <= i < |TopN(s, n)| ==> x.1 <= TopN(s, n)[i].1
    ensures Distinct(KeysOf(s)) ==> Distinct(KeysOf(TopN(s, n)))
  {
    var r := SortDesc(s);
    var t := TopN(s, n);
    assert r == t + r[|t|..];
    assert multiset(r) == multiset(t) + multiset(r[|t|..]);
    forall v ensures WithScore(t, v) <= WithScore(s, v) {
      TopNStable(s, n, v);
    }
    forall x, i | x in s && x !in t && 0 <= i < |t| ensures x.1 <= t[i].1 {
      TopNCut(s, n, x, i);
    }
    if Distinct(KeysOf(s)) {
      TopNDistinct(s, n);
    }
  }
}
