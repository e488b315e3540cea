/**
 * `cosine_similarity`: the cosine of two sparse rating vectors, taken over
 * the items both users rated (their common support) only. Ratings are exact
 * reals; `math.sqrt` is a parameter, and the lemmas that need its meaning ask
 * for `IsSqrt`.
 */
module Similarity {
  import opened Dicts

  /** A movie identifier, as the catalog and the rating tables spell it. */
  type ItemId = string

  /** One user's ratings: movie id to rating, in insertion order. */
  type Ratings = Dict<ItemId, real>

  /** The element of a non-empty set that a set iteration takes next. */
  ghost function Pick<T>(s: set<T>): T
    requires s != {}
  {
    var x :| x in s; x
  }

  /**
   * The product of two ratings. Sums of products are written with `Mul` so
   * that facts about a square `Mul(x, x)` can be stated once and reused.
   */
  function Mul(x: real, y: real): real {
    x * y
  }

  /** The sum of `a[k] * b[k]` over the keys in `keys`. */
  ghost function DotOver(a: map<ItemId, real>, b: map<ItemId, real>, keys: set<ItemId>): real
    requires keys <= a.Keys && keys <= b.Keys
    decreases keys
  {
    if keys == {} then 0.0
    else
      var k := Pick(keys);
      Mul(a[k], b[k]) + DotOver(a, b, keys - {k})
  }

  /** The sum over a set does not depend on which element the iteration takes first. */
  lemma DotOverRemove(a: map<ItemId, real>, b: map<ItemId, real>, keys: set<ItemId>, k: ItemId)
    requires keys <= a.Keys && keys <= b.Keys && k in keys
    ensures DotOver(a, b, keys) == Mul(a[k], b[k]) + DotOver(a, b, keys - {k})
    decreases keys
  {
    var j := Pick(keys);
    if j != k {
      DotOverRemove(a, b, keys - {j}, k);
      assert keys - {j} - {k} == keys - {k} - {j};
      DotOverRemove(a, b, keys - {k}, j);
    }
  }

  /** One more common movie adds its terms to the dot product and to both sums of squares. */
  lemma SumsAdd(a: map<ItemId, real>, b: map<ItemId, real>, done: set<ItemId>, k: ItemId)
    requires done <= a.Keys && done <= b.Keys && k in a && k in b && k !in done
    ensures DotOver(a, b, done + {k}) == DotOver(a, b, done) + a[k] * b[k]
    ensures DotOver(a, a, done + {k}) == DotOver(a, a, done) + a[k] * a[k]
    ensures DotOver(b, b, done + {k}) == DotOver(b, b, done) + b[k] * b[k]
  {
    assert (done + {k}) - {k} == done;
    DotOverRemove(a, b, done + {k}, k);
    DotOverRemove(a, a, done + {k}, k);
    DotOverRemove(b, b, done + {k}, k);
  }

  /** `sqrt` is the non-negative square root on the non-negative reals. */
  ghost predicate IsSqrt(sqrt: real -> real) {
    forall x :: 0.0 <= x ==> 0.0 <= sqrt(x) && Mul(sqrt(x), sqrt(x)) == x
  }

  /**
   * The tail of `cosine_similarity` once the three sums are known: 0 if either
   * norm is 0, and otherwise the dot product over the product of the norms.
   */
  ghost function Normalized(dot: real, sum1: real, sum2: real, sqrt: real -> real): real {
    var norm1 := sqrt(sum1);
    var norm2 := sqrt(sum2);
    if norm1 == 0.0 || norm2 == 0.0 then 0.0 else dot / (norm1 * norm2)
  }

  /**
   * The cosine similarity of two rating maps over their common support: 0 if
   * nothing is shared, and otherwise the normalized dot product of the
   * ratings of the shared movies.
   */
  ghost function Cosine(a: map<ItemId, real>, b: map<ItemId, real>, sqrt: real -> real): real {
    var common := a.Keys * b.Keys;
    if common == {} then 0.0
    else Normalized(DotOver(a, b, common), DotOver(a, a, common), DotOver(b, b, common), sqrt)
  }

  /**
   * The loop of `cosine_similarity`: it walks the common movies in the order
   * set iteration gives them and accumulates the dot product and the two
   * sums of squares.
   */
  method CosineSimilarity(ratings1: Ratings, ratings2: Ratings, sqrt: real -> real) returns (similarity: real)
    ensures similarity == Cosine(ratings1.entries, ratings2.entries, sqrt)
    ensures ratings1.entries.Keys !! ratings2.entries.Keys ==> similarity == 0.0
  {
    var a, b := ratings1.entries, ratings2.entries;
    var commonMovies := a.Keys * b.Keys;
    if commonMovies == {} {
      return 0.0;
    }
    var dotProduct, sum1, sum2 := 0.0, 0.0, 0.0;
    var remaining := commonMovies;
    ghost var done: set<ItemId> := {};
    while remaining != {}
      invariant done <= commonMovies && remaining == commonMovies - done
      invariant dotProduct == DotOver(a, b, done)
      invariant sum1 == DotOver(a, a, done)
      invariant sum2 == DotOver(b, b, done)
      decreases remaining
    {
      var movie :| movie in remaining;
      var r1, r2 := a[movie], b[movie];
      dotProduct := dotProduct + r1 * r2;
      sum1 := sum1 + r1 * r1;
      sum2 := sum2 + r2 * r2;
      SumsAdd(a, b, done, movie);
      done := done + {movie};
      remaining := remaining - {movie};
    }
    assert done == commonMovies;
    var norm1 := sqrt(sum1);
    var norm2 := sqrt(sum2);
    if norm1 == 0.0 || norm2 == 0.0 {
      return 0.0;
    }
    similarity := dotProduct / (norm1 * norm2);
  }

  lemma {:induction false} DotOverSymmetric(a: map<ItemId, real>, b: map<ItemId, real>, keys: set<ItemId>)
    requires keys <= a.Keys && keys <= b.Keys
    ensures DotOver(a, b, keys) == DotOver(b, a, keys)
    decreases keys
  {
    if keys != {} {
      DotOverSymmetric(a, b, keys - {Pick(keys)});
    }
  }

  /** Swapping the arguments keeps the dot product and swaps the two sums, so the similarity is symmetric. */
  lemma CosineSymmetric(a: map<ItemId, real>, b: map<ItemId, real>, sqrt: real -> real)
    ensures Cosine(a, b, sqrt) == Cosine(b, a, sqrt)
  {
    var common := a.Keys * b.Keys;
    assert b.Keys * a.Keys == common;
    if common != {} {
      DotOverSymmetric(a, b, common);
      var norm1 := sqrt(DotOver(a, a, common));
      var norm2 := sqrt(DotOver(b, b, common));
      assert norm1 * norm2 == norm2 * norm1;
    }
  }

  lemma MulPositive(x: real, y: real)
    requires x > 0.0 && y > 0.0
    ensures Mul(x, y) > 0.0
  {
  }

  lemma MulNonNegative(x: real, y: real)
    requires x >= 0.0 && y >= 0.0
    ensures Mul(x, y) >= 0.0
  {
  }

  lemma MulNegate(x: real, y: real)
    ensures Mul(-x, -y) == Mul(x, y)
  {
  }

  lemma SquarePositive(x: real)
    requires x != 0.0
    ensures Mul(x, x) > 0.0
  {
    if x > 0.0 {
      MulPositive(x, x);
    } else {
      MulPositive(-x, -x);
      MulNegate(x, x);
    }
  }

  lemma SquareNonNegative(x: real)
    ensures Mul(x, x) >= 0.0
  {
    if x != 0.0 {
      SquarePositive(x);
    }
  }

  lemma DifferenceOfSquares(p: real, q: real)
    ensures Mul(q - p, q + p) == Mul(q, q) - Mul(p, p)
  {
  }

  /** Of two numbers the first of which is non-negative, the one with the smaller square is the smaller. */
  lemma SquareMonotone(p: real, q: real)
    requires p >= 0.0 && Mul(q, q) <= Mul(p, p)
    ensures q <= p
  {
    if q > p {
      MulPositive(q - p, q + p);
      DifferenceOfSquares(p, q);
    }
  }

  /** A sum of squares is non-negative, and positive once one of its terms is non-zero. */
  lemma {:induction false} SquaresNonNegative(a: map<ItemId, real>, keys: set<ItemId>)
    requires keys <= a.Keys
    ensures DotOver(a, a, keys) >= 0.0
    ensures (exists k :: k in keys && a[k] != 0.0) ==> DotOver(a, a, keys) > 0.0
    decreases keys
  {
    if keys != {} {
      var j := Pick(keys);
      SquaresNonNegative(a, keys - {j});
      SquareNonNegative(a[j]);
      if exists k :: k in keys && a[k] != 0.0 {
        var k :| k in keys && a[k] != 0.0;
        DotOverRemove(a, a, keys, k);
        SquaresNonNegative(a, keys - {k});
        SquarePositive(a[k]);
      }
    }
  }

  /** Over non-negative ratings the dot product is non-negative. */
  lemma {:induction false} DotOverNonNegative(a: map<ItemId, real>, b: map<ItemId, real>, keys: set<ItemId>)
    requires keys <= a.Keys && keys <= b.Keys
    requires forall k :: k in keys ==> a[k] >= 0.0 && b[k] >= 0.0
    ensures DotOver(a, b, keys) >= 0.0
    decreases keys
  {
    if keys != {} {
      var j := Pick(keys);
      DotOverNonNegative(a, b, keys - {j});
      MulNonNegative(a[j], b[j]);
    }
  }

  /** The square root is 0 exactly at 0, and positive elsewhere. */
  lemma SqrtZero(sqrt: real -> real, x: real)
    requires IsSqrt(sqrt) && x >= 0.0
    ensures sqrt(x) >= 0.0
    ensures sqrt(x) == 0.0 <==> x == 0.0
  {
    var y := sqrt(x);
    assert Mul(y, y) == x;
    if y != 0.0 {
      SquarePositive(y);
    }
  }

  /** Dividing by a positive number keeps the sign, and zero only stays zero. */
  lemma DivSign(d: real, p: real)
    requires p > 0.0
    ensures d / p == 0.0 <==> d == 0.0
    ensures d >= 0.0 ==> d / p >= 0.0
  {
  }

  /**
   * The similarity is 0 exactly when nothing is shared, when the sum of
   * squares of either side over the shared movies is 0, or when the dot
   * product over them is 0.
   */
  lemma CosineZero(a: map<ItemId, real>, b: map<ItemId, real>, sqrt: real -> real)
    requires IsSqrt(sqrt)
    ensures a.Keys !! b.Keys ==> Cosine(a, b, sqrt) == 0.0
    ensures var common := a.Keys * b.Keys;
      Cosine(a, b, sqrt) == 0.0 <==>
        || common == {}
        || DotOver(a, a, common) == 0.0
        || DotOver(b, b, common) == 0.0
        || DotOver(a, b, common) == 0.0
  {
    var common := a.Keys * b.Keys;
    if common != {} {
      var s1, s2 := DotOver(a, a, common), DotOver(b, b, common);
      SquaresNonNegative(a, common);
      SquaresNonNegative(b, common);
      SqrtZero(sqrt, s1);
      SqrtZero(sqrt, s2);
      var n1, n2 := sqrt(s1), sqrt(s2);
      if n1 != 0.0 && n2 != 0.0 {
        MulPositive(n1, n2);
        DivSign(DotOver(a, b, common), n1 * n2);
      }
    }
    DisjointCommon(a, b);
  }

  /** Two key sets are disjoint exactly when their intersection is empty. */
  lemma DisjointCommon(a: map<ItemId, real>, b: map<ItemId, real>)
    ensures a.Keys !! b.Keys <==> a.Keys * b.Keys == {}
  {
    if a.Keys * b.Keys == {} {
      forall k | k in a.Keys
        ensures k !in b.Keys
      {
        assert k !in a.Keys * b.Keys;
      }
    }
  }

  /** A vector with a non-zero rating is perfectly similar to itself. */
  lemma CosineSelf(a: map<ItemId, real>, sqrt: real -> real)
    requires IsSqrt(sqrt)
    requires exists k :: k in a && a[k] != 0.0
    ensures Cosine(a, a, sqrt) == 1.0
  {
    var common := a.Keys * a.Keys;
    assert common == a.Keys;
    var s := DotOver(a, a, common);
    SquaresNonNegative(a, common);
    SqrtZero(sqrt, s);
    var n := sqrt(s);
    assert Mul(n, n) == s;
    DivSelf(s, n);
  }

  lemma DivSelf(s: real, n: real)
    requires s > 0.0 && Mul(n, n) == s
    ensures s / (n * n) == 1.0
  {
  }

  lemma StepIdentity(x: real, y: real, d: real, s1: real, s2: real)
    ensures Mul(Mul(x, x) + s1, Mul(y, y) + s2) - Mul(Mul(x, y) + d, Mul(x, y) + d)
         == (x * x * s2 + y * y * s1) - 2.0 * x * y * d + (Mul(s1, s2) - Mul(d, d))
  {
  }

  lemma CrossIdentity(x: real, y: real, d: real, s1: real, s2: real)
    ensures Mul(x * x * s2 + y * y * s1, x * x * s2 + y * y * s1) - Mul(2.0 * x * y * d, 2.0 * x * y * d)
         == Mul(x * x * s2 - y * y * s1, x * x * s2 - y * y * s1) + 4.0 * Mul(Mul(x, y), Mul(x, y)) * (Mul(s1, s2) - Mul(d, d))
  {
  }

  /** The inductive step of the Cauchy-Schwarz inequality: adding one term to each sum keeps it. */
  lemma CauchySchwarzStep(x: real, y: real, d: real, s1: real, s2: real)
    requires s1 >= 0.0 && s2 >= 0.0 && Mul(d, d) <= Mul(s1, s2)
    ensures Mul(Mul(x, y) + d, Mul(x, y) + d) <= Mul(Mul(x, x) + s1, Mul(y, y) + s2)
  {
    var p := x * x * s2 + y * y * s1;
    var q := 2.0 * x * y * d;
    assert p >= 0.0 by {
      SquareNonNegative(x);
      SquareNonNegative(y);
      MulNonNegative(x * x, s2);
      MulNonNegative(y * y, s1);
    }
    CrossIdentity(x, y, d, s1, s2);
    SquareNonNegative(x * x * s2 - y * y * s1);
    SquareNonNegative(Mul(x, y));
    MulNonNegative(Mul(Mul(x, y), Mul(x, y)), Mul(s1, s2) - Mul(d, d));
    SquareMonotone(p, q);
    StepIdentity(x, y, d, s1, s2);
  }

  /** Cauchy-Schwarz over a set of keys: the squared dot product is at most the product of the sums of squares. */
  lemma {:induction false} CauchySchwarz(a: map<ItemId, real>, b: map<ItemId, real>, keys: set<ItemId>)
    requires keys <= a.Keys && keys <= b.Keys
    ensures Mul(DotOver(a, b, keys), DotOver(a, b, keys)) <= Mul(DotOver(a, a, keys), DotOver(b, b, keys))
    decreases keys
  {
    if keys != {} {
      var k := Pick(keys);
      var rest := keys - {k};
      CauchySchwarz(a, b, rest);
      SquaresNonNegative(a, rest);
      SquaresNonNegative(b, rest);
      CauchySchwarzStep(a[k], b[k], DotOver(a, b, rest), DotOver(a, a, rest), DotOver(b, b, rest));
    } else {
      assert Mul(0.0, 0.0) == 0.0;
    }
  }

  /** A ratio whose square is at most 1 lies in [-1, 1]. */
  lemma RatioBound(d: real, p: real)
    requires p > 0.0 && Mul(d, d) <= Mul(p, p)
    ensures -1.0 <= d / p <= 1.0
  {
    SquareMonotone(p, d);
    MulNegate(d, d);
    SquareMonotone(p, -d);
    DivBound(d, p);
  }

  lemma DivBound(d: real, p: real)
    requires p > 0.0 && -p <= d <= p
    ensures -1.0 <= d / p <= 1.0
  {
  }

  lemma NormsProduct(n1: real, n2: real)
    ensures Mul(n1 * n2, n1 * n2) == Mul(Mul(n1, n1), Mul(n2, n2))
  {
  }

  /** The normalized dot product lies in [-1, 1] when the sums satisfy Cauchy-Schwarz, and is non-negative with the dot product. */
  lemma NormalizedBounds(d: real, s1: real, s2: real, sqrt: real -> real)
    requires IsSqrt(sqrt) && s1 >= 0.0 && s2 >= 0.0
    requires Mul(d, d) <= Mul(s1, s2)
    ensures -1.0 <= Normalized(d, s1, s2, sqrt) <= 1.0
    ensures d >= 0.0 ==> Normalized(d, s1, s2, sqrt) >= 0.0
  {
    var n1, n2 := sqrt(s1), sqrt(s2);
    if n1 != 0.0 && n2 != 0.0 {
      SqrtZero(sqrt, s1);
      SqrtZero(sqrt, s2);
      MulPositive(n1, n2);
      NormsProduct(n1, n2);
      RatioBound(d, n1 * n2);
      DivSign(d, n1 * n2);
      assert Normalized(d, s1, s2, sqrt) == d / (n1 * n2);
    }
  }

  /** The similarity is a cosine: it lies in [-1, 1], and in [0, 1] when no rating is negative. */
  lemma CosineBounds(a: map<ItemId, real>, b: map<ItemId, real>, sqrt: real -> real)
    requires IsSqrt(sqrt)
    ensures -1.0 <= Cosine(a, b, sqrt) <= 1.0
    ensures (forall k :: k in a ==> a[k] >= 0.0) && (forall k :: k in b ==> b[k] >= 0.0) ==>
              0.0 <= Cosine(a, b, sqrt)
  {
    var common := a.Keys * b.Keys;
    if common != {} {
      SquaresNonNegative(a, common);
      SquaresNonNegative(b, common);
      CauchySchwarz(a, b, common);
      if (forall k :: k in a ==> a[k] >= 0.0) && (forall k :: k in b ==> b[k] >= 0.0) {
        DotOverNonNegative(a, b, common);
      }
      NormalizedBounds(DotOver(a, b, common), DotOver(a, a, common), DotOver(b, b, common), sqrt);
    }
  }
}
