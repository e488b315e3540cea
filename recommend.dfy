/**
 * `recommend_movies`: the weighted scores of the movies the neighbours rated
 * and the target did not, ranked by a stable descending sort, cut to
 * `top_n_movies` and turned into titles.
 */
module Recommend {
  import opened Wrappers
  import opened Dicts
  import opened Ranking
  import opened Similarity
  import opened Neighbours

  /** Every user named in `neighbours` is a key of the store. */
  ghost predicate InStore(store: Store, neighbours: seq<(UserId, real)>) {
    forall i :: 0 <= i < |neighbours| ==> neighbours[i].0 in store.entries
  }

  /**
   * The additions one neighbour makes, in the order of its ratings:
   * `(movie, sim * rating)` for every movie the target has not rated.
   */
  ghost function RatedContributions(personal: Ratings, items: seq<(ItemId, real)>, sim: real): seq<(ItemId, real)> {
    if |items| == 0 then []
    else
      var n := |items| - 1;
      RatedContributions(personal, items[..n], sim) + Contribution(personal, items[n], sim)
  }

  /** The addition one rating makes: none for a movie the target rated, `(movie, sim * rating)` otherwise. */
  ghost function Contribution(personal: Ratings, item: (ItemId, real), sim: real): seq<(ItemId, real)> {
    if item.0 in personal.entries then [] else [(item.0, Mul(sim, item.1))]
  }

  /** The additions to `scores`, in the order the two nested loops make them. */
  ghost function Contributions(personal: Ratings, store: Store, neighbours: seq<(UserId, real)>): seq<(ItemId, real)>
    requires ValidStore(store) && InStore(store, neighbours)
  {
    if |neighbours| == 0 then []
    else
      var n := |neighbours| - 1;
      Contributions(personal, store, neighbours[..n]) + RatedContributions(personal, store.entries[neighbours[n].0].Items(), neighbours[n].1)
  }

  /**
   * `if movie not in scores: scores[movie] = 0`, then `scores[movie] += weight`,
   * written out on the two fields: a new movie goes to the end of the order.
   * Spelling it out instead of composing two `Put`s keeps the proofs about
   * `Accumulate` free of the `Valid` premise each `Put` unfolds to;
   * `AddWeight` does the two `Put`s and is proved equal to this.
   */
  ghost function AddScore(scores: Dict<ItemId, real>, movie: ItemId, weight: real): (r: Dict<ItemId, real>)
    requires scores.Valid()
    ensures r.Valid()
  {
    if movie in scores.entries then Dict(scores.keys, scores.entries[movie := scores.entries[movie] + weight])
    else Dict(scores.keys + [movie], scores.entries[movie := 0.0 + weight])
  }

  /** The score dictionary after making the additions of `ps` one after the other. */
  ghost function Accumulate(ps: seq<(ItemId, real)>): (d: Dict<ItemId, real>)
    ensures d.Valid()
  {
    if |ps| == 0 then Empty()
    else
      var n := |ps| - 1;
      AddScore(Accumulate(ps[..n]), ps[n].0, ps[n].1)
  }

  /** The total weight the additions of `ps` give to `movie`. */
  ghost function SumFor(ps: seq<(ItemId, real)>, movie: ItemId): real {
    if |ps| == 0 then 0.0
    else
      var n := |ps| - 1;
      SumFor(ps[..n], movie) + (if ps[n].0 == movie then ps[n].1 else 0.0)
  }

  /** The sum of `sim * user_ratings[u][movie]` over the neighbours `(u, sim)` that rated `movie`. */
  ghost function WeightedSum(store: Store, neighbours: seq<(UserId, real)>, movie: ItemId): real
    requires InStore(store, neighbours)
  {
    if |neighbours| == 0 then 0.0
    else
      var n := |neighbours| - 1;
      var ratings := store.entries[neighbours[n].0].entries;
      WeightedSum(store, neighbours[..n], movie) + (if movie in ratings then Mul(neighbours[n].1, ratings[movie]) else 0.0)
  }

  /** The `scores` dictionary `recommend_movies` builds from the neighbours. */
  ghost function Scores(personal: Ratings, store: Store, neighbours: seq<(UserId, real)>): Dict<ItemId, real>
    requires ValidStore(store) && InStore(store, neighbours)
  {
    Accumulate(Contributions(personal, store, neighbours))
  }

  /** `sorted(scores.items(), key=score, reverse=True)[:n]`. */
  function Ranked(scores: Dict<ItemId, real>, n: nat): seq<(ItemId, real)>
    requires scores.Valid()
  {
    TopN(scores.Items(), n)
  }

  /**
   * `[(movies[movie_id], score) for movie_id, score in ranked]`: the titles
   * in rank order, or the first movie id the catalog lacks, where the
   * comprehension raises `KeyError`.
   */
  function Titles(ranked: seq<(ItemId, real)>, movies: map<ItemId, string>): (r: Result<seq<(string, real)>, ItemId>)
    ensures r.Ok? <==> forall i :: 0 <= i < |ranked| ==> ranked[i].0 in movies
    ensures r.Ok? ==>
              && |r.value| == |ranked|
              && forall i :: 0 <= i < |ranked| ==> r.value[i] == (movies[ranked[i].0], ranked[i].1)
    ensures r.Err? ==>
              exists i :: 0 <= i < |ranked| && ranked[i].0 == r.error && r.error !in movies &&
                forall j :: 0 <= j < i ==> ranked[j].0 in movies
  {
    if |ranked| == 0 then Ok([])
    else if ranked[0].0 !in movies then Err(ranked[0].0)
    else
      match Titles(ranked[1..], movies)
      case Ok(rest) => Ok([(movies[ranked[0].0], ranked[0].1)] + rest)
      case Err(missing) =>
        var i :| 0 <= i < |ranked[1..]| && ranked[1..][i].0 == missing && missing !in movies &&
                 forall j :: 0 <= j < i ==> ranked[1..][j].0 in movies;
        assert ranked[i + 1].0 == missing;
        Err(missing)
  }

  lemma AccumulateAppend(ps: seq<(ItemId, real)>, movie: ItemId, weight: real)
    ensures Accumulate(ps + [(movie, weight)]) == AddScore(Accumulate(ps), movie, weight)
  {
    assert (ps + [(movie, weight)])[..|ps|] == ps;
  }

  lemma RatedContributionsAppend(personal: Ratings, items: seq<(ItemId, real)>, j: nat, sim: real)
    requires j < |items|
    ensures RatedContributions(personal, items[..j + 1], sim)
         == RatedContributions(personal, items[..j], sim) + Contribution(personal, items[j], sim)
  {
    assert items[..j + 1][..j] == items[..j];
  }

  lemma ContributionsAppend(personal: Ratings, store: Store, neighbours: seq<(UserId, real)>, i: nat)
    requires ValidStore(store) && InStore(store, neighbours) && i < |neighbours|
    ensures Contributions(personal, store, neighbours[..i + 1])
         == Contributions(personal, store, neighbours[..i])
            + RatedContributions(personal, store.entries[neighbours[i].0].Items(), neighbours[i].1)
  {
    assert neighbours[..i + 1][..i] == neighbours[..i];
  }

  /** The neighbours are users of the store. */
  lemma TopSimilarInStore(personal: Ratings, store: Store, topN: nat, sqrt: real -> real)
    requires store.Valid()
    ensures InStore(store, TopSimilar(personal, store, topN, sqrt))
  {
    TopSimilarScores(personal, store, topN, sqrt);
  }

  /**
   * `recommend_movies`: the neighbours, the nested loops over the neighbours
   * and their ratings, then the sort, the slice and the title lookup.
   * By default 5 neighbours are consulted and 10 movies returned.
   */
  method RecommendMovies(personalRatings: Ratings, userRatings: Store, movies: map<ItemId, string>,
                         sqrt: real -> real, topNUsers: nat := 5, topNMovies: nat := 10)
    returns (recommendations: Result<seq<(string, real)>, ItemId>)
    requires ValidStore(userRatings)
    ensures InStore(userRatings, TopSimilar(personalRatings, userRatings, topNUsers, sqrt))
    ensures recommendations
         == Titles(Ranked(Scores(personalRatings, userRatings, TopSimilar(personalRatings, userRatings, topNUsers, sqrt)), topNMovies), movies)
  {
    var similarUsers := TopSimilarUsers(personalRatings, userRatings, sqrt, topNUsers);
    TopSimilarInStore(personalRatings, userRatings, topNUsers, sqrt);
    var scores := ScoreNeighbours(personalRatings, userRatings, similarUsers);
    var recommended := SortDesc(scores.Items());
    recommendations := Titles(Take(recommended, topNMovies), movies);
  }

  /** The outer loop of `recommend_movies`, over the neighbours in rank order. */
  method ScoreNeighbours(personalRatings: Ratings, userRatings: Store, similarUsers: seq<(UserId, real)>)
    returns (scores: Dict<ItemId, real>)
    requires ValidStore(userRatings) && InStore(userRatings, similarUsers)
    ensures scores == Scores(personalRatings, userRatings, similarUsers)
  {
    scores := Empty();
    var i := 0;
    while i < |similarUsers|
      invariant 0 <= i <= |similarUsers|
      invariant scores == Accumulate(Contributions(personalRatings, userRatings, similarUsers[..i]))
    {
      var user, sim := similarUsers[i].0, similarUsers[i].1;
      var items := userRatings.entries[user].Items();
      ghost var before := Contributions(personalRatings, userRatings, similarUsers[..i]);
      scores := AddNeighbourScores(scores, personalRatings, items, sim, before);
      ContributionsAppend(personalRatings, userRatings, similarUsers, i);
      i := i + 1;
    }
    assert similarUsers[..i] == similarUsers;
  }

  /**
   * The inner loop of `recommend_movies`: one neighbour's ratings, in its
   * order, each movie the target has not rated adding `sim * rating`.
   */
  method AddNeighbourScores(scores: Dict<ItemId, real>, personalRatings: Ratings, items: seq<(ItemId, real)>, sim: real,
                            ghost before: seq<(ItemId, real)>)
    returns (updated: Dict<ItemId, real>)
    requires scores == Accumulate(before)
    ensures updated == Accumulate(before + RatedContributions(personalRatings, items, sim))
  {
    updated := scores;
    assert before + RatedContributions(personalRatings, items[..0], sim) == before;
    for j := 0 to |items|
      invariant updated == Accumulate(before + RatedContributions(personalRatings, items[..j], sim))
    {
      var movie, rating := items[j].0, items[j].1;
      if movie !in personalRatings.entries {
        ghost var previous := updated;
        updated := AddWeight(updated, movie, Mul(sim, rating));
        ScoreAdded(personalRatings, before, items, j, sim, previous);
      } else {
        ScoreSkipped(personalRatings, before, items, j, sim);
      }
    }
    assert items[..|items|] == items;
  }

  /** `if movie not in scores: scores[movie] = 0`, then `scores[movie] += weight`. */
  method AddWeight(scores: Dict<ItemId, real>, movie: ItemId, weight: real) returns (updated: Dict<ItemId, real>)
    requires scores.Valid()
    ensures updated == AddScore(scores, movie, weight)
  {
    updated := scores;
    if movie !in updated.entries {
      updated := updated.Put(movie, 0.0);
    }
    updated := updated.Put(movie, updated.entries[movie] + weight);
  }

  /** A movie the target rated leaves the scores as they are. */
  lemma ScoreSkipped(personal: Ratings, before: seq<(ItemId, real)>, items: seq<(ItemId, real)>, j: nat, sim: real)
    requires j < |items| && items[j].0 in personal.entries
    ensures before + RatedContributions(personal, items[..j + 1], sim) == before + RatedContributions(personal, items[..j], sim)
  {
    RatedContributionsAppend(personal, items, j, sim);
    assert RatedContributions(personal, items[..j], sim) + [] == RatedContributions(personal, items[..j], sim);
  }

  /** Any other movie adds `sim * rating` to its score. */
  lemma ScoreAdded(personal: Ratings, before: seq<(ItemId, real)>, items: seq<(ItemId, real)>, j: nat, sim: real,
                   previous: Dict<ItemId, real>)
    requires j < |items| && items[j].0 !in personal.entries
    requires previous == Accumulate(before + RatedContributions(personal, items[..j], sim))
    ensures AddScore(previous, items[j].0, Mul(sim, items[j].1))
         == Accumulate(before + RatedContributions(personal, items[..j + 1], sim))
  {
    var rated := RatedContributions(personal, items[..j], sim);
    var c := Contribution(personal, items[j], sim);
    RatedContributionsAppend(personal, items, j, sim);
    assert before + (rated + c) == (before + rated) + c;
    assert c == [(items[j].0, Mul(sim, items[j].1))];
    AccumulateAppend(before + rated, items[j].0, Mul(sim, items[j].1));
  }

  lemma SumForConcat(s: seq<(ItemId, real)>, t: seq<(ItemId, real)>, movie: ItemId)
    ensures SumFor(s + t, movie) == SumFor(s, movie) + SumFor(t, movie)
    decreases |t|
  {
    if |t| > 0 {
      var n := |t| - 1;
      assert (s + t)[..|s| + n] == s + t[..n];
      SumForConcat(s, t[..n], movie);
    } else {
      assert s + t == s;
    }
  }

  lemma {:induction false} SumForAbsent(ps: seq<(ItemId, real)>, movie: ItemId)
    requires movie !in KeysOf(ps)
    ensures SumFor(ps, movie) == 0.0
  {
    if |ps| > 0 {
      var n := |ps| - 1;
      assert KeysOf(ps[..n]) == KeysOf(ps)[..n];
      SumForAbsent(ps[..n], movie);
    }
  }

  /** Adding the weights of `ps` one by one keys the movies in the order they first occur in `ps`. */
  lemma {:induction false} AccumulateKeys(ps: seq<(ItemId, real)>)
    ensures FirstSeenOrder(Accumulate(ps).keys, KeysOf(ps))
  {
    if |ps| > 0 {
      var n := |ps| - 1;
      var pre := ps[..n];
      AccumulateKeys(pre);
      var d := Accumulate(pre);
      assert KeysOf(ps) == KeysOf(pre) + [ps[n].0];
      PutFirstSeen(d, KeysOf(pre), ps[n].0, 0.0);
      assert Accumulate(ps).keys == d.Put(ps[n].0, 0.0).keys;
    }
  }

  /** Adding the weights of `ps` one by one gives each movie the sum of its weights. */
  lemma {:induction false} AccumulateValues(ps: seq<(ItemId, real)>)
    ensures forall m :: m in Accumulate(ps).entries ==> Accumulate(ps).entries[m] == SumFor(ps, m)
  {
    if |ps| > 0 {
      var n := |ps| - 1;
      var pre := ps[..n];
      var movie := ps[n].0;
      AccumulateValues(pre);
      var d := Accumulate(pre);
      if movie !in d.entries {
        AccumulateKeys(pre);
        assert movie !in KeysOf(pre);
        SumForAbsent(pre, movie);
      }
    }
  }

  /** One neighbour adds the movies it rated that the target has not. */
  lemma {:induction false} RatedKeys(personal: Ratings, items: seq<(ItemId, real)>, sim: real, movie: ItemId)
    ensures movie in KeysOf(RatedContributions(personal, items, sim)) <==> movie !in personal.entries && movie in KeysOf(items)
  {
    if |items| > 0 {
      var n := |items| - 1;
      var pre := items[..n];
      RatedKeys(personal, pre, sim, movie);
      assert items == pre + [items[n]];
      KeysOfConcat(pre, [items[n]]);
      var c := Contribution(personal, items[n], sim);
      assert RatedContributions(personal, items, sim) == RatedContributions(personal, pre, sim) + c;
      KeysOfConcat(RatedContributions(personal, pre, sim), c);
      assert KeysOf(c) == if items[n].0 in personal.entries then [] else [items[n].0];
    }
  }

  lemma SumForContribution(personal: Ratings, item: (ItemId, real), sim: real, movie: ItemId)
    ensures SumFor(Contribution(personal, item, sim), movie)
         == if item.0 == movie && item.0 !in personal.entries then Mul(sim, item.1) else 0.0
  {
    var c := Contribution(personal, item, sim);
    if c != [] {
      assert c[..0] == [];
    }
  }

  /** One neighbour adds `sim` times its rating to each movie it rated that the target has not. */
  lemma {:induction false} RatedSum(personal: Ratings, d: Ratings, items: seq<(ItemId, real)>, sim: real, movie: ItemId)
    requires Distinct(KeysOf(items))
    requires forall i :: 0 <= i < |items| ==> items[i].0 in d.entries && items[i].1 == d.entries[items[i].0]
    ensures SumFor(RatedContributions(personal, items, sim), movie)
         == if movie !in personal.entries && movie in KeysOf(items) then Mul(sim, d.entries[movie]) else 0.0
  {
    if |items| > 0 {
      var n := |items| - 1;
      var pre := items[..n];
      assert items == pre + [items[n]];
      KeysOfConcat(pre, [items[n]]);
      RatedSum(personal, d, pre, sim, movie);
      var c := Contribution(personal, items[n], sim);
      assert RatedContributions(personal, items, sim) == RatedContributions(personal, pre, sim) + c;
      SumForConcat(RatedContributions(personal, pre, sim), c, movie);
      SumForContribution(personal, items[n], sim, movie);
      if items[n].0 == movie {
        assert movie !in KeysOf(pre);
      }
    }
  }

  /** Some neighbour of `neighbours` rated `movie`. */
  ghost predicate RatedBySome(store: Store, neighbours: seq<(UserId, real)>, movie: ItemId)
    requires InStore(store, neighbours)
  {
    exists i :: 0 <= i < |neighbours| && movie in store.entries[neighbours[i].0].entries
  }

  lemma RatedBySomeLast(store: Store, neighbours: seq<(UserId, real)>, movie: ItemId)
    requires InStore(store, neighbours) && |neighbours| > 0
    ensures InStore(store, neighbours[..|neighbours| - 1])
    ensures RatedBySome(store, neighbours, movie) <==>
              RatedBySome(store, neighbours[..|neighbours| - 1], movie) ||
              movie in store.entries[neighbours[|neighbours| - 1].0].entries
  {
    var n := |neighbours| - 1;
    if RatedBySome(store, neighbours, movie) {
      var i :| 0 <= i < |neighbours| && movie in store.entries[neighbours[i].0].entries;
      if i < n {
        assert neighbours[..n][i] == neighbours[i];
      }
    }
    if RatedBySome(store, neighbours[..n], movie) {
      var i :| 0 <= i < n && movie in store.entries[neighbours[..n][i].0].entries;
      assert neighbours[i] == neighbours[..n][i];
    }
  }

  /** The additions of the last neighbour come after those of the others. */
  lemma ContributionsLast(personal: Ratings, store: Store, neighbours: seq<(UserId, real)>)
    requires ValidStore(store) && InStore(store, neighbours) && |neighbours| > 0
    ensures InStore(store, neighbours[..|neighbours| - 1])
    ensures var n := |neighbours| - 1;
      var d := store.entries[neighbours[n].0];
      && d.Valid()
      && Distinct(KeysOf(d.Items()))
      && (forall i :: 0 <= i < |d.Items()| ==> d.Items()[i].0 in d.entries && d.Items()[i].1 == d.entries[d.Items()[i].0])
      && KeysOf(d.Items()) == d.keys
      && Contributions(personal, store, neighbours)
         == Contributions(personal, store, neighbours[..n]) + RatedContributions(personal, d.Items(), neighbours[n].1)
  {
    var n := |neighbours| - 1;
    assert InStore(store, neighbours[..n]);
    assert KeysOf(store.entries[neighbours[n].0].Items()) == store.entries[neighbours[n].0].keys;
  }

  /** The neighbours score exactly the movies the target has not rated and some neighbour has. */
  lemma {:induction false} ContributionsKeys(personal: Ratings, store: Store, neighbours: seq<(UserId, real)>, movie: ItemId)
    requires ValidStore(store) && InStore(store, neighbours)
    ensures movie in KeysOf(Contributions(personal, store, neighbours)) <==>
              movie !in personal.entries && RatedBySome(store, neighbours, movie)
  {
    if |neighbours| > 0 {
      var n := |neighbours| - 1;
      var pre := neighbours[..n];
      ContributionsLast(personal, store, neighbours);
      RatedBySomeLast(store, neighbours, movie);
      var d := store.entries[neighbours[n].0];
      ContributionsKeys(personal, store, pre, movie);
      RatedKeys(personal, d.Items(), neighbours[n].1, movie);
      KeysOfConcat(Contributions(personal, store, pre), RatedContributions(personal, d.Items(), neighbours[n].1));
    }
  }

  /** A movie the target has not rated gets `sim * rating` summed over the neighbours that rated it. */
  lemma {:induction false} ContributionsSum(personal: Ratings, store: Store, neighbours: seq<(UserId, real)>, movie: ItemId)
    requires ValidStore(store) && InStore(store, neighbours)
    requires movie !in personal.entries
    ensures SumFor(Contributions(personal, store, neighbours), movie) == WeightedSum(store, neighbours, movie)
  {
    if |neighbours| > 0 {
      var n := |neighbours| - 1;
      var pre := neighbours[..n];
      ContributionsLast(personal, store, neighbours);
      var d := store.entries[neighbours[n].0];
      ContributionsSum(personal, store, pre, movie);
      RatedSum(personal, d, d.Items(), neighbours[n].1, movie);
      SumForConcat(Contributions(personal, store, pre), RatedContributions(personal, d.Items(), neighbours[n].1), movie);
    }
  }

  /**
   * What `scores` holds: exactly the movies the target has not rated and
   * some neighbour has, each with the sum of `sim * rating` over the
   * neighbours that rated it, keyed in the order the movies were first scored.
   */
  lemma ScoresSpec(personal: Ratings, store: Store, neighbours: seq<(UserId, real)>)
    requires ValidStore(store) && InStore(store, neighbours)
    ensures var scores := Scores(personal, store, neighbours);
      && scores.Valid()
      && FirstSeenOrder(scores.keys, KeysOf(Contributions(personal, store, neighbours)))
      && (forall m :: m in scores.entries <==>
            m !in personal.entries && exists i :: 0 <= i < |neighbours| && m in store.entries[neighbours[i].0].entries)
      && (forall m :: m in scores.entries ==> scores.entries[m] == WeightedSum(store, neighbours, m))
  {
    var ps := Contributions(personal, store, neighbours);
    var scores := Scores(personal, store, neighbours);
    AccumulateKeys(ps);
    AccumulateValues(ps);
    forall m
      ensures m in scores.entries <==>
                m !in personal.entries && exists i :: 0 <= i < |neighbours| && m in store.entries[neighbours[i].0].entries
      ensures m in scores.entries ==> scores.entries[m] == WeightedSum(store, neighbours, m)
    {
      ContributionsKeys(personal, store, neighbours, m);
      if m !in personal.entries {
        ContributionsSum(personal, store, neighbours, m);
      }
    }
  }

  /**
   * What the ranking of the scores delivers: `min(n, number of scored movies)`
   * pairs, each movie once with its own score, non-increasing by score,
   * equal scores in the order the movies were first scored, and no movie
   * left out scoring more than a movie kept.
   */
  lemma RankedSpec(scores: Dict<ItemId, real>, n: nat)
    requires scores.Valid()
    ensures var ranked := Ranked(scores, n);
      && |ranked| == (if n <= |scores.keys| then n else |scores.keys|)
      && Distinct(KeysOf(ranked))
      && (forall i :: 0 <= i < |ranked| ==> ranked[i].0 in scores.entries && ranked[i].1 == scores.entries[ranked[i].0])
      && NonIncreasing(ranked)
      && (forall v :: WithScore(ranked, v) <= WithScore(scores.Items(), v))
  {
    var items := scores.Items();
    var ranked := Ranked(scores, n);
    assert KeysOf(items) == scores.keys;
    TopNSpec(items, n);
    forall i | 0 <= i < |ranked|
      ensures ranked[i].0 in scores.entries && ranked[i].1 == scores.entries[ranked[i].0]
    {
      assert ranked[i] in multiset(items);
    }
  }

  lemma RankedCut(scores: Dict<ItemId, real>, n: nat)
    requires scores.Valid()
    ensures var ranked := Ranked(scores, n);
      forall m, i :: m in scores.entries && m !in KeysOf(ranked) && 0 <= i < |ranked| ==> scores.entries[m] <= ranked[i].1
  {
    var items := scores.Items();
    var ranked := Ranked(scores, n);
    forall m, i | m in scores.entries && m !in KeysOf(ranked) && 0 <= i < |ranked|
      ensures scores.entries[m] <= ranked[i].1
    {
      var j :| 0 <= j < |scores.keys| && scores.keys[j] == m;
      var x := items[j];
      assert forall k :: 0 <= k < |ranked| ==> ranked[k].0 == KeysOf(ranked)[k];
      assert x !in ranked;
      TopNCut(items, n, x, i);
    }
  }

  /**
   * What `recommend_movies` returns, from the neighbours to the titles: the
   * lookup succeeds exactly when the catalog has every ranked movie; then the
   * list holds `min(top_n_movies, number of scored movies)` entries, each the
   * title of a distinct movie the target has not rated and some neighbour has,
   * with the sum of `sim * rating` over the neighbours that rated it, in
   * non-increasing order of score.
   */
  lemma RecommendationsSpec(personal: Ratings, store: Store, movies: map<ItemId, string>,
                            topNUsers: nat, topNMovies: nat, sqrt: real -> real)
    requires ValidStore(store)
    ensures InStore(store, TopSimilar(personal, store, topNUsers, sqrt))
    ensures var neighbours := TopSimilar(personal, store, topNUsers, sqrt);
      var scores := Scores(personal, store, neighbours);
      var ranked := Ranked(scores, topNMovies);
      var r := Titles(ranked, movies);
      && (r.Ok? <==> forall i :: 0 <= i < |ranked| ==> ranked[i].0 in movies)
      && |ranked| == (if topNMovies <= |scores.keys| then topNMovies else |scores.keys|)
      && Distinct(KeysOf(ranked))
      && NonIncreasing(ranked)
      && (forall i :: 0 <= i < |ranked| ==>
            && ranked[i].0 !in personal.entries
            && RatedBySome(store, neighbours, ranked[i].0)
            && ranked[i].1 == WeightedSum(store, neighbours, ranked[i].0))
      && (r.Ok? ==> |r.value| == |ranked| && forall i :: 0 <= i < |ranked| ==> r.value[i] == (movies[ranked[i].0], ranked[i].1))
  {
    TopSimilarInStore(personal, store, topNUsers, sqrt);
    var neighbours := TopSimilar(personal, store, topNUsers, sqrt);
    var scores := Scores(personal, store, neighbours);
    ScoresSpec(personal, store, neighbours);
    RankedSpec(scores, topNMovies);
  }
}
