/**
 * `top_similar_users`: score every user of the rating store against the
 * personal ratings, in store order, and keep the `topN` best by a stable
 * descending sort.
 */
module Neighbours {
  import opened Dicts
  import opened Ranking
  import opened Similarity

  /** A user identifier of the rating table. */
  type UserId = string

  /** `user_ratings`: user id to that user's ratings, both levels insertion-ordered. */
  type Store = Dict<UserId, Ratings>

  /** Both levels of the store are well-formed dictionaries. */
  ghost predicate ValidStore(store: Store) {
    && store.Valid()
    && forall u :: u in store.entries ==> store.entries[u].Valid()
  }

  /** `(user, cosine_similarity(personal, ratings))` for each user of `users`, in that order. */
  ghost function ScoredUsers(personal: Ratings, store: Store, users: seq<UserId>, sqrt: real -> real): (r: seq<(UserId, real)>)
    requires forall u :: u in users ==> u in store.entries
    ensures |r| == |users|
    ensures KeysOf(r) == users
  {
    seq(|users|, i requires 0 <= i < |users| => (users[i], Cosine(personal.entries, store.entries[users[i]].entries, sqrt)))
  }

  /** The users picked as neighbours: the first `topN` of the scored store after a stable descending sort. */
  ghost function TopSimilar(personal: Ratings, store: Store, topN: nat, sqrt: real -> real): seq<(UserId, real)>
    requires store.Valid()
  {
    TopN(ScoredUsers(personal, store, store.keys, sqrt), topN)
  }

  lemma ScoredUsersPrefix(personal: Ratings, store: Store, users: seq<UserId>, i: nat, sqrt: real -> real)
    requires forall u :: u in users ==> u in store.entries
    requires i < |users|
    ensures ScoredUsers(personal, store, users[..i + 1], sqrt)
         == ScoredUsers(personal, store, users[..i], sqrt) + [(users[i], Cosine(personal.entries, store.entries[users[i]].entries, sqrt))]
  {
  }

  /**
   * The loop of `top_similar_users` followed by the sort and the slice.
   * `sqrt` stands for `math.sqrt`; `topN` defaults to 5.
   */
  method TopSimilarUsers(personalRatings: Ratings, userRatings: Store, sqrt: real -> real, topN: nat := 5)
    returns (top: seq<(UserId, real)>)
    requires userRatings.Valid()
    ensures top == TopSimilar(personalRatings, userRatings, topN, sqrt)
  {
    var items := userRatings.Items();
    var similarities: seq<(UserId, real)> := [];
    var i := 0;
    while i < |items|
      invariant 0 <= i <= |items|
      invariant similarities == ScoredUsers(personalRatings, userRatings, userRatings.keys[..i], sqrt)
    {
      var (user, ratings) := items[i];
      var sim := CosineSimilarity(personalRatings, ratings, sqrt);
      ScoredUsersPrefix(personalRatings, userRatings, userRatings.keys, i, sqrt);
      similarities := similarities + [(user, sim)];
      i := i + 1;
    }
    assert userRatings.keys[..i] == userRatings.keys;
    top := TopN(similarities, topN);
  }

  /**
   * What the neighbours are: `min(topN, number of users)` pairs, each user at
   * most once and from the store, each with its own cosine similarity to the
   * personal ratings, non-increasing by similarity, equal similarities in
   * store order, and no user left out more similar than a user kept.
   */
  lemma TopSimilarSpec(personal: Ratings, store: Store, topN: nat, sqrt: real -> real)
    requires store.Valid()
    ensures var top := TopSimilar(personal, store, topN, sqrt);
      && |top| == (if topN <= |store.keys| then topN else |store.keys|)
      && Distinct(KeysOf(top))
      && (forall i :: 0 <= i < |top| ==>
            top[i].0 in store.entries && top[i].1 == Cosine(personal.entries, store.entries[top[i].0].entries, sqrt))
      && NonIncreasing(top)
      && (forall v :: WithScore(top, v) <= WithScore(ScoredUsers(personal, store, store.keys, sqrt), v))
      && (forall u, i :: u in store.entries && u !in KeysOf(top) && 0 <= i < |top| ==>
            Cosine(personal.entries, store.entries[u].entries, sqrt) <= top[i].1)
  {
    var scored := ScoredUsers(personal, store, store.keys, sqrt);
    TopNSpec(scored, topN);
    TopSimilarScores(personal, store, topN, sqrt);
    TopSimilarCut(personal, store, topN, sqrt);
  }

  lemma TopSimilarScores(personal: Ratings, store: Store, topN: nat, sqrt: real -> real)
    requires store.Valid()
    ensures var top := TopSimilar(personal, store, topN, sqrt);
      forall i :: 0 <= i < |top| ==>
        top[i].0 in store.entries && top[i].1 == Cosine(personal.entries, store.entries[top[i].0].entries, sqrt)
  {
    var scored := ScoredUsers(personal, store, store.keys, sqrt);
    var top := TopSimilar(personal, store, topN, sqrt);
    TopNSpec(scored, topN);
    forall i | 0 <= i < |top|
      ensures top[i].0 in store.entries && top[i].1 == Cosine(personal.entries, store.entries[top[i].0].entries, sqrt)
    {
      assert top[i] in multiset(scored);
    }
  }

  lemma TopSimilarCut(personal: Ratings, store: Store, topN: nat, sqrt: real -> real)
    requires store.Valid()
    ensures var top := TopSimilar(personal, store, topN, sqrt);
      forall u, i :: u in store.entries && u !in KeysOf(top) && 0 <= i < |top| ==>
        Cosine(personal.entries, store.entries[u].entries, sqrt) <= top[i].1
  {
    var scored := ScoredUsers(personal, store, store.keys, sqrt);
    var top := TopSimilar(personal, store, topN, sqrt);
    forall u, i | u in store.entries && u !in KeysOf(top) && 0 <= i < |top|
      ensures Cosine(personal.entries, store.entries[u].entries, sqrt) <= top[i].1
    {
      var j :| 0 <= j < |store.keys| && store.keys[j] == u;
      var x := scored[j];
      assert forall m :: 0 <= m < |top| ==> top[m].0 == KeysOf(top)[m];
      assert x !in top;
      TopNCut(scored, topN, x, i);
    }
  }
}
