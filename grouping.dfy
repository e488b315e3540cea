/**
 * The `user_ratings` grouping loop of the main program: the loaded
 * `(user_id, movie_id, rating)` triples become a nested dictionary,
 * `user_ratings[user_id][movie_id] = rating`, a later triple for the same
 * user and movie overwriting an earlier one.
 */
module Grouping {
  import opened Dicts
  import opened Similarity
  import opened Neighbours

  /** One row of the ratings table: `(userId, movieId, rating)`. */
  type Triple = (UserId, ItemId, real)

  /**
   * `d[k] = v` on the two fields of a dictionary: a new key goes to the end of the order.
   * Unlike `Put` it needs no `Valid` premise, so `Grouped` can be defined without
   * proving well-formedness as it goes; `AssignPut` shows the two agree.
   */
  function Assign<K, V>(d: Dict<K, V>, k: K, v: V): Dict<K, V> {
    Dict(if k in d.entries then d.keys else d.keys + [k], d.entries[k := v])
  }

  /**
   * `if user_id not in user_ratings: user_ratings[user_id] = {}`, then
   * `user_ratings[user_id][movie_id] = rating`.
   */
  ghost function AddTriple(store: Store, user: UserId, movie: ItemId, rating: real): Store {
    Assign(store, user, Assign(if user in store.entries then store.entries[user] else Empty(), movie, rating))
  }

  /** The store after the loop has gone over `ratings`. */
  ghost function Grouped(ratings: seq<Triple>): Store {
    if |ratings| == 0 then Empty()
    else
      var n := |ratings| - 1;
      AddTriple(Grouped(ratings[..n]), ratings[n].0, ratings[n].1, ratings[n].2)
  }

  /** `Assign` is `Put` on a well-formed dictionary. */
  lemma AssignPut<K, V>(d: Dict<K, V>, k: K, v: V)
    requires d.Valid()
    ensures Assign(d, k, v) == d.Put(k, v)
  {
  }

  /** Both levels of the grouped store are well-formed dictionaries. */
  lemma {:induction false} GroupedValid(ratings: seq<Triple>)
    ensures ValidStore(Grouped(ratings))
  {
    if |ratings| > 0 {
      var n := |ratings| - 1;
      var g := Grouped(ratings[..n]);
      GroupedValid(ratings[..n]);
      var user := ratings[n].0;
      var inner: Ratings := if user in g.entries then g.entries[user] else Empty();
      AssignPut(inner, ratings[n].1, ratings[n].2);
      AssignPut(g, user, Assign(inner, ratings[n].1, ratings[n].2));
    }
  }

  /** The body of the grouping loop for one triple. */
  method AddRating(userRatings: Store, userId: UserId, movieId: ItemId, rating: real) returns (updated: Store)
    requires ValidStore(userRatings)
    ensures updated == AddTriple(userRatings, userId, movieId, rating)
  {
    ghost var inner: Ratings := if userId in userRatings.entries then userRatings.entries[userId] else Empty();
    AssignPut(inner, movieId, rating);
    AssignPut(userRatings, userId, inner.Put(movieId, rating));
    updated := userRatings;
    if userId !in updated.entries {
      updated := updated.Put(userId, Empty());
    }
    updated := updated.Put(userId, updated.entries[userId].Put(movieId, rating));
  }

  /** The grouping loop over all loaded triples. */
  method GroupRatings(ratings: seq<Triple>) returns (userRatings: Store)
    ensures userRatings == Grouped(ratings)
  {
    userRatings := Empty();
    for i := 0 to |ratings|
      invariant userRatings == Grouped(ratings[..i])
    {
      var userId, movieId, rating := ratings[i].0, ratings[i].1, ratings[i].2;
      GroupedValid(ratings[..i]);
      userRatings := AddRating(userRatings, userId, movieId, rating);
      assert ratings[..i + 1][..i] == ratings[..i];
    }
    assert ratings[..|ratings|] == ratings;
  }

  /**
   * The user of every triple, in table order. `KeysOf` takes pairs and the
   * rows of the ratings table are triples, so the projection is its own function.
   */
  function UsersOf(ratings: seq<Triple>): (r: seq<UserId>)
    ensures |r| == |ratings|
    ensures forall i :: 0 <= i < |ratings| ==> r[i] == ratings[i].0
  {
    seq(|ratings|, i requires 0 <= i < |ratings| => ratings[i].0)
  }

  /** The movies `user` rated, in table order, repeats included. */
  ghost function MoviesOf(ratings: seq<Triple>, user: UserId): seq<ItemId> {
    if |ratings| == 0 then []
    else
      var n := |ratings| - 1;
      MoviesOf(ratings[..n], user) + (if ratings[n].0 == user then [ratings[n].1] else [])
  }

  /** Some triple rates `movie` for `user`. */
  ghost predicate Rated(ratings: seq<Triple>, user: UserId, movie: ItemId) {
    exists i :: 0 <= i < |ratings| && ratings[i].0 == user && ratings[i].1 == movie
  }

  /** The position of the last triple for `user` and `movie`. */
  ghost function LastTriple(ratings: seq<Triple>, user: UserId, movie: ItemId): (r: nat)
    requires Rated(ratings, user, movie)
    ensures r < |ratings| && ratings[r].0 == user && ratings[r].1 == movie
    ensures forall j :: r < j < |ratings| ==> !(ratings[j].0 == user && ratings[j].1 == movie)
  {
    var n := |ratings| - 1;
    if ratings[n].0 == user && ratings[n].1 == movie then n
    else
      var i :| 0 <= i < |ratings| && ratings[i].0 == user && ratings[i].1 == movie;
      assert i < n && ratings[..n][i] == ratings[i];
      LastTriple(ratings[..n], user, movie)
  }

  lemma {:induction false} MoviesOfAbsent(ratings: seq<Triple>, user: UserId)
    requires user !in UsersOf(ratings)
    ensures MoviesOf(ratings, user) == []
  {
    if |ratings| > 0 {
      var n := |ratings| - 1;
      assert UsersOf(ratings[..n]) == UsersOf(ratings)[..n];
      MoviesOfAbsent(ratings[..n], user);
    }
  }

  /** The store holds one entry per distinct user, in the order the users first occur in the table. */
  lemma {:induction false} GroupedUsers(ratings: seq<Triple>)
    ensures FirstSeenOrder(Grouped(ratings).keys, UsersOf(ratings))
  {
    if |ratings| > 0 {
      var n := |ratings| - 1;
      var pre := ratings[..n];
      GroupedUsers(pre);
      GroupedValid(pre);
      var g := Grouped(pre);
      assert UsersOf(ratings) == UsersOf(pre) + [ratings[n].0];
      PutFirstSeen(g, UsersOf(pre), ratings[n].0, Empty());
      assert Grouped(ratings).keys == Assign(g, ratings[n].0, Empty<ItemId, real>()).keys;
      AssignPut(g, ratings[n].0, Empty<ItemId, real>());
    }
  }

  /** Each user's inner dictionary holds the movies that user rated, in the order they first occur. */
  lemma {:induction false} GroupedMovies(ratings: seq<Triple>, user: UserId)
    requires user in Grouped(ratings).entries
    ensures FirstSeenOrder(Grouped(ratings).entries[user].keys, MoviesOf(ratings, user))
  {
    assert |ratings| > 0;
    var n := |ratings| - 1;
    var pre := ratings[..n];
    var g := Grouped(pre);
    GroupedValid(pre);
    if ratings[n].0 == user {
      var inner: Ratings := if user in g.entries then g.entries[user] else Empty();
      if user in g.entries {
        GroupedMovies(pre, user);
      } else {
        GroupedUsers(pre);
        MoviesOfAbsent(pre, user);
      }
      PutFirstSeen(inner, MoviesOf(pre, user), ratings[n].1, ratings[n].2);
      AssignPut(inner, ratings[n].1, ratings[n].2);
      assert Grouped(ratings).entries[user] == Assign(inner, ratings[n].1, ratings[n].2);
    } else {
      assert Grouped(ratings).entries[user] == g.entries[user];
      GroupedMovies(pre, user);
      assert MoviesOf(ratings, user) == MoviesOf(pre, user) + [] == MoviesOf(pre, user);
    }
  }

  /**
   * `user_ratings[u][m]` exists exactly when some triple rates `m` for `u`,
   * and holds the rating of the last such triple.
   */
  lemma {:induction false} GroupedRatings(ratings: seq<Triple>, user: UserId, movie: ItemId)
    ensures (user in Grouped(ratings).entries && movie in Grouped(ratings).entries[user].entries) <==> Rated(ratings, user, movie)
    ensures Rated(ratings, user, movie) ==>
              Grouped(ratings).entries[user].entries[movie] == ratings[LastTriple(ratings, user, movie)].2
  {
    if |ratings| > 0 {
      var n := |ratings| - 1;
      var pre := ratings[..n];
      GroupedRatings(pre, user, movie);
      if Rated(pre, user, movie) {
        var i :| 0 <= i < n && pre[i].0 == user && pre[i].1 == movie;
        assert ratings[i] == pre[i];
      }
      if Rated(ratings, user, movie) && !(ratings[n].0 == user && ratings[n].1 == movie) {
        var i :| 0 <= i < |ratings| && ratings[i].0 == user && ratings[i].1 == movie;
        assert pre[i] == ratings[i];
      }
    }
  }
}
