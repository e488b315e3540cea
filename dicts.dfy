/**
 * Python `dict` values as the recommender uses them: a finite map that
 * remembers the order in which its keys were first inserted. Iteration over
 * `d.items()` follows that order, and so do every later tie-break of a stable
 * sort, so the order is part of the model and not only the key-value pairs.
 */
module Dicts {

  /** No element of `s` occurs twice. */
  ghost predicate Distinct<T>(s: seq<T>) {
    forall i, j :: 0 <= i < j < |s| ==> s[i] != s[j]
  }

  /** The position of the first occurrence of `x` in `s`, or `|s|` when `x` does not occur. */
  ghost function FirstIndex<T>(s: seq<T>, x: T): (r: nat)
    ensures r <= |s|
    ensures r < |s| <==> x in s
    ensures r < |s| ==> s[r] == x
    ensures x !in s[..r]
  {
    if |s| == 0 then 0
    else if s[0] == x then 0
    else
      var r' := FirstIndex(s[1..], x);
      assert s[..1 + r'] == [s[0]] + s[1..][..r'];
      1 + r'
  }

  /** The position of the last occurrence of `x` in `s`. */
  ghost function LastIndex<T>(s: seq<T>, x: T): (r: nat)
    requires x in s
    ensures r < |s| && s[r] == x
    ensures x !in s[r + 1..]
  {
    var n := |s| - 1;
    if s[n] == x then n
    else
      assert s == s[..n] + [s[n]];
      var r' := LastIndex(s[..n], x);
      assert s[r' + 1..] == s[..n][r' + 1..] + [s[n]];
      r'
  }

  /**
   * `keys` lists every element of `ids` exactly once, in the order in which
   * the elements first occur in `ids`.
   */
  ghost predicate FirstSeenOrder<K>(keys: seq<K>, ids: seq<K>) {
    && Distinct(keys)
    && (forall k :: k in keys ==> k in ids)
    && (forall k :: k in ids ==> k in keys)
    && (forall i, j :: 0 <= i < j < |keys| ==> FirstIndex(ids, keys[i]) < FirstIndex(ids, keys[j]))
  }

  /** The elements of `s` that are not in `drop`, in their order in `s`. */
  function Keep<T(==)>(s: seq<T>, drop: set<T>): (r: seq<T>)
    ensures forall x :: x in r ==> x in s && x !in drop
    ensures forall x :: x in s && x !in drop ==> x in r
    ensures Distinct(s) ==> Distinct(r)
  {
    if |s| == 0 then []
    else
      var rest := Keep(s[1..], drop);
      assert Distinct(s) ==> s[0] !in s[1..];
      if s[0] in drop then rest else [s[0]] + rest
  }

  /** Keeping preserves order: of two kept elements, the earlier one comes first in `s` too. */
  lemma {:induction false} KeepInOrder<T>(s: seq<T>, drop: set<T>)
    ensures Distinct(s) ==>
      forall i, j :: 0 <= i < j < |Keep(s, drop)| ==> FirstIndex(s, Keep(s, drop)[i]) < FirstIndex(s, Keep(s, drop)[j])
  {
    if |s| > 0 && Distinct(s) {
      var tail := s[1..];
      assert Distinct(tail) by {
        forall i, j | 0 <= i < j < |tail| ensures tail[i] != tail[j] {
          assert tail[i] == s[i + 1] && tail[j] == s[j + 1];
        }
      }
      KeepInOrder(tail, drop);
      var rest := Keep(tail, drop);
      assert s[0] !in tail;
      forall x | x in rest ensures FirstIndex(s, x) == 1 + FirstIndex(tail, x) {
        assert x != s[0];
      }
    }
  }

  lemma {:induction false} KeepTwice<T>(s: seq<T>, d: set<T>, e: set<T>)
    ensures Keep(Keep(s, d), e) == Keep(s, d + e)
  {
    if |s| > 0 {
      KeepTwice(s[1..], d, e);
      if s[0] !in d {
        assert Keep(s, d) == [s[0]] + Keep(s[1..], d);
        assert Keep(s, d)[1..] == Keep(s[1..], d);
      }
    }
  }

  /** The first components of a sequence of pairs. */
  function KeysOf<K, V>(ps: seq<(K, V)>): (r: seq<K>)
    ensures |r| == |ps|
    ensures forall i :: 0 <= i < |ps| ==> r[i] == ps[i].0
  {
    seq(|ps|, i requires 0 <= i < |ps| => ps[i].0)
  }

  lemma KeysOfConcat<K, V>(s: seq<(K, V)>, t: seq<(K, V)>)
    ensures KeysOf(s + t) == KeysOf(s) + KeysOf(t)
  {
    assert forall i :: 0 <= i < |s + t| ==> KeysOf(s + t)[i] == (KeysOf(s) + KeysOf(t))[i];
  }

  /** An insertion-ordered dictionary. */
  datatype Dict<K(==), V> = Dict(keys: seq<K>, entries: map<K, V>) {

    /** The keys are listed once each and are exactly the keys of the map. */
    ghost predicate Valid() {
      && Distinct(keys)
      && (forall k :: k in keys ==> k in entries)
      && (forall k :: k in entries ==> k in keys)
    }

    /** `d[k] = v`: a new key goes to the end of the order, an existing key keeps its place. */
    function Put(k: K, v: V): (d: Dict<K, V>)
      requires Valid()
      ensures d.Valid()
    {
      if k in entries then Dict(keys, entries[k := v]) else Dict(keys + [k], entries[k := v])
    }

    /** `d.pop(k, None)`: the key and its value go, the order of the others is kept. */
    function Remove(k: K): (d: Dict<K, V>)
      requires Valid()
      ensures d.Valid()
    {
      Dict(Keep(keys, {k}), entries - {k})
    }

    /** `d.items()`: the key-value pairs in key order. */
    function Items(): (r: seq<(K, V)>)
      requires Valid()
      ensures |r| == |keys|
      ensures forall i :: 0 <= i < |r| ==> r[i] == (keys[i], entries[keys[i]])
    {
      seq(|keys|, i requires 0 <= i < |keys| => assert keys[i] in keys; (keys[i], entries[keys[i]]))
    }
  }

  function Empty<K, V>(): (d: Dict<K, V>)
    ensures d.Valid() && d.entries == map[]
  {
    Dict([], map[])
  }

  /** A dictionary built by assigning the pairs of `ps` one after the other. */
  function FromPairs<K, V>(ps: seq<(K, V)>): (d: Dict<K, V>)
    ensures d.Valid()
  {
    if |ps| == 0 then Empty()
    else FromPairs(ps[..|ps| - 1]).Put(ps[|ps| - 1].0, ps[|ps| - 1].1)
  }

  lemma FirstIndexUnique<T>(s: seq<T>, x: T, r: nat)
    requires r < |s| && s[r] == x && x !in s[..r]
    ensures FirstIndex(s, x) == r
  {
  }

  lemma FirstIndexAppend<T>(s: seq<T>, y: T, x: T)
    ensures x in s ==> FirstIndex(s + [y], x) == FirstIndex(s, x)
    ensures x !in s && x == y ==> FirstIndex(s + [y], x) == |s|
  {
    var t := s + [y];
    if x in s {
      var r := FirstIndex(s, x);
      assert t[..r] == s[..r];
      FirstIndexUnique(t, x, r);
    } else if x == y {
      assert t[..|s|] == s;
      FirstIndexUnique(t, x, |s|);
    }
  }

  /** Assigning one more key keeps a first-seen key order first-seen. */
  lemma PutFirstSeen<K, V>(d: Dict<K, V>, ids: seq<K>, k: K, v: V)
    requires d.Valid() && FirstSeenOrder(d.keys, ids)
    ensures FirstSeenOrder(d.Put(k, v).keys, ids + [k])
  {
    var ks := d.Put(k, v).keys;
    forall x | x in d.keys
      ensures FirstIndex(ids + [k], x) == FirstIndex(ids, x) < |ids|
    {
      FirstIndexAppend(ids, k, x);
    }
    if k !in d.entries {
      FirstIndexAppend(ids, k, k);
      forall i, j | 0 <= i < j < |ks|
        ensures FirstIndex(ids + [k], ks[i]) < FirstIndex(ids + [k], ks[j])
      {
        if j < |ks| - 1 {
          assert ks[i] == d.keys[i] && ks[j] == d.keys[j];
        } else {
          assert ks[i] == d.keys[i];
        }
      }
    }
  }

  /**
   * Assigning the pairs of `ps` in order yields one key per distinct first
   * component, in order of first occurrence, and each key holds the value of
   * the last pair that assigned it.
   */
  lemma {:induction false} FromPairsSpec<K, V>(ps: seq<(K, V)>)
    ensures FirstSeenOrder(FromPairs(ps).keys, KeysOf(ps))
    ensures forall k :: k in FromPairs(ps).entries ==>
              k in KeysOf(ps) && FromPairs(ps).entries[k] == ps[LastIndex(KeysOf(ps), k)].1
  {
    if |ps| > 0 {
      var n := |ps| - 1;
      var pre := ps[..n];
      FromPairsSpec(pre);
      assert KeysOf(ps) == KeysOf(pre) + [ps[n].0];
      PutFirstSeen(FromPairs(pre), KeysOf(pre), ps[n].0, ps[n].1);
      forall k | k in FromPairs(ps).entries
        ensures k in KeysOf(ps) && FromPairs(ps).entries[k] == ps[LastIndex(KeysOf(ps), k)].1
      {
        if k != ps[n].0 {
          assert KeysOf(ps)[..n] == KeysOf(pre);
        }
      }
    }
  }
}
