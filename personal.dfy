/**
 * `InputFile`: the target user's own ratings file. The header names are
 * matched case-insensitively against the accepted column names, every row
 * whose cells cannot be read is skipped, a later row for the same movie
 * overwrites an earlier one, and, when a catalog is given, the movies the
 * catalog lacks are dropped.
 *
 * Reading the CSV file is not modelled: the file arrives as its header
 * fields and its rows, and the parsing of a movie id (`str(int(s.strip()))`)
 * and of a rating (`float(s)`) arrive as functions that fail with `None`.
 */
module PersonalFile {
  import opened Wrappers
  import opened Dicts
  import opened Similarity

  /** The accepted names of the movie id column, in lower case. */
  const MovieIdCandidates: set<string> := {"movie_id", "movieid"}

  /** The accepted names of the rating column, in lower case. */
  const RatingCandidates: set<string> := {"rating"}

  /** `c.lower()` for ASCII letters. */
  function LowerChar(c: char): char {
    if 'A' <= c <= 'Z' then (c as int - 'A' as int + 'a' as int) as char else c
  }

  /** `s.lower()`, character by character. */
  function Lower(s: string): (r: string)
    ensures |r| == |s| && forall i :: 0 <= i < |s| ==> r[i] == LowerChar(s[i])
  {
    seq(|s|, i requires 0 <= i < |s| => LowerChar(s[i]))
  }

  /** `s` has no upper-case ASCII letter. */
  predicate NoUpper(s: string) {
    forall i :: 0 <= i < |s| ==> !('A' <= s[i] <= 'Z')
  }

  /** `h` spells `c` with some of its ASCII letters in upper case. */
  predicate SameIgnoringCase(h: string, c: string) {
    && |h| == |c|
    && forall i :: 0 <= i < |c| ==> h[i] == c[i] || ('a' <= c[i] <= 'z' && h[i] as int == c[i] as int - 32)
  }

  /** Lower-casing a header gives a lower-case name exactly when the header spells that name up to case. */
  lemma LowerMatches(h: string, c: string)
    requires NoUpper(c)
    ensures Lower(h) == c <==> SameIgnoringCase(h, c)
  {
  }

  /** The accepted column names are already in lower case. */
  lemma CandidatesLowerCase()
    ensures forall c :: c in MovieIdCandidates + RatingCandidates ==> NoUpper(c) && Lower(c) == c
  {
  }

  /** `reader.fieldnames or []`: no header line reads as no fields. */
  function HeaderList(fieldnames: Option<seq<string>>): seq<string> {
    match fieldnames
    case None => []
    case Some(fields) => fields
  }

  /** `headers[i]` is the last header whose lower-case form is `key`. */
  ghost predicate LastWithKey(headers: seq<string>, i: int, key: string) {
    && 0 <= i < |headers|
    && Lower(headers[i]) == key
    && forall j :: i < j < |headers| ==> Lower(headers[j]) != key
  }

  /**
   * `{h.lower(): h for h in header_fields}`: every lower-cased header is a
   * key, and it maps to the last header with that lower-case form.
   */
  function Lowered(headers: seq<string>): (r: map<string, string>)
    ensures forall i :: 0 <= i < |headers| ==> Lower(headers[i]) in r
    ensures forall key :: key in r ==> exists i :: LastWithKey(headers, i, key) && r[key] == headers[i]
  {
    if |headers| == 0 then map[]
    else
      var n := |headers| - 1;
      var pre := Lowered(headers[..n]);
      LoweredStep(headers, pre);
      pre[Lower(headers[n]) := headers[n]]
  }

  /** One more header: its lower-case form now maps to it, the other keys keep their header. */
  lemma LoweredStep(headers: seq<string>, pre: map<string, string>)
    requires |headers| > 0
    requires forall i :: 0 <= i < |headers| - 1 ==> Lower(headers[i]) in pre
    requires forall key :: key in pre ==> exists i :: LastWithKey(headers[..|headers| - 1], i, key) && pre[key] == headers[i]
    ensures var r := pre[Lower(headers[|headers| - 1]) := headers[|headers| - 1]];
      && (forall i :: 0 <= i < |headers| ==> Lower(headers[i]) in r)
      && (forall key :: key in r ==> exists i :: LastWithKey(headers, i, key) && r[key] == headers[i])
  {
    var n := |headers| - 1;
    var last := Lower(headers[n]);
    var r := pre[last := headers[n]];
    forall key | key in r
      ensures exists i :: LastWithKey(headers, i, key) && r[key] == headers[i]
    {
      if key == last {
        assert LastWithKey(headers, n, key);
      } else {
        var i :| LastWithKey(headers[..n], i, key) && pre[key] == headers[i];
        assert headers[..n][i] == headers[i];
        assert LastWithKey(headers, i, key) by {
          forall j | i < j < |headers| ensures Lower(headers[j]) != key {
            if j < n {
              assert headers[..n][j] == headers[j];
            }
          }
        }
      }
    }
  }

  /** Some header has a lower-case form among `candidates`. */
  ghost predicate Present(headers: seq<string>, candidates: set<string>) {
    exists i :: 0 <= i < |headers| && Lower(headers[i]) in candidates
  }

  /** A column is present exactly when some header spells one of the accepted names up to case. */
  lemma PresentIgnoringCase(headers: seq<string>, candidates: set<string>)
    requires forall c :: c in candidates ==> NoUpper(c)
    ensures Present(headers, candidates)
        <==> exists i, c :: 0 <= i < |headers| && c in candidates && SameIgnoringCase(headers[i], c)
  {
    if Present(headers, candidates) {
      var i :| 0 <= i < |headers| && Lower(headers[i]) in candidates;
      LowerMatches(headers[i], Lower(headers[i]));
    }
    if exists i, c :: 0 <= i < |headers| && c in candidates && SameIgnoringCase(headers[i], c) {
      var i, c :| 0 <= i < |headers| && c in candidates && SameIgnoringCase(headers[i], c);
      LowerMatches(headers[i], c);
    }
  }

  /** `col` is the last header whose lower-case form is one particular candidate. */
  ghost predicate Resolves(headers: seq<string>, candidates: set<string>, col: string) {
    exists i :: LastWithKey(headers, i, Lower(col)) && headers[i] == col && Lower(col) in candidates
  }

  /**
   * `for cand in candidates: if cand in lowered: col = lowered[cand]; break`.
   * The set is visited in an order the model leaves open.
   */
  method FindColumn(lowered: map<string, string>, candidates: set<string>) returns (col: Option<string>)
    ensures col.None? <==> forall c :: c in candidates ==> c !in lowered
    ensures col.Some? ==> exists c :: c in candidates && c in lowered && lowered[c] == col.value
  {
    col := None;
    var remaining := candidates;
    while remaining != {}
      invariant remaining <= candidates
      invariant forall c :: c in candidates && c !in remaining ==> c !in lowered
    {
      var cand :| cand in remaining;
      if cand in lowered {
        col := Some(lowered[cand]);
        break;
      }
      remaining := remaining - {cand};
    }
  }

  /** A column found by `FindColumn` over `Lowered(headers)` is resolved in the sense of `Resolves`. */
  lemma FoundResolves(headers: seq<string>, candidates: set<string>, c: string)
    requires c in candidates && c in Lowered(headers)
    ensures Resolves(headers, candidates, Lowered(headers)[c])
  {
    var i :| LastWithKey(headers, i, c) && Lowered(headers)[c] == headers[i];
  }

  /** Some candidate is a key of `Lowered(headers)` exactly when a header matches a candidate. */
  lemma LoweredPresent(headers: seq<string>, candidates: set<string>)
    ensures (exists c :: c in candidates && c in Lowered(headers)) <==> Present(headers, candidates)
  {
    if Present(headers, candidates) {
      var i :| 0 <= i < |headers| && Lower(headers[i]) in candidates;
      assert Lower(headers[i]) in Lowered(headers);
    }
    if exists c :: c in candidates && c in Lowered(headers) {
      var c :| c in candidates && c in Lowered(headers);
      var i :| LastWithKey(headers, i, c) && Lowered(headers)[c] == headers[i];
    }
  }

  /**
   * The header resolution of `InputFile`: the actual names of the movie id
   * and rating columns, or the header list when either is missing (where
   * the source raises).
   */
  method ResolveColumns(fieldnames: Option<seq<string>>) returns (r: Result<(string, string), seq<string>>)
    ensures var headers := HeaderList(fieldnames);
      r.Ok? <==> Present(headers, MovieIdCandidates) && Present(headers, RatingCandidates)
    ensures r.Ok? ==>
              && Resolves(HeaderList(fieldnames), MovieIdCandidates, r.value.0)
              && Resolves(HeaderList(fieldnames), RatingCandidates, r.value.1)
    ensures r.Err? ==> r.error == HeaderList(fieldnames)
  {
    var headerFields := HeaderList(fieldnames);
    var lowered := Lowered(headerFields);
    var movieCol := FindColumn(lowered, MovieIdCandidates);
    var ratingCol := FindColumn(lowered, RatingCandidates);
    LoweredPresent(headerFields, MovieIdCandidates);
    LoweredPresent(headerFields, RatingCandidates);
    if movieCol.None? || ratingCol.None? {
      return Err(headerFields);
    }
    var m :| m in MovieIdCandidates && m in lowered && lowered[m] == movieCol.value;
    var k :| k in RatingCandidates && k in lowered && lowered[k] == ratingCol.value;
    FoundResolves(headerFields, MovieIdCandidates, m);
    FoundResolves(headerFields, RatingCandidates, k);
    r := Ok((movieCol.value, ratingCol.value));
  }

  /**
   * The `try` block for one row: `row[movie_col]`, the movie id parse,
   * `row[rating_col]` and the rating parse; any failure skips the row.
   */
  function ParseRow(row: map<string, string>, movieCol: string, ratingCol: string,
                    parseId: string -> Option<ItemId>, parseRating: string -> Option<real>): (r: Option<(ItemId, real)>)
    ensures r.Some? <==>
              movieCol in row && ratingCol in row && parseId(row[movieCol]).Some? && parseRating(row[ratingCol]).Some?
    ensures r.Some? ==> r.value == (parseId(row[movieCol]).value, parseRating(row[ratingCol]).value)
  {
    if movieCol !in row then None
    else
      match parseId(row[movieCol])
      case None => None
      case Some(movieId) =>
        if ratingCol !in row then None
        else
          match parseRating(row[ratingCol])
          case None => None
          case Some(rating) => Some((movieId, rating))
  }

  /** The pairs of the rows that parse, in file order. */
  ghost function Parsed(rows: seq<map<string, string>>, movieCol: string, ratingCol: string,
                        parseId: string -> Option<ItemId>, parseRating: string -> Option<real>): seq<(ItemId, real)> {
    if |rows| == 0 then []
    else
      var n := |rows| - 1;
      Parsed(rows[..n], movieCol, ratingCol, parseId, parseRating)
        + match ParseRow(rows[n], movieCol, ratingCol, parseId, parseRating)
          case None => []
          case Some(p) => [p]
  }

  /** The number of rows that do not parse. */
  ghost function SkippedRows(rows: seq<map<string, string>>, movieCol: string, ratingCol: string,
                             parseId: string -> Option<ItemId>, parseRating: string -> Option<real>): nat {
    if |rows| == 0 then 0
    else
      var n := |rows| - 1;
      SkippedRows(rows[..n], movieCol, ratingCol, parseId, parseRating)
        + (if ParseRow(rows[n], movieCol, ratingCol, parseId, parseRating).None? then 1 else 0)
  }

  /** Every row is either parsed or skipped. */
  lemma {:induction false} ParsedOrSkipped(rows: seq<map<string, string>>, movieCol: string, ratingCol: string,
                                           parseId: string -> Option<ItemId>, parseRating: string -> Option<real>)
    ensures |Parsed(rows, movieCol, ratingCol, parseId, parseRating)| + SkippedRows(rows, movieCol, ratingCol, parseId, parseRating)
         == |rows|
  {
    if |rows| > 0 {
      ParsedOrSkipped(rows[..|rows| - 1], movieCol, ratingCol, parseId, parseRating);
    }
  }

  /**
   * The row loop of `InputFile`: counts the rows, counts the skipped ones,
   * and assigns `InputedRatings[mID] = r` for the others.
   */
  method ReadRows(rows: seq<map<string, string>>, movieCol: string, ratingCol: string,
                  parseId: string -> Option<ItemId>, parseRating: string -> Option<real>)
    returns (inputed: Ratings, seen: nat, skipped: nat)
    ensures inputed == FromPairs(Parsed(rows, movieCol, ratingCol, parseId, parseRating))
    ensures seen == |rows|
    ensures skipped == SkippedRows(rows, movieCol, ratingCol, parseId, parseRating)
  {
    inputed := Empty();
    seen, skipped := 0, 0;
    for i := 0 to |rows|
      invariant inputed == FromPairs(Parsed(rows[..i], movieCol, ratingCol, parseId, parseRating))
      invariant seen == i
      invariant skipped == SkippedRows(rows[..i], movieCol, ratingCol, parseId, parseRating)
    {
      assert rows[..i + 1][..i] == rows[..i];
      ghost var pre := Parsed(rows[..i], movieCol, ratingCol, parseId, parseRating);
      seen := seen + 1;
      var parsed := ParseRow(rows[i], movieCol, ratingCol, parseId, parseRating);
      if parsed.None? {
        skipped := skipped + 1;
        assert pre + [] == pre;
        continue;
      }
      var mID, r := parsed.value.0, parsed.value.1;
      assert FromPairs(pre + [(mID, r)]) == FromPairs(pre).Put(mID, r) by {
        assert (pre + [(mID, r)])[..|pre|] == pre;
      }
      inputed := inputed.Put(mID, r);
    }
    assert rows[..|rows|] == rows;
  }

  /**
   * What the catalog filter leaves: without a catalog, the ratings as they
   * are; with one, the ratings of the movies the catalog has, in their order.
   */
  ghost function InCatalog(inputed: Ratings, moviesMap: Option<map<ItemId, string>>): Ratings {
    match moviesMap
    case None => inputed
    case Some(catalog) =>
      Dict(Keep(inputed.keys, set m | m in inputed.keys && m !in catalog),
           map m | m in inputed.entries && m in catalog :: inputed.entries[m])
  }

  /** The filtered ratings are well-formed, keep the movies the catalog has, and keep their ratings. */
  lemma InCatalogSpec(inputed: Ratings, moviesMap: Option<map<ItemId, string>>)
    requires inputed.Valid()
    ensures InCatalog(inputed, moviesMap).Valid()
    ensures forall m :: m in InCatalog(inputed, moviesMap).entries <==>
              m in inputed.entries && (moviesMap.Some? ==> m in moviesMap.value)
    ensures forall m :: m in InCatalog(inputed, moviesMap).entries ==>
              InCatalog(inputed, moviesMap).entries[m] == inputed.entries[m]
  {
  }

  lemma {:induction false} KeepNothing<T>(s: seq<T>)
    ensures Keep(s, {}) == s
  {
    if |s| > 0 {
      KeepNothing(s[1..]);
      assert s == [s[0]] + s[1..];
    }
  }

  /**
   * `missing = [m for m in InputedRatings.keys() if m not in movies_map]`,
   * then `InputedRatings.pop(m, None)` for each of them.
   */
  method FilterToCatalog(inputed: Ratings, moviesMap: Option<map<ItemId, string>>) returns (filtered: Ratings)
    requires inputed.Valid()
    ensures filtered == InCatalog(inputed, moviesMap)
  {
    filtered := inputed;
    if moviesMap.None? {
      return;
    }
    var catalog := moviesMap.value;
    var missing := Keep(inputed.keys, catalog.Keys);
    ghost var gone := set k | 0 <= k < |missing| :: missing[k];
    if |missing| > 0 {
      filtered := PopAll(inputed, missing);
    } else {
      KeepNothing(inputed.keys);
      assert gone == {};
      assert inputed.entries - {} == inputed.entries;
    }
    RemovedMissing(inputed, catalog, missing, gone);
  }

  /** `for m in missing: InputedRatings.pop(m, None)`. */
  method PopAll(inputed: Ratings, missing: seq<ItemId>) returns (filtered: Ratings)
    requires inputed.Valid()
    ensures var gone := set k | 0 <= k < |missing| :: missing[k];
      filtered == Dict(Keep(inputed.keys, gone), inputed.entries - gone)
  {
    filtered := inputed;
    ghost var removed: set<ItemId> := {};
    KeepNothing(inputed.keys);
    assert inputed.entries - removed == inputed.entries;
    for i := 0 to |missing|
      invariant removed == set k | 0 <= k < i :: missing[k]
      invariant filtered == Dict(Keep(inputed.keys, removed), inputed.entries - removed)
      invariant filtered.Valid()
    {
      RemoveStep(inputed, removed, missing[i]);
      filtered := filtered.Remove(missing[i]);
      removed := removed + {missing[i]};
    }
  }

  /** One more `pop` drops one more movie. */
  lemma RemoveStep(inputed: Ratings, removed: set<ItemId>, m: ItemId)
    requires inputed.Valid()
    ensures Dict(Keep(inputed.keys, removed), inputed.entries - removed).Valid()
    ensures Dict(Keep(inputed.keys, removed), inputed.entries - removed).Remove(m)
         == Dict(Keep(inputed.keys, removed + {m}), inputed.entries - (removed + {m}))
  {
    KeepTwice(inputed.keys, removed, {m});
    assert inputed.entries - removed - {m} == inputed.entries - (removed + {m});
  }

  /** Dropping exactly the movies the catalog lacks leaves `InCatalog`. */
  lemma RemovedMissing(inputed: Ratings, catalog: map<ItemId, string>, missing: seq<ItemId>, removed: set<ItemId>)
    requires inputed.Valid()
    requires missing == Keep(inputed.keys, catalog.Keys)
    requires removed == set k | 0 <= k < |missing| :: missing[k]
    ensures Dict(Keep(inputed.keys, removed), inputed.entries - removed) == InCatalog(inputed, Some(catalog))
  {
    assert removed == set m | m in inputed.keys && m !in catalog;
    assert inputed.entries - removed == map m | m in inputed.entries && m in catalog :: inputed.entries[m];
  }

  /**
   * `InputFile` after the file is opened: resolve the two columns, read the
   * rows, then apply the catalog filter. The columns picked are the ones
   * `ResolveColumns` may pick. By default no catalog is given.
   */
  method InputFile(fieldnames: Option<seq<string>>, rows: seq<map<string, string>>,
                   parseId: string -> Option<ItemId>, parseRating: string -> Option<real>,
                   moviesMap: Option<map<ItemId, string>> := None)
    returns (r: Result<Ratings, seq<string>>)
    ensures var headers := HeaderList(fieldnames);
      r.Ok? <==> Present(headers, MovieIdCandidates) && Present(headers, RatingCandidates)
    ensures r.Ok? ==>
              exists movieCol, ratingCol ::
                && Resolves(HeaderList(fieldnames), MovieIdCandidates, movieCol)
                && Resolves(HeaderList(fieldnames), RatingCandidates, ratingCol)
                && r.value == InCatalog(FromPairs(Parsed(rows, movieCol, ratingCol, parseId, parseRating)), moviesMap)
  {
    var columns := ResolveColumns(fieldnames);
    if columns.Err? {
      return Err(columns.error);
    }
    var movieCol, ratingCol := columns.value.0, columns.value.1;
    var inputed, seen, skipped := ReadRows(rows, movieCol, ratingCol, parseId, parseRating);
    var filtered := FilterToCatalog(inputed, moviesMap);
    r := Ok(filtered);
  }
}
