# Movie recommender: a verified model of the collaborative-filtering core

This project models the core of `MovieRecomender.py`, a user-based collaborative-filtering
recommender over MovieLens-style `(user, movie, rating)` data, in Dafny, and proves what it computes.

- **Similarity** (`similarity.dfy`). `cosine_similarity` walks the movies both users rated. It adds up the
  dot product and the two sums of squares, then divides by the product of the two norms. It returns 0 when
  nothing is shared or either norm is 0. The method `CosineSimilarity` is proved equal to the function
  `Cosine`. The lemmas prove that `Cosine` is symmetric, that it is 0 exactly in the cases the code tests
  (plus a zero dot product), that it lies in [-1, 1] (Cauchy-Schwarz), that it is non-negative for
  non-negative ratings, and that a non-zero vector has similarity 1 with itself.
- **Neighbour selection** (`neighbours.dfy`, `ranking.dfy`). `top_similar_users` scores every user in store
  order, then applies `sorted(..., reverse=True)[:topN]`. Python's sort is stable, so its order is modelled
  exactly: a stable descending insertion sort, `Ranking.SortDesc`, proved to be a permutation, to be
  non-increasing, and to keep equal scores in input order.
- **Aggregation** (`recommend.dfy`). `recommend_movies` adds `sim * rating` into an insertion-ordered score
  dictionary over the neighbours' ratings, skipping movies the target rated. It then ranks the scores and
  looks up the titles. The two nested loops are proved to build `Scores`. `Scores` is proved to hold exactly
  the movies the target has not rated and some neighbour has, each with the sum of `sim * rating` over the
  neighbours that rated it, keyed in first-scored order. A missing catalog entry, which raises `KeyError` in
  the source, is the `Err` case of the result.
- **Ingestion pieces** (`grouping.dfy`, `personal.dfy`). These are the grouping of the loaded triples into
  `user_ratings[user][movie]`, the case-insensitive header resolution of `InputFile`, its row loop, and its
  catalog filter.

Python `dict`s keep insertion order, and that order decides ties in both sorts, so `Dicts.Dict` models a
dictionary as its key order plus its map (`dicts.dfy`). Ratings and scores are exact `real`s. `math.sqrt`
is a parameter `sqrt: real -> real`, and the lemmas that need its meaning require `IsSqrt(sqrt)`. Products
are written with `Similarity.Mul` so that facts about squares can be stated once.

## Model

| member | source | states |
|---|---|---|
| Similarity.CosineSimilarity | MovieRecomender.py:103-133 | the loop over the common movies, in any set-iteration order, returns `Cosine` of the two rating maps, and 0 when they share no movie |
| Similarity.SumsAdd | MovieRecomender.py:114-120 | one loop step adds `r1*r2`, `r1*r1` and `r2*r2` of the new common movie to the three sums over the movies done so far |
| Similarity.DotOverRemove | MovieRecomender.py:114-120 | a sum over the common movies does not depend on the order in which set iteration visits them |
| Similarity.CosineSymmetric | MovieRecomender.py:106-131 | swapping the two users gives the same similarity |
| Similarity.DotOverSymmetric | MovieRecomender.py:118 | the dot product over a set of movies is the same with the two users swapped |
| Similarity.CosineZero | MovieRecomender.py:106-128 | disjoint users give 0; the similarity is 0 exactly when nothing is shared, a sum of squares is 0, or the dot product is 0 |
| Similarity.SquaresNonNegative | MovieRecomender.py:119-120 | a sum of squares is non-negative, and positive when some rating in it is non-zero |
| Similarity.CauchySchwarz | MovieRecomender.py:114-120 | the squared dot product is at most the product of the two sums of squares |
| Similarity.CosineBounds | MovieRecomender.py:101-133 | the similarity lies in [-1, 1], and in [0, 1] when no rating is negative |
| Similarity.CosineSelf | MovieRecomender.py:106-131 | a user with a non-zero rating has similarity 1 with themselves |
| Ranking.SortDesc | MovieRecomender.py:146 | `sorted(key=score, reverse=True)` returns a permutation of its input, non-increasing by score |
| Ranking.SortDescStable | MovieRecomender.py:146 | for every score, the elements with that score keep their input order |
| Ranking.Take | MovieRecomender.py:147 | `s[:n]` has `min(n, len(s))` elements and is a prefix of `s` |
| Ranking.TopNSpec | MovieRecomender.py:146-147 | `sorted(...)[:n]` has `min(n, len)` elements of the input, non-increasing; tied elements are the earliest in input order; nothing left out scores more than anything kept; distinct keys stay distinct |
| Neighbours.TopSimilarUsers | MovieRecomender.py:136-147 | the scoring loop in store order, then the sort and the slice, returns `TopSimilar` |
| Neighbours.TopSimilarSpec | MovieRecomender.py:138-147 | `min(topN, number of users)` pairs, each user at most once, each from the store with its own cosine similarity, non-increasing, ties in store order, and no user left out more similar than one kept |
| Neighbours.TopSimilarScores | MovieRecomender.py:138-140 | every pair returned is a store user with `cosine_similarity(personal, ratings of that user)` |
| Neighbours.TopSimilarCut | MovieRecomender.py:146-147 | a user not returned is no more similar than any user returned |
| Recommend.RecommendMovies | MovieRecomender.py:149-167 | the neighbours, the nested loops, the sort, the slice and the title lookup return `Titles(Ranked(Scores(...)))` for the neighbours `TopSimilar` picks |
| Recommend.ScoreNeighbours | MovieRecomender.py:153-159 | the outer loop over the neighbours builds `Scores` |
| Recommend.AddNeighbourScores | MovieRecomender.py:155-159 | the inner loop over one neighbour's ratings adds that neighbour's contributions to the scores |
| Recommend.AddWeight | MovieRecomender.py:157-159 | `if movie not in scores: scores[movie] = 0; scores[movie] += w` puts a new movie last and adds `w` to its score |
| Recommend.AccumulateKeys | MovieRecomender.py:157-158 | the score dictionary lists each contributed movie once, in order of first contribution |
| Recommend.AccumulateValues | MovieRecomender.py:157-159 | each score is the sum of the weights contributed to that movie |
| Recommend.RatedKeys | MovieRecomender.py:155-156 | a neighbour contributes exactly the movies it rated that the target has not |
| Recommend.RatedSum | MovieRecomender.py:155-159 | a neighbour contributes `sim * rating` once for each movie it rated that the target has not, and nothing for the others |
| Recommend.ContributionsKeys | MovieRecomender.py:154-156 | the movies scored are exactly those the target has not rated and some neighbour has |
| Recommend.ContributionsSum | MovieRecomender.py:154-159 | a movie the target has not rated gets the sum of `sim * rating` over the neighbours that rated it |
| Recommend.ScoresSpec | MovieRecomender.py:153-159 | no movie the target rated is scored; every other movie some neighbour rated is scored with the sum of `sim * rating` over those neighbours; keys are in first-scored order |
| Recommend.RankedSpec | MovieRecomender.py:161-167 | the ranked scores are `min(n, number of scored movies)` distinct movies with their own scores, non-increasing, ties in first-scored order |
| Recommend.RankedCut | MovieRecomender.py:164-167 | a movie not in the ranking scores no more than any movie in it |
| Recommend.Titles | MovieRecomender.py:167 | the lookup succeeds exactly when every ranked movie is in the catalog, and then gives `(movies[id], score)` in rank order; otherwise it fails on the first missing id |
| Recommend.RecommendationsSpec | MovieRecomender.py:149-167 | the end-to-end result: success exactly when the catalog has every ranked movie; `min(top_n_movies, number of scored movies)` distinct movies, each unrated by the target, rated by a neighbour and carrying its weighted sum, non-increasing, each with its title |
| Grouping.GroupRatings | MovieRecomender.py:200-205 | the grouping loop builds `Grouped(ratings)` |
| Grouping.AddRating | MovieRecomender.py:203-205 | one triple creates the user's dictionary if needed and assigns the rating |
| Grouping.GroupedValid | MovieRecomender.py:200-205 | both levels of the grouped store are well-formed dictionaries |
| Grouping.GroupedUsers | MovieRecomender.py:202-204 | the store has one entry per distinct user, in order of first occurrence |
| Grouping.GroupedMovies | MovieRecomender.py:205 | each user's dictionary lists the movies that user rated once each, in order of first occurrence |
| Grouping.GroupedRatings | MovieRecomender.py:202-205 | `user_ratings[u][m]` exists exactly when some triple rates `m` for `u`, and holds the rating of the last such triple |
| PersonalFile.LowerMatches | MovieRecomender.py:55 | a header lower-cases to a lower-case name exactly when it spells that name with any of its ASCII letters in upper case |
| PersonalFile.CandidatesLowerCase | MovieRecomender.py:47-48 | the accepted names `movie_id`, `movieid` and `rating` are already lower case, so matching against them is case-insensitive |
| PersonalFile.PresentIgnoringCase | MovieRecomender.py:55-69 | a column is present exactly when some header spells one of its accepted names up to case |
| PersonalFile.Lowered | MovieRecomender.py:55 | every lower-cased header is a key, mapping to the last header with that lower-case form |
| PersonalFile.FindColumn | MovieRecomender.py:57-69 | the candidate scan finds nothing exactly when no candidate is a key, and otherwise returns the header of some present candidate |
| PersonalFile.LoweredPresent | MovieRecomender.py:55-69 | some candidate is a key of the lowered map exactly when some header lower-cases to a candidate |
| PersonalFile.ResolveColumns | MovieRecomender.py:53-72 | resolution succeeds exactly when both a movie-id header and a rating header are present; it returns headers that lower-case to an accepted name, and the header list when it fails |
| PersonalFile.ParseRow | MovieRecomender.py:77-84 | a row is read exactly when both cells exist and both parse, giving the two parsed values |
| PersonalFile.ReadRows | MovieRecomender.py:74-86 | the row loop counts all rows, counts the skipped ones, and assigns the parsed pairs in file order |
| PersonalFile.ParsedOrSkipped | MovieRecomender.py:76-84 | every row is either parsed or counted as skipped |
| Dicts.FromPairsSpec | MovieRecomender.py:86 | assigning pairs in order keys each movie once in order of first occurrence, holding the value of the last pair for it |
| Dicts.Keep | MovieRecomender.py:90 | the comprehension keeps exactly the elements not dropped, and keeps them distinct |
| Dicts.KeepInOrder | MovieRecomender.py:90 | of distinct elements, the kept ones stay in their order in the input |
| PersonalFile.FilterToCatalog | MovieRecomender.py:89-95 | without a catalog the ratings stay as they are; with one, popping the missing movies leaves `InCatalog` |
| PersonalFile.PopAll | MovieRecomender.py:94-95 | popping each listed movie removes exactly those movies and keeps the order of the rest |
| PersonalFile.InCatalogSpec | MovieRecomender.py:89-95 | the filtered ratings are well-formed and hold exactly the rated movies in the catalog, with their ratings |
| PersonalFile.InputFile | MovieRecomender.py:53-95 | fails exactly when a column is missing; otherwise the result is the catalog-filtered last-wins dictionary of the rows that parse under some resolution of the two columns |

## Left out

- File and console I/O: opening and reading the CSV files, `DictReader`, `print`, `input()`, the existence checks, and `save_recommendations` with its `round(score, 2)`. `load_movies` and `load_ratings` are not modelled; their outputs (the catalog and the triple list) are inputs here, with the `SAMPLE_N` cut and the `float(...)` failures of `load_ratings` already applied.
- Floating point: ratings and scores are exact reals, and `math.sqrt` is a parameter. IEEE rounding is not modelled, so `0.1 + 0.2`-style effects on ties are not captured. `cosine_similarity` and the score initialisation return or store the integer `0`, which is modelled as `0.0`; Python compares them as equal.
- Parsing: `str(int(raw.strip()))` and `float(...)` on the personal file are the function parameters `parseId` and `parseRating`, which return `None` where Python raises. A cell whose value is `None` (a short row) is modelled as a missing cell.
- PersonalFile.Lower: models `str.lower` for ASCII letters only, not Unicode case mapping.
- PersonalFile.ResolveColumns: models the failure at line 72 only as an error result carrying the header list. The message is not modelled. The message expression concatenates a string with a list, so the source actually raises `TypeError`, not the `ValueError` it constructs.
- Set iteration order over `common_movies` and over `movie_id_candidates` is a nondeterministic choice. Sums are proved independent of the order. When a header file has both `movie_id` and `movieid`, `ResolveColumns` and `InputFile` state only that one of them is chosen.
- Negative `topN` and `top_n_movies`: the bounds are `nat`. Python's slice with a negative bound drops elements from the end, which is not modelled.
- The main program passes no catalog to `InputFile` (line 222), so the catalog filter does not run in the program's own flow. The model follows the code: `FilterToCatalog` and `InputFile` take the catalog as an `Option`, and `None` leaves the ratings unchanged.
- The main program's statistics loop (lines 208-215) and the sample printing are output only.
- Recommend.AddNeighbourScores, Recommend.ScoreNeighbours and Recommend.AddWeight: the nested loops of `recommend_movies` are split into one method per loop and one for the loop body. The order of operations is unchanged.
