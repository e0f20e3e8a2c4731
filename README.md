# Book recommender scoring engine, in Dafny

This project models the scoring core of a small book-recommendation server
(`app.js`). Three tables drive it: the book catalog (ISBN, title, author),
the user table, and the ratings table (user id, ISBN, rating). Requests use
two families of operations on those tables.

- **Collaborative and hybrid.**
  - `getSimilarUsers` ranks the other users by the cosine similarity of
    their ratings to the target's.
  - `getSimilarBooks` filters the catalog and drops every book by an author
    of a liked book.
  - `hybridRecommendation` chains the two. The books that the two nearest
    neighbours rated 4 or more become the "liked" list. The filtered
    candidates are then de-duplicated, cut and resolved back to catalog
    books.
- **Content-based.**
  - `suggestBooks` scores every catalog book by its similarity to one query
    book, as a percentage, sorts the scores and keeps the best `n`.
  - `suggestBooksFromArray` does the same for a list of query books. It
    scores each book by the mean of its similarities to the queries.
  - Similarity (`calculateSimilarity`) is the mean of two Jaccard
    similarities (`calculateJaccardSimilarity`): one between the titles'
    word sets and one between the authors' word sets.

The tables are immutable `seq` parameters of every operation. The modules
follow the program's components.

| module | file | models |
|---|---|---|
| `Tables` | `tables.dfy` | records, `Array.prototype.find` on the catalog, `slice(0, n)` |
| `Ranking` | `ranking.dfy` | the descending sort on scores (stable, as `Array.prototype.sort` is), the `forEach` that pushes one scored entry per item, `reduce` sums and means |
| `VectorMath` | `vector_math.dfy` | `cosineSimilarity`, `split(" ")`, `calculateJaccardSimilarity` |
| `ItemSimilarity` | `item_similarity.dfy` | `toLowerCase`, query features, `calculateSimilarity` |
| `UserSimilarity` | `user_similarity.dfy` | `getSimilarUsers` |
| `CandidateGenerator` | `candidate_generator.dfy` | `getSimilarBooks` |
| `HybridRanker` | `hybrid_ranker.dfy` | `hybridRecommendation` |
| `BatchScorer` | `batch_scorer.dfy` | `suggestBooks`, `suggestBooksFromArray` |
| `NeighbourScenarios`, `CatalogScenarios` | `neighbour_scenarios.dfy`, `catalog_scenarios.dfy` | small fixed tables worked through the model |

The functions written with loops in `app.js` are modelled as methods with
`while`/`for` loops: the `forEach` loops of `getSimilarUsers`,
`getSimilarBooks` and `suggestBooksFromArray`. Each method is proved equal
to a specification function, and the properties are proved about that
function. The `map`, `filter`, `reduce` and `find` expressions without loops
are modelled as functions.

Several modelling choices follow from `app.js` itself.

- **Collaborative vectors.** In `getSimilarUsers` the target's vector is the
  list of all its rating values. The other vector is a ratings row with its
  first two columns dropped (`Object.values(rating).slice(2)`), which is that
  row's single rating value. So `cosineSimilarity` throws a length-mismatch
  error unless the target has exactly one rating, or unless no other user
  has rated anything (then it is never called).
- **Errors.** The model returns that failure as a `Result`, and
  `hybridRecommendation` passes it through.
- **Cosine of one rating each.** With one rating on each side, the cosine of
  `[t]` and `[v]` is the sign of `t * v`.
- **Square roots.** The cosine of longer vectors is kept as a symbolic
  ratio. A ghost predicate relates it to the real number it stands for, and
  that number is proved to lie in `[-1, 1]` by the Cauchy–Schwarz
  inequality.

## Behaviour of the code that a caller may not expect

The model follows the code. Four of its behaviours contradict what a caller
would reasonably expect, and each one is proved as a lemma.

- **Users with several ratings make the call throw.**
  - Expected: each other user's rating is compared with the target's rating
    of the same kind, so the cosine always sees two one-element vectors.
  - The code compares the whole target vector with the other row's single
    value. A user who rated twice, with someone else in the table, makes
    the call fail.
  - Lemma: `NeighbourScenarios.TwoRatingsThrow`. The general condition is in
    `UserSimilarity.SimilarUsersFails`.
- **A user without ratings does not get the catalog-order default.**
  - Expected: a user who rated nothing has no neighbours, likes nothing,
    and so gets the first catalog books in order.
  - That holds only when no other user has rated anything, and then when,
    for instance, the catalog's ISBNs are unique (the lemma's hypothesis):
    a repeated ISBN among the first ten books is collapsed by the
    de-duplication and resolved to its first book. Otherwise the
    user's empty vector meets other users' one-element vectors, and the
    call throws.
  - Lemmas: `HybridRanker.HybridWithoutOtherRaters` for the case that works,
    `UserSimilarity.SimilarUsersFails` for the failure.
- **Same author outranks a shared title word.**
  - Expected: for the query "The Cat" by Jane Doe, "The Cat Sat" by John
    Roe, which repeats the whole query title, ranks above "The Dog" by
    Jane Doe.
  - The code scores "The Dog" (1/3 + 1) / 2, which is 66.7%, and "The Cat
    Sat" (2/3 + 0) / 2, which is 33.3%. So "The Dog" is ranked first.
  - Lemma: `CatalogScenarios.SameAuthorOutranksSharedTitle`.
- **A recommendation can include a book the user has rated.**
  - Expected: a recommender does not suggest books the user has already
    rated.
  - The candidate filter excludes only the liked ISBNs and their authors.
    Nothing excludes the user's own ratings.
  - Lemma: `NeighbourScenarios.RecommendsRatedBook` gives a two-row table in
    which the user's own rated book is recommended.

## Model

| member | source | states |
|---|---|---|
| Tables.FindBook | app.js:90 | `find` by ISBN: `None` exactly when no catalog book has the ISBN, otherwise a catalog book with that ISBN |
| Tables.FindBookIsFirst | app.js:90 | `find` returns the first book with the ISBN |
| Tables.FindBookUnique | app.js:124 | with unique ISBNs, resolving a catalog book's ISBN gives back that book |
| Tables.Prefix | app.js:83 | `slice(0, n)` is a prefix, of length `min(n, len)` for `n >= 0` and `max(len + n, 0)` for negative `n` |
| VectorMath.CosineSimilarity | app.js:34-45 | fails with `LengthMismatch` exactly when the lengths differ; is 0 exactly when a magnitude is 0; otherwise is the symbolic ratio `Ratio(Dot(a, b), SumOfSquares(a), SumOfSquares(b))`, standing for `dot / sqrt(squares1 * squares2)` |
| VectorMath.Dot | app.js:38 | the dot product of two equal-length vectors; symmetric by `VectorMath.DotSymmetric`, bounded by `VectorMath.CauchySchwarz` |
| VectorMath.SumOfSquares | app.js:39-40 | the squared magnitude, a natural number; zero exactly when the vector is, by `VectorMath.SumOfSquaresZero` |
| VectorMath.SumOfSquaresZero | app.js:39-41 | a magnitude is 0 exactly when every component is 0 |
| VectorMath.DotSymmetric | app.js:38 | the dot product is symmetric |
| VectorMath.CauchySchwarz | app.js:38-40 | the squared dot product is at most the product of the squared magnitudes |
| VectorMath.CosineBounded | app.js:34-45 | every computed cosine lies in `[-1, 1]` |
| VectorMath.CosineOfNonNegative | app.js:34-45 | the cosine of two non-negative vectors lies in `[0, 1]` |
| VectorMath.CosineSymmetric | app.js:34-45 | swapping the vectors changes neither failure nor value |
| VectorMath.SingletonCosine | app.js:38-44 | the cosine of `[t]` and `[v]` is 1, -1 or 0 as `t * v` is positive, negative or zero |
| VectorMath.Split | app.js:172 | `split(" ")` yields at least one piece |
| VectorMath.SplitJoin | app.js:172 | joining the pieces with spaces gives back the string, and no piece holds a space |
| VectorMath.TokenSet | app.js:172-173 | the token set of any string is non-empty, so the union is never empty |
| VectorMath.Jaccard | app.js:171-179 | the Jaccard similarity lies in `[0, 1]` |
| VectorMath.JaccardSymmetric | app.js:171-179 | the Jaccard similarity is symmetric |
| VectorMath.JaccardOne | app.js:171-179 | it is 1 exactly when the two token sets are equal |
| VectorMath.JaccardZero | app.js:171-179 | it is 0 exactly when the two token sets are disjoint |
| ItemSimilarity.LowerChar | app.js:137 | `toLowerCase` on a character maps each of `A`-`Z` to its own lower-case letter (code point plus 32) and keeps every other character |
| ItemSimilarity.Lower | app.js:137-138 | lower-casing keeps the length, lowers each character by `LowerChar`, and leaves no upper-case ASCII letter |
| ItemSimilarity.LowerIdempotent | app.js:160 | lowering the already-lowered query features again changes nothing |
| ItemSimilarity.FeaturesOf | app.js:135-139 | the query features are the ISBN and the lower-cased title and author |
| ItemSimilarity.Similarity | app.js:157-168 | the similarity lies in `[0, 1]` |
| ItemSimilarity.SimilarityExtremes | app.js:157-168 | it is 1 exactly when both token-set pairs agree, and 0 exactly when both are disjoint |
| ItemSimilarity.SelfSimilarity | app.js:157-168 | a book is fully similar, 1, to its own features |
| Ranking.Insert | app.js:81 | one step of the stable sort, placing an entry before the first one it outscores or ties; its properties are proved in `Ranking.InsertPermutes`, `InsertSorted` and `InsertStable` |
| Ranking.SortDesc | app.js:81 | the stable sort largest first, `sort((a, b) => b.score - a.score)`, shared with app.js:150 and 204; what it computes is stated by the `SortDesc…` lemmas below |
| Ranking.SortDescSortsAndPermutes | app.js:81 | the descending sort returns a permutation of its input sorted by score, largest first |
| Ranking.SortDescStable | app.js:81 | for every score, the entries with that score keep their input order |
| Ranking.SortDescTies | app.js:81 | when the input is increasing in a key, equally scored entries of the sorted output are too |
| Ranking.SortDescOfSorted | app.js:81 | a list already sorted comes back unchanged |
| Ranking.SortDescMember | app.js:81 | every entry of the sorted list is an entry of the input |
| Ranking.InSortDesc | app.js:81 | every input entry is in the sorted list |
| Ranking.FirstIsHighest | app.js:150 | no input entry scores above the first entry of the sorted list |
| Ranking.HigherRanksFirst | app.js:81 | an entry with a strictly higher score appears before one with a lower score |
| Ranking.SortDescDistinct | app.js:81 | sorting never makes two entries share an item |
| Ranking.PrefixKeeps | app.js:83 | a prefix of a sorted list is sorted, and a prefix of a list with distinct items has distinct items |
| Ranking.TopEntries | app.js:81-83 | sorting keeps the multiset of entries; the kept prefix is sorted, made of input entries, and scores no lower than anything cut |
| Ranking.ScaleKeepsOrder | app.js:150 | a positive factor preserves the order of two scores |
| Ranking.SortDescScale | app.js:150 | sorting after scaling by a positive factor equals scaling after sorting |
| Ranking.PrefixScale | app.js:153 | cutting commutes with scaling |
| Ranking.ScoreEach | app.js:202 | one entry per item, in item order; entry `i` is given by `Ranking.ScoreEachAt` |
| Ranking.ScoreEachAt | app.js:202 | entry `i` pairs item `i` with its score |
| Ranking.ScoreEachSnoc | app.js:202 | one more item appends exactly its entry |
| Ranking.Sum | app.js:76 | `reduce((acc, val) => acc + val, 0)`, also at app.js:201; bounded by `Ranking.SumBounds` |
| Ranking.Mean | app.js:75-76 | the sum divided by the length of a non-empty list, also at app.js:200-201; bounded by `Ranking.MeanBounds` |
| Ranking.SumBounds | app.js:76 | a sum of `k` numbers in `[lo, hi]` lies in `[k * lo, k * hi]` |
| Ranking.MeanBounds | app.js:75-76 | a mean of numbers in `[lo, hi]` lies in `[lo, hi]` |
| UserSimilarity.TargetValues | app.js:49-58 | the target's rating values, in table order; non-negative when all ratings are, by `UserSimilarity.TargetValuesNonNegative` |
| UserSimilarity.Push | app.js:64-68 | set-if-absent then push; equal to the two in-place updates by `UserSimilarity.PushInPlace` |
| UserSimilarity.Bucketed | app.js:53-70 | whenever the fold succeeds its buckets are well formed (each user once, each with at least one sample) and never hold the target |
| UserSimilarity.Averages | app.js:73-78 | one entry per bucket, in insertion order, scored by the bucket's mean |
| UserSimilarity.SimilarUsers | app.js:48-84 | the fold, average, sort and cut that `getSimilarUsers` performs; its failure condition, ranking and scores are proved in the `SimilarUsers…` lemmas |
| UserSimilarity.GetSimilarUsers | app.js:48-84 | equals the fold-sort-cut specification; fails exactly when the target does not have exactly one rating and another user has rated something; on success returns a neighbour list, with `min(n, m)` entries for `n >= 0` where `m` is the number of other users who rated something |
| UserSimilarity.FillBuckets | app.js:52-70 | the loop over the ratings computes the fold `Bucketed`, throwing at the first failing cosine |
| UserSimilarity.AverageBuckets | app.js:73-78 | the loop over the map computes `Averages` |
| UserSimilarity.PushInPlace | app.js:64-68 | `Push` is the pair of in-place map updates: a new key is appended with `[]`, then the sample is pushed |
| UserSimilarity.BucketedSnoc | app.js:53-70 | one more row: the target's rows are skipped, a failing cosine fails, otherwise the sample is pushed |
| UserSimilarity.BucketedFailurePersists | app.js:55-62 | once a cosine has thrown, the whole call fails |
| UserSimilarity.BucketedFails | app.js:49-62 | the fold fails exactly when the target vector does not have length 1 and someone else has rated something |
| UserSimilarity.SimilarUsersFails | app.js:48-84 | the same condition for `getSimilarUsers` |
| UserSimilarity.BucketedContents | app.js:52-70 | the map holds exactly the other users who rated something, each with their bucket of signs in table order |
| UserSimilarity.SingletonCosineOf | app.js:55-62 | a successful cosine against a row has a length-1 target vector and is the sign of the product |
| UserSimilarity.SimilarUsersIsNeighbourList | app.js:73-83 | the result never holds the target, holds each user once, is sorted largest first and has at most `n` entries |
| UserSimilarity.BucketedUsers | app.js:52-70 | the map has one key for each other user who rated something |
| UserSimilarity.SimilarUsersCount | app.js:72-83 | for `n >= 0` there are exactly `min(n, m)` neighbours, `m` being the number of other users who rated something |
| UserSimilarity.SimilarUsersKeepsTop | app.js:72-83 | the top `n` are kept: every other rater left out has a non-empty bucket whose mean is at most the similarity of each neighbour kept |
| UserSimilarity.CutBucketScoresLower | app.js:80-83 | an averaged bucket cut off after sorting scores no higher than any entry kept |
| UserSimilarity.Users | app.js:53-54 | the `userId` column of the rows in row order; a user is in it exactly when the user rated something |
| UserSimilarity.PushOrder | app.js:64-68 | a push appends a key to the map's key order only when that user has not been seen before, so the order stays that of first rows |
| UserSimilarity.BucketedOrder | app.js:52-70 | the map's keys are in the order of each user's first row, the insertion order of a JavaScript `Map` |
| UserSimilarity.AveragesTies | app.js:73-81 | after the stable sort, equally scored averages stand in the order of their users' first rows |
| UserSimilarity.CutBucketTiesLater | app.js:73-83 | a bucket cut off with the same average as a kept entry belongs to a user whose first row comes later |
| UserSimilarity.SimilarUsersTies | app.js:64-83 | equally similar users in the result are listed in the order of their first rows |
| UserSimilarity.SimilarUsersTieCut | app.js:64-83 | a user left out whose similarity ties a kept user's has a later first row than that user: ties at the cut are decided by first appearance |
| UserSimilarity.SimilarUsersScores | app.js:72-78 | each neighbour rated something, and its score is the mean of its non-empty bucket |
| UserSimilarity.SimilarUsersBounded | app.js:48-84 | every similarity lies in `[-1, 1]`, and in `[0, 1]` when all ratings are non-negative |
| CandidateGenerator.LikedAuthors | app.js:88-94 | the authors of the liked ISBNs the catalog resolves; characterised by `CandidateGenerator.LikedAuthorsMembers` |
| CandidateGenerator.LikedAuthorsMembers | app.js:88-94 | an author is excluded exactly when some liked ISBN resolves to one of their books |
| CandidateGenerator.Candidates | app.js:96-100 | the filter keeps exactly the catalog books by no excluded author whose ISBN is not liked |
| CandidateGenerator.SelectedBooks | app.js:96-101 | the filtered catalog cut to `n` books; its properties are proved in `CandidateGenerator.SelectedBooksProperties` |
| CandidateGenerator.SimilarBooks | app.js:96-101 | the ISBNs of the selected books; what `getSimilarBooks` returns, by `CandidateGenerator.GetSimilarBooks` |
| CandidateGenerator.Isbns | app.js:101 | `map(book => book.ISBN)` keeps the length and takes each ISBN |
| CandidateGenerator.GetSimilarBooks | app.js:87-102 | equals the filter-cut-map specification; returns no liked ISBN and at most `n` ISBNs; with nothing liked returns the first `n` catalog ISBNs |
| CandidateGenerator.CandidatesSubsequence | app.js:96-100 | the filter keeps catalog order |
| CandidateGenerator.CandidatesOfNothing | app.js:96-100 | with no excluded author and nothing liked, the filter keeps the whole catalog |
| CandidateGenerator.SelectedBooksProperties | app.js:87-102 | the selection is an ordered subsequence of the catalog of at most `n` books, with no liked ISBN and no author of a resolvable liked ISBN |
| CandidateGenerator.CandidatesComplete | app.js:96-100 | before the cut a catalog book is a candidate exactly when its ISBN is not liked and no liked ISBN resolves to a book by its author |
| CandidateGenerator.SimilarBookAt | app.js:96-101 | each returned ISBN belongs to a catalog book that is neither liked nor by an excluded author |
| CandidateGenerator.NothingLiked | app.js:87-102 | with nothing liked the result is the first `n` catalog ISBNs |
| HybridRanker.LikedByNeighbour | app.js:109-112 | a row rated 4 or more by one of the neighbours; used by `HybridRanker.LikedIsbns` |
| HybridRanker.LikedIsbns | app.js:107-114 | an ISBN is liked exactly when some row of it is rated 4 or more by a neighbour |
| Tables.FirstIndex | app.js:117-119 | the position of an element's first occurrence: it holds the element and no earlier position does |
| Tables.FirstIndexSnoc | app.js:117-119 | appending an element moves no other element's first occurrence |
| HybridRanker.Dedup | app.js:117-119 | `Array.from(new Set(s))` has the same elements, none twice, ordered by their first occurrence in the input, and is no longer than the input |
| HybridRanker.DedupOfDistinct | app.js:117-119 | de-duplication changes nothing in a list without repeats |
| HybridRanker.Resolve | app.js:122-124 | each ISBN is resolved with `find`, in order |
| HybridRanker.FromLiked | app.js:116-124 | candidates, de-duplicated, cut to `n` and resolved; its properties are proved in `HybridRanker.FromLikedProperties`, `FromLikedAt` and `FromLikedDiversifies` |
| HybridRanker.HybridRecommendation | app.js:105-127 | fails exactly when `getSimilarUsers` fails |
| HybridRanker.FromLikedProperties | app.js:116-126 | at most `min(n, 10)` books, each found in the catalog, no ISBN twice, none liked |
| HybridRanker.FromLikedAt | app.js:116-124 | the `i`-th recommendation is the catalog book of a candidate ISBN |
| HybridRanker.FromLikedDiversifies | app.js:116-124 | under unique ISBNs, no recommended book is by the author of a book a liked ISBN resolves to |
| HybridRanker.HybridProperties | app.js:105-127 | a successful recommendation has at most `min(n, 10)` resolved catalog books, no ISBN twice, none liked by a neighbour, and under unique ISBNs none by a liked book's author |
| HybridRanker.LikedMeansNeighbourRatedFourOrMore | app.js:106-114 | liked means rated 4 or more by one of at most two neighbours, none of whom is the user |
| HybridRanker.DedupIsNoOp | app.js:117-119 | under unique ISBNs the de-duplication changes nothing |
| HybridRanker.NobodyLikesAnything | app.js:107-114 | without neighbours nothing is liked |
| HybridRanker.NoOtherRatersNoNeighbours | app.js:48-84 | when no other user has rated anything, `getSimilarUsers` succeeds with no neighbours |
| HybridRanker.FromNothingLiked | app.js:116-124 | under unique ISBNs, with nothing liked the result is the first `min(n, 10)` catalog books |
| HybridRanker.HybridWithoutOtherRaters | app.js:105-127 | under unique ISBNs, a user whom nobody else can be compared with gets the first `min(n, 10)` catalog books, in catalog order |
| BatchScorer.PercentScores | app.js:142-147 | one entry per catalog book, in catalog order, scored by 100 times its similarity |
| BatchScorer.Suggestions | app.js:142-153 | score, stable sort and cut; its properties are proved in `BatchScorer.SuggestionsProperties` |
| BatchScorer.SuggestBooks | app.js:131-154 | equals the score-sort-cut specification; sorted largest first; `min(n, len)` entries for `n >= 0`; each a catalog book scored by its percentage similarity in `[0, 100]` |
| BatchScorer.SuggestionsProperties | app.js:142-153 | before the cut the ranking is a permutation of the scored catalog with ties in catalog order; the result is its prefix, and kept entries score no lower than cut ones |
| BatchScorer.SelfIsTopSuggestion | app.js:131-154 | a query that is in the catalog (with `n >= 1`) yields a first suggestion scoring 100 |
| BatchScorer.MoreSimilarRanksFirst | app.js:142-150 | of two catalog books, the one more similar to the query is ranked first |
| BatchScorer.FeaturesList | app.js:185-189 | the query features of each user book, in order |
| BatchScorer.Similarities | app.js:195-198 | the similarity of a book to each query, in query order |
| BatchScorer.MeanSimilarity | app.js:200-201 | the average similarity lies in `[0, 1]` |
| BatchScorer.MeanScorer | app.js:195-201 | the `forEach` callback's score for a book: its mean similarity to the queries |
| BatchScorer.MeanScores | app.js:194-203 | one entry per catalog book, in catalog order; entry `i` is given by `BatchScorer.MeanScoresAt` |
| BatchScorer.MeanScoresAt | app.js:194-203 | entry `i` is catalog book `i` with its mean similarity |
| BatchScorer.ScoreCatalog | app.js:192-203 | the `forEach` loop pushes exactly the entries of the specification, in catalog order |
| BatchScorer.SuggestionsFromArray | app.js:194-205 | mean-score, stable sort and cut; its properties are proved in `BatchScorer.SuggestionsFromArrayProperties` |
| BatchScorer.SuggestBooksFromArray | app.js:183-206 | equals the score-sort-cut specification; sorted largest first; `min(n, len)` entries for `n >= 0`; each a catalog book scored by its mean similarity in `[0, 1]` |
| BatchScorer.SuggestionsFromArrayProperties | app.js:194-205 | before the cut the ranking is a permutation of the scored catalog with ties in catalog order; the result is its prefix, and kept entries score no lower than cut ones |
| BatchScorer.SingleQueryAgrees | app.js:183-206 | with one query book, `suggestBooksFromArray` scaled by 100 equals `suggestBooks`: same books, same order |
| NeighbourScenarios.TwoRatingsThrow | app.js:48-70 | a target with two ratings, meeting another user's row, makes `getSimilarUsers` fail with a length mismatch |
| NeighbourScenarios.TargetOfOneEach | app.js:49-51 | the target's vector in the two-row table is `[5]` |
| NeighbourScenarios.BucketsOfOneEach | app.js:52-70 | the map for that table holds one bucket, `u2 -> [1]` |
| NeighbourScenarios.AverageOfOneBucket | app.js:73-83 | averaging, sorting and cutting that map gives `[(u2, 1)]` |
| NeighbourScenarios.OnlyNeighbour | app.js:48-84 | `getSimilarUsers("u1")` returns `u2` with similarity 1 |
| NeighbourScenarios.LikedByOnlyNeighbour | app.js:107-114 | the only liked ISBN is `i2` |
| NeighbourScenarios.CandidatesBesidesB | app.js:87-102 | with `i2` liked, the filter returns `i1` |
| NeighbourScenarios.DedupOne | app.js:117-119 | de-duplicating `[i1]` gives `[i1]` |
| NeighbourScenarios.ResolveOne | app.js:122-124 | `i1` resolves to its catalog book |
| NeighbourScenarios.FromLikedB | app.js:116-124 | with `i2` liked, the recommendation is book `i1` |
| NeighbourScenarios.RecommendsRatedBook | app.js:105-127 | `u1` rated `i1`, yet `hybridRecommendation("u1")` recommends `i1` |
| CatalogScenarios.SplitWord | app.js:172 | a word without a space splits into itself |
| CatalogScenarios.SplitFirstWord | app.js:172 | a leading word and a space split off as the first piece |
| CatalogScenarios.TwoWords | app.js:172-173 | the token set of "a b" is `{a, b}` |
| CatalogScenarios.ThreeWords | app.js:172-173 | the token set of "a b c" is `{a, b, c}` |
| CatalogScenarios.LowerCases | app.js:137-138 | the lower-cased fixture titles and authors |
| CatalogScenarios.ShareFirstWord | app.js:171-179 | two two-word strings sharing only their first word have Jaccard 1/3 |
| CatalogScenarios.OneMoreWord | app.js:171-179 | "w x" against "w x y" has Jaccard 2/3 |
| CatalogScenarios.NoWordShared | app.js:171-179 | two two-word strings with no common word have Jaccard 0 |
| CatalogScenarios.TitleCatDog | app.js:171-179 | "the cat" against "the dog" has Jaccard 1/3 |
| CatalogScenarios.TitleCatCatSat | app.js:171-179 | "the cat" against "the cat sat" has Jaccard 2/3 |
| CatalogScenarios.AuthorJaneJohn | app.js:171-179 | "jane doe" against "john roe" has Jaccard 0 |
| CatalogScenarios.AuthorJaneJane | app.js:171-179 | "jane doe" against itself has Jaccard 1 |
| CatalogScenarios.DogScore | app.js:157-168 | "The Dog" by Jane Doe has similarity 2/3 to the query "The Cat" by Jane Doe |
| CatalogScenarios.CatSatScore | app.js:157-168 | "The Cat Sat" by John Roe has similarity 1/3 to that query |
| CatalogScenarios.SameAuthorOutranksSharedTitle | app.js:131-154 | in any catalog holding both books, `suggestBooks` for that query ranks "The Dog" (66.7) before "The Cat Sat" (33.3) |

## Left out

- Loading the three CSV files (`readCSV`, `Promise.all`, app.js:7-31) is left out. It is I/O; the tables become parameters, and the users table is not used by the core.
- The Express routes and `startServer` (app.js:208-250) are left out. They are HTTP I/O; the book lists they pass are just arguments of the modelled functions.
- `VectorMath.CosineSimilarity`: the square root of the magnitude product is not modelled. A `Ratio` stands for `dot / sqrt(squares1 * squares2)` through the ghost predicate `Denotes`. The engine only ever reaches the one-element case, where the value is computed exactly.
- Floating-point arithmetic is left out. Scores are exact reals, so rounding in the divisions by 2, by the union size and by the number of queries is not modelled, nor NaN.
- `ItemSimilarity.Lower`: lower-cases the ASCII letters only, not the full Unicode mapping of `toLowerCase`.
- `parseFloat` of the rating column is left out. Ratings are integers. The string comparison `rating["Book-Rating"] >= 4` is modelled as numeric, which is what JavaScript's coercion does for numeric strings.
- `BatchScorer.SuggestBooksFromArray` requires a non-empty list of query books. With an empty list the code divides 0 by 0 and scores every book NaN, which exact reals cannot express.
- The in-place `sort` calls (app.js:81, 150, 204) are modelled as reassigning a request-local sequence with the sorted copy. The array is never shared, so no aliasing is lost.
- The extra columns copied by `{ ...otherBook, ... }` are left out. A scored entry carries the catalog `Book` record (ISBN, title, author) and its score.
- Non-integer counts passed to `slice` are left out, along with `undefined` arguments other than the defaults.
