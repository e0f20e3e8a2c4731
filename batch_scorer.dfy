/** `suggestBooks` and `suggestBooksFromArray`: rank the whole catalog by its
    similarity to one book, or by its mean similarity to a list of books,
    and keep the best entries. */
module BatchScorer {
  import opened Tables
  import opened Ranking
  import opened ItemSimilarity

  // ---------------------------------------------------------------------
  // suggestBooks
  // ---------------------------------------------------------------------

  /** The mapped array of `suggestBooks`: every catalog book, in catalog
      order, with its similarity to the query as a percentage. */
  function PercentScores(catalog: seq<Book>, f: Features): (r: seq<Scored<Book>>)
    ensures |r| == |catalog|
    ensures forall i :: 0 <= i < |r| ==> r[i] == Scored(catalog[i], Similarity(f, catalog[i]) * 100.0)
  {
    seq(|catalog|, i requires 0 <= i < |catalog| => Scored(catalog[i], Similarity(f, catalog[i]) * 100.0))
  }

  /** What `suggestBooks(book, n)` returns. */
  function Suggestions(catalog: seq<Book>, book: Book, n: int := 10): seq<Scored<Book>>
  {
    Prefix(SortDesc(PercentScores(catalog, FeaturesOf(book))), n)
  }

  /** `suggestBooks(book, numRecommendations)`: lower-case the query's
      fields, score every catalog book, sort the scored list in place and
      keep its first `n` entries. */
  method SuggestBooks(catalog: seq<Book>, book: Book, n: int := 10) returns (r: seq<Scored<Book>>)
    ensures r == Suggestions(catalog, book, n)
    ensures NonIncreasing(r)
    ensures 0 <= n ==> |r| == (if n < |catalog| then n else |catalog|)
    ensures forall i :: 0 <= i < |r| ==>
      && r[i].item in catalog
      && r[i].score == Similarity(FeaturesOf(book), r[i].item) * 100.0
      && 0.0 <= r[i].score <= 100.0
  {
    var features := Features(book.isbn, Lower(book.title), Lower(book.author));
    var similarBooks := PercentScores(catalog, features);
    similarBooks := SortDesc(similarBooks);
    r := Prefix(similarBooks, n);
    SuggestionsProperties(catalog, book, n);
  }

  /** Before the cut the ranking holds exactly one entry per catalog book,
      scored by its percentage similarity; the ranking is sorted, ties keep
      catalog order, and what is kept scores no lower than what is cut. */
  lemma SuggestionsProperties(catalog: seq<Book>, book: Book, n: int)
    ensures var all := SortDesc(PercentScores(catalog, FeaturesOf(book)));
      && multiset(all) == multiset(PercentScores(catalog, FeaturesOf(book)))
      && (forall k :: WithScore(all, k) == WithScore(PercentScores(catalog, FeaturesOf(book)), k))
      && Suggestions(catalog, book, n) <= all
      && (forall i, j :: 0 <= i < |Suggestions(catalog, book, n)| <= j < |all| ==>
            all[j].score <= Suggestions(catalog, book, n)[i].score)
    ensures NonIncreasing(Suggestions(catalog, book, n))
    ensures 0 <= n ==> |Suggestions(catalog, book, n)| == (if n < |catalog| then n else |catalog|)
    ensures forall i :: 0 <= i < |Suggestions(catalog, book, n)| ==>
      && Suggestions(catalog, book, n)[i].item in catalog
      && Suggestions(catalog, book, n)[i].score == Similarity(FeaturesOf(book), Suggestions(catalog, book, n)[i].item) * 100.0
      && 0.0 <= Suggestions(catalog, book, n)[i].score <= 100.0
  {
    var s := PercentScores(catalog, FeaturesOf(book));
    TopEntries(s, n);
    forall k ensures WithScore(SortDesc(s), k) == WithScore(s, k) {
      SortDescStable(s, k);
    }
    var r := Suggestions(catalog, book, n);
    forall i | 0 <= i < |r|
      ensures r[i].item in catalog && r[i].score == Similarity(FeaturesOf(book), r[i].item) * 100.0
    {
      var k :| 0 <= k < |s| && s[k] == r[i];
    }
  }

  /** A query that is itself in the catalog scores 100, so with `n >= 1` the
      first suggestion scores 100 too. */
  lemma SelfIsTopSuggestion(catalog: seq<Book>, book: Book, n: int)
    requires book in catalog && n >= 1
    ensures |Suggestions(catalog, book, n)| >= 1
    ensures Suggestions(catalog, book, n)[0].score == 100.0
  {
    var s := PercentScores(catalog, FeaturesOf(book));
    var k :| 0 <= k < |catalog| && catalog[k] == book;
    var top := Scored(book, 100.0);
    assert top in s by {
      SelfSimilarity(book);
      assert s[k] == top;
    }
    FirstIsHighest(s, top);
    SuggestionsProperties(catalog, book, n);
  }

  /** Of two catalog books, the one more similar to the query features is
      ranked first: before the cut every book has an entry, and the more
      similar book's entry precedes the other's. */
  lemma MoreSimilarRanksFirst(catalog: seq<Book>, f: Features, b1: Book, b2: Book)
    requires b1 in catalog && b2 in catalog
    requires Similarity(f, b2) < Similarity(f, b1)
    ensures var all := SortDesc(PercentScores(catalog, f));
      var e1, e2 := Scored(b1, Similarity(f, b1) * 100.0), Scored(b2, Similarity(f, b2) * 100.0);
      && (exists i, j :: 0 <= i < j < |all| && all[i] == e1 && all[j] == e2)
      && (forall i, j :: 0 <= i < |all| && 0 <= j < |all| && all[i] == e1 && all[j] == e2 ==> i < j)
  {
    var s := PercentScores(catalog, f);
    var k1 :| 0 <= k1 < |catalog| && catalog[k1] == b1;
    var k2 :| 0 <= k2 < |catalog| && catalog[k2] == b2;
    var e1, e2 := Scored(b1, Similarity(f, b1) * 100.0), Scored(b2, Similarity(f, b2) * 100.0);
    assert e1 in s by { assert s[k1] == e1; }
    assert e2 in s by { assert s[k2] == e2; }
    HigherRanksFirst(s, e1, e2);
  }

  // ---------------------------------------------------------------------
  // suggestBooksFromArray
  // ---------------------------------------------------------------------

  /** The `userBookFeatures` of `suggestBooksFromArray`. */
  function FeaturesList(books: seq<Book>): (r: seq<Features>)
    ensures |r| == |books| && forall k :: 0 <= k < |r| ==> r[k] == FeaturesOf(books[k])
  {
    seq(|books|, k requires 0 <= k < |books| => FeaturesOf(books[k]))
  }

  /** The similarities of one catalog book to every query, in query order. */
  function Similarities(features: seq<Features>, b: Book): (r: seq<real>)
    ensures |r| == |features| && forall k :: 0 <= k < |r| ==> r[k] == Similarity(features[k], b)
  {
    seq(|features|, k requires 0 <= k < |features| => Similarity(features[k], b))
  }

  /** The `averageSimilarity` of one catalog book: the mean of its
      similarities to the queries, which lies in `[0, 1]`. */
  function MeanSimilarity(features: seq<Features>, b: Book): (r: real)
    requires |features| > 0
    ensures 0.0 <= r <= 1.0
  {
    MeanBounds(Similarities(features, b), 0.0, 1.0);
    Mean(Similarities(features, b))
  }

  /** The `similarBooks` array before sorting: every catalog book, in catalog
      order, with its mean similarity. */
  function MeanScores(catalog: seq<Book>, features: seq<Features>): (r: seq<Scored<Book>>)
    requires |features| > 0
    ensures |r| == |catalog|
  {
    ScoreEach(catalog, MeanScorer(features))
  }

  /** The score the `forEach` callback computes for a book. */
  function MeanScorer(features: seq<Features>): Book -> real
    requires |features| > 0
  {
    b => MeanSimilarity(features, b)
  }

  /** Entry `i` of the array is catalog book `i` with its mean similarity. */
  lemma MeanScoresAt(catalog: seq<Book>, features: seq<Features>, i: int)
    requires |features| > 0 && 0 <= i < |catalog|
    ensures MeanScores(catalog, features)[i] == Scored(catalog[i], MeanSimilarity(features, catalog[i]))
  {
    ScoreEachAt(catalog, MeanScorer(features), i);
  }

  /** What `suggestBooksFromArray(userBooks, n)` returns. */
  function SuggestionsFromArray(catalog: seq<Book>, userBooks: seq<Book>, n: int := 20): seq<Scored<Book>>
    requires |userBooks| > 0
  {
    Prefix(SortDesc(MeanScores(catalog, FeaturesList(userBooks))), n)
  }

  /** The `forEach` of `suggestBooksFromArray`: it pushes every catalog
      book, in catalog order, with the score the callback computes for it. */
  method ScoreCatalog(catalog: seq<Book>, score: Book -> real) returns (similarBooks: seq<Scored<Book>>)
    ensures similarBooks == ScoreEach(catalog, score)
  {
    similarBooks := [];
    for i := 0 to |catalog|
      invariant similarBooks == ScoreEach(catalog[..i], score)
    {
      var averageSimilarity := score(catalog[i]);
      assert catalog[..i + 1] == catalog[..i] + [catalog[i]];
      ScoreEachSnoc(catalog[..i], catalog[i], score);
      similarBooks := similarBooks + [Scored(catalog[i], averageSimilarity)];
    }
    assert catalog[..|catalog|] == catalog;
  }

  /** `suggestBooksFromArray(userBooks, numRecommendations)`: every catalog
      book is scored by its mean similarity to the queries; the array is then
      sorted in place and cut to `n` entries. */
  method SuggestBooksFromArray(catalog: seq<Book>, userBooks: seq<Book>, n: int := 20) returns (r: seq<Scored<Book>>)
    requires |userBooks| > 0
    ensures r == SuggestionsFromArray(catalog, userBooks, n)
    ensures NonIncreasing(r)
    ensures 0 <= n ==> |r| == (if n < |catalog| then n else |catalog|)
    ensures forall i :: 0 <= i < |r| ==>
      && r[i].item in catalog
      && r[i].score == MeanSimilarity(FeaturesList(userBooks), r[i].item)
      && 0.0 <= r[i].score <= 1.0
  {
    var userBookFeatures := seq(|userBooks|, k requires 0 <= k < |userBooks| =>
      Features(userBooks[k].isbn, Lower(userBooks[k].title), Lower(userBooks[k].author)));
    assert userBookFeatures == FeaturesList(userBooks);
    var similarBooks := ScoreCatalog(catalog, MeanScorer(userBookFeatures));
    similarBooks := SortDesc(similarBooks);
    r := Prefix(similarBooks, n);
    SuggestionsFromArrayProperties(catalog, userBooks, n);
  }

  /** Before the cut the ranking holds exactly one entry per catalog book,
      scored by its mean similarity; the ranking is sorted, ties keep
      catalog order, and what is kept scores no lower than what is cut. */
  lemma SuggestionsFromArrayProperties(catalog: seq<Book>, userBooks: seq<Book>, n: int)
    requires |userBooks| > 0
    ensures var all := SortDesc(MeanScores(catalog, FeaturesList(userBooks)));
      && multiset(all) == multiset(MeanScores(catalog, FeaturesList(userBooks)))
      && (forall k :: WithScore(all, k) == WithScore(MeanScores(catalog, FeaturesList(userBooks)), k))
      && SuggestionsFromArray(catalog, userBooks, n) <= all
      && (forall i, j :: 0 <= i < |SuggestionsFromArray(catalog, userBooks, n)| <= j < |all| ==>
            all[j].score <= SuggestionsFromArray(catalog, userBooks, n)[i].score)
    ensures NonIncreasing(SuggestionsFromArray(catalog, userBooks, n))
    ensures 0 <= n ==> |SuggestionsFromArray(catalog, userBooks, n)| == (if n < |catalog| then n else |catalog|)
    ensures forall i :: 0 <= i < |SuggestionsFromArray(catalog, userBooks, n)| ==>
      && SuggestionsFromArray(catalog, userBooks, n)[i].item in catalog
      && SuggestionsFromArray(catalog, userBooks, n)[i].score ==
           MeanSimilarity(FeaturesList(userBooks), SuggestionsFromArray(catalog, userBooks, n)[i].item)
      && 0.0 <= SuggestionsFromArray(catalog, userBooks, n)[i].score <= 1.0
  {
    var s := MeanScores(catalog, FeaturesList(userBooks));
    TopEntries(s, n);
    forall k ensures WithScore(SortDesc(s), k) == WithScore(s, k) {
      SortDescStable(s, k);
    }
    var r := SuggestionsFromArray(catalog, userBooks, n);
    forall i | 0 <= i < |r|
      ensures r[i].item in catalog && r[i].score == MeanSimilarity(FeaturesList(userBooks), r[i].item)
    {
      var k :| 0 <= k < |s| && s[k] == r[i];
      MeanScoresAt(catalog, FeaturesList(userBooks), k);
    }
  }

  /** With a single query book the two entry points agree: the same books in
      the same order, the averaged scores being the percentages over 100. */
  lemma SingleQueryAgrees(catalog: seq<Book>, book: Book, n: int)
    ensures Scale(SuggestionsFromArray(catalog, [book], n), 100.0) == Suggestions(catalog, book, n)
  {
    var f := FeaturesList([book]);
    var m := MeanScores(catalog, f);
    var p := PercentScores(catalog, FeaturesOf(book));
    forall i | 0 <= i < |catalog| ensures Scale(m, 100.0)[i] == p[i] {
      MeanScoresAt(catalog, f, i);
      var sims := Similarities(f, catalog[i]);
      assert sims[..0] == [];
      assert Sum(sims) == Similarity(FeaturesOf(book), catalog[i]);
    }
    assert Scale(m, 100.0) == p;
    SortDescScale(m, 100.0);
    PrefixScale(SortDesc(m), 100.0, n);
  }
}
