/** Small fixed rating tables worked through the collaborative side of the
    model: what `getSimilarUsers` and `hybridRecommendation` return for
    them, including a failing call and a recommendation of a book the user
    has rated already. */
module NeighbourScenarios {
  import opened Tables
  import opened Ranking
  import opened VectorMath
  import opened UserSimilarity
  import opened CandidateGenerator
  import opened HybridRanker

  /** Two users with two ratings each, and a third user with one. */
  function TwoRatingsEach(): seq<Rating>
  {
    [Rating("u1", "i1", 5), Rating("u1", "i2", 3), Rating("u2", "i1", 5), Rating("u2", "i2", 3), Rating("u3", "i1", 1)]
  }

  /** Although `u2` rated exactly as `u1` did, `getSimilarUsers("u1", 2)`
      does not rank anybody: the two-element vector of `u1` meets the
      one-element vector of another user's row, and the call throws. */
  lemma TwoRatingsThrow()
    ensures SimilarUsers(TwoRatingsEach(), "u1", 2) == Failure(LengthMismatch)
  {
    var rows := TwoRatingsEach();
    assert TargetValues(rows, "u1") == [5, 3] by {
      assert rows[1..][1..][1..][1..][1..] == [];
    }
    assert rows[..1] == [Rating("u1", "i1", 5)];
    assert rows[..2][..1] == rows[..1];
    assert rows[..3][..2] == rows[..2];
    assert rows[..3][..3 - 1] == rows[..2];
    assert Bucketed(rows[..1], "u1", [5, 3]) == Success(Buckets([], map[])) by {
      assert rows[..1][..0] == [];
    }
    assert Bucketed(rows[..2], "u1", [5, 3]) == Success(Buckets([], map[]));
    assert Bucketed(rows[..3], "u1", [5, 3]) == Failure(LengthMismatch);
    BucketedFailurePersists(rows, 3, "u1", [5, 3]);
  }

  function OneEach(): seq<Rating>
  {
    [Rating("u1", "i1", 5), Rating("u2", "i2", 5)]
  }

  function TwoAuthors(): seq<Book>
  {
    [Book("i1", "One", "A"), Book("i2", "Two", "B")]
  }

  lemma TargetOfOneEach()
    ensures TargetValues(OneEach(), "u1") == [5]
  {
    assert OneEach()[1..][1..] == [];
  }

  /** One bucket, for `u2`, holding the cosine of `[5]` and `[5]`. */
  lemma BucketsOfOneEach()
    ensures Bucketed(OneEach(), "u1", [5]) == Success(Buckets(["u2"], map["u2" := [1.0]]))
  {
    var rows := OneEach();
    assert Bucketed(rows[..1], "u1", [5]) == Success(Buckets([], map[])) by {
      assert rows[..1][..0] == [];
    }
    assert rows[..|rows| - 1] == rows[..1];
    SingletonCosine(5, 5);
    assert SingletonValue(CosineSimilarity([5], [5]).value) == 1.0;
    var empty: Buckets := Buckets([], map[]);
    assert Push(empty, "u2", 1.0) == Buckets(["u2"], map["u2" := [1.0]]) by {
      assert [] + ["u2"] == ["u2"];
      assert empty.samples["u2" := [1.0]] == map["u2" := [1.0]];
    }
  }

  lemma AverageOfOneBucket()
    ensures var b := Buckets(["u2"], map["u2" := [1.0]]);
      WellFormed(b) && Prefix(SortDesc(Averages(b)), 2) == [Scored("u2", 1.0)]
  {
    var b := Buckets(["u2"], map["u2" := [1.0]]);
    assert Mean([1.0]) == 1.0 by {
      assert [1.0][..0] == [];
    }
    var avg := [Scored("u2", 1.0)];
    assert Averages(b) == avg;
    assert avg[1..] == [];
    assert SortDesc(avg) == avg;
  }

  /** `u2` is the only neighbour of `u1`, with similarity 1. */
  lemma OnlyNeighbour()
    ensures SimilarUsers(OneEach(), "u1") == Success([Scored("u2", 1.0)])
  {
    TargetOfOneEach();
    BucketsOfOneEach();
    AverageOfOneBucket();
  }

  /** The only liked ISBN is `i2`, by author B; the content-based filter
      then keeps `i1`. */
  lemma LikedByOnlyNeighbour()
    ensures LikedIsbns(OneEach(), [Scored("u2", 1.0)]) == ["i2"]
  {
    var neighbours := [Scored("u2", 1.0)];
    assert !LikedByNeighbour(OneEach()[0], neighbours);
    assert neighbours[0].item == OneEach()[1].userId;
    assert LikedByNeighbour(OneEach()[1], neighbours);
    assert OneEach()[1..][1..] == [];
  }

  lemma CandidatesBesidesB()
    ensures SimilarBooks(TwoAuthors(), ["i2"]) == ["i1"]
  {
    var catalog := TwoAuthors();
    assert FindBook(catalog, "i2") == Some(catalog[1]) by {
      assert catalog[1..][0] == catalog[1];
    }
    assert LikedAuthors(catalog, ["i2"]) == {"B"} by {
      assert ["i2"][..0] == [];
    }
    assert Candidates(catalog, {"B"}, ["i2"]) == [catalog[0]] by {
      assert catalog[1..][1..] == [];
    }
  }

  /** `hybridRecommendation` can recommend a book the user has rated: `u1`
      rated `i1`, its neighbour `u2` liked `i2` by author B, and the
      candidates are then the books by other authors, `i1` among them. */
  lemma RecommendsRatedBook()
    ensures OneEach()[0] == Rating("u1", "i1", 5)
    ensures HybridRecommendation(TwoAuthors(), OneEach(), "u1") == Success([Some(Book("i1", "One", "A"))])
  {
    OnlyNeighbour();
    LikedByOnlyNeighbour();
    FromLikedB();
  }

  lemma DedupOne()
    ensures Dedup(["i1"]) == ["i1"]
  {
    assert ["i1"][..0] == [];
  }

  lemma ResolveOne()
    ensures Resolve(TwoAuthors(), ["i1"]) == [Some(Book("i1", "One", "A"))]
  {
    assert FindBook(TwoAuthors(), "i1") == Some(TwoAuthors()[0]);
  }

  lemma FromLikedB()
    ensures FromLiked(TwoAuthors(), ["i2"], 10) == [Some(Book("i1", "One", "A"))]
  {
    CandidatesBesidesB();
    DedupOne();
    assert Prefix(["i1"], 10) == ["i1"];
    ResolveOne();
  }
}
