/** `hybridRecommendation`: the books liked by the target's two nearest
    neighbours steer the content-based candidate filter, whose output is
    de-duplicated, cut and resolved back to catalog books. */
module HybridRanker {
  import opened Tables
  import opened UserSimilarity
  import opened CandidateGenerator

  /** A rating of 4 or more by one of the neighbours. */
  predicate LikedByNeighbour(row: Rating, neighbours: seq<Scored<UserId>>)
  {
    exists i :: 0 <= i < |neighbours| && neighbours[i].item == row.userId && row.value >= 4
  }

  /** The ISBNs of the ratings rows liked by a neighbour, in table order. */
  function LikedIsbns(ratings: seq<Rating>, neighbours: seq<Scored<UserId>>): (r: seq<Isbn>)
    ensures forall x :: x in r <==> exists k :: 0 <= k < |ratings| && ratings[k].isbn == x && LikedByNeighbour(ratings[k], neighbours)
  {
    if ratings == [] then []
    else
      var rest := LikedIsbns(ratings[1..], neighbours);
      assert forall k :: 1 <= k < |ratings| ==> ratings[k] == ratings[1..][k - 1];
      (if LikedByNeighbour(ratings[0], neighbours) then [ratings[0].isbn] else []) + rest
  }

  predicate Distinct<T(==)>(s: seq<T>)
  {
    forall i, j :: 0 <= i < j < |s| ==> s[i] != s[j]
  }

  /** `Array.from(new Set(s))`: each element once, at its first occurrence,
      and in the order of those first occurrences. */
  function Dedup(s: seq<Isbn>): (r: seq<Isbn>)
    ensures forall x :: x in r <==> x in s
    ensures Distinct(r)
    ensures forall i, j :: 0 <= i < j < |r| ==> FirstIndex(s, r[i]) < FirstIndex(s, r[j])
    ensures |r| <= |s|
    decreases |s|
  {
    if s == [] then []
    else
      var init := s[..|s| - 1];
      var d := Dedup(init);
      var x := s[|s| - 1];
      assert s == init + [x];
      DedupSnocElements(init, x, d);
      DedupSnocOrder(init, x, d);
      if x in d then d else d + [x]
  }

  /** One more element: appending it unless it was seen keeps each element once. */
  lemma DedupSnocElements(init: seq<Isbn>, x: Isbn, d: seq<Isbn>)
    requires forall y :: y in d <==> y in init
    requires Distinct(d) && |d| <= |init|
    ensures var r := if x in d then d else d + [x];
      (forall y :: y in r <==> y in init + [x]) && Distinct(r) && |r| <= |init| + 1
  {
  }

  /** One more element: appending it unless it was seen keeps the elements
      in the order of their first occurrences. */
  lemma DedupSnocOrder(init: seq<Isbn>, x: Isbn, d: seq<Isbn>)
    requires forall y :: y in d <==> y in init
    requires forall i, j :: 0 <= i < j < |d| ==> FirstIndex(init, d[i]) < FirstIndex(init, d[j])
    ensures var r := if x in d then d else d + [x];
      forall i, j :: 0 <= i < j < |r| ==> FirstIndex(init + [x], r[i]) < FirstIndex(init + [x], r[j])
  {
    var s := init + [x];
    forall y | y in init ensures FirstIndex(s, y) == FirstIndex(init, y) < |init| {
      FirstIndexSnoc(init, x, y);
    }
    if x in d {
      forall i, j | 0 <= i < j < |d| ensures FirstIndex(s, d[i]) < FirstIndex(s, d[j]) {
        assert d[i] in init && d[j] in init;
      }
    } else {
      var r := d + [x];
      assert FirstIndex(s, x) == |init|;
      forall i, j | 0 <= i < j < |r| ensures FirstIndex(s, r[i]) < FirstIndex(s, r[j]) {
        assert r[i] == d[i] && d[i] in init;
        if j < |d| {
          assert r[j] == d[j] && d[j] in init;
        }
      }
    }
  }

  /** Dedup changes nothing in a list without repeats. */
  lemma {:induction false} DedupOfDistinct(s: seq<Isbn>)
    requires Distinct(s)
    ensures Dedup(s) == s
    decreases |s|
  {
    if s != [] {
      var init := s[..|s| - 1];
      DedupOfDistinct(init);
      assert s[|s| - 1] !in init;
      assert init + [s[|s| - 1]] == s;
    }
  }

  /** `isbns.map(isbn => booksData.find(book => book.ISBN === isbn))`. */
  function Resolve(catalog: seq<Book>, isbns: seq<Isbn>): (r: seq<Option<Book>>)
    ensures |r| == |isbns| && forall i :: 0 <= i < |r| ==> r[i] == FindBook(catalog, isbns[i])
  {
    seq(|isbns|, i requires 0 <= i < |isbns| => FindBook(catalog, isbns[i]))
  }

  /** Everything `hybridRecommendation` does once the liked ISBNs are known:
      content-based candidates (at most 10), de-duplicated, cut to `n` and
      resolved to books. */
  function FromLiked(catalog: seq<Book>, liked: seq<Isbn>, n: int): seq<Option<Book>>
  {
    var fromContentBased := SimilarBooks(catalog, liked);
    var combined := Dedup(fromContentBased);
    Resolve(catalog, Prefix(combined, n))
  }

  /** `hybridRecommendation(userId, numRecommendations)`: fails exactly when
      `getSimilarUsers(userId)` does. */
  function HybridRecommendation(catalog: seq<Book>, ratings: seq<Rating>, userId: UserId, n: int := 10)
    : (r: Result<seq<Option<Book>>>)
    ensures r.Failure? <==> SimilarUsers(ratings, userId).Failure?
  {
    match SimilarUsers(ratings, userId)
    case Failure(e) => Failure(e)
    case Success(similarUsers) => Success(FromLiked(catalog, LikedIsbns(ratings, similarUsers), n))
  }

  // ---------------------------------------------------------------------
  // Properties
  // ---------------------------------------------------------------------

  /** The neighbours behind a successful recommendation. */
  function Neighbours(ratings: seq<Rating>, userId: UserId): seq<Scored<UserId>>
    requires SimilarUsers(ratings, userId).Success?
  {
    SimilarUsers(ratings, userId).value
  }

  /** At most `min(n, 10)` books, every one of them found in the catalog,
      no ISBN twice, and no liked ISBN among them. */
  lemma FromLikedProperties(catalog: seq<Book>, liked: seq<Isbn>, n: int)
    ensures var r := FromLiked(catalog, liked, n);
      && |r| <= 10
      && (0 <= n ==> |r| <= n)
      && (forall i :: 0 <= i < |r| ==> r[i].Some? && r[i].value in catalog && r[i].value.isbn !in liked)
      && (forall i, j :: 0 <= i < j < |r| ==> r[i].value.isbn != r[j].value.isbn)
  {
    var fromContent := SimilarBooks(catalog, liked);
    var cut := Prefix(Dedup(fromContent), n);
    var r := FromLiked(catalog, liked, n);
    forall i | 0 <= i < |r|
      ensures r[i].Some? && r[i].value in catalog && r[i].value.isbn == cut[i] && cut[i] !in liked
    {
      FromLikedAt(catalog, liked, n, i);
    }
    assert forall i :: 0 <= i < |cut| ==> cut[i] == Dedup(fromContent)[i];
  }

  /** The `i`-th recommendation is a catalog book of a candidate ISBN. */
  lemma FromLikedAt(catalog: seq<Book>, liked: seq<Isbn>, n: int, i: nat)
    requires i < |FromLiked(catalog, liked, n)|
    ensures var cut := Prefix(Dedup(SimilarBooks(catalog, liked)), n);
      exists k :: 0 <= k < |SimilarBooks(catalog, liked)| && SimilarBooks(catalog, liked)[k] == cut[i]
        && FromLiked(catalog, liked, n)[i].Some?
        && FromLiked(catalog, liked, n)[i].value in catalog
        && FromLiked(catalog, liked, n)[i].value.isbn == cut[i]
        && cut[i] !in liked
  {
    var fromContent := SimilarBooks(catalog, liked);
    var cut := Prefix(Dedup(fromContent), n);
    assert cut[i] == Dedup(fromContent)[i];
    assert cut[i] in fromContent;
    var k :| 0 <= k < |fromContent| && fromContent[k] == cut[i];
    SimilarBookAt(catalog, liked, 10, k);
  }

  /** Under unique ISBNs no book comes back by the author of a book that a
      liked ISBN resolves to. */
  lemma FromLikedDiversifies(catalog: seq<Book>, liked: seq<Isbn>, n: int, i: nat, j: nat)
    requires UniqueIsbns(catalog)
    requires i < |FromLiked(catalog, liked, n)| && j < |liked|
    requires FindBook(catalog, liked[j]).Some?
    ensures FromLiked(catalog, liked, n)[i].Some?
    ensures FromLiked(catalog, liked, n)[i].value.author != FindBook(catalog, liked[j]).value.author
  {
    var fromContent := SimilarBooks(catalog, liked);
    var cut := Prefix(Dedup(fromContent), n);
    FromLikedAt(catalog, liked, n, i);
    var k :| 0 <= k < |fromContent| && fromContent[k] == cut[i];
    SimilarBookAt(catalog, liked, 10, k);
    var b := SelectedBooks(catalog, liked)[k];
    var m :| 0 <= m < |catalog| && catalog[m] == b;
    FindBookUnique(catalog, m);
    LikedAuthorsMembers(catalog, liked, FindBook(catalog, liked[j]).value.author);
  }

  /** `hybridRecommendation` returns at most `min(n, 10)` books, each found
      in the catalog, no ISBN twice, none liked by a neighbour; under unique
      ISBNs, none by an author of a neighbour-liked book either. */
  lemma HybridProperties(catalog: seq<Book>, ratings: seq<Rating>, userId: UserId, n: int)
    requires HybridRecommendation(catalog, ratings, userId, n).Success?
    ensures var r := HybridRecommendation(catalog, ratings, userId, n).value;
      var liked := LikedIsbns(ratings, Neighbours(ratings, userId));
      && |r| <= 10
      && (0 <= n ==> |r| <= n)
      && (forall i :: 0 <= i < |r| ==> r[i].Some? && r[i].value in catalog && r[i].value.isbn !in liked)
      && (forall i, j :: 0 <= i < j < |r| ==> r[i].value.isbn != r[j].value.isbn)
      && (UniqueIsbns(catalog) ==>
            forall i, j :: 0 <= i < |r| && 0 <= j < |liked| && FindBook(catalog, liked[j]).Some? ==>
              r[i].value.author != FindBook(catalog, liked[j]).value.author)
  {
    var liked := LikedIsbns(ratings, Neighbours(ratings, userId));
    FromLikedProperties(catalog, liked, n);
    if UniqueIsbns(catalog) {
      forall i, j | 0 <= i < |FromLiked(catalog, liked, n)| && 0 <= j < |liked| && FindBook(catalog, liked[j]).Some?
        ensures FromLiked(catalog, liked, n)[i].value.author != FindBook(catalog, liked[j]).value.author
      {
        FromLikedDiversifies(catalog, liked, n, i, j);
      }
    }
  }

  /** "Liked" means a rating of 4 or more by one of the (at most two)
      nearest neighbours, none of whom is the user. */
  lemma LikedMeansNeighbourRatedFourOrMore(ratings: seq<Rating>, userId: UserId, x: Isbn)
    requires SimilarUsers(ratings, userId).Success?
    ensures x in LikedIsbns(ratings, Neighbours(ratings, userId)) <==>
      exists k, i :: 0 <= k < |ratings| && 0 <= i < |Neighbours(ratings, userId)|
        && ratings[k].isbn == x && ratings[k].value >= 4 && ratings[k].userId == Neighbours(ratings, userId)[i].item
    ensures |Neighbours(ratings, userId)| <= 2
    ensures forall i :: 0 <= i < |Neighbours(ratings, userId)| ==> Neighbours(ratings, userId)[i].item != userId
  {
    SimilarUsersIsNeighbourList(ratings, userId, 2);
  }

  lemma {:induction false} SubsequenceMembers(s: seq<Book>, t: seq<Book>)
    requires IsSubsequence(s, t)
    ensures forall x :: x in s ==> x in t
    decreases |t|
  {
    if s != [] && t != [] {
      if s[0] == t[0] && IsSubsequence(s[1..], t[1..]) {
        SubsequenceMembers(s[1..], t[1..]);
        assert forall x :: x in s ==> x == s[0] || x in s[1..];
      } else {
        SubsequenceMembers(s, t[1..]);
      }
    }
  }

  lemma {:induction false} SubsequenceKeepsUnique(s: seq<Book>, t: seq<Book>)
    requires IsSubsequence(s, t) && UniqueIsbns(t)
    ensures UniqueIsbns(s)
    decreases |t|
  {
    if s != [] && t != [] {
      assert UniqueIsbns(t[1..]);
      if s[0] == t[0] && IsSubsequence(s[1..], t[1..]) {
        SubsequenceKeepsUnique(s[1..], t[1..]);
        SubsequenceMembers(s[1..], t[1..]);
        forall j | 1 <= j < |s| ensures s[0].isbn != s[j].isbn {
          assert s[j] == s[1..][j - 1];
          assert s[j] in t[1..];
          var k :| 0 <= k < |t[1..]| && t[1..][k] == s[j];
          assert t[k + 1] == s[j];
        }
        forall i, j | 1 <= i < j < |s| ensures s[i].isbn != s[j].isbn {
          assert s[i] == s[1..][i - 1] && s[j] == s[1..][j - 1];
        }
      } else {
        SubsequenceKeepsUnique(s, t[1..]);
      }
    }
  }

  /** With unique ISBNs the de-duplication is a no-op: there is only one
      source of candidates, and it repeats nothing. */
  lemma DedupIsNoOp(catalog: seq<Book>, liked: seq<Isbn>)
    requires UniqueIsbns(catalog)
    ensures Dedup(SimilarBooks(catalog, liked)) == SimilarBooks(catalog, liked)
  {
    var sel := SelectedBooks(catalog, liked);
    SelectedBooksProperties(catalog, liked, 10);
    SubsequenceKeepsUnique(sel, catalog);
    DedupOfDistinct(SimilarBooks(catalog, liked));
  }

  lemma {:induction false} NobodyLikesAnything(ratings: seq<Rating>)
    ensures LikedIsbns(ratings, []) == []
  {
    if ratings != [] {
      NobodyLikesAnything(ratings[1..]);
    }
  }

  /** Nobody to compare with: no neighbours, and no failure either. */
  lemma NoOtherRatersNoNeighbours(ratings: seq<Rating>, userId: UserId)
    requires forall k :: 0 <= k < |ratings| ==> ratings[k].userId == userId
    ensures SimilarUsers(ratings, userId).Success?
    ensures Neighbours(ratings, userId) == []
  {
    assert RatedBy(ratings) - {userId} == {};
    SimilarUsersFails(ratings, userId, 2);
    var b := Bucketed(ratings, userId, TargetValues(ratings, userId)).value;
    forall u ensures u !in b.samples {
      BucketedContents(ratings, userId, TargetValues(ratings, userId), u);
    }
    assert forall k :: 0 <= k < |b.order| ==> b.order[k] in b.samples;
    assert b.order == [];
  }

  /** With nothing liked, the candidates are the first ten catalog books. */
  lemma FromNothingLiked(catalog: seq<Book>, n: int)
    requires UniqueIsbns(catalog)
    ensures var r := FromLiked(catalog, [], n);
      var first := Prefix(Prefix(catalog, 10), n);
      |r| == |first| && forall i :: 0 <= i < |r| ==> r[i] == Some(first[i])
  {
    var first := Prefix(Prefix(catalog, 10), n);
    var r := FromLiked(catalog, [], n);
    CombinedOfNothingLiked(catalog, n);
    forall i | 0 <= i < |r| ensures r[i] == Some(first[i]) {
      FindBookUnique(catalog, i);
    }
  }

  /** With nothing liked, the de-duplicated and cut candidates are the ISBNs
      of the first ten catalog books, cut to `n`. */
  lemma CombinedOfNothingLiked(catalog: seq<Book>, n: int)
    requires UniqueIsbns(catalog)
    ensures Prefix(Dedup(SimilarBooks(catalog, [])), n) == Isbns(Prefix(Prefix(catalog, 10), n))
  {
    NothingLiked(catalog, 10);
    DedupIsNoOp(catalog, []);
    PrefixOfIsbns(Prefix(catalog, 10), n);
  }

  /** Cutting the ISBNs of a list of books is taking the ISBNs of the cut list. */
  lemma PrefixOfIsbns(books: seq<Book>, n: int)
    ensures Prefix(Isbns(books), n) == Isbns(Prefix(books, n))
  {
  }

  /** A user whom nobody else can be compared with (no other user has rated
      anything) gets the first `min(n, 10)` books of the catalog. */
  lemma HybridWithoutOtherRaters(catalog: seq<Book>, ratings: seq<Rating>, userId: UserId, n: int)
    requires UniqueIsbns(catalog)
    requires forall k :: 0 <= k < |ratings| ==> ratings[k].userId == userId
    ensures HybridRecommendation(catalog, ratings, userId, n).Success?
    ensures var r := HybridRecommendation(catalog, ratings, userId, n).value;
      var first := Prefix(Prefix(catalog, 10), n);
      |r| == |first| && forall i :: 0 <= i < |r| ==> r[i] == Some(first[i])
  {
    NoOtherRatersNoNeighbours(ratings, userId);
    NobodyLikesAnything(ratings);
    FromNothingLiked(catalog, n);
  }
}
