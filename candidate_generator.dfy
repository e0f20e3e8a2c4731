/** `getSimilarBooks`: content-based candidates that steer away from the
    authors a user already likes. It ranks nothing: candidates come in
    catalog order. */
module CandidateGenerator {
  import opened Tables

  /** `s` is `t` with some elements dropped, the rest in their order. */
  ghost predicate IsSubsequence<T>(s: seq<T>, t: seq<T>)
    decreases |t|
  {
    if s == [] then true
    else if t == [] then false
    else (s[0] == t[0] && IsSubsequence(s[1..], t[1..])) || IsSubsequence(s, t[1..])
  }

  lemma {:induction false} PrefixOfSubsequence<T>(p: seq<T>, s: seq<T>, t: seq<T>)
    requires p <= s && IsSubsequence(s, t)
    ensures IsSubsequence(p, t)
    decreases |t|
  {
    if p != [] && t != [] {
      if s[0] == t[0] && IsSubsequence(s[1..], t[1..]) {
        PrefixOfSubsequence(p[1..], s[1..], t[1..]);
      } else {
        PrefixOfSubsequence(p, s, t[1..]);
      }
    }
  }

  /** The author set built by the `forEach` over the liked ISBNs: the author
      of each liked ISBN that the catalog resolves; the others are skipped. */
  function LikedAuthors(catalog: seq<Book>, liked: seq<Isbn>): set<string>
    decreases |liked|
  {
    if liked == [] then {}
    else
      LikedAuthors(catalog, liked[..|liked| - 1])
        + match FindBook(catalog, liked[|liked| - 1])
          case Some(b) => {b.author}
          case None => {}
  }

  /** The filter of the catalog: books by none of `authors` whose ISBN is not liked. */
  function Candidates(catalog: seq<Book>, authors: set<string>, liked: seq<Isbn>): (r: seq<Book>)
    ensures forall i :: 0 <= i < |r| ==> r[i] in catalog && r[i].author !in authors && r[i].isbn !in liked
    ensures forall b :: b in catalog ==> (b in r <==> b.author !in authors && b.isbn !in liked)
  {
    if catalog == [] then []
    else
      var rest := Candidates(catalog[1..], authors, liked);
      var b := catalog[0];
      assert forall x :: x in catalog ==> x == b || x in catalog[1..];
      if b.author !in authors && b.isbn !in liked then [b] + rest else rest
  }

  function Isbns(books: seq<Book>): (r: seq<Isbn>)
    ensures |r| == |books| && forall i :: 0 <= i < |r| ==> r[i] == books[i].isbn
  {
    seq(|books|, i requires 0 <= i < |books| => books[i].isbn)
  }

  /** The books whose ISBNs `getSimilarBooks(liked, n)` returns. */
  function SelectedBooks(catalog: seq<Book>, liked: seq<Isbn>, n: int := 10): seq<Book>
  {
    Prefix(Candidates(catalog, LikedAuthors(catalog, liked), liked), n)
  }

  /** What `getSimilarBooks(liked, n)` returns. */
  function SimilarBooks(catalog: seq<Book>, liked: seq<Isbn>, n: int := 10): seq<Isbn>
  {
    Isbns(SelectedBooks(catalog, liked, n))
  }

  /** `getSimilarBooks(userLikedBooks, numSimilarBooks)`. */
  method GetSimilarBooks(catalog: seq<Book>, liked: seq<Isbn>, n: int := 10) returns (r: seq<Isbn>)
    ensures r == SimilarBooks(catalog, liked, n)
    ensures forall i :: 0 <= i < |r| ==> r[i] !in liked
    ensures 0 <= n ==> |r| <= n
    ensures liked == [] ==> r == Isbns(Prefix(catalog, n))
  {
    var likedBookAuthors: set<string> := {};
    for i := 0 to |liked|
      invariant likedBookAuthors == LikedAuthors(catalog, liked[..i])
    {
      assert liked[..i + 1][..i] == liked[..i];
      var book := FindBook(catalog, liked[i]);
      if book.Some? {
        likedBookAuthors := likedBookAuthors + {book.value.author};
      }
    }
    assert liked[..|liked|] == liked;
    var similarBooks := Candidates(catalog, likedBookAuthors, liked);
    r := Isbns(Prefix(similarBooks, n));
    if liked == [] {
      CandidatesOfNothing(catalog);
    }
  }

  // ---------------------------------------------------------------------
  // Properties
  // ---------------------------------------------------------------------

  /** An author is excluded exactly when some liked ISBN resolves to a book of theirs. */
  lemma {:induction false} LikedAuthorsMembers(catalog: seq<Book>, liked: seq<Isbn>, a: string)
    ensures a in LikedAuthors(catalog, liked) <==>
      exists i :: 0 <= i < |liked| && FindBook(catalog, liked[i]).Some? && FindBook(catalog, liked[i]).value.author == a
    decreases |liked|
  {
    if liked != [] {
      var init := liked[..|liked| - 1];
      LikedAuthorsMembers(catalog, init, a);
      if exists i :: 0 <= i < |liked| && FindBook(catalog, liked[i]).Some? && FindBook(catalog, liked[i]).value.author == a {
        var i :| 0 <= i < |liked| && FindBook(catalog, liked[i]).Some? && FindBook(catalog, liked[i]).value.author == a;
        if i < |init| {
          assert init[i] == liked[i];
        }
      }
      if exists i :: 0 <= i < |init| && FindBook(catalog, init[i]).Some? && FindBook(catalog, init[i]).value.author == a {
        var i :| 0 <= i < |init| && FindBook(catalog, init[i]).Some? && FindBook(catalog, init[i]).value.author == a;
        assert liked[i] == init[i];
      }
    }
  }

  lemma {:induction false} CandidatesSubsequence(catalog: seq<Book>, authors: set<string>, liked: seq<Isbn>)
    ensures IsSubsequence(Candidates(catalog, authors, liked), catalog)
  {
    if catalog != [] {
      CandidatesSubsequence(catalog[1..], authors, liked);
    }
  }

  lemma {:induction false} CandidatesOfNothing(catalog: seq<Book>)
    ensures Candidates(catalog, {}, []) == catalog
  {
    if catalog != [] {
      CandidatesOfNothing(catalog[1..]);
    }
  }

  /** The selection is a subsequence of the catalog, in catalog order, of at
      most `n` books; none of them has a liked ISBN or is by the author of a
      book a liked ISBN resolves to. */
  lemma SelectedBooksProperties(catalog: seq<Book>, liked: seq<Isbn>, n: int)
    ensures IsSubsequence(SelectedBooks(catalog, liked, n), catalog)
    ensures 0 <= n ==> |SelectedBooks(catalog, liked, n)| <= n
    ensures forall i, j :: 0 <= i < |SelectedBooks(catalog, liked, n)| && 0 <= j < |liked| ==>
      && SelectedBooks(catalog, liked, n)[i].isbn != liked[j]
      && (FindBook(catalog, liked[j]).Some? ==>
            SelectedBooks(catalog, liked, n)[i].author != FindBook(catalog, liked[j]).value.author)
  {
    var authors := LikedAuthors(catalog, liked);
    var all := Candidates(catalog, authors, liked);
    CandidatesSubsequence(catalog, authors, liked);
    PrefixOfSubsequence(Prefix(all, n), all, catalog);
    var sel := SelectedBooks(catalog, liked, n);
    forall i, j | 0 <= i < |sel| && 0 <= j < |liked| && FindBook(catalog, liked[j]).Some?
      ensures sel[i].author != FindBook(catalog, liked[j]).value.author
    {
      LikedAuthorsMembers(catalog, liked, FindBook(catalog, liked[j]).value.author);
      assert sel[i] == all[i];
    }
  }

  /** Before the cut, nothing eligible is lost: a catalog book is a candidate
      exactly when its ISBN is not liked and no liked ISBN resolves to a book
      by its author. */
  lemma CandidatesComplete(catalog: seq<Book>, liked: seq<Isbn>, b: Book)
    requires b in catalog
    ensures b in Candidates(catalog, LikedAuthors(catalog, liked), liked) <==>
      && b.isbn !in liked
      && forall j :: 0 <= j < |liked| && FindBook(catalog, liked[j]).Some? ==>
           FindBook(catalog, liked[j]).value.author != b.author
  {
    LikedAuthorsMembers(catalog, liked, b.author);
  }

  /** The `k`-th returned ISBN is that of a catalog book which is neither
      liked nor by an excluded author. */
  lemma SimilarBookAt(catalog: seq<Book>, liked: seq<Isbn>, n: int, k: nat)
    requires k < |SimilarBooks(catalog, liked, n)|
    ensures var b := SelectedBooks(catalog, liked, n)[k];
      && b in catalog && b.isbn == SimilarBooks(catalog, liked, n)[k]
      && b.isbn !in liked && b.author !in LikedAuthors(catalog, liked)
  {
    var all := Candidates(catalog, LikedAuthors(catalog, liked), liked);
    assert SelectedBooks(catalog, liked, n)[k] == all[k];
  }

  /** With nothing liked, the result is the first `n` ISBNs of the catalog. */
  lemma NothingLiked(catalog: seq<Book>, n: int)
    ensures SimilarBooks(catalog, [], n) == Isbns(Prefix(catalog, n))
  {
    CandidatesOfNothing(catalog);
  }
}
