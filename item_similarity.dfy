/** `calculateSimilarity`: how alike two books are by the words of their
    titles and the words of their authors' names. */
module ItemSimilarity {
  import opened Tables
  import opened VectorMath

  /** `toLowerCase` on one character, for the ASCII letters only. */
  function LowerChar(c: char): (r: char)
    ensures 'A' <= c <= 'Z' ==> 'a' <= r <= 'z' && r as int == c as int + 32
    ensures !('A' <= c <= 'Z') ==> r == c
  {
    if 'A' <= c <= 'Z' then (c as int - 'A' as int + 'a' as int) as char else c
  }

  /** `toLowerCase`, for the ASCII letters only. */
  function Lower(s: string): (r: string)
    ensures |r| == |s|
    ensures forall i :: 0 <= i < |s| ==> r[i] == LowerChar(s[i])
    ensures forall i :: 0 <= i < |s| ==> !('A' <= r[i] <= 'Z')
  {
    seq(|s|, i requires 0 <= i < |s| => LowerChar(s[i]))
  }

  /** Lowering twice is lowering once. */
  lemma LowerIdempotent(s: string)
    ensures Lower(Lower(s)) == Lower(s)
  {
  }

  /** The query side of a comparison: the book's ISBN and its lower-cased
      title and author (the `features` objects of `suggestBooks` and
      `suggestBooksFromArray`). */
  datatype Features = Features(isbn: Isbn, title: string, author: string)

  function FeaturesOf(b: Book): (f: Features)
    ensures f.isbn == b.isbn && f.title == Lower(b.title) && f.author == Lower(b.author)
  {
    Features(b.isbn, Lower(b.title), Lower(b.author))
  }

  /** `calculateSimilarity(book1, book2)`: the mean of the title and the
      author Jaccard similarities. Only the second book is lower-cased here;
      the callers pass features that are lower-cased already. */
  function Similarity(f: Features, b: Book): (r: real)
    ensures 0.0 <= r <= 1.0
  {
    (Jaccard(f.title, Lower(b.title)) + Jaccard(f.author, Lower(b.author))) / 2.0
  }

  /** The similarity is 1 exactly when both the title token sets and the
      author token sets agree, and 0 exactly when both pairs are disjoint. */
  lemma SimilarityExtremes(f: Features, b: Book)
    ensures Similarity(f, b) == 1.0 <==>
      TokenSet(f.title) == TokenSet(Lower(b.title)) && TokenSet(f.author) == TokenSet(Lower(b.author))
    ensures Similarity(f, b) == 0.0 <==>
      TokenSet(f.title) !! TokenSet(Lower(b.title)) && TokenSet(f.author) !! TokenSet(Lower(b.author))
  {
    JaccardOne(f.title, Lower(b.title));
    JaccardOne(f.author, Lower(b.author));
    JaccardZero(f.title, Lower(b.title));
    JaccardZero(f.author, Lower(b.author));
  }

  /** A book is as similar as can be to its own features. */
  lemma SelfSimilarity(b: Book)
    ensures Similarity(FeaturesOf(b), b) == 1.0
  {
    LowerIdempotent(b.title);
    LowerIdempotent(b.author);
    SimilarityExtremes(FeaturesOf(b), b);
  }
}
