/** The three in-memory tables the scoring engine reads, and the small
    JavaScript primitives (`find`, `slice(0, n)`) it applies to them.
    The tables are passed to every operation as immutable parameters. */
module Tables {

  type UserId = string
  type Isbn = string

  datatype Option<T> = None | Some(value: T)

  /** The only fault that propagates out of the core: `cosineSimilarity`
      called on vectors of different lengths. */
  datatype Error = LengthMismatch

  datatype Result<T> = Success(value: T) | Failure(error: Error)

  /** A row of the books table; columns other than these three are not read. */
  datatype Book = Book(isbn: Isbn, title: string, author: string)

  /** A row of the ratings table, with the rating already numeric. */
  datatype Rating = Rating(userId: UserId, isbn: Isbn, value: int)

  /** An entry of a ranked list: a user or a book and the number it is sorted by. */
  datatype Scored<T> = Scored(item: T, score: real)

  /** True when no two books of the catalog share an ISBN. */
  predicate UniqueIsbns(catalog: seq<Book>)
  {
    forall i, j :: 0 <= i < j < |catalog| ==> catalog[i].isbn != catalog[j].isbn
  }

  /** `catalog.find(book => book.ISBN === isbn)`: the first book with that ISBN. */
  function FindBook(catalog: seq<Book>, isbn: Isbn): (r: Option<Book>)
    ensures r.None? <==> forall i :: 0 <= i < |catalog| ==> catalog[i].isbn != isbn
    ensures r.Some? ==> r.value.isbn == isbn && r.value in catalog
  {
    if catalog == [] then None
    else if catalog[0].isbn == isbn then Some(catalog[0])
    else FindBook(catalog[1..], isbn)
  }

  /** `find` returns the first match: an earlier book with the same ISBN wins. */
  lemma {:induction false} FindBookIsFirst(catalog: seq<Book>, isbn: Isbn, k: nat)
    requires k < |catalog| && catalog[k].isbn == isbn
    requires forall j :: 0 <= j < k ==> catalog[j].isbn != isbn
    ensures FindBook(catalog, isbn) == Some(catalog[k])
  {
    if k > 0 {
      FindBookIsFirst(catalog[1..], isbn, k - 1);
    }
  }

  /** The position of the first occurrence of `x` in `s`. */
  function FirstIndex<T(==)>(s: seq<T>, x: T): (k: nat)
    requires x in s
    ensures k < |s| && s[k] == x
    ensures forall j :: 0 <= j < k ==> s[j] != x
  {
    if s[0] == x then 0
    else
      assert x in s[1..] by { var j :| 0 <= j < |s| && s[j] == x; assert s[1..][j - 1] == x; }
      1 + FirstIndex(s[1..], x)
  }

  /** Appending an element leaves the first occurrences of the others where they were. */
  lemma FirstIndexSnoc<T>(s: seq<T>, x: T, y: T)
    requires y in s
    ensures FirstIndex(s + [x], y) == FirstIndex(s, y)
  {
    var k, k' := FirstIndex(s, y), FirstIndex(s + [x], y);
    assert (s + [x])[k] == y;
  }

  /** An element that was absent, once appended, first occurs at the end. */
  lemma FirstIndexOfNew<T>(s: seq<T>, x: T)
    requires x !in s
    ensures FirstIndex(s + [x], x) == |s|
  {
  }

  /** In a catalog with unique ISBNs, `find` gives back the very book whose ISBN it is asked. */
  lemma FindBookUnique(catalog: seq<Book>, k: nat)
    requires UniqueIsbns(catalog) && k < |catalog|
    ensures FindBook(catalog, catalog[k].isbn) == Some(catalog[k])
  {
    FindBookIsFirst(catalog, catalog[k].isbn, k);
  }

  /** `s.slice(0, n)`: a negative `n` counts from the end, a large one keeps all. */
  function Prefix<T>(s: seq<T>, n: int): (r: seq<T>)
    ensures r <= s
    ensures 0 <= n ==> |r| == (if n < |s| then n else |s|)
    ensures n < 0 ==> |r| == (if |s| + n > 0 then |s| + n else 0)
  {
    if n >= |s| then s
    else if n >= 0 then s[..n]
    else if |s| + n > 0 then s[..|s| + n]
    else []
  }
}
