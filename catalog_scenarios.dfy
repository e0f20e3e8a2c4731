/** Three fixed books worked through `suggestBooks`: their Jaccard scores
    against the query "The Cat" by Jane Doe, and the order they put the
    other two books in. */
module CatalogScenarios {
  import opened Tables
  import opened Ranking
  import opened VectorMath
  import opened ItemSimilarity
  import opened BatchScorer

  /** A word without a space splits into itself. */
  lemma {:induction false} SplitWord(w: string)
    requires ' ' !in w
    ensures Split(w) == [w]
  {
    if w != [] {
      SplitWord(w[1..]);
      assert [w[0]] + w[1..] == w;
    }
  }

  lemma {:induction false} SplitFirstWord(w: string, t: string)
    requires ' ' !in w
    ensures Split(w + " " + t) == [w] + Split(t)
  {
    if w == [] {
      assert ([] + " " + t)[1..] == t;
    } else {
      SplitFirstWord(w[1..], t);
      assert (w + " " + t)[1..] == w[1..] + " " + t;
      assert [w[0]] + w[1..] == w;
    }
  }

  lemma TwoWords(a: string, b: string)
    requires ' ' !in a && ' ' !in b
    ensures TokenSet(a + " " + b) == {a, b}
  {
    SplitFirstWord(a, b);
    SplitWord(b);
  }

  lemma ThreeWords(a: string, b: string, c: string)
    requires ' ' !in a && ' ' !in b && ' ' !in c
    ensures TokenSet(a + " " + b + " " + c) == {a, b, c}
  {
    assert a + " " + b + " " + c == a + " " + (b + " " + c);
    SplitFirstWord(a, b + " " + c);
    SplitFirstWord(b, c);
    SplitWord(c);
  }

  function Cat(): Book { Book("A1", "The Cat", "Jane Doe") }
  function Dog(): Book { Book("A2", "The Dog", "Jane Doe") }
  function CatSat(): Book { Book("A3", "The Cat Sat", "John Roe") }

  lemma LowerCases()
    ensures Lower("The Cat") == "the cat"
    ensures Lower("The Dog") == "the dog"
    ensures Lower("The Cat Sat") == "the cat sat"
    ensures Lower("Jane Doe") == "jane doe"
    ensures Lower("John Roe") == "john roe"
  {
  }

  lemma ShareFirstWord(w: string, x: string, y: string)
    requires ' ' !in w && ' ' !in x && ' ' !in y
    requires w != x && w != y && x != y
    ensures Jaccard(w + " " + x, w + " " + y) == 1.0 / 3.0
  {
    TwoWords(w, x);
    TwoWords(w, y);
    var a, b := {w, x}, {w, y};
    assert a * b == {w};
    assert a + b == {w, x, y};
  }

  lemma TitleCatDog()
    ensures Jaccard("the cat", "the dog") == 1.0 / 3.0
  {
    assert "the cat" == "the" + " " + "cat";
    assert "the dog" == "the" + " " + "dog";
    ShareFirstWord("the", "cat", "dog");
  }

  lemma OneMoreWord(w: string, x: string, y: string)
    requires ' ' !in w && ' ' !in x && ' ' !in y
    requires w != x && w != y && x != y
    ensures Jaccard(w + " " + x, w + " " + x + " " + y) == 2.0 / 3.0
  {
    TwoWords(w, x);
    ThreeWords(w, x, y);
    var a, b := {w, x}, {w, x, y};
    assert a * b == a;
    assert a + b == b;
  }

  lemma NoWordShared(w: string, x: string, y: string, z: string)
    requires ' ' !in w && ' ' !in x && ' ' !in y && ' ' !in z
    requires {w, x} !! {y, z}
    ensures Jaccard(w + " " + x, y + " " + z) == 0.0
  {
    TwoWords(w, x);
    TwoWords(y, z);
    assert {w, x} * {y, z} == {};
  }

  lemma TitleCatCatSat()
    ensures Jaccard("the cat", "the cat sat") == 2.0 / 3.0
  {
    assert "the cat" == "the" + " " + "cat";
    assert "the cat sat" == "the" + " " + "cat" + " " + "sat";
    OneMoreWord("the", "cat", "sat");
  }

  lemma AuthorJaneJohn()
    ensures Jaccard("jane doe", "john roe") == 0.0
  {
    assert "jane doe" == "jane" + " " + "doe";
    assert "john roe" == "john" + " " + "roe";
    NoWordShared("jane", "doe", "john", "roe");
  }

  lemma AuthorJaneJane()
    ensures Jaccard("jane doe", "jane doe") == 1.0
  {
    JaccardOne("jane doe", "jane doe");
  }

  lemma DogScore()
    ensures Similarity(FeaturesOf(Cat()), Dog()) == 2.0 / 3.0
  {
    LowerCases();
    TitleCatDog();
    AuthorJaneJane();
  }

  lemma CatSatScore()
    ensures Similarity(FeaturesOf(Cat()), CatSat()) == 1.0 / 3.0
  {
    LowerCases();
    TitleCatCatSat();
    AuthorJaneJohn();
  }

  /** In any catalog holding both books, querying with "The Cat" by Jane
      Doe ranks "The Dog" by the same author (title 1/3, author 1, 66.7%)
      above "The Cat Sat" by John Roe (title 2/3, author 0, 33.3%): the score
      weighs author and title alike, so a shared author outweighs one more
      shared title word. */
  lemma SameAuthorOutranksSharedTitle(catalog: seq<Book>)
    requires Dog() in catalog && CatSat() in catalog
    ensures var all := SortDesc(PercentScores(catalog, FeaturesOf(Cat())));
      var dog, catSat := Scored(Dog(), 200.0 / 3.0), Scored(CatSat(), 100.0 / 3.0);
      && (exists i, j :: 0 <= i < j < |all| && all[i] == dog && all[j] == catSat)
      && (forall i, j :: 0 <= i < |all| && 0 <= j < |all| && all[i] == dog && all[j] == catSat ==> i < j)
  {
    DogScore();
    CatSatScore();
    MoreSimilarRanksFirst(catalog, FeaturesOf(Cat()), Dog(), CatSat());
  }
}
