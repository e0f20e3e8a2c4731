/** Ranking primitives shared by the engine: the stable descending sort that
    `Array.prototype.sort((a, b) => b.score - a.score)` performs, and the
    `reduce`-based sum and mean of a list of scores. */
module Ranking {
  import opened Tables

  /** Sorted by score, largest first. */
  predicate NonIncreasing<T>(s: seq<Scored<T>>)
  {
    forall i, j :: 0 <= i < j < |s| ==> s[j].score <= s[i].score
  }

  /** No item appears in two entries. */
  predicate DistinctItems<T(==)>(s: seq<Scored<T>>)
  {
    forall i, j :: 0 <= i < j < |s| ==> s[i].item != s[j].item
  }

  /** The entries of `s` whose score is exactly `k`, in their order in `s`. */
  function WithScore<T>(s: seq<Scored<T>>, k: real): seq<Scored<T>>
  {
    if s == [] then []
    else if s[0].score == k then [s[0]] + WithScore(s[1..], k)
    else WithScore(s[1..], k)
  }

  /** Puts `x` in front of the first entry whose score is not larger than its own. */
  function Insert<T>(x: Scored<T>, s: seq<Scored<T>>): seq<Scored<T>>
  {
    if s == [] || s[0].score <= x.score then [x] + s
    else [s[0]] + Insert(x, s[1..])
  }

  /** A stable sort, largest score first: the comparator `b.score - a.score`
      keeps entries with equal scores in their original order. */
  function SortDesc<T>(s: seq<Scored<T>>): seq<Scored<T>>
  {
    if s == [] then [] else Insert(s[0], SortDesc(s[1..]))
  }

  lemma {:induction false} InsertPermutes<T>(x: Scored<T>, s: seq<Scored<T>>)
    ensures multiset(Insert(x, s)) == multiset(s) + multiset{x}
  {
    if s != [] && x.score < s[0].score {
      InsertPermutes(x, s[1..]);
      assert s == [s[0]] + s[1..];
    }
  }

  lemma {:induction false} InsertSorted<T>(x: Scored<T>, s: seq<Scored<T>>)
    requires NonIncreasing(s)
    ensures NonIncreasing(Insert(x, s))
  {
    if s != [] && x.score < s[0].score {
      InsertSorted(x, s[1..]);
      InsertPermutes(x, s[1..]);
      var t := Insert(x, s[1..]);
      forall j | 0 <= j < |t| ensures t[j].score <= s[0].score {
        assert t[j] in multiset(t);
        assert t[j] == x || t[j] in multiset(s[1..]);
      }
    }
  }

  lemma {:induction false} InsertStable<T>(x: Scored<T>, s: seq<Scored<T>>, k: real)
    requires NonIncreasing(s)
    ensures WithScore(Insert(x, s), k) == WithScore([x] + s, k)
  {
    if s != [] && x.score < s[0].score {
      InsertStable(x, s[1..], k);
      assert ([x] + s)[1..] == s;
      assert ([x] + s[1..])[1..] == s[1..];
      assert Insert(x, s)[1..] == Insert(x, s[1..]);
      if s[0].score == k {
        assert x.score != k;
      }
    }
  }

  /** `SortDesc` returns a permutation of its input, sorted largest score first. */
  lemma {:induction false} SortDescSortsAndPermutes<T>(s: seq<Scored<T>>)
    ensures |SortDesc(s)| == |s|
    ensures NonIncreasing(SortDesc(s))
    ensures multiset(SortDesc(s)) == multiset(s)
  {
    if s != [] {
      SortDescSortsAndPermutes(s[1..]);
      InsertSorted(s[0], SortDesc(s[1..]));
      InsertPermutes(s[0], SortDesc(s[1..]));
      assert s == [s[0]] + s[1..];
      assert |multiset(SortDesc(s))| == |multiset(s)|;
    }
  }

  /** The sort is stable: the entries sharing one score keep their relative order. */
  lemma {:induction false} SortDescStable<T>(s: seq<Scored<T>>, k: real)
    ensures WithScore(SortDesc(s), k) == WithScore(s, k)
  {
    if s != [] {
      SortDescStable(s[1..], k);
      SortDescSortsAndPermutes(s[1..]);
      InsertStable(s[0], SortDesc(s[1..]), k);
      assert ([s[0]] + SortDesc(s[1..]))[1..] == SortDesc(s[1..]);
    }
  }

  /** Entries with equal scores are ordered by increasing `key` of their items. */
  predicate TiesOrderedBy<T>(s: seq<Scored<T>>, key: T -> int)
  {
    forall i, j :: 0 <= i < j < |s| && s[i].score == s[j].score ==> key(s[i].item) < key(s[j].item)
  }

  lemma {:induction false} InsertTies<T>(x: Scored<T>, s: seq<Scored<T>>, key: T -> int)
    requires TiesOrderedBy(s, key)
    requires forall e | e in s && e.score == x.score :: key(x.item) < key(e.item)
    ensures TiesOrderedBy(Insert(x, s), key)
  {
    if s != [] && x.score < s[0].score {
      InsertTies(x, s[1..], key);
      var t := Insert(x, s[1..]);
      InsertPermutes(x, s[1..]);
      forall j | 0 <= j < |t| && t[j].score == s[0].score ensures key(s[0].item) < key(t[j].item) {
        assert t[j] in multiset(s[1..]) + multiset{x};
        assert t[j] != x;
        var m :| 0 <= m < |s[1..]| && s[1..][m] == t[j];
        assert s[m + 1] == t[j];
      }
      assert Insert(x, s) == [s[0]] + t;
    } else {
      forall j | 0 <= j < |s| && s[j].score == x.score ensures key(x.item) < key(s[j].item) {
        assert s[j] in s;
      }
    }
  }

  /** When the items of a list come in increasing `key` order, the stable
      sort keeps every group of equal scores in that order. */
  lemma {:induction false} SortDescTies<T>(s: seq<Scored<T>>, key: T -> int)
    requires forall i, j :: 0 <= i < j < |s| ==> key(s[i].item) < key(s[j].item)
    ensures TiesOrderedBy(SortDesc(s), key)
  {
    if s != [] {
      SortDescTies(s[1..], key);
      SortDescSortsAndPermutes(s[1..]);
      forall e | e in SortDesc(s[1..]) && e.score == s[0].score ensures key(s[0].item) < key(e.item) {
        assert e in multiset(s[1..]);
        var m :| 0 <= m < |s[1..]| && s[1..][m] == e;
        assert s[m + 1] == e;
      }
      InsertTies(s[0], SortDesc(s[1..]), key);
    }
  }

  /** A list that is sorted already comes back unchanged. */
  lemma {:induction false} SortDescOfSorted<T>(s: seq<Scored<T>>)
    requires NonIncreasing(s)
    ensures SortDesc(s) == s
  {
    if s != [] {
      SortDescOfSorted(s[1..]);
      assert [s[0]] + s[1..] == s;
    }
  }

  /** Every entry of the sorted list is an entry of the input. */
  lemma SortDescMember<T>(s: seq<Scored<T>>, i: nat)
    requires i < |SortDesc(s)|
    ensures SortDesc(s)[i] in s
  {
    SortDescSortsAndPermutes(s);
    assert SortDesc(s)[i] in multiset(SortDesc(s));
  }

  /** Every entry of the input is an entry of the sorted list. */
  lemma InSortDesc<T>(s: seq<Scored<T>>, x: Scored<T>)
    requires x in s
    ensures x in SortDesc(s)
  {
    SortDescSortsAndPermutes(s);
    assert x in multiset(s);
  }

  /** No entry scores above the first one of the ranking. */
  lemma FirstIsHighest<T>(s: seq<Scored<T>>, x: Scored<T>)
    requires x in s
    ensures |SortDesc(s)| > 0 && x.score <= SortDesc(s)[0].score
  {
    SortDescSortsAndPermutes(s);
    InSortDesc(s, x);
    var j :| 0 <= j < |SortDesc(s)| && SortDesc(s)[j] == x;
  }

  /** An entry with a strictly higher score ends up before one with a lower score. */
  lemma HigherRanksFirst<T>(s: seq<Scored<T>>, x: Scored<T>, y: Scored<T>)
    requires x in s && y in s && y.score < x.score
    ensures exists i, j :: 0 <= i < j < |SortDesc(s)| && SortDesc(s)[i] == x && SortDesc(s)[j] == y
    ensures forall i, j :: 0 <= i < |SortDesc(s)| && 0 <= j < |SortDesc(s)| && SortDesc(s)[i] == x && SortDesc(s)[j] == y ==> i < j
  {
    var t := SortDesc(s);
    SortDescSortsAndPermutes(s);
    assert NonIncreasing(t);
    forall i, j | 0 <= i < |t| && 0 <= j < |t| && t[i] == x && t[j] == y
      ensures i < j
    {
      if j <= i {
        assert false;
      }
    }
    InSortDesc(s, x);
    InSortDesc(s, y);
    var i :| 0 <= i < |t| && t[i] == x;
    var j :| 0 <= j < |t| && t[j] == y;
  }

  lemma {:induction false} InsertDistinct<T>(x: Scored<T>, s: seq<Scored<T>>)
    requires DistinctItems(s)
    requires forall i :: 0 <= i < |s| ==> s[i].item != x.item
    ensures DistinctItems(Insert(x, s))
  {
    if s != [] && x.score < s[0].score {
      InsertDistinct(x, s[1..]);
      InsertPermutes(x, s[1..]);
      var t := Insert(x, s[1..]);
      forall j | 0 <= j < |t| ensures t[j].item != s[0].item {
        assert t[j] in multiset(t);
        assert t[j] == x || t[j] in s[1..];
      }
    }
  }

  /** Sorting never makes two entries share an item. */
  lemma {:induction false} SortDescDistinct<T>(s: seq<Scored<T>>)
    requires DistinctItems(s)
    ensures DistinctItems(SortDesc(s))
  {
    if s != [] {
      SortDescDistinct(s[1..]);
      SortDescSortsAndPermutes(s[1..]);
      forall i | 0 <= i < |SortDesc(s[1..])| ensures SortDesc(s[1..])[i].item != s[0].item {
        SortDescMember(s[1..], i);
      }
      InsertDistinct(s[0], SortDesc(s[1..]));
    }
  }

  /** A prefix of a sorted list is sorted; a prefix of a list with distinct items has distinct items. */
  lemma PrefixKeeps<T>(s: seq<Scored<T>>, n: int)
    ensures NonIncreasing(s) ==> NonIncreasing(Prefix(s, n))
    ensures DistinctItems(s) ==> DistinctItems(Prefix(s, n))
  {
    var r := Prefix(s, n);
    assert forall i :: 0 <= i < |r| ==> r[i] == s[i];
  }

  /** The first `n` entries of the sorted list are sorted, are entries of the
      unsorted list, and score at least as high as every entry cut off. The
      sorted list holds every entry of the input exactly as often. */
  lemma TopEntries<T>(s: seq<Scored<T>>, n: int)
    ensures |SortDesc(s)| == |s| && multiset(SortDesc(s)) == multiset(s)
    ensures NonIncreasing(Prefix(SortDesc(s), n))
    ensures forall i :: 0 <= i < |Prefix(SortDesc(s), n)| ==> Prefix(SortDesc(s), n)[i] in s
    ensures forall i, j :: 0 <= i < |Prefix(SortDesc(s), n)| <= j < |SortDesc(s)| ==>
      SortDesc(s)[j].score <= Prefix(SortDesc(s), n)[i].score
  {
    SortDescSortsAndPermutes(s);
    PrefixKeeps(SortDesc(s), n);
    var t := Prefix(SortDesc(s), n);
    forall i | 0 <= i < |t| ensures t[i] in s {
      SortDescMember(s, i);
    }
  }

  /** One entry with its score multiplied by `c`. */
  function ScaleOne<T>(e: Scored<T>, c: real): Scored<T>
  {
    Scored(e.item, e.score * c)
  }

  /** Every score multiplied by `c`. */
  function Scale<T>(s: seq<Scored<T>>, c: real): (r: seq<Scored<T>>)
    ensures |r| == |s|
    ensures forall i :: 0 <= i < |s| ==> r[i] == ScaleOne(s[i], c)
  {
    if s == [] then [] else [ScaleOne(s[0], c)] + Scale(s[1..], c)
  }

  lemma ScaleCons<T>(x: Scored<T>, s: seq<Scored<T>>, c: real)
    ensures Scale([x] + s, c) == [ScaleOne(x, c)] + Scale(s, c)
  {
    assert ([x] + s)[1..] == s;
  }

  /** A positive factor keeps the comparison of two scores. */
  lemma ScaleKeepsOrder<T>(a: Scored<T>, b: Scored<T>, c: real)
    requires c > 0.0
    ensures (ScaleOne(a, c).score <= ScaleOne(b, c).score) == (a.score <= b.score)
  {
    if a.score <= b.score {
      assert (b.score - a.score) * c >= 0.0;
    } else {
      assert (a.score - b.score) * c > 0.0;
    }
  }

  lemma {:induction false} InsertScale<T>(x: Scored<T>, s: seq<Scored<T>>, c: real)
    requires c > 0.0
    ensures Insert(ScaleOne(x, c), Scale(s, c)) == Scale(Insert(x, s), c)
  {
    if s == [] {
      ScaleCons(x, [], c);
    } else {
      var xs, hd := ScaleOne(x, c), ScaleOne(s[0], c);
      assert Scale(s, c) == [hd] + Scale(s[1..], c);
      ScaleKeepsOrder(s[0], x, c);
      if x.score < s[0].score {
        assert !(hd.score <= xs.score);
        assert Insert(xs, Scale(s, c)) == [hd] + Insert(xs, Scale(s[1..], c));
        InsertScale(x, s[1..], c);
        ScaleCons(s[0], Insert(x, s[1..]), c);
      } else {
        assert hd.score <= xs.score;
        ScaleCons(x, s, c);
      }
    }
  }

  /** Multiplying every score by the same positive factor does not change the
      order the sort produces. */
  lemma {:induction false} SortDescScale<T>(s: seq<Scored<T>>, c: real)
    requires c > 0.0
    ensures SortDesc(Scale(s, c)) == Scale(SortDesc(s), c)
  {
    if s != [] {
      var ss := Scale(s, c);
      assert ss == [ScaleOne(s[0], c)] + Scale(s[1..], c);
      assert ss[0] == ScaleOne(s[0], c) && ss[1..] == Scale(s[1..], c);
      SortDescScale(s[1..], c);
      InsertScale(s[0], SortDesc(s[1..]), c);
    }
  }

  lemma PrefixScale<T>(s: seq<Scored<T>>, c: real, n: int)
    ensures Prefix(Scale(s, c), n) == Scale(Prefix(s, n), c)
  {
    var a, b := Prefix(Scale(s, c), n), Scale(Prefix(s, n), c);
    assert |a| == |b|;
    forall i | 0 <= i < |a| ensures a[i] == b[i] {
      assert a[i] == Scale(s, c)[i];
      assert Prefix(s, n)[i] == s[i];
    }
  }

  /** Every item paired with its score, in order: the array a `forEach`
      over the items builds by pushing one entry per item. */
  function ScoreEach<T>(items: seq<T>, score: T -> real): (r: seq<Scored<T>>)
    ensures |r| == |items|
    decreases |items|
  {
    if items == [] then []
    else
      var last := items[|items| - 1];
      ScoreEach(items[..|items| - 1], score) + [Scored(last, score(last))]
  }

  /** Entry `i` pairs item `i` with its score. */
  lemma {:induction false} ScoreEachAt<T>(items: seq<T>, score: T -> real, i: int)
    requires 0 <= i < |items|
    ensures ScoreEach(items, score)[i] == Scored(items[i], score(items[i]))
    decreases |items|
  {
    if i < |items| - 1 {
      ScoreEachAt(items[..|items| - 1], score, i);
    }
  }

  /** One more item adds one entry at the end. */
  lemma ScoreEachSnoc<T>(items: seq<T>, x: T, score: T -> real)
    ensures ScoreEach(items + [x], score) == ScoreEach(items, score) + [Scored(x, score(x))]
  {
    assert (items + [x])[..|items|] == items;
  }

  /** `s.reduce((acc, val) => acc + val, 0)`. */
  function Sum(s: seq<real>): real
  {
    if s == [] then 0.0 else Sum(s[..|s| - 1]) + s[|s| - 1]
  }

  /** The mean of a non-empty list of numbers. */
  function Mean(s: seq<real>): real
    requires |s| > 0
  {
    Sum(s) / (|s| as real)
  }

  lemma {:induction false} SumBounds(s: seq<real>, lo: real, hi: real)
    requires forall i :: 0 <= i < |s| ==> lo <= s[i] <= hi
    ensures (|s| as real) * lo <= Sum(s) <= (|s| as real) * hi
  {
    if s != [] {
      SumBounds(s[..|s| - 1], lo, hi);
    }
  }

  /** A mean of numbers in `[lo, hi]` lies in `[lo, hi]`. */
  lemma MeanBounds(s: seq<real>, lo: real, hi: real)
    requires |s| > 0
    requires forall i :: 0 <= i < |s| ==> lo <= s[i] <= hi
    ensures lo <= Mean(s) <= hi
  {
    SumBounds(s, lo, hi);
    var n := |s| as real;
    assert n * lo <= Sum(s) <= n * hi;
    assert lo == (n * lo) / n;
    assert hi == (n * hi) / n;
  }
}
