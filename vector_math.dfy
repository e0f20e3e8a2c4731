/** The two similarity primitives: cosine similarity of two rating vectors
    (`cosineSimilarity`) and Jaccard similarity of the space-separated token
    sets of two strings (`calculateJaccardSimilarity`). */
module VectorMath {
  import opened Tables

  // ---------------------------------------------------------------------
  // Cosine similarity
  // ---------------------------------------------------------------------

  /** `vec1.reduce((acc, val, i) => acc + val * vec2[i], 0)`. */
  function Dot(a: seq<int>, b: seq<int>): int
    requires |a| == |b|
  {
    if a == [] then 0 else a[0] * b[0] + Dot(a[1..], b[1..])
  }

  /** `vec.reduce((acc, val) => acc + val * val, 0)`, the square of the magnitude. */
  function SumOfSquares(a: seq<int>): nat
  {
    if a == [] then 0 else a[0] * a[0] + SumOfSquares(a[1..])
  }

  /** A cosine the engine has computed: 0 from the zero-magnitude guard, or
      the ratio `dot / sqrt(squares1 * squares2)` kept symbolically, since
      the square root is not modelled. */
  datatype Cosine = Zero | Ratio(dot: int, squares1: nat, squares2: nat)

  /** `x` is the real number that the cosine `c` stands for. For a ratio this
      says `x == dot / sqrt(squares1 * squares2)` without a square root:
      `x` has the sign of `dot` and `x * x * squares1 * squares2 == dot * dot`. */
  ghost predicate Denotes(c: Cosine, x: real)
  {
    match c
    case Zero => x == 0.0
    case Ratio(d, s1, s2) =>
      s1 > 0 && s2 > 0 && x * x * ((s1 * s2) as real) == (d * d) as real && (0.0 <= x <==> 0 <= d)
  }

  /** `cosineSimilarity(vec1, vec2)`: fails on a length mismatch, is 0 when
      either magnitude is 0, and is the dot product over the magnitudes otherwise. */
  function CosineSimilarity(a: seq<int>, b: seq<int>): (r: Result<Cosine>)
    ensures r.Failure? <==> |a| != |b|
    ensures r.Failure? ==> r.error == LengthMismatch
    ensures r == Success(Zero) <==> |a| == |b| && (SumOfSquares(a) == 0 || SumOfSquares(b) == 0)
    ensures r.Success? && r.value.Ratio? ==>
      r.value.dot == Dot(a, b) && r.value.squares1 == SumOfSquares(a) && r.value.squares2 == SumOfSquares(b)
  {
    if |a| != |b| then Failure(LengthMismatch)
    else if SumOfSquares(a) == 0 || SumOfSquares(b) == 0 then Success(Zero)
    else Success(Ratio(Dot(a, b), SumOfSquares(a), SumOfSquares(b)))
  }

  /** A magnitude is zero exactly when every component is zero. */
  lemma {:induction false} SumOfSquaresZero(a: seq<int>)
    ensures SumOfSquares(a) == 0 <==> forall i :: 0 <= i < |a| ==> a[i] == 0
  {
    if a != [] {
      SumOfSquaresZero(a[1..]);
      assert a[0] * a[0] >= 0;
      assert forall i :: 1 <= i < |a| ==> a[i] == a[1..][i - 1];
    }
  }

  lemma {:induction false} DotSymmetric(a: seq<int>, b: seq<int>)
    requires |a| == |b|
    ensures Dot(a, b) == Dot(b, a)
  {
    if a != [] {
      DotSymmetric(a[1..], b[1..]);
    }
  }

  /** The vector `x * b - y * a`, squared and summed, written out. */
  function CrossSquares(a: seq<int>, b: seq<int>, x: int, y: int): int
    requires |a| == |b|
  {
    if a == [] then 0
    else (x * b[0] - y * a[0]) * (x * b[0] - y * a[0]) + CrossSquares(a[1..], b[1..], x, y)
  }

  /** `(u - w)^2 == u^2 - 2uw + w^2`, with `u = x * q` and `w = y * p` regrouped. */
  lemma CrossSquareTerm(x: int, y: int, p: int, q: int)
    ensures (x * q - y * p) * (x * q - y * p) == x * x * (q * q) - 2 * x * y * (p * q) + y * y * (p * p)
  {
    var u, w := x * q, y * p;
    assert (u - w) * (u - w) == u * u - 2 * u * w + w * w;
    assert u * u == x * x * (q * q);
    assert w * w == y * y * (p * p);
    assert u * w == x * y * (p * q);
  }

  lemma {:induction false} CrossSquaresExpand(a: seq<int>, b: seq<int>, x: int, y: int)
    requires |a| == |b|
    ensures CrossSquares(a, b, x, y)
         == x * x * SumOfSquares(b) - 2 * x * y * Dot(a, b) + y * y * SumOfSquares(a)
    ensures CrossSquares(a, b, x, y) >= 0
  {
    if a != [] {
      CrossSquaresExpand(a[1..], b[1..], x, y);
      var p, q := a[0], b[0];
      var sa, sb, d := SumOfSquares(a[1..]), SumOfSquares(b[1..]), Dot(a[1..], b[1..]);
      CrossSquareTerm(x, y, p, q);
      var xx, xy, yy := x * x, 2 * x * y, y * y;
      assert xx * (q * q + sb) == xx * (q * q) + xx * sb;
      assert yy * (p * p + sa) == yy * (p * p) + yy * sa;
      assert xy * (p * q + d) == xy * (p * q) + xy * d;
      var e := x * q - y * p;
      assert e * e >= 0;
    }
  }

  /** The Cauchy-Schwarz inequality: `(a . b)^2 <= |a|^2 * |b|^2`. */
  lemma {:induction false} CauchySchwarz(a: seq<int>, b: seq<int>)
    requires |a| == |b|
    ensures Dot(a, b) * Dot(a, b) <= SumOfSquares(a) * SumOfSquares(b)
  {
    if a != [] {
      CauchySchwarz(a[1..], b[1..]);
      CrossSquaresExpand(a[1..], b[1..], a[0], b[0]);
      CauchySchwarzStep(a[0], b[0], SumOfSquares(a[1..]), SumOfSquares(b[1..]), Dot(a[1..], b[1..]));
    }
  }

  /** One step of the induction: adding the pair `(p, q)` in front keeps the inequality. */
  lemma CauchySchwarzStep(p: int, q: int, sa: int, sb: int, d: int)
    requires d * d <= sa * sb
    requires p * p * sb - 2 * p * q * d + q * q * sa >= 0
    ensures (p * q + d) * (p * q + d) <= (p * p + sa) * (q * q + sb)
  {
    assert (p * q + d) * (p * q + d) == p * p * (q * q) + 2 * p * q * d + d * d;
    assert (p * p + sa) * (q * q + sb) == p * p * (q * q) + p * p * sb + sa * (q * q) + sa * sb;
  }

  /** A cosine lies in `[-1, 1]`. */
  lemma CosineBounded(a: seq<int>, b: seq<int>, x: real)
    requires CosineSimilarity(a, b).Success? && Denotes(CosineSimilarity(a, b).value, x)
    ensures -1.0 <= x <= 1.0
  {
    var c := CosineSimilarity(a, b).value;
    if c.Ratio? {
      CauchySchwarz(a, b);
      var s := c.squares1 * c.squares2;
      assert s > 0 by {
        assert c.squares1 > 0 && c.squares2 > 0;
      }
      UnitFromRatio(x, s as real, (c.dot * c.dot) as real);
    }
  }

  /** If `x * x * p == q` with `0 <= q <= p` and `p > 0`, then `|x| <= 1`. */
  lemma UnitFromRatio(x: real, p: real, q: real)
    requires p > 0.0 && q <= p && x * x * p == q
    ensures -1.0 <= x <= 1.0
  {
    assert x * x == q / p;
    assert q / p <= 1.0;
    SquareAtMostOne(x);
  }

  lemma SquareAtMostOne(x: real)
    requires x * x <= 1.0
    ensures -1.0 <= x <= 1.0
  {
  }

  lemma {:induction false} DotNonNegative(a: seq<int>, b: seq<int>)
    requires |a| == |b|
    requires forall i :: 0 <= i < |a| ==> 0 <= a[i] && 0 <= b[i]
    ensures Dot(a, b) >= 0
  {
    if a != [] {
      DotNonNegative(a[1..], b[1..]);
      assert a[0] * b[0] >= 0;
    }
  }

  /** With non-negative ratings the cosine lies in `[0, 1]`. */
  lemma CosineOfNonNegative(a: seq<int>, b: seq<int>, x: real)
    requires forall i :: 0 <= i < |a| ==> 0 <= a[i]
    requires forall i :: 0 <= i < |b| ==> 0 <= b[i]
    requires CosineSimilarity(a, b).Success? && Denotes(CosineSimilarity(a, b).value, x)
    ensures 0.0 <= x <= 1.0
  {
    CosineBounded(a, b, x);
    DotNonNegative(a, b);
  }

  /** Swapping the arguments changes neither whether the call fails nor its value. */
  lemma CosineSymmetric(a: seq<int>, b: seq<int>, x: real)
    ensures CosineSimilarity(a, b).Failure? <==> CosineSimilarity(b, a).Failure?
    ensures CosineSimilarity(a, b).Success? ==>
      (Denotes(CosineSimilarity(a, b).value, x) <==> Denotes(CosineSimilarity(b, a).value, x))
  {
    if |a| == |b| {
      DotSymmetric(a, b);
      var s1, s2 := SumOfSquares(a), SumOfSquares(b);
      assert s1 * s2 == s2 * s1;
    }
  }

  /** The value of a cosine of two one-element vectors: the sign of `t * v`. */
  function SingletonValue(c: Cosine): real
  {
    match c
    case Zero => 0.0
    case Ratio(d, _, _) => if d > 0 then 1.0 else if d < 0 then -1.0 else 0.0
  }

  /** For one-element vectors the square root disappears: the cosine of `[t]`
      and `[v]` is 1, -1 or 0 as `t * v` is positive, negative or zero, and
      `SingletonValue` is exactly that number. */
  lemma SingletonCosine(t: int, v: int)
    ensures CosineSimilarity([t], [v]).Success?
    ensures Denotes(CosineSimilarity([t], [v]).value, SingletonValue(CosineSimilarity([t], [v]).value))
    ensures SingletonValue(CosineSimilarity([t], [v]).value)
         == (if t * v > 0 then 1.0 else if t * v < 0 then -1.0 else 0.0)
  {
    assert SumOfSquares([t]) == t * t;
    assert SumOfSquares([v]) == v * v;
    assert Dot([t], [v]) == t * v;
    var c := CosineSimilarity([t], [v]).value;
    if t * t == 0 || v * v == 0 {
      assert t == 0 || v == 0;
    } else {
      assert t != 0 && v != 0;
      assert (t * t) * (v * v) == (t * v) * (t * v);
      var x := SingletonValue(c);
      assert x * x == 1.0;
    }
  }

  // ---------------------------------------------------------------------
  // Jaccard similarity of token sets
  // ---------------------------------------------------------------------

  /** `s.split(" ")`: the pieces between single space characters; empty
      pieces are kept, so `""` gives `[""]` and `"a  b"` gives `["a", "", "b"]`. */
  function Split(s: string): (r: seq<string>)
    ensures |r| >= 1
  {
    if s == [] then [""]
    else
      var rest := Split(s[1..]);
      if s[0] == ' ' then [""] + rest
      else [[s[0]] + rest[0]] + rest[1..]
  }

  /** `tokens.join(" ")`, the inverse of `Split`. */
  function Join(tokens: seq<string>): string
  {
    if tokens == [] then ""
    else if |tokens| == 1 then tokens[0]
    else tokens[0] + " " + Join(tokens[1..])
  }

  /** Splitting loses nothing: joining the pieces gives the string back, and
      no piece contains a space. */
  lemma {:induction false} SplitJoin(s: string)
    ensures Join(Split(s)) == s
    ensures forall i :: 0 <= i < |Split(s)| ==> ' ' !in Split(s)[i]
  {
    if s != [] {
      SplitJoin(s[1..]);
      var rest := Split(s[1..]);
      if s[0] == ' ' {
        assert ([""] + rest)[1..] == rest;
        assert s == [' '] + s[1..];
      } else {
        var r := [[s[0]] + rest[0]] + rest[1..];
        if |rest| == 1 {
          assert s == [s[0]] + rest[0];
        } else {
          assert r[1..] == rest[1..];
          assert Join(rest) == rest[0] + " " + Join(rest[1..]);
          assert s == [s[0]] + (rest[0] + " " + Join(rest[1..]));
        }
        assert forall i :: 1 <= i < |r| ==> r[i] == rest[i];
      }
    }
  }

  /** `new Set(s.split(" "))`. */
  function TokenSet(s: string): (r: set<string>)
    ensures r != {}
  {
    var tokens := Split(s);
    var r := set t | t in tokens;
    assert tokens[0] in r;
    r
  }

  /** `calculateJaccardSimilarity(s1, s2)`: the size of the intersection of
      the two token sets over the size of their union. The union is never
      empty, because every split yields at least one token. */
  function Jaccard(s1: string, s2: string): (r: real)
    ensures 0.0 <= r <= 1.0
  {
    var a, b := TokenSet(s1), TokenSet(s2);
    SubsetCardinality(a * b, a + b);
    SubsetCardinality(a, a + b);
    RatioInUnit(|a * b|, |a + b|);
    (|a * b| as real) / (|a + b| as real)
  }

  lemma RatioInUnit(p: nat, q: nat)
    requires 0 < q && p <= q
    ensures 0.0 <= (p as real) / (q as real) <= 1.0
  {
    var x := (p as real) / (q as real);
    assert x * (q as real) == p as real;
  }

  lemma SubsetCardinality<T>(x: set<T>, y: set<T>)
    requires x <= y
    ensures |x| <= |y|
    ensures |x| == |y| ==> x == y
  {
    assert y == x + (y - x);
    assert |y| == |x| + |y - x|;
  }

  lemma JaccardSymmetric(s1: string, s2: string)
    ensures Jaccard(s1, s2) == Jaccard(s2, s1)
  {
    var a, b := TokenSet(s1), TokenSet(s2);
    assert a * b == b * a;
    assert a + b == b + a;
  }

  /** `p / q` is 1 exactly when `p == q`, and 0 exactly when `p == 0`. */
  lemma RatioExtremes(p: nat, q: nat)
    requires 0 < q
    ensures (p as real) / (q as real) == 1.0 <==> p == q
    ensures (p as real) / (q as real) == 0.0 <==> p == 0
  {
    var x := (p as real) / (q as real);
    assert x * (q as real) == p as real;
  }

  /** The similarity is 1 exactly when both strings have the same token set. */
  lemma JaccardOne(s1: string, s2: string)
    ensures Jaccard(s1, s2) == 1.0 <==> TokenSet(s1) == TokenSet(s2)
  {
    var a, b := TokenSet(s1), TokenSet(s2);
    SubsetCardinality(a * b, a + b);
    SubsetCardinality(a, a + b);
    RatioExtremes(|a * b|, |a + b|);
    if |a * b| == |a + b| {
      assert a * b == a + b;
      assert a == b;
    }
    if a == b {
      assert a * b == a + b;
    }
  }

  /** The similarity is 0 exactly when the token sets are disjoint. */
  lemma JaccardZero(s1: string, s2: string)
    ensures Jaccard(s1, s2) == 0.0 <==> TokenSet(s1) !! TokenSet(s2)
  {
    var a, b := TokenSet(s1), TokenSet(s2);
    SubsetCardinality(a, a + b);
    RatioExtremes(|a * b|, |a + b|);
    if a !! b {
      assert a * b == {};
    } else {
      var t :| t in a && t in b;
      assert t in a * b;
    }
  }
}
