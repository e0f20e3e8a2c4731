/** `getSimilarUsers`: rank the other users by the cosine similarity of
    their ratings to the target user's ratings.

    The target's vector is the list of all its rating values; the other
    vector is the rating row of another user with its first two columns
    (user id and ISBN) dropped, which leaves one value. So every call of
    `cosineSimilarity` fails unless the target has exactly one rating, and
    then each comparison is between two one-element vectors. */
module UserSimilarity {
  import opened Tables
  import opened Ranking
  import opened VectorMath

  /** `targetUserRatings` mapped to their values: the target's vector. */
  function TargetValues(ratings: seq<Rating>, target: UserId): seq<int>
  {
    if ratings == [] then []
    else (if ratings[0].userId == target then [ratings[0].value] else []) + TargetValues(ratings[1..], target)
  }

  /** The users who appear in a list of rating rows. */
  function RatedBy(rows: seq<Rating>): set<UserId>
  {
    set i | 0 <= i < |rows| :: rows[i].userId
  }

  /** The insertion-ordered `Map` from user id to the list of similarities
      pushed for that user: `order` is the order of first insertion. */
  datatype Buckets = Buckets(order: seq<UserId>, samples: map<UserId, seq<real>>)

  /** The keys are exactly the users of `order`, each once, each with a
      non-empty list of samples. */
  ghost predicate WellFormed(b: Buckets)
  {
    && (forall i, j :: 0 <= i < j < |b.order| ==> b.order[i] != b.order[j])
    && (forall u :: u in b.samples <==> u in b.order)
    && (forall u :: u in b.samples ==> |b.samples[u]| > 0)
  }

  /** `if (!m.has(u)) m.set(u, []); m.get(u).push(x)`. */
  function Push(b: Buckets, u: UserId, x: real): Buckets
  {
    if u in b.samples then Buckets(b.order, b.samples[u := b.samples[u] + [x]])
    else Buckets(b.order + [u], b.samples[u := [x]])
  }

  /** The `forEach` over the ratings table, as a fold over its rows: each row
      of another user adds one cosine to that user's bucket; the first
      cosine that fails aborts the whole fold. */
  function Bucketed(rows: seq<Rating>, target: UserId, tv: seq<int>): (r: Result<Buckets>)
    ensures r.Success? ==> WellFormed(r.value) && target !in r.value.samples
    decreases |rows|
  {
    if rows == [] then Success(Buckets([], map[]))
    else
      match Bucketed(rows[..|rows| - 1], target, tv)
      case Failure(e) => Failure(e)
      case Success(b) =>
        var row := rows[|rows| - 1];
        if row.userId == target then Success(b)
        else
          match CosineSimilarity(tv, [row.value])
          case Failure(e) => Failure(e)
          case Success(c) => Success(Push(b, row.userId, SingletonValue(c)))
  }

  /** The entry of each bucket, in insertion order, with the mean of its samples. */
  function Averages(b: Buckets): (r: seq<Scored<UserId>>)
    requires WellFormed(b)
    ensures |r| == |b.order|
    ensures forall i :: 0 <= i < |r| ==> r[i].item == b.order[i] && r[i].score == Mean(b.samples[b.order[i]])
  {
    seq(|b.order|, i requires 0 <= i < |b.order| => Scored(b.order[i], Mean(b.samples[b.order[i]])))
  }

  /** What `getSimilarUsers(target, n)` returns: the averaged buckets sorted
      by similarity, largest first, and cut to `n` entries. */
  function SimilarUsers(ratings: seq<Rating>, target: UserId, n: int := 2): Result<seq<Scored<UserId>>>
  {
    match Bucketed(ratings, target, TargetValues(ratings, target))
    case Failure(e) => Failure(e)
    case Success(b) => Success(Prefix(SortDesc(Averages(b)), n))
  }

  /** `getSimilarUsers(targetUserId, numSimilarUsers)`. */
  method GetSimilarUsers(ratings: seq<Rating>, target: UserId, n: int := 2) returns (r: Result<seq<Scored<UserId>>>)
    ensures r == SimilarUsers(ratings, target, n)
    ensures r.Failure? <==> |TargetValues(ratings, target)| != 1 && RatedBy(ratings) - {target} != {}
    ensures r.Success? ==> NeighbourList(r.value, target, n)
    ensures r.Success? && 0 <= n ==>
      |r.value| == (if n < |RatedBy(ratings) - {target}| then n else |RatedBy(ratings) - {target}|)
  {
    var tv := TargetValues(ratings, target);
    var buckets := FillBuckets(ratings, target, tv);
    SimilarUsersFails(ratings, target, n);
    if buckets.Failure? {
      return Failure(buckets.error);
    }
    var averageSimilarities := AverageBuckets(buckets.value);
    averageSimilarities := SortDesc(averageSimilarities);
    r := Success(Prefix(averageSimilarities, n));
    SimilarUsersIsNeighbourList(ratings, target, n);
    SimilarUsersCount(ratings, target, n);
  }

  /** The `forEach` that fills the `Map` of similarity lists; a failing
      `cosineSimilarity` throws out of it. */
  method FillBuckets(ratings: seq<Rating>, target: UserId, tv: seq<int>) returns (r: Result<Buckets>)
    ensures r == Bucketed(ratings, target, tv)
  {
    var order: seq<UserId> := [];
    var samples: map<UserId, seq<real>> := map[];
    for i := 0 to |ratings|
      invariant Bucketed(ratings[..i], target, tv) == Success(Buckets(order, samples))
    {
      var row := ratings[i];
      BucketedSnoc(ratings, i, target, tv);
      if row.userId != target {
        var c := CosineSimilarity(tv, [row.value]);
        if c.Failure? {
          BucketedFailurePersists(ratings, i + 1, target, tv);
          return Failure(c.error);
        }
        var similarity := SingletonValue(c.value);
        PushInPlace(Buckets(order, samples), row.userId, similarity);
        if row.userId !in samples {
          order := order + [row.userId];
          samples := samples[row.userId := []];
        }
        samples := samples[row.userId := samples[row.userId] + [similarity]];
      }
    }
    assert ratings[..|ratings|] == ratings;
    r := Success(Buckets(order, samples));
  }

  /** The `forEach` over the `Map` that pushes each user's mean similarity. */
  method AverageBuckets(b: Buckets) returns (averages: seq<Scored<UserId>>)
    requires WellFormed(b)
    ensures averages == Averages(b)
  {
    averages := [];
    for j := 0 to |b.order|
      invariant |averages| == j
      invariant forall k :: 0 <= k < j ==> averages[k] == Scored(b.order[k], Mean(b.samples[b.order[k]]))
    {
      var similarities := b.samples[b.order[j]];
      averages := averages + [Scored(b.order[j], Sum(similarities) / (|similarities| as real))];
    }
  }

  // ---------------------------------------------------------------------
  // Properties
  // ---------------------------------------------------------------------

  /** `Push` is what the two in-place map updates of the loop body do. */
  lemma PushInPlace(b: Buckets, u: UserId, x: real)
    ensures var m := if u in b.samples then b.samples else b.samples[u := []];
      Push(b, u, x) == Buckets(if u in b.samples then b.order else b.order + [u], m[u := m[u] + [x]])
  {
    var m := if u in b.samples then b.samples else b.samples[u := []];
    if u !in b.samples {
      assert m[u] + [x] == [x];
      assert m[u := [x]] == b.samples[u := [x]];
    }
  }

  /** One more row of the `forEach`. */
  lemma BucketedSnoc(rows: seq<Rating>, i: nat, target: UserId, tv: seq<int>)
    requires i < |rows| && Bucketed(rows[..i], target, tv).Success?
    ensures var b, row := Bucketed(rows[..i], target, tv).value, rows[i];
      && (row.userId == target ==> Bucketed(rows[..i + 1], target, tv) == Success(b))
      && (row.userId != target && CosineSimilarity(tv, [row.value]).Failure? ==>
            Bucketed(rows[..i + 1], target, tv).Failure?)
      && (row.userId != target && CosineSimilarity(tv, [row.value]).Success? ==>
            Bucketed(rows[..i + 1], target, tv)
              == Success(Push(b, row.userId, SingletonValue(CosineSimilarity(tv, [row.value]).value))))
  {
    assert rows[..i + 1][..i] == rows[..i];
  }

  lemma {:induction false} BucketedFailurePersists(rows: seq<Rating>, k: nat, target: UserId, tv: seq<int>)
    requires k <= |rows| && Bucketed(rows[..k], target, tv).Failure?
    ensures Bucketed(rows, target, tv).Failure?
    decreases |rows| - k
  {
    if k < |rows| {
      assert rows[..k + 1][..k] == rows[..k];
      BucketedFailurePersists(rows, k + 1, target, tv);
    } else {
      assert rows[..k] == rows;
    }
  }

  lemma RatedBySnoc(rows: seq<Rating>)
    requires rows != []
    ensures RatedBy(rows) == RatedBy(rows[..|rows| - 1]) + {rows[|rows| - 1].userId}
  {
    var init := rows[..|rows| - 1];
    forall u | u in RatedBy(rows) ensures u in RatedBy(init) + {rows[|rows| - 1].userId} {
      var i :| 0 <= i < |rows| && rows[i].userId == u;
      if i < |rows| - 1 {
        assert init[i] == rows[i];
      }
    }
    forall u | u in RatedBy(init) ensures u in RatedBy(rows) {
      var i :| 0 <= i < |init| && init[i].userId == u;
      assert rows[i] == init[i];
    }
  }

  /** The fold fails exactly when the target's vector does not have length 1
      and some other user has rated something. */
  lemma {:induction false} BucketedFails(rows: seq<Rating>, target: UserId, tv: seq<int>)
    ensures Bucketed(rows, target, tv).Failure? <==> |tv| != 1 && RatedBy(rows) - {target} != {}
    decreases |rows|
  {
    if rows != [] {
      var init := rows[..|rows| - 1];
      BucketedFails(init, target, tv);
      RatedBySnoc(rows);
      var u := rows[|rows| - 1].userId;
      assert RatedBy(rows) - {target} == (RatedBy(init) - {target}) + ({u} - {target});
      if u != target {
        assert u in RatedBy(rows) - {target};
      }
    } else {
      assert RatedBy(rows) == {};
    }
  }

  lemma SimilarUsersFails(ratings: seq<Rating>, target: UserId, n: int)
    ensures SimilarUsers(ratings, target, n).Failure?
        <==> |TargetValues(ratings, target)| != 1 && RatedBy(ratings) - {target} != {}
  {
    BucketedFails(ratings, target, TargetValues(ratings, target));
  }

  /** The sign of a product: a cosine of one-element vectors. */
  function Sign(x: int): real
  {
    if x > 0 then 1.0 else if x < 0 then -1.0 else 0.0
  }

  /** A reference definition of one user's bucket: for each of `u`'s rows,
      in table order, the sign of the target's single rating times that row's. */
  function BucketOf(rows: seq<Rating>, u: UserId, t: int): seq<real>
    decreases |rows|
  {
    if rows == [] then []
    else
      var row := rows[|rows| - 1];
      BucketOf(rows[..|rows| - 1], u, t) + (if row.userId == u then [Sign(t * row.value)] else [])
  }

  lemma {:induction false} BucketOfUnrated(rows: seq<Rating>, u: UserId, t: int)
    requires u !in RatedBy(rows)
    ensures BucketOf(rows, u, t) == []
    decreases |rows|
  {
    if rows != [] {
      RatedBySnoc(rows);
      BucketOfUnrated(rows[..|rows| - 1], u, t);
    }
  }

  /** The fold puts exactly the other users who rated something in the map,
      and each one's bucket is `BucketOf` its rows. */
  lemma {:induction false} BucketedContents(rows: seq<Rating>, target: UserId, tv: seq<int>, u: UserId)
    requires Bucketed(rows, target, tv).Success?
    ensures u in Bucketed(rows, target, tv).value.samples <==> u in RatedBy(rows) && u != target
    ensures u in Bucketed(rows, target, tv).value.samples ==>
      |tv| == 1 && Bucketed(rows, target, tv).value.samples[u] == BucketOf(rows, u, tv[0])
    decreases |rows|
  {
    if rows == [] {
      assert RatedBy(rows) == {};
    } else {
      var init := rows[..|rows| - 1];
      var row := rows[|rows| - 1];
      BucketedContents(init, target, tv, u);
      RatedBySnoc(rows);
      if u !in RatedBy(init) {
        BucketOfUnrated(init, u, if |tv| == 1 then tv[0] else 0);
      }
      if row.userId != target {
        SingletonCosineOf(tv, row.value);
      }
    }
  }

  lemma SingletonCosineOf(tv: seq<int>, v: int)
    requires CosineSimilarity(tv, [v]).Success?
    ensures |tv| == 1 && SingletonValue(CosineSimilarity(tv, [v]).value) == Sign(tv[0] * v)
  {
    assert tv == [tv[0]];
    SingletonCosine(tv[0], v);
  }

  /** What `getSimilarUsers` promises its callers: the target is never
      among the neighbours, the neighbours are distinct, they are sorted by
      similarity, largest first, and there are at most `n` of them. */
  predicate NeighbourList(s: seq<Scored<UserId>>, target: UserId, n: int)
  {
    && (forall i :: 0 <= i < |s| ==> s[i].item != target)
    && DistinctItems(s)
    && NonIncreasing(s)
    && (0 <= n ==> |s| <= n)
  }

  lemma SimilarUsersIsNeighbourList(ratings: seq<Rating>, target: UserId, n: int)
    requires SimilarUsers(ratings, target, n).Success?
    ensures NeighbourList(SimilarUsers(ratings, target, n).value, target, n)
  {
    var b := Bucketed(ratings, target, TargetValues(ratings, target)).value;
    var avg := Averages(b);
    SortDescSortsAndPermutes(avg);
    SortDescDistinct(avg);
    PrefixKeeps(SortDesc(avg), n);
    var s := SimilarUsers(ratings, target, n).value;
    forall i | 0 <= i < |s| ensures s[i].item != target {
      SortDescMember(avg, i);
    }
  }

  /** A list without repeats has as many distinct elements as entries. */
  lemma {:induction false} DistinctCount<T>(s: seq<T>)
    requires forall i, j :: 0 <= i < j < |s| ==> s[i] != s[j]
    ensures |set i | 0 <= i < |s| :: s[i]| == |s|
    decreases |s|
  {
    if s != [] {
      var init := s[..|s| - 1];
      DistinctCount(init);
      var e := set i | 0 <= i < |init| :: init[i];
      assert (set i | 0 <= i < |s| :: s[i]) == e + {s[|s| - 1]} by {
        forall i | 0 <= i < |init| ensures init[i] == s[i] { }
      }
      assert s[|s| - 1] !in e;
    }
  }

  /** The users of the buckets are exactly the other users who rated something. */
  lemma BucketedUsers(ratings: seq<Rating>, target: UserId, tv: seq<int>)
    requires Bucketed(ratings, target, tv).Success?
    ensures |Bucketed(ratings, target, tv).value.order| == |RatedBy(ratings) - {target}|
  {
    var b := Bucketed(ratings, target, tv).value;
    var users := set i | 0 <= i < |b.order| :: b.order[i];
    forall u ensures u in users <==> u in RatedBy(ratings) - {target} {
      BucketedContents(ratings, target, tv, u);
      if u in b.samples {
        assert u in b.order;
      }
    }
    assert users == RatedBy(ratings) - {target};
    DistinctCount(b.order);
  }

  /** `getSimilarUsers` returns `min(n, m)` neighbours for `n >= 0`, `m`
      being the number of other users who rated something. */
  lemma SimilarUsersCount(ratings: seq<Rating>, target: UserId, n: int)
    requires SimilarUsers(ratings, target, n).Success?
    ensures var r, m := SimilarUsers(ratings, target, n).value, |RatedBy(ratings) - {target}|;
      0 <= n ==> |r| == (if n < m then n else m)
  {
    var tv := TargetValues(ratings, target);
    var b := Bucketed(ratings, target, tv).value;
    BucketedUsers(ratings, target, tv);
    SortDescSortsAndPermutes(Averages(b));
  }

  /** `getSimilarUsers` keeps the `n` most similar of the other users who
      rated something: any one of them left out is at most as similar as
      each neighbour kept. */
  lemma SimilarUsersKeepsTop(ratings: seq<Rating>, target: UserId, n: int, u: UserId, i: int)
    requires SimilarUsers(ratings, target, n).Success?
    requires u in RatedBy(ratings) && u != target
    requires var r := SimilarUsers(ratings, target, n).value;
      0 <= i < |r| && forall k :: 0 <= k < |r| ==> r[k].item != u
    ensures var tv := TargetValues(ratings, target);
      |tv| == 1 && |BucketOf(ratings, u, tv[0])| > 0
      && Mean(BucketOf(ratings, u, tv[0])) <= SimilarUsers(ratings, target, n).value[i].score
  {
    var tv := TargetValues(ratings, target);
    var b := Bucketed(ratings, target, tv).value;
    assert SimilarUsers(ratings, target, n).value == Prefix(SortDesc(Averages(b)), n);
    CutRaterScoresLower(ratings, target, tv, b, n, u, i);
  }

  lemma CutRaterScoresLower(ratings: seq<Rating>, target: UserId, tv: seq<int>, b: Buckets, n: int, u: UserId, i: int)
    requires Bucketed(ratings, target, tv) == Success(b)
    requires u in RatedBy(ratings) && u != target
    requires var r := Prefix(SortDesc(Averages(b)), n);
      0 <= i < |r| && forall k :: 0 <= k < |r| ==> r[k].item != u
    ensures |tv| == 1 && |BucketOf(ratings, u, tv[0])| > 0
      && Mean(BucketOf(ratings, u, tv[0])) <= Prefix(SortDesc(Averages(b)), n)[i].score
  {
    BucketedContents(ratings, target, tv, u);
    CutBucketScoresLower(b, n, u);
  }

  /** A user whose averaged bucket is cut off scores no higher than any user kept. */
  lemma CutBucketScoresLower(b: Buckets, n: int, u: UserId)
    requires WellFormed(b) && u in b.samples
    ensures var r := Prefix(SortDesc(Averages(b)), n);
      (forall k :: 0 <= k < |r| ==> r[k].item != u) ==>
        forall i :: 0 <= i < |r| ==> Mean(b.samples[u]) <= r[i].score
  {
    var avg := Averages(b);
    TopEntries(avg, n);
    var k :| 0 <= k < |b.order| && b.order[k] == u;
    InSortDesc(avg, avg[k]);
  }

  /** The user-id column of the ratings table. */
  function Users(rows: seq<Rating>): (r: seq<UserId>)
    ensures |r| == |rows| && forall i :: 0 <= i < |r| ==> r[i] == rows[i].userId
  {
    seq(|rows|, i requires 0 <= i < |rows| => rows[i].userId)
  }

  lemma UsersRatedBy(rows: seq<Rating>, u: UserId)
    ensures u in Users(rows) <==> u in RatedBy(rows)
  {
    if u in Users(rows) {
      var k :| 0 <= k < |rows| && Users(rows)[k] == u;
      assert rows[k].userId in RatedBy(rows);
    }
    if u in RatedBy(rows) {
      var k :| 0 <= k < |rows| && rows[k].userId == u;
      assert Users(rows)[k] == u;
    }
  }

  /** The position of each user's first row: the order in which the `Map`
      receives its keys. */
  function FirstRow(rows: seq<Rating>): UserId -> int
  {
    u => if u in Users(rows) then FirstIndex(Users(rows), u) else |rows|
  }

  /** Users listed in increasing order of their first occurrence in `us`. */
  ghost predicate InFirstOrder(order: seq<UserId>, us: seq<UserId>)
  {
    && (forall i :: 0 <= i < |order| ==> order[i] in us)
    && forall i, j :: 0 <= i < j < |order| ==> FirstIndex(us, order[i]) < FirstIndex(us, order[j])
  }

  lemma OrderSnoc(order: seq<UserId>, us: seq<UserId>, u: UserId)
    requires InFirstOrder(order, us)
    ensures InFirstOrder(order, us + [u])
  {
    forall y | y in us ensures FirstIndex(us + [u], y) == FirstIndex(us, y) {
      FirstIndexSnoc(us, u, y);
    }
  }

  /** A push keeps the key order in step with the rows read: a new key is
      a user seen for the first time. */
  lemma PushOrder(b: Buckets, u: UserId, x: real, us: seq<UserId>)
    requires WellFormed(b) && InFirstOrder(b.order, us)
    requires u !in b.samples ==> u !in us
    ensures InFirstOrder(Push(b, u, x).order, us + [u])
  {
    OrderSnoc(b.order, us, u);
    if u !in b.samples {
      FirstIndexOfNew(us, u);
      var o := b.order + [u];
      forall i | 0 <= i < |b.order| ensures FirstIndex(us + [u], o[i]) < |us| {
        assert o[i] == b.order[i] && b.order[i] in us;
        FirstIndexSnoc(us, u, b.order[i]);
      }
    }
  }

  /** A user the map has no key for has no row yet, unless it is the target. */
  lemma NewKeyUnseen(rows: seq<Rating>, target: UserId, tv: seq<int>, u: UserId)
    requires Bucketed(rows, target, tv).Success? && u != target
    ensures u !in Bucketed(rows, target, tv).value.samples ==> u !in Users(rows)
  {
    BucketedContents(rows, target, tv, u);
    UsersRatedBy(rows, u);
  }

  /** The map keeps its users in the order of their first rows in the table. */
  lemma {:induction false} BucketedOrder(rows: seq<Rating>, target: UserId, tv: seq<int>)
    requires Bucketed(rows, target, tv).Success?
    ensures InFirstOrder(Bucketed(rows, target, tv).value.order, Users(rows))
    decreases |rows|
  {
    if rows != [] {
      var init := rows[..|rows| - 1];
      var row := rows[|rows| - 1];
      BucketedOrder(init, target, tv);
      UsersSnoc(rows);
      var c := CosineSimilarity(tv, [row.value]);
      var x := if c.Success? then SingletonValue(c.value) else 0.0;
      if row.userId != target {
        NewKeyUnseen(init, target, tv, row.userId);
      }
      OrderStep(Bucketed(init, target, tv).value, Bucketed(rows, target, tv).value, Users(init), row.userId, target, x);
    }
  }

  lemma UsersSnoc(rows: seq<Rating>)
    requires rows != []
    ensures Users(rows) == Users(rows[..|rows| - 1]) + [rows[|rows| - 1].userId]
  {
  }

  /** One row of the fold, on the buckets alone: the target's row changes
      nothing, any other row is a push. */
  lemma OrderStep(b0: Buckets, b: Buckets, us: seq<UserId>, u: UserId, target: UserId, x: real)
    requires WellFormed(b0) && InFirstOrder(b0.order, us)
    requires u == target ==> b == b0
    requires u != target ==> b == Push(b0, u, x) && (u !in b0.samples ==> u !in us)
    ensures InFirstOrder(b.order, us + [u])
  {
    if u == target {
      OrderSnoc(b0.order, us, u);
    } else {
      PushOrder(b0, u, x, us);
    }
  }

  /** After the sort, users with equal average similarity stand in the order
      of their first rows. */
  lemma AveragesTies(rows: seq<Rating>, target: UserId, tv: seq<int>, b: Buckets)
    requires Bucketed(rows, target, tv) == Success(b)
    ensures TiesOrderedBy(SortDesc(Averages(b)), FirstRow(rows))
  {
    BucketedOrder(rows, target, tv);
    var avg := Averages(b);
    var key := FirstRow(rows);
    forall i, j | 0 <= i < j < |avg| ensures key(avg[i].item) < key(avg[j].item) {
      assert avg[i].item == b.order[i] && avg[j].item == b.order[j];
    }
    SortDescTies(avg, key);
  }

  /** Of two neighbours with the same similarity, the one whose first rating
      row comes earlier in the table is ranked first. */
  lemma SimilarUsersTies(ratings: seq<Rating>, target: UserId, n: int, i: int, j: int)
    requires SimilarUsers(ratings, target, n).Success?
    requires var r := SimilarUsers(ratings, target, n).value;
      0 <= i < j < |r| && r[i].score == r[j].score
    ensures var r, users := SimilarUsers(ratings, target, n).value, Users(ratings);
      r[i].item in users && r[j].item in users && FirstIndex(users, r[i].item) < FirstIndex(users, r[j].item)
  {
    var tv := TargetValues(ratings, target);
    var b := Bucketed(ratings, target, tv).value;
    var s := SortDesc(Averages(b));
    assert SimilarUsers(ratings, target, n).value == Prefix(s, n);
    TiedEntriesInOrder(ratings, target, tv, b, i, j);
  }

  lemma TiedEntriesInOrder(rows: seq<Rating>, target: UserId, tv: seq<int>, b: Buckets, i: int, j: int)
    requires Bucketed(rows, target, tv) == Success(b)
    requires var s := SortDesc(Averages(b)); 0 <= i < j < |s| && s[i].score == s[j].score
    ensures var s, users := SortDesc(Averages(b)), Users(rows);
      s[i].item in users && s[j].item in users && FirstIndex(users, s[i].item) < FirstIndex(users, s[j].item)
  {
    var avg := Averages(b);
    var s := SortDesc(avg);
    BucketedOrder(rows, target, tv);
    AveragesTies(rows, target, tv, b);
    SortDescMember(avg, i);
    SortDescMember(avg, j);
  }

  /** Of a kept neighbour and a cut rater with the same similarity, the kept
      one has the earlier first row: `slice(0, n)` breaks ties by the map's
      key order. */
  lemma SimilarUsersTieCut(ratings: seq<Rating>, target: UserId, n: int, u: UserId, i: int)
    requires SimilarUsers(ratings, target, n).Success?
    requires u in RatedBy(ratings) && u != target
    requires var r := SimilarUsers(ratings, target, n).value;
      0 <= i < |r| && forall k :: 0 <= k < |r| ==> r[k].item != u
    ensures var tv, r, users := TargetValues(ratings, target), SimilarUsers(ratings, target, n).value, Users(ratings);
      && |tv| == 1 && |BucketOf(ratings, u, tv[0])| > 0
      && (Mean(BucketOf(ratings, u, tv[0])) == r[i].score ==>
            u in users && r[i].item in users && FirstIndex(users, r[i].item) < FirstIndex(users, u))
  {
    var tv := TargetValues(ratings, target);
    var b := Bucketed(ratings, target, tv).value;
    assert SimilarUsers(ratings, target, n).value == Prefix(SortDesc(Averages(b)), n);
    BucketedContents(ratings, target, tv, u);
    CutBucketTiesLater(ratings, target, tv, b, n, u, i);
  }

  lemma CutBucketTiesLater(rows: seq<Rating>, target: UserId, tv: seq<int>, b: Buckets, n: int, u: UserId, i: int)
    requires Bucketed(rows, target, tv) == Success(b) && u in b.samples
    requires var r := Prefix(SortDesc(Averages(b)), n);
      0 <= i < |r| && forall k :: 0 <= k < |r| ==> r[k].item != u
    ensures var r, users := Prefix(SortDesc(Averages(b)), n), Users(rows);
      Mean(b.samples[u]) == r[i].score ==>
        u in users && r[i].item in users && FirstIndex(users, r[i].item) < FirstIndex(users, u)
  {
    var avg := Averages(b);
    var s := SortDesc(avg);
    var r := Prefix(s, n);
    var k :| 0 <= k < |b.order| && b.order[k] == u;
    InSortDesc(avg, avg[k]);
    var j :| 0 <= j < |s| && s[j] == avg[k];
    if Mean(b.samples[u]) == r[i].score {
      assert s[i] == r[i];
      TiedEntriesInOrder(rows, target, tv, b, i, j);
    }
  }

  /** Each neighbour is another user who rated something, and its similarity
      is the mean of its (non-empty) bucket: the sign of the target's rating
      times each of that user's ratings. */
  lemma SimilarUsersScores(ratings: seq<Rating>, target: UserId, n: int, i: nat)
    requires SimilarUsers(ratings, target, n).Success?
    requires i < |SimilarUsers(ratings, target, n).value|
    ensures var e := SimilarUsers(ratings, target, n).value[i];
      && e.item in RatedBy(ratings) && e.item != target
      && |TargetValues(ratings, target)| == 1
      && |BucketOf(ratings, e.item, TargetValues(ratings, target)[0])| > 0
      && e.score == Mean(BucketOf(ratings, e.item, TargetValues(ratings, target)[0]))
  {
    var tv := TargetValues(ratings, target);
    var b := Bucketed(ratings, target, tv).value;
    var avg := Averages(b);
    SortDescMember(avg, i);
    var e := SimilarUsers(ratings, target, n).value[i];
    assert e in avg;
    BucketedContents(ratings, target, tv, e.item);
  }

  lemma {:induction false} BucketOfBounds(rows: seq<Rating>, u: UserId, t: int, lo: real)
    requires lo == -1.0 || (lo == 0.0 && t >= 0 && forall i :: 0 <= i < |rows| ==> rows[i].value >= 0)
    ensures forall k :: 0 <= k < |BucketOf(rows, u, t)| ==> lo <= BucketOf(rows, u, t)[k] <= 1.0
    decreases |rows|
  {
    if rows != [] {
      var init := rows[..|rows| - 1];
      BucketOfBounds(init, u, t, lo);
      var v := rows[|rows| - 1].value;
      if lo == 0.0 {
        assert t * v >= 0;
      }
    }
  }

  /** Every similarity lies in `[-1, 1]`; when the ratings are non-negative,
      as the 0-10 rating scale makes them, it lies in `[0, 1]`. */
  lemma SimilarUsersBounded(ratings: seq<Rating>, target: UserId, n: int, i: nat)
    requires SimilarUsers(ratings, target, n).Success?
    requires i < |SimilarUsers(ratings, target, n).value|
    ensures -1.0 <= SimilarUsers(ratings, target, n).value[i].score <= 1.0
    ensures (forall k :: 0 <= k < |ratings| ==> ratings[k].value >= 0) ==>
      0.0 <= SimilarUsers(ratings, target, n).value[i].score
  {
    SimilarUsersScores(ratings, target, n, i);
    var tv := TargetValues(ratings, target);
    var e := SimilarUsers(ratings, target, n).value[i];
    var bucket := BucketOf(ratings, e.item, tv[0]);
    BucketOfBounds(ratings, e.item, tv[0], -1.0);
    MeanBounds(bucket, -1.0, 1.0);
    if forall k :: 0 <= k < |ratings| ==> ratings[k].value >= 0 {
      TargetValuesNonNegative(ratings, target);
      BucketOfBounds(ratings, e.item, tv[0], 0.0);
      MeanBounds(bucket, 0.0, 1.0);
    }
  }

  lemma {:induction false} TargetValuesNonNegative(ratings: seq<Rating>, target: UserId)
    requires forall k :: 0 <= k < |ratings| ==> ratings[k].value >= 0
    ensures forall k :: 0 <= k < |TargetValues(ratings, target)| ==> TargetValues(ratings, target)[k] >= 0
  {
    if ratings != [] {
      TargetValuesNonNegative(ratings[1..], target);
    }
  }
}
