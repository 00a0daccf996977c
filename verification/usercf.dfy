/** User-based collaborative filtering over a ratings table: users are
    compared by the cosine similarity of the sets of movies they rated, the
    most similar ones become the target user's neighbours, and every movie
    the target user has not rated is scored by the neighbours' ratings of
    it, weighted by their similarity. */
module UserCF {
  import opened Seqs
  import opened Ranking

  /** One row of the ratings table: `userId`, `movieId`, `rating`. */
  datatype Rating = Rating(user: int, movie: int, rating: real)

  /** `sqrt` is the square root on the naturals. */
  ghost predicate IsSqrt(sqrt: nat -> real) {
    forall n: nat :: sqrt(n) >= 0.0 && sqrt(n) * sqrt(n) == n as real
  }

  /** Every rating in the table is at least zero. */
  predicate NonNegativeRatings(data: seq<Rating>) {
    forall k :: 0 <= k < |data| ==> data[k].rating >= 0.0
  }

  /** The `userId` column. */
  function UserColumn(data: seq<Rating>): (r: seq<int>)
    ensures |r| == |data|
    ensures forall k :: 0 <= k < |data| ==> r[k] == data[k].user
  {
    seq(|data|, k requires 0 <= k < |data| => data[k].user)
  }

  /** The `movieId` column. */
  function MovieColumn(data: seq<Rating>): (r: seq<int>)
    ensures |r| == |data|
    ensures forall k :: 0 <= k < |data| ==> r[k] == data[k].movie
  {
    seq(|data|, k requires 0 <= k < |data| => data[k].movie)
  }

  /** `data[data['userId'] == u]['movieId']`: the movies of the rows of
      user `u`, in table order. */
  function MoviesOf(data: seq<Rating>, u: int): (r: seq<int>)
    ensures |r| == multiset(UserColumn(data))[u]
    ensures forall m :: m in r <==> exists k :: 0 <= k < |data| && data[k].user == u && data[k].movie == m
    decreases |data|
  {
    if |data| == 0 then []
    else
      var init := data[..|data| - 1];
      var last := data[|data| - 1];
      var rest := MoviesOf(init, u);
      assert forall k :: 0 <= k < |init| ==> init[k] == data[k];
      assert UserColumn(data) == UserColumn(init) + [last.user];
      if last.user == u then rest + [last.movie] else rest
  }

  /** The number of distinct movies two users share. */
  function Overlap(a: seq<int>, b: seq<int>): nat {
    |Elems(a) * Elems(b)|
  }

  /** `_cosine_sim`: the shared-movie count divided by the square root of the
      product of the two row counts, and 0 when nothing is shared. */
  function CosineSim(a: seq<int>, b: seq<int>, sqrt: nat -> real): (r: real)
    requires IsSqrt(sqrt)
    ensures r == 0.0 <==> Elems(a) * Elems(b) == {}
    ensures 0.0 <= r <= 1.0
    ensures r * r * ((|a| * |b|) as real) == (Overlap(a, b) * Overlap(a, b)) as real
  {
    var shared := Overlap(a, b);
    if shared == 0 then 0.0
    else
      OverlapBounds(a, b);
      var q := sqrt(|a| * |b|);
      CosineBounds(shared as real, q, (|a| * |b|) as real);
      shared as real / q
  }

  /** A shared movie is rated by both users, so the overlap is at most either
      row count. */
  lemma OverlapBounds(a: seq<int>, b: seq<int>)
    ensures Overlap(a, b) <= |a| && Overlap(a, b) <= |b|
    ensures Overlap(a, b) * Overlap(a, b) <= |a| * |b|
    ensures Overlap(a, b) > 0 ==> |a| * |b| > 0
  {
    var s := Elems(a) * Elems(b);
    CardElems(a);
    CardElems(b);
    SubsetCard(s, Elems(a));
    SubsetCard(s, Elems(b));
    MulLe(|s|, |a|, |s|, |b|);
    if |s| > 0 {
      MulLe(1, |a|, 1, |b|);
    }
  }

  lemma SubsetCard<T>(s: set<T>, t: set<T>)
    requires s <= t
    ensures |s| <= |t|
  {
    assert t == s + (t - s);
  }

  lemma MulLe(a: nat, b: nat, c: nat, d: nat)
    requires a <= b && c <= d
    ensures a * c <= b * d
  {
    assert a * c <= b * c;
    assert b * c <= b * d;
  }

  /** With `q` the square root of `p > 0` and `0 < s` with `s * s <= p`, the
      quotient `s / q` lies in `(0, 1]` and squares to `s * s / p`. */
  lemma CosineBounds(s: real, q: real, p: real)
    requires s > 0.0 && q >= 0.0 && q * q == p && p > 0.0 && s * s <= p
    ensures q > 0.0
    ensures 0.0 < s / q <= 1.0
    ensures (s / q) * (s / q) * p == s * s
  {
    assert q != 0.0;
    var r := s / q;
    assert r * q == s;
    assert r * r * p == (r * q) * (r * q);
  }

  /** The similarity is symmetric in the two users. */
  lemma CosineSymmetric(a: seq<int>, b: seq<int>, sqrt: nat -> real)
    requires IsSqrt(sqrt)
    ensures CosineSim(a, b, sqrt) == CosineSim(b, a, sqrt)
  {
    assert Elems(a) * Elems(b) == Elems(b) * Elems(a);
    assert |a| * |b| == |b| * |a|;
  }

  /** `set(data['userId']) - set([target])`, in order of first appearance. */
  function OtherUsers(data: seq<Rating>, target: int): (r: seq<int>)
    ensures NoDup(r)
    ensures forall u :: u in r <==> u in UserColumn(data) && u != target
  {
    Difference(Distinct(UserColumn(data)), [target])
  }

  /** The similarity between the target user and user `u`. */
  function UserSim(data: seq<Rating>, target: int, u: int, sqrt: nat -> real): real
    requires IsSqrt(sqrt)
  {
    CosineSim(MoviesOf(data, target), MoviesOf(data, u), sqrt)
  }

  /** `zip(other_users_id, sim_list)`. */
  function Similarities(data: seq<Rating>, target: int, users: seq<int>, sqrt: nat -> real): (r: seq<Scored<int>>)
    requires IsSqrt(sqrt)
    ensures ItemsOf(r) == users
    ensures forall i :: 0 <= i < |r| ==> r[i].score == UserSim(data, target, users[i], sqrt)
  {
    seq(|users|, i requires 0 <= i < |users| => Scored(users[i], UserSim(data, target, users[i], sqrt)))
  }

  /** `_get_top_n_users`: the `userN` users most similar to the target, most
      similar first (Python's `[:userN]`, so a negative `userN` drops users
      from the end). */
  function TopNUsers(data: seq<Rating>, target: int, userN: int, sqrt: nat -> real): (r: seq<Scored<int>>)
    requires IsSqrt(sqrt)
    ensures NonIncreasing(r, ScoreOf)
    ensures NoDup(ItemsOf(r))
    ensures forall e :: e in r ==> e.item in OtherUsers(data, target)
    ensures forall e :: e in r ==> e.score == UserSim(data, target, e.item, sqrt)
    ensures forall e :: e in r ==> 0.0 <= e.score <= 1.0
    ensures userN >= 0 ==> |r| == Min(userN, |OtherUsers(data, target)|)
    ensures forall e, u :: e in r && u in OtherUsers(data, target) && u !in ItemsOf(r) ==>
              e.score >= UserSim(data, target, u, sqrt)
  {
    var others := OtherUsers(data, target);
    var sims := Similarities(data, target, others, sqrt);
    var r := TopScored(sims, userN);
    ScoredEntries(sims, r);
    forall u | u in others && u !in ItemsOf(r)
      ensures forall e :: e in r ==> e.score >= UserSim(data, target, u, sqrt)
    {
      var i :| 0 <= i < |others| && others[i] == u;
      assert sims[i] in sims && sims[i] !in r;
    }
    r
  }

  /** An entry of a selection from `s` is an entry of `s`, so its item is one
      of `s`'s items and it carries that item's score. */
  lemma ScoredEntries(s: seq<Scored<int>>, r: seq<Scored<int>>)
    requires forall e :: e in r ==> e in s
    ensures forall e :: e in r ==> exists i :: 0 <= i < |s| && s[i] == e
    ensures forall e :: e in r ==> e.item in ItemsOf(s)
    ensures forall x :: x in s && x.item !in ItemsOf(r) ==> x !in r
  {
    forall e | e in r ensures e.item in ItemsOf(s) {
      var i :| 0 <= i < |s| && s[i] == e;
      assert ItemsOf(s)[i] == e.item;
    }
    forall x | x in s && x in r ensures x.item in ItemsOf(r) {
      var j :| 0 <= j < |r| && r[j] == x;
      assert ItemsOf(r)[j] == x.item;
    }
  }

  /** `_get_candidates_items`: every movie in the table the target user has
      not rated, in order of first appearance. */
  function Candidates(data: seq<Rating>, target: int): (r: seq<int>)
    ensures NoDup(r)
    ensures forall m :: m in r <==> m in MovieColumn(data) && m !in MoviesOf(data, target)
  {
    Difference(Distinct(MovieColumn(data)), MoviesOf(data, target))
  }

  /** Row `row` is a rating by user `u` of movie `m`. */
  predicate Rates(row: Rating, u: int, m: int) {
    row.user == u && row.movie == m
  }

  /** The rating of the first row in which user `u` rated movie `m`, if any
      (`user_data[user_data['movieId'] == m]['rating'].values[0]`). */
  function FirstRating(data: seq<Rating>, u: int, m: int): (r: Option<real>)
    ensures r.None? <==> forall k :: 0 <= k < |data| ==> !Rates(data[k], u, m)
    ensures r.Some? ==> exists k :: 0 <= k < |data| && data[k] == Rating(u, m, r.value) &&
                                   forall j :: 0 <= j < k ==> !Rates(data[j], u, m)
    decreases |data|
  {
    if |data| == 0 then None
    else if Rates(data[0], u, m) then Some(data[0].rating)
    else
      var rest := FirstRating(data[1..], u, m);
      FirstRatingShift(data, u, m, rest);
      rest
  }

  /** The first match in the tail of a table whose head does not match is
      the first match in the whole table. */
  lemma FirstRatingShift(data: seq<Rating>, u: int, m: int, rest: Option<real>)
    requires |data| > 0 && !Rates(data[0], u, m)
    requires rest.None? <==> forall k :: 0 <= k < |data| - 1 ==> !Rates(data[1..][k], u, m)
    requires rest.Some? ==> exists k :: 0 <= k < |data| - 1 && data[1..][k] == Rating(u, m, rest.value) &&
                                       forall j :: 0 <= j < k ==> !Rates(data[1..][j], u, m)
    ensures rest.None? <==> forall k :: 0 <= k < |data| ==> !Rates(data[k], u, m)
    ensures rest.Some? ==> exists k :: 0 <= k < |data| && data[k] == Rating(u, m, rest.value) &&
                                      forall j :: 0 <= j < k ==> !Rates(data[j], u, m)
  {
    assert forall k :: 0 <= k < |data| - 1 ==> data[1..][k] == data[k + 1];
    if rest.Some? {
      var k :| 0 <= k < |data| - 1 && data[1..][k] == Rating(u, m, rest.value) &&
               forall j :: 0 <= j < k ==> !Rates(data[1..][j], u, m);
      assert data[k + 1] == Rating(u, m, rest.value);
      forall j | 0 <= j < k + 1 ensures !Rates(data[j], u, m) {
        if j > 0 {
          assert data[j] == data[1..][j - 1];
        }
      }
    } else {
      forall k | 0 <= k < |data| ensures !Rates(data[k], u, m) {
        if k > 0 {
          assert data[k] == data[1..][k - 1];
        }
      }
    }
  }

  /** What neighbour `e` adds to a movie's interest: its similarity times
      its rating of the movie scaled by 1/5, or nothing if it did not rate it. */
  function Contribution(data: seq<Rating>, e: Scored<int>, m: int): real {
    match FirstRating(data, e.item, m)
    case None => 0.0
    case Some(x) => e.score * (x / 5.0)
  }

  /** The interest of the target user in movie `m`: the sum of the
      neighbours' contributions. */
  function Interest(data: seq<Rating>, neighbours: seq<Scored<int>>, m: int): (r: real)
    ensures (forall e :: e in neighbours ==> FirstRating(data, e.item, m).None?) ==> r == 0.0
    ensures NonNegativeRatings(data) && (forall e :: e in neighbours ==> e.score >= 0.0) ==> r >= 0.0
    decreases |neighbours|
  {
    if |neighbours| == 0 then 0.0
    else
      var init := neighbours[..|neighbours| - 1];
      var last := neighbours[|neighbours| - 1];
      assert forall e :: e in init ==> e in neighbours;
      var c := Contribution(data, last, m);
      assert NonNegativeRatings(data) && last.score >= 0.0 ==> c >= 0.0 by {
        if FirstRating(data, last.item, m).Some? && NonNegativeRatings(data) && last.score >= 0.0 {
          var x := FirstRating(data, last.item, m).value;
          var k :| 0 <= k < |data| && data[k] == Rating(last.item, m, x);
          assert x >= 0.0;
        }
      }
      Interest(data, init, m) + c
  }

  /** Interest adds up over a split of the neighbours, so the order in which
      they are summed does not matter. */
  lemma {:induction false} InterestAppend(data: seq<Rating>, a: seq<Scored<int>>, b: seq<Scored<int>>, m: int)
    ensures Interest(data, a + b, m) == Interest(data, a, m) + Interest(data, b, m)
    decreases |b|
  {
    if |b| == 0 {
      assert a + b == a;
    } else {
      var init := b[..|b| - 1];
      var last := b[|b| - 1];
      assert (a + b)[..|a + b| - 1] == a + init;
      assert (a + b)[|a + b| - 1] == last;
      InterestAppend(data, a, init, m);
    }
  }

  /** `[(m, interest) for m in candidates]`. */
  function Interests(data: seq<Rating>, neighbours: seq<Scored<int>>, candidates: seq<int>): (r: seq<Scored<int>>)
    ensures ItemsOf(r) == candidates
    ensures forall i :: 0 <= i < |r| ==> r[i].score == Interest(data, neighbours, candidates[i])
  {
    seq(|candidates|, i requires 0 <= i < |candidates| =>
      Scored(candidates[i], Interest(data, neighbours, candidates[i])))
  }

  /** `_get_top_m_items`: the `itemN` candidates of highest interest, highest
      first. */
  function TopMItems(data: seq<Rating>, neighbours: seq<Scored<int>>, candidates: seq<int>, itemN: int): (r: seq<Scored<int>>)
    ensures NonIncreasing(r, ScoreOf)
    ensures NoDup(candidates) ==> NoDup(ItemsOf(r))
    ensures forall e :: e in r ==> e.item in candidates
    ensures forall e :: e in r ==> e.score == Interest(data, neighbours, e.item)
    ensures itemN >= 0 ==> |r| == Min(itemN, |candidates|)
    ensures forall e, m :: e in r && m in candidates && m !in ItemsOf(r) ==>
              e.score >= Interest(data, neighbours, m)
  {
    var scored := Interests(data, neighbours, candidates);
    var r := TopScored(scored, itemN);
    ScoredEntries(scored, r);
    forall m | m in candidates && m !in ItemsOf(r)
      ensures forall e :: e in r ==> e.score >= Interest(data, neighbours, m)
    {
      var i :| 0 <= i < |candidates| && candidates[i] == m;
      assert scored[i] in scored && scored[i] !in r;
    }
    r
  }

  /** `calculate`: the top `itemN` unrated movies for the target user, scored
      with its `userN` nearest neighbours. */
  function Calculate(data: seq<Rating>, target: int, userN: int, itemN: int, sqrt: nat -> real): (r: seq<Scored<int>>)
    requires IsSqrt(sqrt)
    ensures NonIncreasing(r, ScoreOf)
    ensures NoDup(ItemsOf(r))
    ensures forall e :: e in r ==> e.item in MovieColumn(data) && e.item !in MoviesOf(data, target)
    ensures forall e :: e in r ==> e.score == Interest(data, TopNUsers(data, target, userN, sqrt), e.item)
    ensures NonNegativeRatings(data) ==> forall e :: e in r ==> e.score >= 0.0
    ensures itemN >= 0 ==> |r| == Min(itemN, |Candidates(data, target)|)
  {
    var neighbours := TopNUsers(data, target, userN, sqrt);
    TopMItems(data, neighbours, Candidates(data, target), itemN)
  }

  /** No row of the target user names a recommended movie. */
  lemma NeverRecommendsRated(data: seq<Rating>, target: int, userN: int, itemN: int, sqrt: nat -> real, k: nat)
    requires IsSqrt(sqrt)
    requires k < |data| && data[k].user == target
    ensures data[k].movie !in ItemsOf(Calculate(data, target, userN, itemN, sqrt))
  {
    var r := Calculate(data, target, userN, itemN, sqrt);
    assert data[k].movie in MoviesOf(data, target);
    forall i | 0 <= i < |r| ensures ItemsOf(r)[i] != data[k].movie {
      assert r[i] in r;
    }
  }

  /** A candidate that no neighbour rated has no interest. */
  lemma UnratedHasNoInterest(data: seq<Rating>, neighbours: seq<Scored<int>>, m: int)
    requires forall k :: 0 <= k < |data| && data[k].movie == m ==> data[k].user !in ItemsOf(neighbours)
    ensures Interest(data, neighbours, m) == 0.0
  {
    forall e | e in neighbours ensures FirstRating(data, e.item, m).None? {
      var i :| 0 <= i < |neighbours| && neighbours[i] == e;
      assert ItemsOf(neighbours)[i] == e.item;
    }
  }
}
