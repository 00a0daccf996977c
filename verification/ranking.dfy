/** Descending ranking by a score, as done by Python's
    `sorted(xs, key=score, reverse=True)`: the vocabulary is ranked by token
    count, neighbours by similarity and candidate movies by interest. */
module Ranking {
  import opened Seqs

  /** Scores never increase from left to right. */
  predicate NonIncreasing<T>(s: seq<T>, score: T -> real) {
    forall i, j :: 0 <= i < j < |s| ==> score(s[i]) >= score(s[j])
  }

  /** A scored entry as produced by `zip(ids, scores)`. */
  datatype Scored<T> = Scored(item: T, score: real)

  function ScoreOf<T>(e: Scored<T>): real { e.score }

  /** Places `x` in front of the first element whose score does not exceed
      its own. */
  function Insert<T(==)>(x: T, s: seq<T>, score: T -> real): (r: seq<T>)
    requires NonIncreasing(s, score)
    ensures NonIncreasing(r, score)
    ensures multiset(r) == multiset(s) + multiset{x}
    ensures NoDup(s) && x !in s ==> NoDup(r)
  {
    if |s| == 0 || score(s[0]) <= score(x) then
      InsertAtHead(x, s, score);
      [x] + s
    else
      var rest := Insert(x, s[1..], score);
      InsertBehindHead(x, s, score, rest);
      [s[0]] + rest
  }

  lemma InsertAtHead<T>(x: T, s: seq<T>, score: T -> real)
    requires NonIncreasing(s, score)
    requires |s| == 0 || score(s[0]) <= score(x)
    ensures NonIncreasing([x] + s, score)
    ensures NoDup(s) && x !in s ==> NoDup([x] + s)
  {
    assert forall y :: y in s ==> score(x) >= score(y) by {
      assert forall k :: 0 <= k < |s| ==> score(s[0]) >= score(s[k]);
    }
    ConsNonIncreasing(x, s, score);
    NoDupConsIfFresh(x, s);
  }

  lemma InsertBehindHead<T>(x: T, s: seq<T>, score: T -> real, rest: seq<T>)
    requires NonIncreasing(s, score)
    requires |s| > 0 && score(s[0]) > score(x)
    requires NonIncreasing(rest, score)
    requires multiset(rest) == multiset(s[1..]) + multiset{x}
    requires NoDup(s[1..]) && x !in s[1..] ==> NoDup(rest)
    ensures NonIncreasing([s[0]] + rest, score)
    ensures multiset([s[0]] + rest) == multiset(s) + multiset{x}
    ensures NoDup(s) && x !in s ==> NoDup([s[0]] + rest)
  {
    assert s == [s[0]] + s[1..];
    assert forall y :: y in rest ==> y in s[1..] || y == x by {
      assert forall y :: y in rest ==> y in multiset(rest);
    }
    assert forall y :: y in s[1..] ==> score(s[0]) >= score(y) by {
      assert forall k :: 0 <= k < |s| - 1 ==> s[1..][k] == s[k + 1];
    }
    ConsNonIncreasing(s[0], rest, score);
    NoDupTail(s);
    if NoDup(s) && x !in s {
      NoDupCons(s[0], rest);
    }
  }

  /** A head that outranks every element of a ranked tail extends it. */
  lemma ConsNonIncreasing<T>(h: T, t: seq<T>, score: T -> real)
    requires NonIncreasing(t, score)
    requires forall y :: y in t ==> score(h) >= score(y)
    ensures NonIncreasing([h] + t, score)
  {
    forall i, j | 0 <= i < j < |t| + 1
      ensures score(([h] + t)[i]) >= score(([h] + t)[j])
    {
      assert ([h] + t)[j] == t[j - 1];
      if i > 0 {
        assert ([h] + t)[i] == t[i - 1];
      }
    }
  }

  lemma NoDupConsIfFresh<T>(x: T, s: seq<T>)
    ensures NoDup(s) && x !in s ==> NoDup([x] + s)
  {
    if NoDup(s) && x !in s {
      NoDupCons(x, s);
    }
  }

  /** Insertion sort into non-increasing score order. Inserting each element
      in front of the equal-scored ones that follow it in the input keeps
      equal scores in input order, as Python's stable sort does. */
  function SortDesc<T(==)>(s: seq<T>, score: T -> real): (r: seq<T>)
    ensures NonIncreasing(r, score)
    ensures multiset(r) == multiset(s)
    ensures NoDup(s) ==> NoDup(r)
  {
    if |s| == 0 then []
    else
      var rest := SortDesc(s[1..], score);
      assert s == [s[0]] + s[1..];
      NoDupTail(s);
      assert s[0] !in s[1..] ==> s[0] !in rest by {
        assert forall y :: y in rest ==> y in multiset(s[1..]);
      }
      Insert(s[0], rest, score)
  }

  /** A sorted permutation keeps exactly the elements of its input. */
  lemma SortDescMembers<T>(s: seq<T>, score: T -> real)
    ensures forall x :: x in SortDesc(s, score) <==> x in s
    ensures |SortDesc(s, score)| == |s|
  {
    var r := SortDesc(s, score);
    assert forall x :: x in r <==> x in multiset(r);
    assert |r| == |multiset(r)|;
  }

  /** Cutting a ranking after its first `n` entries leaves every entry that
      was cut ranked no higher than any entry that was kept. */
  lemma KeptOutrankCut<T>(sorted: seq<T>, score: T -> real, n: int, x: T)
    requires NonIncreasing(sorted, score)
    requires x in sorted && x !in PyPrefix(sorted, n)
    ensures forall y :: y in PyPrefix(sorted, n) ==> score(y) >= score(x)
  {
    var p := PyPrefix(sorted, n);
    var k :| 0 <= k < |sorted| && sorted[k] == x;
    forall y | y in p ensures score(y) >= score(x) {
      var i :| 0 <= i < |p| && p[i] == y;
      assert sorted[i] == y;
    }
  }

  /** The items of a scored list, in order: the first column of its pairs. */
  function ItemsOf<T>(s: seq<Scored<T>>): (r: seq<T>)
    ensures |r| == |s|
    ensures forall i :: 0 <= i < |s| ==> r[i] == s[i].item
  {
    seq(|s|, i requires 0 <= i < |s| => s[i].item)
  }

  /** `sorted(s, key=lambda x: x[1], reverse=True)[:n]` on scored pairs: the
      best `n` entries, best first. */
  function TopScored<T(==)>(s: seq<Scored<T>>, n: int): (r: seq<Scored<T>>)
    ensures NonIncreasing(r, ScoreOf)
    ensures forall e :: e in r ==> e in s
    ensures NoDup(ItemsOf(s)) ==> NoDup(ItemsOf(r))
    ensures n >= 0 ==> |r| == Min(n, |s|)
    ensures n < 0 ==> |r| == Max(0, |s| + n)
    ensures forall e, x :: e in r && x in s && x !in r ==> e.score >= x.score
  {
    var sorted := SortDesc(s, ScoreOf);
    SortDescMembers(s, ScoreOf);
    var r := PyPrefix(sorted, n);
    assert forall i :: 0 <= i < |r| ==> r[i] == sorted[i];
    forall x | x in s && x !in r
      ensures forall e :: e in r ==> e.score >= x.score
    {
      KeptOutrankCut(sorted, ScoreOf, n, x);
    }
    if NoDup(ItemsOf(s)) then
      DistinctItemsKept(s, sorted);
      DistinctItemsKept(sorted, r);
      r
    else r
  }

  /** Entries taken, without repetition, from a list whose items are
      distinct again have distinct items. */
  lemma DistinctItemsKept<T>(s: seq<Scored<T>>, t: seq<Scored<T>>)
    requires NoDup(ItemsOf(s))
    requires forall x :: x in t ==> x in s
    requires NoDup(s) ==> NoDup(t)
    ensures NoDup(t)
    ensures NoDup(ItemsOf(t))
  {
    var ss := ItemsOf(s);
    assert NoDup(s) by {
      forall i, j | 0 <= i < j < |s| ensures s[i] != s[j] {
        assert ss[i] != ss[j];
      }
    }
    var it := ItemsOf(t);
    forall i, j | 0 <= i < j < |t| ensures it[i] != it[j] {
      assert t[i] in s && t[j] in s;
      var p :| 0 <= p < |s| && s[p] == t[i];
      var q :| 0 <= q < |s| && s[q] == t[j];
      if p != q {
        assert ss[p] != ss[q];
      }
    }
  }
}
