/** Sequence vocabulary shared by the word2vec and collaborative-filtering
    models: duplicate-freedom, subsequences, order-preserving filters and
    Python's prefix slice `s[:n]`. */
module Seqs {

  /** A value, or none (a failure or an absent entry). */
  datatype Option<T> = None | Some(value: T)

  /** No value occurs twice in `s`. */
  predicate NoDup<T(==)>(s: seq<T>) {
    forall i, j :: 0 <= i < j < |s| ==> s[i] != s[j]
  }

  /** The set of values of `s` (Python's `set(s)`). */
  function Elems<T>(s: seq<T>): set<T> {
    set x | x in s
  }

  /** `a` is obtained from `b` by deleting zero or more elements, keeping
      the order of the rest. */
  predicate IsSubseq<T(==)>(a: seq<T>, b: seq<T>)
    decreases |b|
  {
    if |a| == 0 then true
    else if |b| == 0 then false
    else (a[0] == b[0] && IsSubseq(a[1..], b[1..])) || IsSubseq(a, b[1..])
  }

  /** The distinct values of `s`, each at the place of its first occurrence:
      the key order of a Python `dict` or `Counter` built from `s`. */
  function Distinct<T(==,!new)>(s: seq<T>): (r: seq<T>)
    ensures NoDup(r)
    ensures forall x :: x in r <==> x in s
    ensures |r| <= |s|
    decreases |s|
  {
    if |s| == 0 then []
    else
      var d := Distinct(s[..|s| - 1]);
      var last := s[|s| - 1];
      assert forall x :: x in s <==> x in s[..|s| - 1] || x == last by {
        assert s == s[..|s| - 1] + [last];
      }
      if last in d then d else d + [last]
  }

  /** The elements of `s` whose flag in `keep` is set, in their original
      order (a list comprehension with a per-element condition). */
  function Select<T>(s: seq<T>, keep: seq<bool>): (r: seq<T>)
    requires |keep| == |s|
    ensures |r| <= |s|
    ensures forall x :: x in r ==> x in s
    ensures (forall k :: 0 <= k < |keep| ==> keep[k]) ==> r == s
    ensures (forall k :: 0 <= k < |keep| ==> !keep[k]) ==> r == []
  {
    if |s| == 0 then []
    else if keep[0] then [s[0]] + Select(s[1..], keep[1..])
    else Select(s[1..], keep[1..])
  }

  /** The number of set flags in `keep`. */
  function Kept(keep: seq<bool>): (n: nat)
    ensures n <= |keep|
  {
    if |keep| == 0 then 0 else (if keep[0] then 1 else 0) + Kept(keep[1..])
  }

  /** `Select` keeps exactly the flagged elements: its length is the number
      of set flags, and the element at position `k` of `s`, when flagged,
      lands at the position given by the number of flags before it. */
  lemma {:induction false} SelectAt<T>(s: seq<T>, keep: seq<bool>)
    requires |keep| == |s|
    ensures |Select(s, keep)| == Kept(keep)
    ensures forall k :: 0 <= k < |s| && keep[k] ==>
              Kept(keep[..k]) < |Select(s, keep)| && Select(s, keep)[Kept(keep[..k])] == s[k]
    decreases |s|
  {
    if |s| > 0 {
      var r := Select(s, keep);
      SelectAt(s[1..], keep[1..]);
      forall k | 0 <= k < |s| && keep[k]
        ensures Kept(keep[..k]) < |r| && r[Kept(keep[..k])] == s[k]
      {
        if k == 0 {
          assert keep[..0] == [];
        } else {
          KeptPrefixTail(keep, k);
          assert s[1..][k - 1] == s[k] && keep[1..][k - 1] == keep[k];
        }
      }
    }
  }

  /** Counting the flags of a non-empty prefix starts with its head. */
  lemma KeptPrefixTail(keep: seq<bool>, k: nat)
    requires 0 < k <= |keep|
    ensures Kept(keep[..k]) == (if keep[0] then 1 else 0) + Kept(keep[1..][..k - 1])
  {
    assert keep[..k][1..] == keep[1..][..k - 1];
  }

  /** The values of `s` that do not occur in `ex`, in order: Python's set
      difference `set(s) - set(ex)` when `s` has no duplicates. */
  function Difference<T(==,!new)>(s: seq<T>, ex: seq<T>): (r: seq<T>)
    ensures forall y :: y in r <==> y in s && y !in ex
    ensures NoDup(s) ==> NoDup(r)
  {
    if |s| == 0 then []
    else if s[0] in ex then (NoDupTail(s); Difference(s[1..], ex))
    else
      var rest := Difference(s[1..], ex);
      NoDupTail(s);
      if NoDup(s) then NoDupCons(s[0], rest); [s[0]] + rest
      else [s[0]] + rest
  }

  /** Dropping the head of a duplicate-free sequence keeps it duplicate-free,
      and the head does not recur. */
  lemma NoDupTail<T>(s: seq<T>)
    requires |s| > 0
    ensures NoDup(s) ==> NoDup(s[1..]) && s[0] !in s[1..]
  {
    if NoDup(s) {
      forall i, j | 0 <= i < j < |s| - 1 ensures s[1..][i] != s[1..][j] {
        assert s[1..][i] == s[i + 1] && s[1..][j] == s[j + 1];
      }
      forall k | 0 <= k < |s| - 1 ensures s[1..][k] != s[0] {
        assert s[1..][k] == s[k + 1];
      }
    }
  }

  /** Prepending a fresh value keeps a sequence duplicate-free. */
  lemma NoDupCons<T>(x: T, s: seq<T>)
    requires NoDup(s) && x !in s
    ensures NoDup([x] + s)
  {
    forall i, j | 0 <= i < j < |s| + 1 ensures ([x] + s)[i] != ([x] + s)[j] {
      if i > 0 {
        assert ([x] + s)[i] == s[i - 1] && ([x] + s)[j] == s[j - 1];
      } else {
        assert ([x] + s)[j] == s[j - 1];
      }
    }
  }

  function Min(a: int, b: int): int { if a <= b then a else b }

  function Max(a: int, b: int): int { if a >= b then a else b }

  /** Python's slice `s[:n]`: the first `n` elements when `n >= 0` (all of
      `s` if it is shorter), and all but the last `-n` elements when
      `n < 0`. */
  function PyPrefix<T>(s: seq<T>, n: int): (r: seq<T>)
    ensures |r| <= |s| && r == s[..|r|]
    ensures n >= 0 ==> |r| == Min(n, |s|)
    ensures n < 0 ==> |r| == Max(0, |s| + n)
  {
    if n >= 0 then s[..Min(n, |s|)] else s[..Max(0, |s| + n)]
  }

  /** Every element of `s` is kept by a `Select`, so `Select` yields a
      subsequence. */
  lemma {:induction false} SelectIsSubseq<T>(s: seq<T>, keep: seq<bool>)
    requires |keep| == |s|
    ensures IsSubseq(Select(s, keep), s)
    decreases |s|
  {
    if |s| > 0 {
      SelectIsSubseq(s[1..], keep[1..]);
      var rest := Select(s[1..], keep[1..]);
      if keep[0] {
        assert ([s[0]] + rest)[1..] == rest;
      } else {
        SubseqOfTail(rest, s);
      }
    }
  }

  /** A subsequence of the tail is a subsequence of the whole. */
  lemma SubseqOfTail<T>(a: seq<T>, b: seq<T>)
    requires |b| > 0 && IsSubseq(a, b[1..])
    ensures IsSubseq(a, b)
  {
  }

  /** Every value of a subsequence is a value of the whole. */
  lemma {:induction false} SubseqMembers<T>(a: seq<T>, b: seq<T>)
    requires IsSubseq(a, b)
    ensures forall x :: x in a ==> x in b
    decreases |b|
  {
    if |a| > 0 {
      if a[0] == b[0] && IsSubseq(a[1..], b[1..]) {
        SubseqMembers(a[1..], b[1..]);
        assert a == [a[0]] + a[1..];
        assert b == [b[0]] + b[1..];
      } else {
        SubseqMembers(a, b[1..]);
        assert b == [b[0]] + b[1..];
      }
    }
  }

  /** A sequence has at most as many distinct values as elements, and
      exactly as many when it has no duplicates. */
  lemma {:induction false} CardElems<T>(s: seq<T>)
    ensures |Elems(s)| <= |s|
    ensures NoDup(s) <==> |Elems(s)| == |s|
    decreases |s|
  {
    if |s| > 0 {
      var init := s[..|s| - 1];
      var last := s[|s| - 1];
      CardElems(init);
      assert s == init + [last];
      assert Elems(s) == Elems(init) + {last};
      if last in init {
        assert Elems(s) == Elems(init);
        var k :| 0 <= k < |init| && init[k] == last;
        assert s[k] == s[|s| - 1];
        assert !NoDup(s);
      } else {
        assert |Elems(s)| == |Elems(init)| + 1;
        if NoDup(init) {
          forall i, j | 0 <= i < j < |s| ensures s[i] != s[j] {
            if j < |s| - 1 {
              assert s[i] == init[i] && s[j] == init[j];
            } else {
              assert s[i] in init;
            }
          }
        } else {
          var i, j :| 0 <= i < j < |init| && init[i] == init[j];
          assert s[i] == s[j];
        }
      }
    }
  }
}
