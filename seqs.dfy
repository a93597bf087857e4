/** Column-wise operations of a data frame, stated on sequences: boolean-mask
    filtering, `unique()` and `head(n)`. */
module Seqs {

  function Min(a: nat, b: nat): nat {
    if a <= b then a else b
  }

  /** No value occurs twice. */
  predicate NoDup<T(==)>(s: seq<T>) {
    forall i, j :: 0 <= i < j < |s| ==> s[i] != s[j]
  }

  /** `df[mask]`: the elements satisfying `p`, in their original order. */
  function Filter<T(!new)>(s: seq<T>, p: T -> bool): (r: seq<T>)
    ensures |r| <= |s|
    ensures forall x :: x in r <==> x in s && p(x)
    ensures multiset(r) <= multiset(s)
  {
    if s == [] then []
    else
      assert s == [s[0]] + s[1..];
      (if p(s[0]) then [s[0]] else []) + Filter(s[1..], p)
  }

  /** A filter keeps every occurrence of a value that satisfies the mask
      and none of a value that does not. */
  lemma {:induction false} FilterCount<T(!new)>(s: seq<T>, p: T -> bool, x: T)
    ensures multiset(Filter(s, p))[x] == if p(x) then multiset(s)[x] else 0
  {
    if s != [] {
      assert s == [s[0]] + s[1..];
      FilterCount(s[1..], p, x);
    }
  }

  /** Filtering a concatenation filters each part in turn: what is kept
      stays in input order. */
  lemma {:induction false} FilterAppend<T(!new)>(s: seq<T>, t: seq<T>, p: T -> bool)
    ensures Filter(s + t, p) == Filter(s, p) + Filter(t, p)
  {
    if s == [] {
      assert s + t == t;
    } else {
      assert (s + t)[1..] == s[1..] + t;
      FilterAppend(s[1..], t, p);
    }
  }

  /** The first element kept by a filter is the first element of the input
      that satisfies the mask (what `.iloc[0]` reads after a filter). */
  lemma {:induction false} FilterFirst<T(!new)>(s: seq<T>, p: T -> bool, k: nat)
    requires k < |s| && p(s[k])
    requires forall j :: 0 <= j < k ==> !p(s[j])
    ensures Filter(s, p) != [] && Filter(s, p)[0] == s[k]
  {
    if k > 0 {
      assert !p(s[0]);
      assert s[1..][k - 1] == s[k];
      forall j | 0 <= j < k - 1 ensures !p(s[1..][j]) {
        assert s[1..][j] == s[j + 1];
      }
      FilterFirst(s[1..], p, k - 1);
    }
  }

  /** A filter keeps nothing exactly when nothing satisfies the mask. */
  lemma FilterEmpty<T(!new)>(s: seq<T>, p: T -> bool)
    ensures Filter(s, p) == [] <==> forall k :: 0 <= k < |s| ==> !p(s[k])
  {
    if Filter(s, p) != [] {
      assert Filter(s, p)[0] in s;
    } else {
      forall k | 0 <= k < |s| ensures !p(s[k]) {
        assert s[k] in s;
      }
    }
  }

  /** `pd.unique`: each distinct value once, in order of first appearance. */
  function Unique<T(==,!new)>(s: seq<T>): (r: seq<T>)
    ensures NoDup(r)
    ensures forall x :: x in r <==> x in s
    ensures |r| <= |s|
  {
    if s == [] then []
    else
      var u := Unique(s[..|s| - 1]);
      assert s == s[..|s| - 1] + [s[|s| - 1]];
      if s[|s| - 1] in u then u else u + [s[|s| - 1]]
  }

  /** `r` lists values in order of first appearance in `s`: whenever `r[i]`
      comes before `r[j]`, some occurrence of `r[i]` precedes every
      occurrence of `r[j]`. */
  predicate InFirstAppearanceOrder<T(==)>(s: seq<T>, r: seq<T>) {
    forall i, j :: 0 <= i < j < |r| ==>
      exists k :: 0 <= k < |s| && s[k] == r[i] && r[j] !in s[..k + 1]
  }

  /** `pd.unique` keeps the order in which values first appear. */
  lemma {:induction false} UniqueOrder<T(!new)>(s: seq<T>)
    ensures InFirstAppearanceOrder(s, Unique(s))
  {
    if s != [] {
      var init := s[..|s| - 1];
      var x := s[|s| - 1];
      var u := Unique(init);
      var r := Unique(s);
      UniqueOrder(init);
      assert r == if x in u then u else u + [x];
      forall i, j | 0 <= i < j < |r|
        ensures exists k :: 0 <= k < |s| && s[k] == r[i] && r[j] !in s[..k + 1]
      {
        assert r[i] == u[i];
        if j < |u| {
          var k :| 0 <= k < |init| && init[k] == u[i] && u[j] !in init[..k + 1];
          assert s[..k + 1] == init[..k + 1];
          assert s[k] == r[i] && r[j] !in s[..k + 1];
        } else {
          assert r[j] == x && x !in init;
          assert u[i] in u;
          var k :| 0 <= k < |init| && init[k] == u[i];
          assert s[..k + 1] == init[..k + 1];
          assert x !in s[..k + 1];
          assert s[k] == r[i];
        }
      }
    }
  }

  /** `head(n)`: the first `n` elements, or all of them when there are fewer. */
  function Take<T>(s: seq<T>, n: nat): (r: seq<T>)
    ensures |r| == Min(n, |s|)
    ensures r == s[..|r|]
  {
    if n <= |s| then s[..n] else s
  }
}
