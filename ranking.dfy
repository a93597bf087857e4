/** Ordering rows by a metric (`sort_values`) and `top_companies`. */
module Ranking {
  import opened Seqs
  import opened Risk

  /** A `sort_values(metric, ascending=...)` request. */
  datatype Order = Order(metric: Metric, ascending: bool)

  /** `sort_values("综合", ascending=False)`. */
  const BY_COMPOSITE_DESC: Order := Order(Overall, false)

  /** The key the order sorts ascending by. */
  function Key(w: WideRow, o: Order): real {
    if o.ascending then Value(w, o.metric) else -Value(w, o.metric)
  }

  predicate SortedBy(s: seq<WideRow>, o: Order) {
    forall i, j :: 0 <= i < j < |s| ==> Key(s[i], o) <= Key(s[j], o)
  }

  /** Places `x` before the first row whose key is not smaller. */
  function Insert(x: WideRow, s: seq<WideRow>, o: Order): (r: seq<WideRow>)
    requires SortedBy(s, o)
    ensures SortedBy(r, o)
    ensures multiset(r) == multiset(s) + multiset{x}
  {
    if s == [] then [x]
    else if Key(x, o) <= Key(s[0], o) then [x] + s
    else
      var t := Insert(x, s[1..], o);
      InsertHeadBound(s, x, t, o);
      assert s == [s[0]] + s[1..];
      [s[0]] + t
  }

  /** The head of a sorted list stays a lower bound after a larger row is
      inserted into its tail. */
  lemma InsertHeadBound(s: seq<WideRow>, x: WideRow, t: seq<WideRow>, o: Order)
    requires s != [] && SortedBy(s, o) && SortedBy(t, o)
    requires Key(s[0], o) < Key(x, o)
    requires multiset(t) == multiset(s[1..]) + multiset{x}
    ensures SortedBy([s[0]] + t, o)
  {
    var r := [s[0]] + t;
    forall j | 0 <= j < |t| ensures Key(s[0], o) <= Key(t[j], o) {
      assert t[j] in multiset(t);
      if t[j] != x {
        assert t[j] in s[1..];
        var k :| 0 <= k < |s[1..]| && s[1..][k] == t[j];
        assert s[k + 1] == t[j];
      }
    }
    forall i, j | 0 <= i < j < |r| ensures Key(r[i], o) <= Key(r[j], o) {
      if i == 0 {
        assert r[j] == t[j - 1];
      } else {
        assert r[i] == t[i - 1] && r[j] == t[j - 1];
      }
    }
  }

  /** `sort_values` by the order's metric: a permutation, sorted by that
      metric. Rows with equal values may come in any order. */
  function SortBy(s: seq<WideRow>, o: Order): (r: seq<WideRow>)
    ensures SortedBy(r, o)
    ensures multiset(r) == multiset(s)
    ensures |r| == |s|
  {
    assert s != [] ==> s == [s[0]] + s[1..];
    if s == [] then [] else Insert(s[0], SortBy(s[1..], o), o)
  }

  /** Sorting keeps exactly the rows it was given. */
  lemma SortByMembers(s: seq<WideRow>, o: Order)
    ensures forall w :: w in SortBy(s, o) <==> w in s
  {
    var r := SortBy(s, o);
    forall w ensures w in r <==> w in s {
      assert w in r <==> w in multiset(r);
      assert w in s <==> w in multiset(s);
    }
  }

  /** The first row of a descending sort by composite has the greatest composite. */
  lemma SortedHeadIsMax(s: seq<WideRow>)
    requires s != []
    ensures var best := SortBy(s, BY_COMPOSITE_DESC)[0];
      && best in s
      && forall v :: v in s ==> v.composite <= best.composite
  {
    var sorted := SortBy(s, BY_COMPOSITE_DESC);
    SortByMembers(s, BY_COMPOSITE_DESC);
    SortedDescending(sorted);
    assert sorted[0] in sorted;
    forall v | v in s ensures v.composite <= sorted[0].composite {
      var k :| 0 <= k < |sorted| && sorted[k] == v;
    }
  }

  /** Sorting by the composite in descending order makes the composites non-increasing. */
  lemma SortedDescending(s: seq<WideRow>)
    requires SortedBy(s, BY_COMPOSITE_DESC)
    ensures forall i, j :: 0 <= i < j < |s| ==> s[i].composite >= s[j].composite
  {
    forall i, j | 0 <= i < j < |s| ensures s[i].composite >= s[j].composite {
      assert Key(s[i], BY_COMPOSITE_DESC) <= Key(s[j], BY_COMPOSITE_DESC);
    }
  }

  /** `wide[wide["year"] == year]`. */
  function RowsOfYear(wide: seq<WideRow>, year: string): (r: seq<WideRow>)
    ensures forall w :: w in r <==> w in wide && w.year == year
    ensures multiset(r) <= multiset(wide)
  {
    Filter(wide, (w: WideRow) => w.year == year)
  }

  /** The rows of a year hold every row of that year as often as the table
      does, and no other row. */
  lemma RowsOfYearCount(wide: seq<WideRow>, year: string, w: WideRow)
    ensures multiset(RowsOfYear(wide, year))[w] == if w.year == year then multiset(wide)[w] else 0
  {
    FilterCount(wide, (v: WideRow) => v.year == year, w);
  }

  /** The rows of a year keep table order: selecting from two parts of the
      table one after the other gives the same rows as selecting from the
      whole. */
  lemma RowsOfYearAppend(a: seq<WideRow>, b: seq<WideRow>, year: string)
    ensures RowsOfYear(a + b, year) == RowsOfYear(a, year) + RowsOfYear(b, year)
  {
    FilterAppend(a, b, (w: WideRow) => w.year == year);
  }

  /** The `company` column of some rows. */
  function Companies(rows: seq<WideRow>): seq<string> {
    seq(|rows|, i requires 0 <= i < |rows| => rows[i].company)
  }

  /** The rows behind `top_companies(year, n)`: that year's rows by descending
      composite, first `n`. */
  function TopRows(wide: seq<WideRow>, year: string, n: nat): seq<WideRow> {
    Take(SortBy(RowsOfYear(wide, year), BY_COMPOSITE_DESC), n)
  }

  /** `top_companies(year, n)`. */
  function TopCompanies(wide: seq<WideRow>, year: string, n: nat): (r: seq<string>)
    ensures |r| == Min(n, |RowsOfYear(wide, year)|)
    ensures forall i :: 0 <= i < |r| ==> exists w :: w in wide && w.year == year && w.company == r[i]
  {
    var top := TopRows(wide, year, n);
    TopRowsOfYear(wide, year, n);
    assert forall i :: 0 <= i < |top| ==> top[i] in wide && top[i].year == year && top[i].company == Companies(top)[i];
    Companies(top)
  }

  /** The top-n rows are `min(n, rows of that year)` rows of that year. */
  lemma TopRowsOfYear(wide: seq<WideRow>, year: string, n: nat)
    ensures var top := TopRows(wide, year, n);
      && |top| == Min(n, |RowsOfYear(wide, year)|)
      && forall i :: 0 <= i < |top| ==> top[i] in wide && top[i].year == year
  {
    var all := RowsOfYear(wide, year);
    var sorted := SortBy(all, BY_COMPOSITE_DESC);
    var top := TopRows(wide, year, n);
    SortByMembers(all, BY_COMPOSITE_DESC);
    forall i | 0 <= i < |top| ensures top[i] in all {
      assert top[i] == sorted[i];
    }
  }

  /** The first `m` rows of a descending ordering of `all` by composite are
      drawn from `all`, non-increasing, and no other row of `all` has a
      greater composite than one of them. */
  lemma PrefixOfDescending(sorted: seq<WideRow>, all: seq<WideRow>, m: nat)
    requires SortedBy(sorted, BY_COMPOSITE_DESC) && multiset(sorted) == multiset(all)
    requires m <= |sorted|
    ensures var top := sorted[..m];
      && (forall i :: 0 <= i < m ==> top[i] in all)
      && (forall i, j :: 0 <= i < j < m ==> top[i].composite >= top[j].composite)
      && multiset(top) <= multiset(all)
      && (forall i, w :: 0 <= i < m && w in multiset(all) - multiset(top) ==> w.composite <= top[i].composite)
  {
    var top := sorted[..m];
    assert sorted == top + sorted[m..];
    assert multiset(sorted) == multiset(top) + multiset(sorted[m..]);
    SortedDescending(sorted);
    forall i | 0 <= i < m ensures top[i] in all {
      assert top[i] in multiset(sorted);
    }
    forall i, w | 0 <= i < m && w in multiset(all) - multiset(top)
      ensures w.composite <= top[i].composite
    {
      assert w in sorted[m..];
      var j :| m <= j < |sorted| && sorted[j] == w;
      assert sorted[i] == top[i];
    }
  }

  /** The first `n` rows of a descending sort by composite. */
  lemma TakeOfDescending(all: seq<WideRow>, n: nat)
    ensures var top := Take(SortBy(all, BY_COMPOSITE_DESC), n);
      && (forall i :: 0 <= i < |top| ==> top[i] in all)
      && (forall i, j :: 0 <= i < j < |top| ==> top[i].composite >= top[j].composite)
      && multiset(top) <= multiset(all)
      && (forall i, w :: 0 <= i < |top| && w in multiset(all) - multiset(top) ==> w.composite <= top[i].composite)
  {
    var sorted := SortBy(all, BY_COMPOSITE_DESC);
    PrefixOfDescending(sorted, all, |Take(sorted, n)|);
  }

  /** The top-n rows: `min(n, rows of that year)` of them, all of that year,
      composites non-increasing, drawn from the year's rows, and none of the
      year's other rows has a greater composite than any chosen one. */
  lemma TopRowsSpec(wide: seq<WideRow>, year: string, n: nat)
    ensures var top, all := TopRows(wide, year, n), RowsOfYear(wide, year);
      && |top| == Min(n, |all|)
      && (forall i :: 0 <= i < |top| ==> top[i] in wide && top[i].year == year)
      && (forall i, j :: 0 <= i < j < |top| ==> top[i].composite >= top[j].composite)
      && multiset(top) <= multiset(all)
      && (forall i, w :: 0 <= i < |top| && w in multiset(all) - multiset(top) ==> w.composite <= top[i].composite)
  {
    TakeOfDescending(RowsOfYear(wide, year), n);
  }

  /** `top_companies(year, n)` returns `min(n, rows of that year)` companies,
      each the company of a row of that year, in order of non-increasing composite. */
  lemma TopCompaniesSpec(wide: seq<WideRow>, year: string, n: nat)
    ensures var r, top := TopCompanies(wide, year, n), TopRows(wide, year, n);
      && |r| <= n
      && |r| == Min(n, |RowsOfYear(wide, year)|)
      && (forall i :: 0 <= i < |r| ==> r[i] == top[i].company && top[i] in wide && top[i].year == year)
      && (forall i, j :: 0 <= i < j < |r| ==> top[i].composite >= top[j].composite)
  {
    TopRowsSpec(wide, year, n);
  }
}
