/** Start-up loading: from the parsed header row and records to the wide
    risk table and the sorted list of years. */
module Loader {
  import opened Wrappers
  import opened Text
  import opened Seqs
  import opened Risk

  /** The table every view reads, and the options of the year selector. */
  datatype Table = Table(wide: seq<WideRow>, years: seq<string>)

  /** The distinct years present in the table. */
  function YearSet(wide: seq<WideRow>): set<string> {
    set w | w in wide :: w.year
  }

  /** Inserting `y` at a position with smaller strings before it and larger
      strings after it keeps a list strictly ascending. */
  lemma InsertAscending(s: seq<string>, j: nat, y: string)
    requires StrictlyAscending(s) && j <= |s|
    requires forall k :: 0 <= k < j ==> Less(s[k], y)
    requires forall k :: j <= k < |s| ==> Less(y, s[k])
    ensures StrictlyAscending(s[..j] + [y] + s[j..])
  {
    var t := s[..j] + [y] + s[j..];
    forall p, q | 0 <= p < q < |t| ensures Less(t[p], t[q]) {
      if q < j || p > j {
        assert t[p] == s[if p < j then p else p - 1] && t[q] == s[if q < j then q else q - 1];
      } else if p == j {
        assert t[q] == s[q - 1];
      } else if q == j {
        assert t[p] == s[p];
      } else {
        assert t[p] == s[p] && t[q] == s[q - 1];
        LessTransitive(s[p], y, s[q - 1]);
      }
    }
  }

  /** `list(pd.unique(wide["year"]))`: every year once, in order of first appearance. */
  method UniqueYears(wide: seq<WideRow>) returns (unique: seq<string>)
    ensures NoDup(unique)
    ensures forall y :: y in unique <==> y in YearSet(wide)
  {
    unique := [];
    for i := 0 to |wide|
      invariant NoDup(unique)
      invariant forall y :: y in unique <==> exists k :: 0 <= k < i && wide[k].year == y
    {
      if wide[i].year !in unique {
        unique := unique + [wide[i].year];
      }
    }
    forall y ensures y in unique <==> y in YearSet(wide) {
      if y in YearSet(wide) {
        var w :| w in wide && w.year == y;
        var k :| 0 <= k < |wide| && wide[k] == w;
      }
    }
  }

  /** `YEARS.sort()` on the distinct years, by insertion: the result is
      strictly ascending and holds the same years. */
  method SortYears(unique: seq<string>) returns (years: seq<string>)
    requires NoDup(unique)
    ensures StrictlyAscending(years)
    ensures forall y :: y in years <==> y in unique
  {
    years := [];
    for i := 0 to |unique|
      invariant StrictlyAscending(years)
      invariant forall y :: y in years <==> y in unique[..i]
    {
      var y := unique[i];
      assert y !in unique[..i] by {
        assert forall m :: 0 <= m < i ==> unique[m] != y;
      }
      var j := 0;
      while j < |years| && Less(years[j], y)
        invariant j <= |years|
        invariant forall k :: 0 <= k < j ==> Less(years[k], y)
      {
        j := j + 1;
      }
      forall k | j <= k < |years| ensures Less(y, years[k]) {
        LessTotal(y, years[j]);
        if k > j {
          LessTransitive(y, years[j], years[k]);
        }
      }
      InsertAscending(years, j, y);
      years := years[..j] + [y] + years[j..];
      assert unique[..i + 1] == unique[..i] + [y];
    }
    assert unique[..|unique|] == unique;
  }

  /** `raw.columns = [c.strip() for c in raw.columns]`. */
  method StripHeaders(headers: seq<string>) returns (columns: seq<string>)
    ensures |columns| == |headers|
    ensures forall k :: 0 <= k < |headers| ==> columns[k] == Strip(headers[k])
  {
    columns := [];
    for i := 0 to |headers|
      invariant |columns| == i
      invariant forall k :: 0 <= k < i ==> columns[k] == Strip(headers[k])
    {
      var name := Strip(headers[i]);
      columns := columns + [name];
    }
  }

  /** The column assignments on the frame: `year` and `industry` backfilled
      when `present` lacks them, the five categories, then `综合` as their mean. */
  method DeriveRows(rows: seq<RawRow>, present: set<string>) returns (wide: seq<WideRow>)
    ensures |wide| == |rows|
    ensures forall k :: 0 <= k < |rows| ==> wide[k] == Derive(k, rows[k], present)
  {
    var hasYear := "year" in present;
    var hasIndustry := "industry" in present;
    wide := [];
    for i := 0 to |rows|
      invariant |wide| == i
      invariant forall k :: 0 <= k < i ==> wide[k] == Derive(k, rows[k], present)
    {
      var r := rows[i];
      var year := if hasYear then r.year else DEFAULT_YEAR;
      var industry := if hasIndustry then r.industry else DEFAULT_INDUSTRY;
      var w := WideRow(i, r.company, year, industry,
                       r.rd0, r.rd1, r.rd2 + r.rd5, r.rd3, r.rd4 + r.rd6, 0.0);
      w := w.(composite := (w.market + w.credit + w.operational + w.legal + w.technical) / 5.0);
      DeriveSpec(i, r, present);
      wide := wide + [w];
    }
  }

  /** Loads the table, as the module-level code of the dashboard does before
      serving: strip the headers, fail with the missing required columns,
      backfill `year` and `industry`, derive the categories and the composite,
      and collect the years in ascending order. */
  method Load(headers: seq<string>, rows: seq<RawRow>) returns (res: Result<Table, set<string>>)
    ensures res.Failure? <==> !(REQUIRED <= Columns(headers))
    ensures res.Failure? ==> res.error == Missing(headers) && res.error != {}
    ensures res.Success? ==>
              && |res.value.wide| == |rows|
              && forall i :: 0 <= i < |rows| ==> res.value.wide[i] == Derive(i, rows[i], Columns(headers))
    ensures res.Success? ==>
              && StrictlyAscending(res.value.years)
              && forall y :: y in res.value.years <==> y in YearSet(res.value.wide)
  {
    var columns := StripHeaders(headers);
    assert columns == StripAll(headers);
    var present := set c | c in columns;
    var missing := REQUIRED - present;
    assert missing == Missing(headers);
    if missing != {} {
      return Failure(missing);
    }
    var wide := DeriveRows(rows, present);
    var unique := UniqueYears(wide);
    var years := SortYears(unique);
    res := Success(Table(wide, years));
  }
}
