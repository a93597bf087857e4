/** The data each dashboard callback computes from the table before handing
    it to the charting library: the year-dependent dropdown options, the radar
    polygon, the comparison bars and the heatmap matrix. */
module Views {
  import opened Wrappers
  import opened Seqs
  import opened Risk
  import opened Ranking

  /** A dropdown entry `{"label": v, "value": v}`, the label held as `caption`. */
  datatype Choice = Choice(caption: string, value: string)

  function Choices(vs: seq<string>): seq<Choice> {
    seq(|vs|, i requires 0 <= i < |vs| => Choice(vs[i], vs[i]))
  }

  /** The `industry` column of some rows. */
  function Industries(rows: seq<WideRow>): seq<string> {
    seq(|rows|, i requires 0 <= i < |rows| => rows[i].industry)
  }

  /** The six outputs of the year cascade: company options and value,
      industry options and value, comparison options and value. */
  datatype YearOptions = YearOptions(
    companyOptions: seq<Choice>, company: Option<string>,
    industryOptions: seq<Choice>, industry: Option<string>,
    compareOptions: seq<Choice>, compare: seq<string>)

  /** How many companies the comparison list starts with. */
  const COMPARE_DEFAULT_SIZE: nat := 8

  /** `_options_by_year(year)`. */
  function OptionsByYear(wide: seq<WideRow>, year: string): (o: YearOptions)
    ensures o.company == None <==> forall w :: w in wide ==> w.year != year
    ensures o.industry == None
    ensures o.compareOptions == o.companyOptions
  {
    var dfy := RowsOfYear(wide, year);
    assert dfy != [] ==> dfy[0] in dfy;
    var opts := Choices(Unique(Companies(dfy)));
    if dfy == [] then YearOptions([], None, [], None, [], [])
    else
      var defaultCompany := SortBy(dfy, BY_COMPOSITE_DESC)[0].company;
      var defaultCompare := TopCompanies(wide, year, Min(COMPARE_DEFAULT_SIZE, |dfy|));
      var industryOpts := Choices(Unique(Industries(dfy)));
      YearOptions(opts, Some(defaultCompany), industryOpts, None, opts, defaultCompare)
  }

  /** A year with no rows empties every list and clears both selections;
      a year with rows always gets a default company. */
  lemma OptionsForEmptyYear(wide: seq<WideRow>, year: string)
    ensures (OptionsByYear(wide, year) == YearOptions([], None, [], None, [], []))
            <==> (forall w :: w in wide ==> w.year != year)
  {
    if RowsOfYear(wide, year) != [] {
      assert RowsOfYear(wide, year)[0] in RowsOfYear(wide, year);
    }
  }

  /** Dropdown options built from `unique()` of a column: each value once,
      labelled with itself, and exactly the values of the column. */
  lemma ChoicesOfUnique(xs: seq<string>)
    ensures var cs := Choices(Unique(xs));
      && NoDup(cs)
      && (forall ch :: ch in cs ==> ch.caption == ch.value)
      && (forall c :: Choice(c, c) in cs <==> c in xs)
  {
    var u := Unique(xs);
    var cs := Choices(u);
    forall c ensures Choice(c, c) in cs <==> c in u {
      if Choice(c, c) in cs {
        var i :| 0 <= i < |cs| && cs[i] == Choice(c, c);
      }
      if c in u {
        var i :| 0 <= i < |u| && u[i] == c;
        assert cs[i] == Choice(c, c);
      }
    }
  }

  /** A value occurs in the `company` column of a year's rows exactly when a
      row of the table with that year has that company. */
  lemma CompaniesOfYear(wide: seq<WideRow>, year: string, c: string)
    ensures c in Companies(RowsOfYear(wide, year)) <==> exists w :: w in wide && w.year == year && w.company == c
  {
    var dfy := RowsOfYear(wide, year);
    if c in Companies(dfy) {
      var k :| 0 <= k < |dfy| && Companies(dfy)[k] == c;
      assert dfy[k] in dfy;
    }
    if exists w :: w in wide && w.year == year && w.company == c {
      var w :| w in wide && w.year == year && w.company == c;
      var k :| 0 <= k < |dfy| && dfy[k] == w;
      assert Companies(dfy)[k] == c;
    }
  }

  /** The same for the `industry` column. */
  lemma IndustriesOfYear(wide: seq<WideRow>, year: string, n: string)
    ensures n in Industries(RowsOfYear(wide, year)) <==> exists w :: w in wide && w.year == year && w.industry == n
  {
    var dfy := RowsOfYear(wide, year);
    if n in Industries(dfy) {
      var k :| 0 <= k < |dfy| && Industries(dfy)[k] == n;
      assert dfy[k] in dfy;
    }
    if exists w :: w in wide && w.year == year && w.industry == n {
      var w :| w in wide && w.year == year && w.industry == n;
      var k :| 0 <= k < |dfy| && dfy[k] == w;
      assert Industries(dfy)[k] == n;
    }
  }

  /** For a year with rows, each option list names every company (industry)
      of that year exactly once, with label equal to value; the comparison
      candidates are the company options; the industry filter is reset. */
  lemma OptionsLists(wide: seq<WideRow>, year: string)
    requires exists w :: w in wide && w.year == year
    ensures var o := OptionsByYear(wide, year);
      && o.industry == None
      && o.compareOptions == o.companyOptions
      && NoDup(o.companyOptions) && NoDup(o.industryOptions)
      && (forall ch :: ch in o.companyOptions ==> ch.caption == ch.value)
      && (forall ch :: ch in o.industryOptions ==> ch.caption == ch.value)
      && (forall c :: Choice(c, c) in o.companyOptions <==> exists w :: w in wide && w.year == year && w.company == c)
      && (forall n :: Choice(n, n) in o.industryOptions <==> exists w :: w in wide && w.year == year && w.industry == n)
  {
    var dfy := RowsOfYear(wide, year);
    var w0 :| w0 in wide && w0.year == year;
    assert w0 in dfy;
    ChoicesOfUnique(Companies(dfy));
    ChoicesOfUnique(Industries(dfy));
    forall c {
      CompaniesOfYear(wide, year, c);
    }
    forall n {
      IndustriesOfYear(wide, year, n);
    }
  }

  /** For a year with rows, the default company belongs to a row of that year
      with the greatest composite. */
  lemma OptionsDefaultCompany(wide: seq<WideRow>, year: string)
    requires exists w :: w in wide && w.year == year
    ensures var o := OptionsByYear(wide, year);
      && o.company.Some?
      && exists w :: w in wide && w.year == year && w.company == o.company.value
                     && forall v :: v in wide && v.year == year ==> v.composite <= w.composite
  {
    var dfy := RowsOfYear(wide, year);
    var w0 :| w0 in wide && w0.year == year;
    assert w0 in dfy;
    SortedHeadIsMax(dfy);
    var best := SortBy(dfy, BY_COMPOSITE_DESC)[0];
    assert OptionsByYear(wide, year).company == Some(best.company);
    assert best in wide && best.year == year;
  }

  /** For a year with rows, the default comparison list is
      `top_companies(year, min(8, rows of that year))`: that many companies,
      each one of the company options. */
  lemma OptionsDefaultCompare(wide: seq<WideRow>, year: string)
    requires exists w :: w in wide && w.year == year
    ensures var o := OptionsByYear(wide, year);
      && o.compare == TopCompanies(wide, year, Min(COMPARE_DEFAULT_SIZE, |RowsOfYear(wide, year)|))
      && |o.compare| == Min(COMPARE_DEFAULT_SIZE, |RowsOfYear(wide, year)|)
      && (forall i :: 0 <= i < |o.compare| ==> Choice(o.compare[i], o.compare[i]) in o.companyOptions)
  {
    var dfy := RowsOfYear(wide, year);
    var w0 :| w0 in wide && w0.year == year;
    assert w0 in dfy;
    var n := Min(COMPARE_DEFAULT_SIZE, |dfy|);
    TopCompaniesSpec(wide, year, n);
    OptionsLists(wide, year);
    var o := OptionsByYear(wide, year);
    var top := TopRows(wide, year, n);
    forall i | 0 <= i < |o.compare| ensures Choice(o.compare[i], o.compare[i]) in o.companyOptions {
      assert top[i] in wide && top[i].year == year && top[i].company == o.compare[i];
    }
  }

  /** The closed radar polygon: the five category names and values with the
      first repeated at the end. */
  datatype Polygon = Polygon(theta: seq<string>, r: seq<real>)

  /** The row filter of the radar: that year and that company. A missing
      company (`None`) selects nothing. */
  function RadarSelector(year: string, company: Option<string>): WideRow -> bool {
    (w: WideRow) => w.year == year && company == Some(w.company)
  }

  /** The data of `_radar(year, company)`. */
  function Radar(wide: seq<WideRow>, year: string, company: Option<string>): (p: Polygon)
    ensures |p.theta| == |p.r| == |CATS| + 1
    ensures p.theta[|CATS|] == p.theta[0] && p.r[|CATS|] == p.r[0]
  {
    var dfy := Filter(wide, RadarSelector(year, company));
    var r := if dfy == [] then seq(|CATS|, _ => 0.0) else CatValues(dfy[0]);
    Polygon(CAT_NAMES + [CAT_NAMES[0]], r + [r[0]])
  }

  /** The polygon has one more vertex than there are categories and is
      closed; with no matching row every value is zero. */
  lemma RadarShape(wide: seq<WideRow>, year: string, company: Option<string>)
    ensures var p := Radar(wide, year, company);
      && |p.theta| == |p.r| == |CATS| + 1
      && p.theta[..|CATS|] == CAT_NAMES && p.theta[|CATS|] == p.theta[0]
      && p.r[|CATS|] == p.r[0]
      && ((forall k :: 0 <= k < |wide| ==> !(wide[k].year == year && company == Some(wide[k].company)))
          ==> forall i :: 0 <= i < |p.r| ==> p.r[i] == 0.0)
  {
    FilterEmpty(wide, RadarSelector(year, company));
  }

  /** With a matching row, the polygon holds the categories of the first
      matching row in table order. */
  lemma RadarFirstMatch(wide: seq<WideRow>, year: string, company: Option<string>, k: nat)
    requires k < |wide| && wide[k].year == year && company == Some(wide[k].company)
    requires forall j :: 0 <= j < k ==> !(wide[j].year == year && company == Some(wide[j].company))
    ensures Radar(wide, year, company).r == CatValues(wide[k]) + [wide[k].market]
  {
    FilterFirst(wide, RadarSelector(year, company), k);
  }

  /** The colour class of a bar. */
  const POSITIVE: string := "正"
  const NEGATIVE: string := "负"

  /** One horizontal bar: company, metric value and sign class. */
  datatype Bar = Bar(company: string, value: real, sign: string)

  function InSelection(companies: seq<string>): WideRow -> bool {
    (w: WideRow) => w.company in companies
  }

  /** The rows `_bars` plots: that year's rows of the selected companies,
      by ascending metric. */
  function BarRows(wide: seq<WideRow>, year: string, companies: seq<string>, metric: Metric): seq<WideRow> {
    SortBy(Filter(RowsOfYear(wide, year), InSelection(companies)), Order(metric, true))
  }

  /** The data of `_bars(year, companies, metric)`; `None` is the empty figure. */
  function Bars(wide: seq<WideRow>, year: string, companies: seq<string>, metric: Metric): (b: Option<seq<Bar>>)
    ensures b == None <==> BarRows(wide, year, companies, metric) == []
    ensures b.Some? ==> forall i, j :: 0 <= i < j < |b.value| ==> b.value[i].value <= b.value[j].value
    ensures b.Some? ==> forall i :: 0 <= i < |b.value| ==> (b.value[i].sign == POSITIVE <==> b.value[i].value >= 0.0)
  {
    var rows := BarRows(wide, year, companies, metric);
    assert forall i, j :: 0 <= i < j < |rows| ==> Value(rows[i], metric) <= Value(rows[j], metric) by {
      forall i, j | 0 <= i < j < |rows| ensures Value(rows[i], metric) <= Value(rows[j], metric) {
        assert Key(rows[i], Order(metric, true)) <= Key(rows[j], Order(metric, true));
      }
    }
    if rows == [] then None
    else
      Some(seq(|rows|, i requires 0 <= i < |rows| =>
        var v := Value(rows[i], metric);
        Bar(rows[i].company, v, if v >= 0.0 then POSITIVE else NEGATIVE)))
  }

  /** The bars' rows are exactly the table's rows of that year whose company
      is selected (as a multiset); with no such row, in particular with an
      empty selection, the figure is empty. */
  lemma BarsSelection(wide: seq<WideRow>, year: string, companies: seq<string>, metric: Metric)
    ensures var rows := BarRows(wide, year, companies, metric);
      && (Bars(wide, year, companies, metric) == None <==> forall w :: w in wide ==> !(w.year == year && w.company in companies))
      && (companies == [] ==> Bars(wide, year, companies, metric) == None)
      && (forall w :: multiset(rows)[w] == if w.year == year && w.company in companies then multiset(wide)[w] else 0)
      && (forall w :: w in rows <==> w in wide && w.year == year && w.company in companies)
  {
    var rows := BarRows(wide, year, companies, metric);
    var kept := Filter(RowsOfYear(wide, year), InSelection(companies));
    SortByMembers(kept, Order(metric, true));
    forall w: WideRow ensures multiset(rows)[w] == if w.year == year && w.company in companies then multiset(wide)[w] else 0 {
      FilterCount(RowsOfYear(wide, year), InSelection(companies), w);
      RowsOfYearCount(wide, year, w);
    }
    if rows != [] {
      assert rows[0] in rows;
    }
  }

  /** Bar i shows row i's company and metric value; the values ascend, and a
      bar is in the positive class exactly when its value is at least zero. */
  lemma BarsOrder(wide: seq<WideRow>, year: string, companies: seq<string>, metric: Metric)
    requires Bars(wide, year, companies, metric).Some?
    ensures var rows, b := BarRows(wide, year, companies, metric), Bars(wide, year, companies, metric).value;
      && |b| == |rows|
      && (forall i :: 0 <= i < |rows| ==> b[i].company == rows[i].company && b[i].value == Value(rows[i], metric))
      && (forall i, j :: 0 <= i < j < |b| ==> b[i].value <= b[j].value)
      && (forall i :: 0 <= i < |b| ==> (b[i].sign == POSITIVE <==> b[i].value >= 0.0))
      && (forall i :: 0 <= i < |b| ==> b[i].sign == POSITIVE || b[i].sign == NEGATIVE)
  {
    var rows := BarRows(wide, year, companies, metric);
    forall i, j | 0 <= i < j < |rows| ensures Value(rows[i], metric) <= Value(rows[j], metric) {
      assert Key(rows[i], Order(metric, true)) <= Key(rows[j], Order(metric, true));
    }
  }

  /** `dfy[CATS].T`: one row per category, one column per row of the year,
      the columns labelled with the rows' index labels. */
  datatype HeatmapData = HeatmapData(x: seq<nat>, y: seq<string>, z: seq<seq<real>>)

  /** The data of `_heatmap(year)`; `None` is the empty figure. */
  function Heatmap(wide: seq<WideRow>, year: string): (h: Option<HeatmapData>)
    ensures h == None <==> RowsOfYear(wide, year) == []
    ensures h.Some? ==> |h.value.y| == |h.value.z| == |CATS| && |h.value.x| > 0
    ensures h.Some? ==> forall c :: 0 <= c < |h.value.z| ==> |h.value.z[c]| == |h.value.x|
  {
    var dfy := RowsOfYear(wide, year);
    if dfy == [] then None
    else
      Some(HeatmapData(
        seq(|dfy|, j requires 0 <= j < |dfy| => dfy[j].index),
        CAT_NAMES,
        seq(|CATS|, c requires 0 <= c < |CATS| =>
          seq(|dfy|, j requires 0 <= j < |dfy| => CatValue(dfy[j], CATS[c])))))
  }

  /** The matrix has the five categories as rows and one column per row of the
      year, holding that row's category values; every row of the year has a
      column; a year with no rows gives the empty figure. */
  lemma HeatmapSpec(wide: seq<WideRow>, year: string)
    ensures var h, dfy := Heatmap(wide, year), RowsOfYear(wide, year);
      && (h == None <==> forall w :: w in wide ==> w.year != year)
      && (h.Some? ==>
            && h.value.y == CAT_NAMES && |h.value.z| == |CATS| && |h.value.x| == |dfy| > 0
            && (forall c :: 0 <= c < |CATS| ==> |h.value.z[c]| == |dfy|)
            && (forall c, j :: 0 <= c < |CATS| && 0 <= j < |dfy| ==>
                  h.value.z[c][j] == CatValue(dfy[j], CATS[c]) && h.value.x[j] == dfy[j].index)
            && (forall j :: 0 <= j < |dfy| ==> dfy[j] in wide && dfy[j].year == year)
            && (forall w :: w in wide && w.year == year ==> w in dfy))
  {
    var dfy := RowsOfYear(wide, year);
    if dfy != [] {
      assert dfy[0] in dfy;
    }
  }
}
