/** The risk table: raw CSV rows, the five derived risk categories, the
    composite score, and the required-column schema. */
module Risk {
  import opened Text

  /** One parsed CSV row. `year` and `industry` carry whatever the file holds;
      they are read only when the file has those columns. */
  datatype RawRow = RawRow(
    company: string, year: string, industry: string,
    rd0: real, rd1: real, rd2: real, rd3: real, rd4: real, rd5: real, rd6: real)

  /** The five risk categories, in the order of the list `CATS`. */
  datatype Cat = Market | Credit | Operational | LegalCompliance | Technical

  const CATS: seq<Cat> := [Market, Credit, Operational, LegalCompliance, Technical]

  /** The column name each category gets in the table. */
  function CatName(c: Cat): string {
    match c
    case Market => "市场风险"
    case Credit => "信用风险"
    case Operational => "操作风险"
    case LegalCompliance => "法律合规风险"
    case Technical => "技术风险"
  }

  /** `CATS` as the program lists it: the category column names, in order. */
  const CAT_NAMES: seq<string> := seq(|CATS|, i requires 0 <= i < |CATS| => CatName(CATS[i]))

  /** A value of the comparison-metric dropdown: the composite "综合" or one category. */
  datatype Metric = Overall | Category(cat: Cat)

  /** One row of the wide table. `index` is the row's label in the frame
      (its position in the CSV). */
  datatype WideRow = WideRow(
    index: nat, company: string, year: string, industry: string,
    market: real, credit: real, operational: real, legal: real, technical: real,
    composite: real)

  function CatValue(w: WideRow, c: Cat): real {
    match c
    case Market => w.market
    case Credit => w.credit
    case Operational => w.operational
    case LegalCompliance => w.legal
    case Technical => w.technical
  }

  /** `row[CATS]`: the five category values in `CATS` order. */
  function CatValues(w: WideRow): seq<real> {
    seq(|CATS|, i requires 0 <= i < |CATS| => CatValue(w, CATS[i]))
  }

  /** The column a metric selects. */
  function Value(w: WideRow, m: Metric): real {
    match m
    case Overall => w.composite
    case Category(c) => CatValue(w, c)
  }

  function Sum(xs: seq<real>): real {
    if xs == [] then 0.0 else xs[0] + Sum(xs[1..])
  }

  /** Row-wise `mean` over a non-empty list of columns. */
  function Mean(xs: seq<real>): real
    requires xs != []
  {
    Sum(xs) / (|xs| as real)
  }

  const DEFAULT_YEAR: string := "全部"
  const DEFAULT_INDUSTRY: string := "未指定"

  const REQUIRED: set<string> := {"company", "RD_0", "RD_1", "RD_2", "RD_3", "RD_4", "RD_5", "RD_6"}

  /** The header row after every name is stripped. */
  function StripAll(headers: seq<string>): seq<string> {
    seq(|headers|, i requires 0 <= i < |headers| => Strip(headers[i]))
  }

  /** The set of column names present once the headers are stripped. */
  function Columns(headers: seq<string>): set<string> {
    set c | c in StripAll(headers)
  }

  /** A name is a column exactly when some header strips to it. */
  lemma ColumnsOfHeaders(headers: seq<string>, c: string)
    ensures c in Columns(headers) <==> exists h :: h in headers && Strip(h) == c
  {
    var cols := StripAll(headers);
    if c in Columns(headers) {
      var i :| 0 <= i < |cols| && cols[i] == c;
      assert headers[i] in headers;
    }
    if exists h :: h in headers && Strip(h) == c {
      var h :| h in headers && Strip(h) == c;
      var i :| 0 <= i < |headers| && headers[i] == h;
      assert cols[i] == c;
    }
  }

  /** The required columns the file does not have. */
  function Missing(headers: seq<string>): (m: set<string>)
    ensures m <= REQUIRED
    ensures m == {} <==> REQUIRED <= Columns(headers)
    ensures forall c :: c in m <==> c in REQUIRED && forall h :: h in headers ==> Strip(h) != c
  {
    var present := Columns(headers);
    forall c {
      ColumnsOfHeaders(headers, c);
    }
    assert REQUIRED - present == {} ==> REQUIRED <= present by {
      if REQUIRED - present == {} {
        forall c | c in REQUIRED ensures c in present {
          assert c !in REQUIRED - present;
        }
      }
    }
    REQUIRED - present
  }

  /** Row `k` of the wide table: `year` and `industry` backfilled with their
      defaults when the file lacks the column, the five categories derived
      from RD_0..RD_6, and the composite as their mean. */
  function Derive(k: nat, r: RawRow, cols: set<string>): (w: WideRow)
    ensures w.market + w.credit + w.operational + w.legal + w.technical
            == r.rd0 + r.rd1 + r.rd2 + r.rd3 + r.rd4 + r.rd5 + r.rd6
    ensures w.composite == (r.rd0 + r.rd1 + r.rd2 + r.rd3 + r.rd4 + r.rd5 + r.rd6) / 5.0
  {
    var year := if "year" in cols then r.year else DEFAULT_YEAR;
    var industry := if "industry" in cols then r.industry else DEFAULT_INDUSTRY;
    var w := WideRow(k, r.company, year, industry,
                     r.rd0, r.rd1, r.rd2 + r.rd5, r.rd3, r.rd4 + r.rd6, 0.0);
    assert CatValues(w) == [w.market, w.credit, w.operational, w.legal, w.technical];
    SumOfFive(w.market, w.credit, w.operational, w.legal, w.technical);
    w.(composite := Mean(CatValues(w)))
  }

  /** The category formulas, the composite as the mean of the categories,
      and the backfill rule: a column the file has keeps its values. */
  lemma DeriveSpec(k: nat, r: RawRow, cols: set<string>)
    ensures var w := Derive(k, r, cols);
      && w.index == k && w.company == r.company
      && w.year == (if "year" in cols then r.year else DEFAULT_YEAR)
      && w.industry == (if "industry" in cols then r.industry else DEFAULT_INDUSTRY)
      && w.market == r.rd0 && w.credit == r.rd1 && w.operational == r.rd2 + r.rd5
      && w.legal == r.rd3 && w.technical == r.rd4 + r.rd6
      && w.composite == Mean(CatValues(w))
      && w.composite == (w.market + w.credit + w.operational + w.legal + w.technical) / 5.0
  {
    var w := Derive(k, r, cols);
    var w0 := w.(composite := 0.0);
    var v := [w.market, w.credit, w.operational, w.legal, w.technical];
    assert CatValues(w) == v == CatValues(w0);
    SumOfFive(w.market, w.credit, w.operational, w.legal, w.technical);
  }

  lemma SumOfFive(a: real, b: real, c: real, d: real, e: real)
    ensures Sum([a, b, c, d, e]) == a + b + c + d + e
  {
    assert [a, b, c, d, e][1..] == [b, c, d, e];
    assert [b, c, d, e][1..] == [c, d, e];
    assert [c, d, e][1..] == [d, e];
    assert [d, e][1..] == [e];
    assert [e][1..] == [];
    assert Sum([e]) == e;
    assert Sum([d, e]) == d + e;
    assert Sum([c, d, e]) == c + d + e;
    assert Sum([b, c, d, e]) == b + c + d + e;
  }

  /** RD = [1, 2, 3, 4, 5, 6, 7] gives categories (1, 2, 9, 4, 12) and composite 5.6. */
  lemma DeriveExample()
    ensures var w := Derive(0, RawRow("A", "2021", "x", 1.0, 2.0, 3.0, 4.0, 5.0, 6.0, 7.0), {"company", "year"});
      && CatValues(w) == [1.0, 2.0, 9.0, 4.0, 12.0]
      && w.composite == 5.6
      && w.year == "2021" && w.industry == DEFAULT_INDUSTRY
  {
    var r := RawRow("A", "2021", "x", 1.0, 2.0, 3.0, 4.0, 5.0, 6.0, 7.0);
    DeriveSpec(0, r, {"company", "year"});
  }
}
