/** The in-memory table the dashboard queries: one row per (stock code, year) observation,
    the preprocessing applied right after loading, the row selections (boolean masks) that
    the queries are built from, and the sorted list of the years the table covers. */
module Table {
  import opened Wrappers
  import opened Sorting

  /** The name given to rows whose company name is missing. */
  const UnknownCompany: string := "未知企业"

  /** A row as read from the spreadsheet: the company name may be missing. */
  datatype RawRow = RawRow(code: string, name: Option<string>, year: int, index: real)

  /** A row after preprocessing: stock code, company name, year, digital-transformation index. */
  datatype Row = Row(code: string, name: string, year: int, index: real)

  /** The two ways the script fails on data it accepts: no stock at all to default to, and a
      top-10 table whose year has fewer rows than the ten rank labels written into it. */
  datatype Error = NoStocks | RankColumnMismatch(rows: nat)

  function FillName(r: RawRow): Row
  {
    Row(r.code, if r.name.Some? then r.name.value else UnknownCompany, r.year, r.index)
  }

  /** The name column rewrite after loading: a missing name becomes the sentinel, nothing else changes. */
  function Preprocess(raw: seq<RawRow>): (df: seq<Row>)
    ensures |df| == |raw|
    ensures forall i :: 0 <= i < |raw| ==>
      df[i].code == raw[i].code && df[i].year == raw[i].year && df[i].index == raw[i].index
    ensures forall i :: 0 <= i < |raw| ==>
      df[i].name == (if raw[i].name.Some? then raw[i].name.value else UnknownCompany)
  {
    seq(|raw|, i requires 0 <= i < |raw| => FillName(raw[i]))
  }

  /** The stock code column. */
  function Codes(df: seq<Row>): seq<string>
  {
    seq(|df|, i requires 0 <= i < |df| => df[i].code)
  }

  /** The year column. */
  function Years(df: seq<Row>): seq<int>
  {
    seq(|df|, i requires 0 <= i < |df| => df[i].year)
  }

  /** The boolean masks the script indexes the table with. */
  datatype Mask =
    | CodeIs(code: string)
    | YearIs(year: int)
    | CodeAndYear(code: string, year: int)
    | IndexAtLeast(v: real)

  predicate Holds(m: Mask, x: Row)
  {
    match m
    case CodeIs(c) => x.code == c
    case YearIs(y) => x.year == y
    case CodeAndYear(c, y) => x.code == c && x.year == y
    case IndexAtLeast(v) => x.index >= v
  }

  /** `df[mask]`: the rows the mask holds for, each as often as in `df`, in load order. */
  function Select(df: seq<Row>, m: Mask): (r: seq<Row>)
    ensures |r| <= |df|
    ensures forall x :: x in r <==> x in df && Holds(m, x)
  {
    if df == [] then []
    else if Holds(m, df[0]) then [df[0]] + Select(df[1..], m)
    else Select(df[1..], m)
  }

  /** Each row the mask holds for is kept as often as it occurs in the table; no other row is. */
  lemma {:induction false} SelectMultiplicity(df: seq<Row>, m: Mask, x: Row)
    ensures multiset(Select(df, m))[x] == if Holds(m, x) then multiset(df)[x] else 0
  {
    if df != [] {
      SelectMultiplicity(df[1..], m, x);
      assert df == [df[0]] + df[1..];
      assert multiset(df) == multiset{df[0]} + multiset(df[1..]);
      var rest := Select(df[1..], m);
      if Holds(m, df[0]) {
        assert multiset([df[0]] + rest) == multiset{df[0]} + multiset(rest);
      }
    }
  }

  /** Selection keeps load order: selecting from two consecutive parts of the table gives the
      selection from the first part followed by that from the second. */
  lemma {:induction false} SelectAppend(a: seq<Row>, b: seq<Row>, m: Mask)
    ensures Select(a + b, m) == Select(a, m) + Select(b, m)
  {
    if a != [] {
      var ab := a + b;
      assert ab[0] == a[0] && ab[1..] == a[1..] + b;
      SelectAppend(a[1..], b, m);
      if Holds(m, a[0]) {
        assert Select(ab, m) == [a[0]] + Select(ab[1..], m);
        assert Select(a, m) == [a[0]] + Select(a[1..], m);
      } else {
        assert Select(ab, m) == Select(ab[1..], m);
        assert Select(a, m) == Select(a[1..], m);
      }
    } else {
      assert a + b == b;
    }
  }

  /** The first selected row is the first row of the table the mask holds for. */
  lemma {:induction false} FirstSelected(df: seq<Row>, m: Mask, k: nat)
    requires k < |df| && Holds(m, df[k])
    requires forall j :: 0 <= j < k ==> !Holds(m, df[j])
    ensures Select(df, m) != [] && Select(df, m)[0] == df[k]
  {
    if k > 0 {
      FirstSelected(df[1..], m, k - 1);
    }
  }

  /** `df[df['股票代码'] == code]` */
  function CompanyRows(df: seq<Row>, code: string): seq<Row>
  {
    Select(df, CodeIs(code))
  }

  /** `df[df['年份'] == year]` */
  function YearRows(df: seq<Row>, year: int): seq<Row>
  {
    Select(df, YearIs(year))
  }

  /** `df[(df['股票代码'] == code) & (df['年份'] == year)]`; an empty result is an ordinary outcome. */
  function Filtered(df: seq<Row>, code: string, year: int): seq<Row>
  {
    Select(df, CodeAndYear(code, year))
  }

  /** Duplicate (code, year) rows resolve to the first one loaded: the row the page reads is the
      earliest row of the table with that code and year. */
  lemma FirstFiltered(df: seq<Row>, code: string, year: int, k: nat)
    requires k < |df| && df[k].code == code && df[k].year == year
    requires forall j :: 0 <= j < k ==> !(df[j].code == code && df[j].year == year)
    ensures Filtered(df, code, year) != [] && Filtered(df, code, year)[0] == df[k]
  {
    FirstSelected(df, CodeAndYear(code, year), k);
  }

  /** The number of rows of `s` whose index is at least `v`: `s[s['数字化转型指数'] >= v].shape[0]`. */
  function CountAtLeast(s: seq<Row>, v: real): (n: nat)
    ensures n == |Select(s, IndexAtLeast(v))|
  {
    if s == [] then 0
    else (if s[0].index >= v then 1 else 0) + CountAtLeast(s[1..], v)
  }

  /** The year of a row as a sort key. */
  function YearKey(r: Row): real
  {
    r.year as real
  }

  /** The negated index, so that an ascending stable sort on it lists the highest index first. */
  function NegIndexKey(r: Row): real
  {
    -r.index
  }

  /** Masks compose: the code-and-year mask keeps the rows of the year among the company's rows,
      in load order. */
  lemma {:induction false} FilteredIsYearOfCompany(df: seq<Row>, code: string, year: int)
    ensures Filtered(df, code, year) == YearRows(CompanyRows(df, code), year)
  {
    if df != [] {
      FilteredIsYearOfCompany(df[1..], code, year);
    }
  }

  /** Selecting a year is selecting the rows whose year key has that value. */
  lemma {:induction false} YearRowsByKey(s: seq<Row>, year: int)
    ensures WithKey(s, YearKey, year as real) == YearRows(s, year)
  {
    if s != [] {
      YearRowsByKey(s[1..], year);
    }
  }

  /** Python's `<` on `int`. */
  function IntLess(a: int, b: int): bool
  {
    a < b
  }

  lemma IntLessIsStrictTotalOrder()
    ensures StrictTotalOrder(IntLess)
  {
  }

  /** `sorted(df['年份'].unique())`: each year of the table once, ascending. */
  function AvailableYears(df: seq<Row>): (years: seq<int>)
    ensures StrictlyIncreasing(years, IntLess)
    ensures forall y :: y in years <==> YearRows(df, y) != []
  {
    IntLessIsStrictTotalOrder();
    var r := SortedUnique(Years(df), IntLess);
    assert forall y :: y in Years(df) <==> YearRows(df, y) != [] by {
      forall y ensures y in Years(df) <==> YearRows(df, y) != [] {
        if y in Years(df) {
          var i :| 0 <= i < |df| && Years(df)[i] == y;
          assert Holds(YearIs(y), df[i]) && df[i] in df;
        }
        if YearRows(df, y) != [] {
          var x := YearRows(df, y)[0];
          assert x in df && Holds(YearIs(y), x);
          var i :| 0 <= i < |df| && df[i] == x;
          assert Years(df)[i] == y;
        }
      }
    }
    r
  }

  /** The code-to-name map: every code in the table maps to the name of its first row in load
      order (`groupby('股票代码')['企业名称'].first()`), and no other code is a key. */
  function NameMap(df: seq<Row>): (m: map<string, string>)
    ensures forall c :: c in m <==> CompanyRows(df, c) != []
    ensures forall c :: c in m ==> CompanyRows(df, c) != [] && m[c] == CompanyRows(df, c)[0].name
  {
    if df == [] then map[]
    else NameMap(df[1..])[df[0].code := df[0].name]
  }

  /** `m.get(code, fallback)`: never raises; a code without an entry yields the fallback. */
  function Lookup(m: map<string, string>, code: string, fallback: string): (r: string)
    ensures code in m ==> r == m[code]
    ensures code !in m ==> r == fallback
  {
    if code in m then m[code] else fallback
  }

  /** The name shown beside the selected code: the first row's name, or the sentinel for a code
      the table does not contain. */
  function DisplayName(df: seq<Row>, code: string): (name: string)
    ensures CompanyRows(df, code) != [] ==> name == CompanyRows(df, code)[0].name
    ensures CompanyRows(df, code) == [] ==> name == UnknownCompany
  {
    Lookup(NameMap(df), code, UnknownCompany)
  }

  /** After preprocessing, the name of a code is its first loaded row's name, or the sentinel
      when that row had no name. */
  lemma NameOfFirstLoadedRow(raw: seq<RawRow>, code: string, k: nat)
    requires k < |raw| && raw[k].code == code
    requires forall j :: 0 <= j < k ==> raw[j].code != code
    ensures DisplayName(Preprocess(raw), code)
         == (if raw[k].name.Some? then raw[k].name.value else UnknownCompany)
  {
    var df := Preprocess(raw);
    FirstSelected(df, CodeIs(code), k);
  }
}
