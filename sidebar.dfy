/** The sidebar's query state: the sorted list of available codes, the default stock and year
    with their fallback, and the stock search that picks the selected stock. */
module Sidebar {
  import opened Wrappers
  import opened Text
  import opened Collections
  import opened Sorting
  import opened Table

  /** The preferred default stock code and year, used when the table contains them. */
  const PreferredStock: string := "600000"
  const PreferredYear: int := 1999

  lemma LexLessIsStrictTotalOrder()
    ensures StrictTotalOrder(LexLess)
  {
    forall a, b ensures LexLess(a, b) ==> !LexLess(b, a) {
      LexAsymmetric(a, b);
    }
    forall a, b, c ensures LexLess(a, b) && LexLess(b, c) ==> LexLess(a, c) {
      LexTransitive(a, b, c);
    }
    forall a, b ensures a != b ==> LexLess(a, b) || LexLess(b, a) {
      LexTotal(a, b);
    }
  }

  /** `sorted(df['股票代码'].unique())`: each code of the table once, in string order. */
  function AvailableStocks(df: seq<Row>): (stocks: seq<string>)
    ensures StrictlyIncreasing(stocks, LexLess)
    ensures forall c :: c in stocks <==> CompanyRows(df, c) != []
  {
    LexLessIsStrictTotalOrder();
    var r := SortedUnique(Codes(df), LexLess);
    assert forall c :: c in Codes(df) <==> CompanyRows(df, c) != [] by {
      forall c ensures c in Codes(df) <==> CompanyRows(df, c) != [] {
        if c in Codes(df) {
          var i :| 0 <= i < |df| && Codes(df)[i] == c;
          assert Holds(CodeIs(c), df[i]) && df[i] in df;
        }
        if CompanyRows(df, c) != [] {
          var x := CompanyRows(df, c)[0];
          assert x in df && Holds(CodeIs(c), x);
          var i :| 0 <= i < |df| && df[i] == x;
          assert Codes(df)[i] == c;
        }
      }
    }
    r
  }

  /** The preferred default when it is available, otherwise the first available value;
      `None` where `available[0]` raises on an empty list. */
  function ChooseDefault<T(==)>(preferred: T, available: seq<T>): (r: Option<T>)
    ensures r.Some? <==> |available| > 0
    ensures r.Some? ==> r.value in available
    ensures preferred in available ==> r == Some(preferred)
    ensures preferred !in available && |available| > 0 ==> r == Some(available[0])
  {
    if preferred in available then Some(preferred)
    else if |available| > 0 then Some(available[0])
    else None
  }

  /** What the sidebar is set up with after loading. */
  datatype Session = Session(
    stocks: seq<string>,
    years: seq<int>,
    names: map<string, string>,
    defaultStock: string,
    defaultYear: int)

  /** Sidebar setup: available codes and years, the name map and the defaults. An empty table
      fails where the script takes the first of no stocks. */
  function Startup(df: seq<Row>): (r: Result<Session, Error>)
    ensures r.Failure? <==> df == []
    ensures r.Failure? ==> r.error == NoStocks
    ensures r.Success? ==>
      && r.value.stocks == AvailableStocks(df)
      && r.value.years == AvailableYears(df)
      && r.value.names == NameMap(df)
      && r.value.defaultStock in r.value.stocks
      && r.value.defaultYear in r.value.years
      && (PreferredStock in r.value.stocks ==> r.value.defaultStock == PreferredStock)
      && (PreferredYear in r.value.years ==> r.value.defaultYear == PreferredYear)
      && (PreferredStock !in r.value.stocks ==> r.value.defaultStock == r.value.stocks[0])
      && (PreferredYear !in r.value.years ==> r.value.defaultYear == r.value.years[0])
  {
    var stocks := AvailableStocks(df);
    var years := AvailableYears(df);
    assert df != [] ==> df[0] in CompanyRows(df, df[0].code) && df[0] in YearRows(df, df[0].year);
    match ChooseDefault(PreferredStock, stocks)
    case None => Failure(NoStocks)
    case Some(stock) =>
      match ChooseDefault(PreferredYear, years)
      case None => Failure(NoStocks)
      case Some(year) => Success(Session(stocks, years, NameMap(df), stock, year))
  }

  /** The year box's initial position `available_years.index(default_year)` always exists. */
  lemma DefaultYearHasIndex(df: seq<Row>)
    requires df != []
    ensures Startup(df).Success?
    ensures var s := Startup(df).value;
      IndexOf(s.years, s.defaultYear).Some? && s.years[IndexOf(s.years, s.defaultYear).value] == s.defaultYear
  {
  }

  /** Whether a code passes the search: by company name when a name is typed, else by code
      when a code is typed, else every code passes. */
  predicate Matches(names: map<string, string>, code: string, nameSearch: string, stockSearch: string)
  {
    if |nameSearch| > 0 then Contains(Lookup(names, code, ""), nameSearch)
    else if |stockSearch| > 0 then Contains(code, stockSearch)
    else true
  }

  /** The comprehension over the available codes, before de-duplication. */
  function Candidates(stocks: seq<string>, names: map<string, string>, nameSearch: string, stockSearch: string): seq<string>
  {
    if |nameSearch| > 0 then Keep(stocks, c => Contains(Lookup(names, c, ""), nameSearch))
    else if |stockSearch| > 0 then Keep(stocks, c => Contains(c, stockSearch))
    else stocks
  }

  /** `sorted(list(set(filtered_stocks)))`: exactly the available codes that match, sorted and
      distinct. */
  function SearchStocks(stocks: seq<string>, names: map<string, string>, nameSearch: string, stockSearch: string): (r: seq<string>)
    ensures StrictlyIncreasing(r, LexLess)
    ensures forall c :: c in r <==> c in stocks && Matches(names, c, nameSearch, stockSearch)
  {
    LexLessIsStrictTotalOrder();
    SortedUnique(Candidates(stocks, names, nameSearch, stockSearch), LexLess)
  }

  /** On the sorted, distinct list of available codes the de-duplication and sort change nothing:
      the search result is the comprehension itself. */
  lemma SearchKeepsAvailableOrder(stocks: seq<string>, names: map<string, string>, nameSearch: string, stockSearch: string)
    requires StrictlyIncreasing(stocks, LexLess)
    ensures SearchStocks(stocks, names, nameSearch, stockSearch) == Candidates(stocks, names, nameSearch, stockSearch)
  {
    LexLessIsStrictTotalOrder();
    var cs := Candidates(stocks, names, nameSearch, stockSearch);
    if |nameSearch| > 0 {
      KeepIncreasing(stocks, c => Contains(Lookup(names, c, ""), nameSearch), LexLess);
    } else if |stockSearch| > 0 {
      KeepIncreasing(stocks, c => Contains(c, stockSearch), LexLess);
    }
    SortedUniqueOfIncreasing(cs, LexLess);
  }

  /** The selected stock: the smallest matching code when some code matches, otherwise the default. */
  function SelectedStock(stocks: seq<string>, names: map<string, string>, nameSearch: string, stockSearch: string, fallback: string): (r: string)
    ensures (exists c :: c in stocks && Matches(names, c, nameSearch, stockSearch)) ==>
      && r in stocks
      && Matches(names, r, nameSearch, stockSearch)
      && forall c :: c in stocks && Matches(names, c, nameSearch, stockSearch) && c != r ==> LexLess(r, c)
    ensures (forall c :: c in stocks ==> !Matches(names, c, nameSearch, stockSearch)) ==> r == fallback
  {
    var filtered := SearchStocks(stocks, names, nameSearch, stockSearch);
    if |filtered| > 0 then
      assert forall c :: c in filtered && c != filtered[0] ==> LexLess(filtered[0], c) by {
        forall c | c in filtered && c != filtered[0] ensures LexLess(filtered[0], c) {
          var j :| 0 <= j < |filtered| && filtered[j] == c;
        }
      }
      filtered[0]
    else
      assert forall c :: c !in filtered;
      fallback
  }
}
