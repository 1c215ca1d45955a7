/** The rankings: the top ten of a year, the company's rank in every year it reports, and its
    rank, row count and percentile in the selected year. A rank is the number of rows of that
    year whose index is at least the company's, so tied rows share a rank and ranks have gaps. */
module Ranking {
  import opened Wrappers
  import opened Sorting
  import opened Table
  import opened Arith

  /** The number of rank labels written into the top-ten table. */
  const TopCount: nat := 10

  /** `s.nlargest(n, '数字化转型指数')`: the rows in descending index order, where rows with
      equal index keep their load order, cut after `n` rows. */
  function NLargest(s: seq<Row>, n: nat): seq<Row>
  {
    SortedPrefix(s, NegIndexKey, n)
  }

  /** What `nlargest` promises: as many rows as asked for (or all), in non-increasing index
      order, drawn from `s`, and no row left out scores above a row kept. */
  lemma NLargestIsTop(s: seq<Row>, n: nat)
    ensures var r := NLargest(s, n);
      && |r| == (if n <= |s| then n else |s|)
      && (forall i, j :: 0 <= i < j < |r| ==> r[i].index >= r[j].index)
      && multiset(r) <= multiset(s)
      && (forall x, i :: x in multiset(s) - multiset(r) && 0 <= i < |r| ==> x.index <= r[i].index)
  {
    var sorted := SortBy(s, NegIndexKey);
    var m := if n <= |sorted| then n else |sorted|;
    var r := sorted[..m];
    assert sorted == r + sorted[m..];
    assert multiset(sorted) == multiset(r) + multiset(sorted[m..]);
    forall x, i | x in multiset(s) - multiset(r) && 0 <= i < |r| ensures x.index <= r[i].index {
      assert x in multiset(sorted[m..]);
      var j :| 0 <= j < |sorted[m..]| && sorted[m..][j] == x;
      assert NegIndexKey(sorted[i]) <= NegIndexKey(sorted[m + j]);
    }
    forall i, j | 0 <= i < j < |r| ensures r[i].index >= r[j].index {
      assert NegIndexKey(sorted[i]) <= NegIndexKey(sorted[j]);
    }
  }

  /** Ties keep load order: the kept rows with a given index are the first rows of `s` with
      that index, in the order they were loaded. */
  lemma NLargestKeepsTieOrder(s: seq<Row>, n: nat, v: real)
    ensures WithKey(NLargest(s, n), NegIndexKey, -v) <= WithKey(s, NegIndexKey, -v)
  {
    SortedPrefixStable(s, NegIndexKey, n, -v);
  }

  /** The rows `nlargest` picks from a year's rows are rows of that year. */
  lemma TopOfYear(df: seq<Row>, year: int)
    ensures forall x :: x in NLargest(YearRows(df, year), TopCount) ==> x.year == year
  {
    var yearData := YearRows(df, year);
    var top := NLargest(yearData, TopCount);
    NLargestIsTop(yearData, TopCount);
    forall x | x in top ensures x.year == year {
      assert x in multiset(top);
      assert x in multiset(yearData);
      assert Holds(YearIs(year), x);
    }
  }

  /** A row of the top-ten table with its 1-based rank label. */
  datatype TopEntry = TopEntry(rank: nat, row: Row)

  /** The top ten of a year with ranks 1 to 10; a year with fewer than ten rows fails, since the
      ten rank labels do not fit its rows. */
  function Top10(df: seq<Row>, year: int): (r: Result<seq<TopEntry>, Error>)
    ensures r.Success? <==> |YearRows(df, year)| >= TopCount
    ensures r.Failure? ==> r.error == RankColumnMismatch(|YearRows(df, year)|)
    ensures r.Success? ==> |r.value| == TopCount
    ensures r.Success? ==> forall i :: 0 <= i < TopCount ==>
      && r.value[i].rank == i + 1
      && r.value[i].row == NLargest(YearRows(df, year), TopCount)[i]
      && r.value[i].row.year == year
  {
    var yearData := YearRows(df, year);
    var top := NLargest(yearData, TopCount);
    NLargestIsTop(yearData, TopCount);
    if |top| != TopCount then
      Failure(RankColumnMismatch(|top|))
    else
      TopOfYear(df, year);
      Success(seq(TopCount, i requires 0 <= i < TopCount => TopEntry(i + 1, top[i])))
  }

  /** The top table with one rank label per row `nlargest` returns, 1 to the number of rows:
      the same table as `Top10` wherever that succeeds, and a table for every year. */
  function RankedTop(df: seq<Row>, year: int): (r: seq<TopEntry>)
    ensures |r| == if |YearRows(df, year)| < TopCount then |YearRows(df, year)| else TopCount
    ensures forall i :: 0 <= i < |r| ==>
      && r[i].rank == i + 1
      && r[i].row == NLargest(YearRows(df, year), TopCount)[i]
      && r[i].row.year == year
    ensures |YearRows(df, year)| >= TopCount ==> Top10(df, year) == Success(r)
  {
    var yearData := YearRows(df, year);
    var top := NLargest(yearData, TopCount);
    NLargestIsTop(yearData, TopCount);
    TopOfYear(df, year);
    seq(|top|, i requires 0 <= i < |top| => TopEntry(i + 1, top[i]))
  }

  /** A year with a single row: the ten rank labels do not fit, while the corrected table
      ranks that one row first. */
  lemma Top10FailsOnShortYear()
    ensures var df := [Row("600000", "浦发银行", 2020, 50.0)];
      && Top10(df, 2020) == Failure(RankColumnMismatch(1))
      && RankedTop(df, 2020) == [TopEntry(1, df[0])]
  {
    var df := [Row("600000", "浦发银行", 2020, 50.0)];
    assert YearRows(df, 2020) == df;
    assert df[..0] == [] && df[..1] == df;
    assert SortBy(df, NegIndexKey) == df;
  }

  /** A row's rank is between 1 and the number of rows of its year, since it counts itself. */
  lemma {:induction false} RankWithinYear(s: seq<Row>, x: Row)
    requires x in s
    ensures 1 <= CountAtLeast(s, x.index) <= |s|
  {
    if s[0] != x {
      RankWithinYear(s[1..], x);
    }
  }

  /** A higher index never gets a worse (larger) rank. */
  lemma {:induction false} RankMonotone(s: seq<Row>, a: real, b: real)
    requires a <= b
    ensures CountAtLeast(s, b) <= CountAtLeast(s, a)
  {
    if s != [] {
      RankMonotone(s[1..], a, b);
    }
  }

  /** Rank 1 means that every other row of the year scores strictly lower: a tie for the top
      gives every tied row a rank of at least 2. */
  lemma {:induction false} RankOneIsUniqueTop(s: seq<Row>, i: nat)
    requires i < |s|
    ensures CountAtLeast(s, s[i].index) == 1 <==> forall j :: 0 <= j < |s| && j != i ==> s[j].index < s[i].index
  {
    if i == 0 {
      CountZero(s[1..], s[0].index);
      assert forall j :: 1 <= j < |s| ==> s[j] == s[1..][j - 1];
    } else {
      assert s[i] == s[1..][i - 1];
      RankWithinYear(s[1..], s[i]);
      RankOneIsUniqueTop(s[1..], i - 1);
      assert forall j :: 1 <= j < |s| ==> s[j] == s[1..][j - 1];
    }
  }

  /** No row counts exactly when every row scores below `v`. */
  lemma {:induction false} CountZero(s: seq<Row>, v: real)
    ensures CountAtLeast(s, v) == 0 <==> forall y :: y in s ==> y.index < v
  {
    if s != [] {
      CountZero(s[1..], v);
    }
  }

  /** `company_all_years`: the company's rows sorted by year, rows of one year in load order. */
  function CompanyAllYears(df: seq<Row>, code: string): (r: seq<Row>)
    ensures |r| == |CompanyRows(df, code)|
    ensures multiset(r) == multiset(CompanyRows(df, code))
    ensures forall i, j :: 0 <= i < j < |r| ==> r[i].year <= r[j].year
  {
    var r := SortBy(CompanyRows(df, code), YearKey);
    assert forall i, j :: 0 <= i < j < |r| ==> YearKey(r[i]) <= YearKey(r[j]);
    r
  }

  /** The first row of a year in `company_all_years` is the first loaded row of that company
      and year: the row the query at the top of the page shows. */
  lemma CompanyYearIsFiltered(df: seq<Row>, code: string, year: int)
    ensures YearRows(CompanyAllYears(df, code), year) == Filtered(df, code, year)
  {
    var cr := CompanyRows(df, code);
    YearRowsByKey(SortBy(cr, YearKey), year);
    SortByStable(cr, YearKey, year as real);
    YearRowsByKey(cr, year);
    FilteredIsYearOfCompany(df, code, year);
  }

  /** The rank of a company in a year it reports: the number of that year's rows scoring at
      least the company's first row of the year, between 1 and the year's row count. */
  function YearRankOf(df: seq<Row>, code: string, year: int): (n: nat)
    requires Filtered(df, code, year) != []
    ensures 1 <= n <= |YearRows(df, year)|
  {
    var first := Filtered(df, code, year)[0];
    assert first in df && Holds(YearIs(year), first);
    RankWithinYear(YearRows(df, year), first);
    CountAtLeast(YearRows(df, year), first.index)
  }

  /** Every year in `company_all_years` has a filtered row for the company. */
  lemma CompanyYearReported(df: seq<Row>, code: string, k: nat)
    requires k < |CompanyAllYears(df, code)|
    ensures Filtered(df, code, CompanyAllYears(df, code)[k].year) != []
  {
    var cay := CompanyAllYears(df, code);
    assert cay[k] in multiset(CompanyRows(df, code));
    assert cay[k] in df && Holds(CodeAndYear(code, cay[k].year), cay[k]);
  }

  /** One row of the company's rank history table. */
  datatype YearRank = YearRank(year: int, index: real, rank: nat)

  /** The history table: every row of `company_all_years` with its year, its index and the
      company's rank in that year. */
  method AnnualRanks(df: seq<Row>, code: string) returns (table: seq<YearRank>)
    ensures |table| == |CompanyRows(df, code)|
    ensures forall k :: 0 <= k < |table| ==>
      var row := CompanyAllYears(df, code)[k];
      && table[k].year == row.year
      && table[k].index == row.index
      && Filtered(df, code, row.year) != []
      && table[k].rank == YearRankOf(df, code, row.year)
    ensures forall i, j :: 0 <= i < j < |table| ==> table[i].year <= table[j].year
  {
    var companyAllYears := CompanyAllYears(df, code);
    var ranks: seq<nat> := [];
    var i := 0;
    while i < |companyAllYears|
      invariant 0 <= i <= |companyAllYears|
      invariant |ranks| == i
      invariant forall k :: 0 <= k < i ==>
        Filtered(df, code, companyAllYears[k].year) != [] &&
        ranks[k] == YearRankOf(df, code, companyAllYears[k].year)
    {
      var year := companyAllYears[i].year;
      var yearData := YearRows(df, year);
      var mine := YearRows(companyAllYears, year);
      CompanyYearReported(df, code, i);
      CompanyYearIsFiltered(df, code, year);
      var yearRank := CountAtLeast(yearData, mine[0].index);
      ranks := ranks + [yearRank];
      i := i + 1;
    }
    table := seq(|companyAllYears|, k requires 0 <= k < |companyAllYears| =>
      YearRank(companyAllYears[k].year, companyAllYears[k].index, ranks[k]));
  }

  /** `(total - rank + 1) / total * 100`; defined only for a non-empty year. */
  function Percentile(total: nat, rank: nat): (p: real)
    requires total > 0
    ensures 1 <= rank <= total ==> 0.0 < p <= 100.0
    ensures p == 100.0 <==> rank == 1
  {
    var p := (total - rank + 1) as real / total as real * 100.0;
    assert p * total as real == (total - rank + 1) as real * 100.0;
    p
  }

  /** A better rank never gives a lower percentile. */
  lemma PercentileMonotone(total: nat, r1: nat, r2: nat)
    requires total > 0 && r1 <= r2
    ensures Percentile(total, r2) <= Percentile(total, r1)
  {
    var t := total as real;
    var p1, p2 := Percentile(total, r1), Percentile(total, r2);
    assert p1 * t == (total - r1 + 1) as real * 100.0;
    assert p2 * t == (total - r2 + 1) as real * 100.0;
    assert (p1 - p2) * t == (r2 - r1) as real * 100.0;
    NonNegativeFactor(p1 - p2, t);
  }


  /** The company's standing in the selected year. */
  datatype Standing = Standing(name: string, index: real, rank: nat, total: nat, percentile: real)

  /** The selected company's standing in the selected year: `None` is the "no data found"
      branch; otherwise the first matching row's name and index, its rank among that year's
      rows, the year's row count and the percentile. */
  function CurrentStanding(df: seq<Row>, code: string, year: int): (r: Option<Standing>)
    ensures r.None? <==> Filtered(df, code, year) == []
    ensures r.Some? ==> var first := Filtered(df, code, year)[0];
      && r.value.name == first.name
      && r.value.index == first.index
      && r.value.total == |YearRows(df, year)|
      && r.value.rank == YearRankOf(df, code, year)
      && 1 <= r.value.rank <= r.value.total
      && r.value.percentile == Percentile(r.value.total, r.value.rank)
      && 0.0 < r.value.percentile <= 100.0
      && (r.value.percentile == 100.0 <==> r.value.rank == 1)
  {
    var rows := Filtered(df, code, year);
    if rows == [] then None
    else
      var first := rows[0];
      var yearData := YearRows(df, year);
      var rank := CountAtLeast(yearData, first.index);
      assert rank == YearRankOf(df, code, year);
      var total := |yearData|;
      Some(Standing(first.name, first.index, rank, total, Percentile(total, rank)))
  }

  /** Ties share a rank and leave a gap: in a year scoring 95, 80, 80 and 60 the ranks are
      1, 3, 3 and 4; and rank 3 of 4 rows is the 50th percentile. */
  lemma RankExample()
    ensures var s := [Row("a", "A", 2020, 95.0), Row("b", "B", 2020, 80.0),
                      Row("c", "C", 2020, 80.0), Row("d", "D", 2020, 60.0)];
      && CountAtLeast(s, 95.0) == 1 && CountAtLeast(s, 80.0) == 3 && CountAtLeast(s, 60.0) == 4
      && Percentile(4, 3) == 50.0
  {
  }
}
