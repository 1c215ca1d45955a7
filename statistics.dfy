/** The aggregates behind the trend line and the level chart: the mean index of every year,
    and the five index levels with the number of rows in each. */
module Statistics {
  import opened Sorting
  import opened Table
  import opened Arith

  /** The sum of the index column. */
  function Sum(s: seq<Row>): real
  {
    if s == [] then 0.0 else s[0].index + Sum(s[1..])
  }

  /** The arithmetic mean of the index over a non-empty set of rows. */
  function Mean(s: seq<Row>): real
    requires s != []
  {
    Sum(s) / |s| as real
  }

  lemma {:induction false} SumBounds(s: seq<Row>, lo: real, hi: real)
    requires forall x :: x in s ==> lo <= x.index <= hi
    ensures lo * |s| as real <= Sum(s) <= hi * |s| as real
  {
    if s != [] {
      SumBounds(s[1..], lo, hi);
      assert s[0] in s;
    }
  }

  /** A mean lies between the lowest and the highest index it averages. */
  lemma MeanBounded(s: seq<Row>, lo: real, hi: real)
    requires s != []
    requires forall x :: x in s ==> lo <= x.index <= hi
    ensures lo <= Mean(s) <= hi
  {
    SumBounds(s, lo, hi);
    var n := |s| as real;
    var m := Mean(s);
    assert m * n == Sum(s);
    assert (m - lo) * n == Sum(s) - lo * n;
    assert (hi - m) * n == hi * n - Sum(s);
    NonNegativeFactor(m - lo, n);
    NonNegativeFactor(hi - m, n);
  }

  /** One point of the trend line. */
  datatype YearMean = YearMean(year: int, mean: real)

  /** `df.groupby('年份')['数字化转型指数'].mean().reset_index()`: one entry per year of the
      table, ascending, each the mean index of that year's rows. */
  function YearMeans(df: seq<Row>): (r: seq<YearMean>)
    ensures forall i, j :: 0 <= i < j < |r| ==> r[i].year < r[j].year
    ensures forall y :: YearRows(df, y) != [] <==> exists i :: 0 <= i < |r| && r[i].year == y
    ensures forall i :: 0 <= i < |r| ==> YearRows(df, r[i].year) != [] && r[i].mean == Mean(YearRows(df, r[i].year))
  {
    var years := AvailableYears(df);
    var r := seq(|years|, i requires 0 <= i < |years| => YearMean(years[i], Mean(YearRows(df, years[i]))));
    EveryYearListed(years, r);
    r
  }

  lemma EveryYearListed(years: seq<int>, r: seq<YearMean>)
    requires |r| == |years| && forall i :: 0 <= i < |r| ==> r[i].year == years[i]
    requires StrictlyIncreasing(years, IntLess)
    ensures forall y :: y in years ==> exists i :: 0 <= i < |r| && r[i].year == y
    ensures forall i :: 0 <= i < |r| ==> r[i].year in years
    ensures forall i, j :: 0 <= i < j < |r| ==> r[i].year < r[j].year
  {
    forall y | y in years ensures exists i :: 0 <= i < |r| && r[i].year == y {
      var i :| 0 <= i < |years| && years[i] == y;
      assert r[i].year == y;
    }
    forall i, j | 0 <= i < j < |r| ensures r[i].year < r[j].year {
      assert IntLess(years[i], years[j]);
    }
  }

  /** Every year's mean lies between that year's lowest and highest index. */
  lemma YearMeanWithinYear(df: seq<Row>, k: nat, lo: real, hi: real)
    requires k < |YearMeans(df)|
    requires forall x :: x in YearRows(df, YearMeans(df)[k].year) ==> lo <= x.index <= hi
    ensures lo <= YearMeans(df)[k].mean <= hi
  {
    MeanBounded(YearRows(df, YearMeans(df)[k].year), lo, hi);
  }

  /** The five index levels, from best to worst. */
  datatype Level = Leading | Good | Moderate | Starting | NeedsImprovement

  /** The label the chart shows for a level. */
  function Label(l: Level): string
  {
    match l
    case Leading => "领先水平 (80-100)"
    case Good => "良好水平 (60-79)"
    case Moderate => "中等水平 (40-59)"
    case Starting => "起步水平 (20-39)"
    case NeedsImprovement => "待提升 (<20)"
  }

  /** The level's place in the order of levels, 0 for the worst. */
  function Tier(l: Level): nat
  {
    match l
    case NeedsImprovement => 0
    case Starting => 1
    case Moderate => 2
    case Good => 3
    case Leading => 4
  }

  /** `get_index_level`: bands closed below and open above, the top band unbounded above and
      the bottom band unbounded below. */
  function IndexLevel(x: real): (l: Level)
    ensures l == Leading <==> 80.0 <= x
    ensures l == Good <==> 60.0 <= x < 80.0
    ensures l == Moderate <==> 40.0 <= x < 60.0
    ensures l == Starting <==> 20.0 <= x < 40.0
    ensures l == NeedsImprovement <==> x < 20.0
  {
    if x >= 80.0 then Leading
    else if x >= 60.0 then Good
    else if x >= 40.0 then Moderate
    else if x >= 20.0 then Starting
    else NeedsImprovement
  }

  /** `get_index_level`: exactly one of the five labels, each shown on its own band of scores. */
  function GetIndexLevel(x: real): (shown: string)
    ensures shown == "领先水平 (80-100)" <==> 80.0 <= x
    ensures shown == "良好水平 (60-79)" <==> 60.0 <= x < 80.0
    ensures shown == "中等水平 (40-59)" <==> 40.0 <= x < 60.0
    ensures shown == "起步水平 (20-39)" <==> 20.0 <= x < 40.0
    ensures shown == "待提升 (<20)" <==> x < 20.0
  {
    var l := IndexLevel(x);
    forall m: Level ensures Label(m) == Label(l) ==> m == l {
      LabelsDistinct(m, l);
    }
    Label(l)
  }

  /** A higher index never gets a lower level. */
  lemma LevelMonotone(x: real, y: real)
    requires x <= y
    ensures Tier(IndexLevel(x)) <= Tier(IndexLevel(y))
  {
  }

  /** Different levels have different labels, so counting labels counts levels. */
  lemma LabelsDistinct(a: Level, b: Level)
    ensures Label(a) == Label(b) ==> a == b
  {
    if a != b {
      assert Label(a)[0] != Label(b)[0];
    }
  }

  /** The number of rows at a level: one entry of `value_counts()` of the level column. */
  function LevelCount(df: seq<Row>, l: Level): nat
  {
    if df == [] then 0
    else (if IndexLevel(df[0].index) == l then 1 else 0) + LevelCount(df[1..], l)
  }

  /** The levels partition the rows: the five counts add up to the number of rows. */
  lemma {:induction false} LevelCountsPartition(df: seq<Row>)
    ensures LevelCount(df, Leading) + LevelCount(df, Good) + LevelCount(df, Moderate)
          + LevelCount(df, Starting) + LevelCount(df, NeedsImprovement) == |df|
  {
    if df != [] {
      LevelCountsPartition(df[1..]);
    }
  }

  /** Two rows in 2019 scoring 10 and 20 and one in 2020 scoring 30 give means 15 and 30;
      80 is the lowest index of the top level and 79.999 is a level lower. */
  lemma StatisticsExample()
    ensures var df := [Row("a", "A", 2019, 10.0), Row("b", "B", 2019, 20.0), Row("a", "A", 2020, 30.0)];
      && Mean(YearRows(df, 2019)) == 15.0 && Mean(YearRows(df, 2020)) == 30.0
      && IndexLevel(80.0) == Leading && IndexLevel(79.999) == Good
  {
    var df := [Row("a", "A", 2019, 10.0), Row("b", "B", 2019, 20.0), Row("a", "A", 2020, 30.0)];
    assert YearRows(df[2..], 2019) == [];
    assert YearRows(df, 2019) == [df[0], df[1]];
    assert YearRows(df[1..], 2020) == [df[2]];
    assert YearRows(df, 2020) == [df[2]];
    assert [df[0], df[1]][1..] == [df[1]] && [df[1]][1..] == [] && [df[2]][1..] == [];
    assert Sum([df[1]]) == 20.0;
    assert Sum([df[0], df[1]]) == 30.0;
  }
}
