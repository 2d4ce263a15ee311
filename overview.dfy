/**
  The overview queries of helper.py: the options of the year and country
  selectors (`country_year_list`) and the number of distinct values of a
  column per edition (`data_over_time`).
*/
module Overview {
  import opened Olympics
  import opened Frames

  /** The values of a selector after its leading `Overall`. */
  function Options<T>(xs: seq<T>): (r: seq<Choice<T>>)
    ensures |r| == |xs|
    ensures forall i :: 0 <= i < |r| ==> r[i] == Only(xs[i])
  {
    seq(|xs|, i requires 0 <= i < |xs| => Only(xs[i]))
  }

  /** The year selector of `country_year_list`: `Overall`, then every year ascending. */
  function YearChoices(df: seq<Record>): (years: seq<Choice<int>>)
    ensures |years| > 0 && years[0] == Overall
    ensures forall i :: 0 < i < |years| ==> years[i].Only?
    ensures forall i, j :: 0 < i < j < |years| ==> years[i].value < years[j].value
    ensures forall y :: Only(y) in years <==> y in YearSet(df)
  {
    var ys := SortedYears(df);
    var years := [Overall] + Options(ys);
    assert forall i :: 0 < i < |years| ==> years[i] == Only(ys[i - 1]);
    assert forall y :: Only(y) in years <==> y in ys by {
      forall y ensures Only(y) in years <==> y in ys {
        if y in ys {
          var i :| 0 <= i < |ys| && ys[i] == y;
          assert years[i + 1] == Only(y);
        }
      }
    }
    years
  }

  /** The country selector of `country_year_list`: `Overall`, then every non-missing region sorted. */
  function CountryChoices(df: seq<Record>): (countries: seq<Choice<string>>)
    ensures |countries| > 0 && countries[0] == Overall
    ensures forall i :: 0 < i < |countries| ==> countries[i].Only?
    ensures forall i, j :: 0 < i < j < |countries| ==> TextLess(countries[i].value, countries[j].value)
    ensures forall c :: Only(c) in countries <==> c in RegionSet(df)
  {
    var cs := SortedRegions(df);
    var countries := [Overall] + Options(cs);
    assert forall i :: 0 < i < |countries| ==> countries[i] == Only(cs[i - 1]);
    assert forall c :: Only(c) in countries <==> c in cs by {
      forall c ensures Only(c) in countries <==> c in cs {
        if c in cs {
          var i :| 0 <= i < |cs| && cs[i] == c;
          assert countries[i + 1] == Only(c);
        }
      }
    }
    countries
  }

  /** `country_year_list(df)`: the two selector lists. */
  function CountryYearList(df: seq<Record>): (seq<Choice<int>>, seq<Choice<string>>) {
    (YearChoices(df), CountryChoices(df))
  }

  /** The subset on which `data_over_time` deduplicates. */
  function YearAnd(col: Column): seq<Column> {
    [YearCol, col]
  }

  /**
    `data_over_time(df, col)`: `drop_duplicates(['Year', col])`, then
    `groupby('Year').size()`.
  */
  function DataOverTime(df: seq<Record>, col: Column): seq<YearCount> {
    SizeByYear(DropDuplicates(df, YearAnd(col)))
  }

  lemma PairKey(x: Record, col: Column)
    ensures KeyOf(x, YearAnd(col)) == [Number(x.year), CellOf(x, col)]
  {
  }

  /** Among rows of one year with distinct (year, col) keys, the `col` values are distinct. */
  lemma {:induction false} OneYearValues(s: seq<Record>, col: Column, y: int)
    requires DistinctKeys(s, YearAnd(col))
    requires forall x :: x in s ==> x.year == y
    ensures |Values(s, col)| == |s|
  {
    if s != [] {
      var x, t := s[0], s[1..];
      assert forall z :: z in t ==> z in s;
      OneYearValues(t, col, y);
      ValuesCons(s, col);
      if CellOf(x, col) in Values(t, col) {
        var z :| z in t && CellOf(z, col) == CellOf(x, col);
        PairKey(x, col);
        PairKey(z, col);
        assert false;
      }
    }
  }

  /** The deduplicated table has the same years and, per year, the same `col` values. */
  lemma DedupYearValues(df: seq<Record>, col: Column, y: int)
    ensures YearSet(DropDuplicates(df, YearAnd(col))) == YearSet(df)
    ensures Values(Where(DropDuplicates(df, YearAnd(col)), YearIs(y)), col) == Values(Where(df, YearIs(y)), col)
  {
    var sub := YearAnd(col);
    var d := DropDuplicates(df, sub);
    SubsequenceMembers(d, df);
    forall v | v in YearSet(df) ensures v in YearSet(d) {
      var x :| x in df && x.year == v;
      assert KeyOf(x, sub) in Keys(df, sub);
      var e :| e in d && KeyOf(e, sub) == KeyOf(x, sub);
      PairKey(x, col);
      PairKey(e, col);
    }
    forall v | v in Values(Where(df, YearIs(y)), col) ensures v in Values(Where(d, YearIs(y)), col) {
      var x :| x in Where(df, YearIs(y)) && CellOf(x, col) == v;
      assert KeyOf(x, sub) in Keys(df, sub);
      var e :| e in d && KeyOf(e, sub) == KeyOf(x, sub);
      PairKey(x, col);
      PairKey(e, col);
      assert e in Where(d, YearIs(y));
    }
  }

  /**
    One row per year of the dataset, ascending; each row counts the
    distinct values of `col` among that year's records (a missing value
    counting as one value, since `drop_duplicates` treats NaN as equal).
  */
  lemma DataOverTimeSpec(df: seq<Record>, col: Column)
    ensures var rows := DataOverTime(df, col);
      && (forall i, j :: 0 <= i < j < |rows| ==> rows[i].year < rows[j].year)
      && RowYears(rows) == YearSet(df)
      && (forall i :: 0 <= i < |rows| ==> rows[i].count == |Values(Where(df, YearIs(rows[i].year)), col)|)
  {
    var rows := DataOverTime(df, col);
    var d := DropDuplicates(df, YearAnd(col));
    DedupYearValues(df, col, 0);
    forall i | 0 <= i < |rows| ensures rows[i].count == |Values(Where(df, YearIs(rows[i].year)), col)| {
      var y := rows[i].year;
      DedupYearValues(df, col, y);
      WhereDistinct(d, YearAnd(col), YearIs(y));
      OneYearValues(Where(d, YearIs(y)), col, y);
    }
  }

  /** A record for the scenario below: one participation in `year` for `region`. */
  function Entry(year: int, region: string): Record {
    Record(region, region, "", year, "", "Athletics", "Marathon", region, M, None, None, None,
           Some(region), None, 0, 0, 0)
  }

  /** Three editions with one nation each. */
  function ThreeEditions(): seq<Record> {
    [Entry(2000, "A"), Entry(2004, "B"), Entry(2008, "C")]
  }

  lemma ThreeEditionsDistinct()
    ensures DropDuplicates(ThreeEditions(), YearAnd(RegionCol)) == ThreeEditions()
  {
    var df, sub := ThreeEditions(), YearAnd(RegionCol);
    assert KeyOf(df[0], sub) == [Number(2000), Text("A")];
    assert KeyOf(df[1], sub) == [Number(2004), Text("B")];
    assert KeyOf(df[2], sub) == [Number(2008), Text("C")];
    assert df[1..] == [df[1], df[2]] && df[1..][1..] == [df[2]] && df[1..][1..][1..] == [];
    var k0, k1, k2 := KeyOf(df[0], sub), KeyOf(df[1], sub), KeyOf(df[2], sub);
    assert k0 != k1 && k0 != k2 && k1 != k2 by {
      assert k0[0] != k1[0] && k0[0] != k2[0] && k1[0] != k2[0];
    }
    assert DedupFrom(df[1..][1..][1..], sub, {k0, k1, k2}) == [];
    assert DedupFrom(df[1..][1..], sub, {k0, k1}) == [df[2]];
    assert DedupFrom(df[1..], sub, {k0}) == [df[1], df[2]];
  }

  lemma ThreeEditionsYears()
    ensures SortedYears(ThreeEditions()) == [2000, 2004, 2008]
  {
    var df := ThreeEditions();
    assert seq(|df|, i requires 0 <= i < |df| => df[i].year) == [2000, 2004, 2008];
    assert [2000, 2004, 2008][1..] == [2004, 2008] && [2004, 2008][1..] == [2008] && [2008][1..] == [];
  }

  /** One nation in each of three editions gives one nation per edition. */
  lemma NationsOverTimeScenario()
    ensures DataOverTime(ThreeEditions(), RegionCol) == [YearCount(2000, 1), YearCount(2004, 1), YearCount(2008, 1)]
  {
    var df := ThreeEditions();
    ThreeEditionsDistinct();
    ThreeEditionsYears();
    assert df[1..] == [df[1], df[2]] && df[1..][1..] == [df[2]] && df[1..][1..][1..] == [];
    assert Where(df, YearIs(2000)) == [df[0]];
    assert Where(df, YearIs(2004)) == [df[1]];
    assert Where(df, YearIs(2008)) == [df[2]];
  }
}
