/**
  The medal queries of helper.py: `fetch_medal_tally`,
  `yearwise_medal_tally` and `country_event_heatmap`. All three count a
  team's medal once by first collapsing the rows that share the medal
  tuple (team, NOC, games, year, city, sport, event, medal).
*/
module MedalTally {
  import opened Olympics
  import opened Frames

  // ------------------------------------------------- medal key reasoning

  /** Records with the same medal tuple agree on every column of it. */
  lemma MedalKeyFields(a: Record, b: Record)
    requires KeyOf(a, MEDAL_SUBSET) == KeyOf(b, MEDAL_SUBSET)
    ensures a.team == b.team && a.noc == b.noc && a.games == b.games && a.year == b.year
    ensures a.city == b.city && a.sport == b.sport && a.event == b.event && a.medal == b.medal
  {
    var ka, kb := KeyOf(a, MEDAL_SUBSET), KeyOf(b, MEDAL_SUBSET);
    assert ka[0] == kb[0] && ka[1] == kb[1] && ka[2] == kb[2] && ka[3] == kb[3];
    assert ka[4] == kb[4] && ka[5] == kb[5] && ka[6] == kb[6] && ka[7] == kb[7];
  }

  /** The masks whose outcome a medal tuple decides, once region follows NOC. */
  predicate OnMedalKey(c: Cond) {
    match c
    case NameIs(_) => false
    case SexIs(_) => false
    case Both(a, b) => OnMedalKey(a) && OnMedalKey(b)
    case _ => true
  }

  lemma {:induction false} RespectsMedalKey(c: Cond, df: seq<Record>)
    requires OnMedalKey(c) && RegionFollowsNoc(df)
    ensures Respects(c, df, MEDAL_SUBSET)
  {
    forall a, b | a in df && b in df && KeyOf(a, MEDAL_SUBSET) == KeyOf(b, MEDAL_SUBSET)
      ensures Holds(c, a) == Holds(c, b)
    {
      MedalKeyFields(a, b);
      if c.Both? {
        RespectsMedalKey(c.left, df);
        RespectsMedalKey(c.right, df);
      }
    }
  }

  /** Whether a record has a medal is part of its medal tuple, whatever the regions. */
  lemma HasMedalRespects(df: seq<Record>)
    ensures Respects(HasMedal, df, MEDAL_SUBSET)
  {
    forall a, b | a in df && b in df && KeyOf(a, MEDAL_SUBSET) == KeyOf(b, MEDAL_SUBSET)
      ensures Holds(HasMedal, a) == Holds(HasMedal, b)
    {
      MedalKeyFields(a, b);
    }
  }

  lemma MedalOne(x: Record)
    ensures (if Holds(MedalIs(Gold), x) then 1 else 0) + (if Holds(MedalIs(Silver), x) then 1 else 0)
          + (if Holds(MedalIs(Bronze), x) then 1 else 0) == (if Holds(HasMedal, x) then 1 else 0)
  {
    match x.medal {
      case None =>
      case Some(Gold) =>
      case Some(Silver) =>
      case Some(Bronze) =>
    }
  }

  /** The winners of each medal together are the rows that have a medal. */
  lemma {:induction false} MedalSplit(s: seq<Record>)
    ensures |Where(s, MedalIs(Gold))| + |Where(s, MedalIs(Silver))| + |Where(s, MedalIs(Bronze))|
         == |Where(s, HasMedal)|
  {
    if s != [] {
      MedalSplit(s[1..]);
      WhereCount(s, HasMedal);
      WhereCount(s, MedalIs(Gold));
      WhereCount(s, MedalIs(Silver));
      WhereCount(s, MedalIs(Bronze));
      MedalOne(s[0]);
    }
  }

  // ------------------------------------------------------ fetch_medal_tally

  datatype TallyKey = ByYear(year: int) | ByRegion(region: string)

  /** `groupby(...).sum()[['Gold', 'Silver', 'Bronze']]`, one row per group. */
  datatype MedalSums = MedalSums(key: TallyKey, gold: nat, silver: nat, bronze: nat)

  datatype TallyRow = TallyRow(key: TallyKey, gold: nat, silver: nat, bronze: nat, total: nat)

  function Count(row: TallyRow, m: Medal): nat {
    match m
    case Gold => row.gold
    case Silver => row.silver
    case Bronze => row.bronze
  }

  /** The mask chosen by the year and country filters; `Overall` leaves an axis open. */
  function SelectionCond(year: Choice<int>, country: Choice<string>): Cond {
    match (year, country)
    case (Overall, Overall) => Always
    case (Overall, Only(c)) => RegionIs(c)
    case (Only(y), Overall) => YearIs(y)
    case (Only(y), Only(c)) => Both(YearIs(y), RegionIs(c))
  }

  /** The deduplicated medal rows that pass the filters. */
  function Selected(df: seq<Record>, year: Choice<int>, country: Choice<string>): seq<Record> {
    Where(DropDuplicates(df, MEDAL_SUBSET), SelectionCond(year, country))
  }

  /** The filter keeps exactly the deduplicated rows of the chosen year and country, in order. */
  lemma SelectedSpec(df: seq<Record>, year: Choice<int>, country: Choice<string>)
    ensures IsSubsequence(Selected(df, year, country), DropDuplicates(df, MEDAL_SUBSET))
    ensures forall x :: x in Selected(df, year, country) <==>
      && x in DropDuplicates(df, MEDAL_SUBSET)
      && (year.Only? ==> x.year == year.value)
      && (country.Only? ==> x.region == Some(country.value))
  {
    match (year, country) {
      case (Overall, Overall) => WhereAlways(DropDuplicates(df, MEDAL_SUBSET));
      case (Overall, Only(c)) =>
      case (Only(y), Overall) =>
      case (Only(y), Only(c)) =>
        assert forall x :: Holds(SelectionCond(year, country), x) <==> Holds(YearIs(y), x) && Holds(RegionIs(c), x);
    }
  }

  function GroupCond(k: TallyKey): Cond {
    match k
    case ByYear(y) => YearIs(y)
    case ByRegion(g) => RegionIs(g)
  }

  function GroupSums(t: seq<Record>, k: TallyKey): MedalSums {
    var g := Where(t, GroupCond(k));
    MedalSums(k, MedalSum(g, Gold), MedalSum(g, Silver), MedalSum(g, Bronze))
  }

  function GoldRank(row: MedalSums): int {
    row.gold
  }

  function SumsKey(row: MedalSums): TallyKey {
    row.key
  }

  function ByYearGroups(t: seq<Record>): seq<MedalSums> {
    var ys := SortedYears(t);
    seq(|ys|, i requires 0 <= i < |ys| => GroupSums(t, ByYear(ys[i])))
  }

  /** One row of sums per non-missing region, regions in string order. */
  function RegionGroups(t: seq<Record>): seq<MedalSums> {
    var rs := SortedRegions(t);
    seq(|rs|, i requires 0 <= i < |rs| => GroupSums(t, ByRegion(rs[i])))
  }

  function ByRegionGroups(t: seq<Record>): seq<MedalSums> {
    SortDesc(RegionGroups(t), GoldRank)
  }

  /** The `total` column, added after grouping. */
  function WithTotal(rows: seq<MedalSums>): (x: seq<TallyRow>)
    ensures |x| == |rows|
    ensures forall i :: 0 <= i < |x| ==>
      && x[i].key == rows[i].key
      && x[i].gold == rows[i].gold && x[i].silver == rows[i].silver && x[i].bronze == rows[i].bronze
      && x[i].total == x[i].gold + x[i].silver + x[i].bronze
  {
    seq(|rows|, i requires 0 <= i < |rows| =>
      TallyRow(rows[i].key, rows[i].gold, rows[i].silver, rows[i].bronze,
               rows[i].gold + rows[i].silver + rows[i].bronze))
  }

  /**
    `fetch_medal_tally(df, year, country)`. Only a country with
    year `Overall` groups by year; every other choice groups by region
    and ranks by gold. The sums are integers, so the final `astype(int)`
    changes nothing here.
  */
  function FetchMedalTally(df: seq<Record>, year: Choice<int>, country: Choice<string>): (x: seq<TallyRow>)
    ensures forall i :: 0 <= i < |x| ==> x[i].total == x[i].gold + x[i].silver + x[i].bronze
  {
    var t := Selected(df, year, country);
    WithTotal(if year.Overall? && country.Only? then ByYearGroups(t) else ByRegionGroups(t))
  }

  function RowKey(row: TallyRow): TallyKey {
    row.key
  }

  /** A tally row holds the indicator sums of the selected rows of its group. */
  predicate SumsGroup(t: seq<Record>, row: TallyRow) {
    && row.gold == MedalSum(Where(t, GroupCond(row.key)), Gold)
    && row.silver == MedalSum(Where(t, GroupCond(row.key)), Silver)
    && row.bronze == MedalSum(Where(t, GroupCond(row.key)), Bronze)
  }

  /** A country's tally over all editions: one row per year it appears in, ascending. */
  lemma FetchMedalTallyByYear(df: seq<Record>, country: string)
    ensures var t, x := Selected(df, Overall, Only(country)), FetchMedalTally(df, Overall, Only(country));
      && (forall i :: 0 <= i < |x| ==> x[i].key.ByYear? && SumsGroup(t, x[i]))
      && (forall i, j :: 0 <= i < j < |x| ==> x[i].key.year < x[j].key.year)
      && (forall y :: y in YearSet(t) <==> exists i :: 0 <= i < |x| && x[i].key == ByYear(y))
  {
    var t, x := Selected(df, Overall, Only(country)), FetchMedalTally(df, Overall, Only(country));
    var ys := SortedYears(t);
    assert |x| == |ys|;
    forall y | y in YearSet(t) ensures exists i :: 0 <= i < |x| && x[i].key == ByYear(y) {
      var i :| 0 <= i < |ys| && ys[i] == y;
      assert x[i].key == ByYear(y);
    }
  }

  /** Before ranking: one row per region, the region's sums, regions distinct. */
  lemma RegionGroupsSpec(t: seq<Record>)
    ensures var groups := RegionGroups(t);
      && (forall i :: 0 <= i < |groups| ==> groups[i].key.ByRegion? && groups[i] == GroupSums(t, groups[i].key))
      && DistinctBy(groups, SumsKey)
      && (forall g :: g in RegionSet(t) <==> exists i :: 0 <= i < |groups| && groups[i].key == ByRegion(g))
  {
    var rs := SortedRegions(t);
    var groups := RegionGroups(t);
    assert forall i :: 0 <= i < |groups| ==> groups[i].key == ByRegion(rs[i]);
    forall i, j | 0 <= i < j < |groups| ensures SumsKey(groups[i]) != SumsKey(groups[j]) {
      TextLessIrreflexive(rs[i]);
    }
    forall g | g in RegionSet(t) ensures exists i :: 0 <= i < |groups| && groups[i].key == ByRegion(g) {
      var k :| 0 <= k < |rs| && rs[k] == g;
      assert groups[k].key == ByRegion(g);
    }
    forall g | exists i :: 0 <= i < |groups| && groups[i].key == ByRegion(g) ensures g in RegionSet(t) {
      var i :| 0 <= i < |groups| && groups[i].key == ByRegion(g);
      assert rs[i] == g;
    }
  }

  /** A ranked row is the sums of a region of the selection. */
  lemma RankedRow(t: seq<Record>, i: nat)
    requires i < |ByRegionGroups(t)|
    ensures var row := ByRegionGroups(t)[i];
      row.key.ByRegion? && row.key.region in RegionSet(t) && row == GroupSums(t, row.key)
  {
    var groups := RegionGroups(t);
    var rows := ByRegionGroups(t);
    RegionGroupsSpec(t);
    assert rows[i] in multiset(groups);
    var k :| 0 <= k < |groups| && groups[k] == rows[i];
  }

  /** Every region of the selection has a ranked row. */
  lemma RankedCovers(t: seq<Record>, g: string)
    requires g in RegionSet(t)
    ensures exists i :: 0 <= i < |ByRegionGroups(t)| && ByRegionGroups(t)[i].key == ByRegion(g)
  {
    var groups := RegionGroups(t);
    var rows := ByRegionGroups(t);
    RegionGroupsSpec(t);
    var k :| 0 <= k < |groups| && groups[k].key == ByRegion(g);
    assert groups[k] in multiset(rows);
    var i :| 0 <= i < |rows| && rows[i] == groups[k];
  }

  /** Each row of the region tally of a selection `t` holds a region's sums. */
  lemma RegionTallyRows(t: seq<Record>)
    ensures var x := WithTotal(ByRegionGroups(t));
      forall i :: 0 <= i < |x| ==> x[i].key.ByRegion? && x[i].key.region in RegionSet(t) && SumsGroup(t, x[i])
  {
    var rows := ByRegionGroups(t);
    var x := WithTotal(rows);
    forall i | 0 <= i < |x| ensures x[i].key.ByRegion? && x[i].key.region in RegionSet(t) && SumsGroup(t, x[i]) {
      RankedRow(t, i);
    }
  }

  /** The region tally is ranked by gold and has one row per region. */
  lemma RegionTallyOrder(t: seq<Record>)
    ensures var x := WithTotal(ByRegionGroups(t));
      && (forall i, j :: 0 <= i < j < |x| ==> x[i].gold >= x[j].gold)
      && DistinctBy(x, RowKey)
  {
    var rows := ByRegionGroups(t);
    var x := WithTotal(rows);
    RegionGroupsSpec(t);
    SortDescDistinct(RegionGroups(t), GoldRank, SumsKey);
    forall i, j | 0 <= i < j < |x| ensures x[i].gold >= x[j].gold && RowKey(x[i]) != RowKey(x[j]) {
      assert GoldRank(rows[i]) >= GoldRank(rows[j]) && SumsKey(rows[i]) != SumsKey(rows[j]);
    }
  }

  /** Every region of the selection has a row in the region tally. */
  lemma RegionTallyCovers(t: seq<Record>, g: string)
    requires g in RegionSet(t)
    ensures var x := WithTotal(ByRegionGroups(t));
      exists i :: 0 <= i < |x| && x[i].key == ByRegion(g)
  {
    var rows := ByRegionGroups(t);
    var x := WithTotal(rows);
    RankedCovers(t, g);
    var i :| 0 <= i < |rows| && rows[i].key == ByRegion(g);
    assert x[i].key == ByRegion(g);
  }

  /** Every other choice: one row per non-missing region, ranked by gold, most first. */
  lemma FetchMedalTallyByRegion(df: seq<Record>, year: Choice<int>, country: Choice<string>)
    requires !(year.Overall? && country.Only?)
    ensures var t, x := Selected(df, year, country), FetchMedalTally(df, year, country);
      && (forall i :: 0 <= i < |x| ==> x[i].key.ByRegion? && SumsGroup(t, x[i]))
      && (forall i, j :: 0 <= i < j < |x| ==> x[i].gold >= x[j].gold)
      && DistinctBy(x, RowKey)
      && (forall g :: g in RegionSet(t) <==> exists i :: 0 <= i < |x| && x[i].key == ByRegion(g))
  {
    var t := Selected(df, year, country);
    var x := FetchMedalTally(df, year, country);
    assert x == WithTotal(ByRegionGroups(t));
    RegionTallyRows(t);
    RegionTallyOrder(t);
    forall g | g in RegionSet(t) ensures exists i :: 0 <= i < |x| && x[i].key == ByRegion(g) {
      RegionTallyCovers(t, g);
    }
  }

  /** The filter of the selection together with the filter of a group is a mask on the medal tuple. */
  lemma GroupOnMedalKey(year: Choice<int>, country: Choice<string>, k: TallyKey, m: Medal)
    ensures OnMedalKey(Both(Both(SelectionCond(year, country), GroupCond(k)), MedalIs(m)))
  {
    assert OnMedalKey(SelectionCond(year, country)) by {
      match (year, country) {
        case (Overall, Overall) =>
        case (Overall, Only(c)) =>
        case (Only(y), Overall) =>
        case (Only(y), Only(c)) =>
          assert OnMedalKey(YearIs(y)) && OnMedalKey(RegionIs(c));
      }
    }
    assert OnMedalKey(GroupCond(k)) by {
      match k
      case ByYear(y) =>
      case ByRegion(g) =>
    }
  }

  /**
    Team medals count once: each medal column of a tally row is the
    number of distinct medal tuples of that group that won that medal.
  */
  lemma TallyCountsDistinctAwards(df: seq<Record>, year: Choice<int>, country: Choice<string>, i: nat, m: Medal)
    requires Preprocessed(df)
    requires i < |FetchMedalTally(df, year, country)|
    ensures var row := FetchMedalTally(df, year, country)[i];
      Count(row, m) == |Keys(Where(df, Both(Both(SelectionCond(year, country), GroupCond(row.key)), MedalIs(m))), MEDAL_SUBSET)|
  {
    var row := FetchMedalTally(df, year, country)[i];
    var sel, grp := SelectionCond(year, country), GroupCond(row.key);
    var c := Both(Both(sel, grp), MedalIs(m));
    var d := DropDuplicates(df, MEDAL_SUBSET);
    var t := Selected(df, year, country);
    if year.Overall? && country.Only? {
      FetchMedalTallyByYear(df, country.value);
    } else {
      FetchMedalTallyByRegion(df, year, country);
    }
    assert SumsGroup(t, row);
    var g := Where(t, grp);
    assert Count(row, m) == MedalSum(g, m);
    SubsequenceMembers(d, df);
    MedalSumCounts(g, m);
    WhereWhere(d, sel, grp);
    WhereWhere(d, Both(sel, grp), MedalIs(m));
    GroupOnMedalKey(year, country, row.key, m);
    RespectsMedalKey(c, df);
    DropDuplicatesWhere(df, MEDAL_SUBSET, c);
    DistinctKeysCount(DropDuplicates(Where(df, c), MEDAL_SUBSET), MEDAL_SUBSET);
  }

  // ----------------------------------------------------- yearwise_medal_tally

  /** The deduplicated medal-winning rows of one country. */
  function MedalRowsOf(df: seq<Record>, country: string): seq<Record> {
    Where(DropDuplicates(Where(df, HasMedal), MEDAL_SUBSET), RegionIs(country))
  }

  /**
    `yearwise_medal_tally(df, country)`: per year, the number of the
    country's distinct medals. Every row left has a medal, so
    `count()['Medal']` is the group size.
  */
  function YearwiseMedalTally(df: seq<Record>, country: string): (rows: seq<YearCount>)
    ensures forall i, j :: 0 <= i < j < |rows| ==> rows[i].year < rows[j].year
    ensures RowYears(rows) == YearSet(MedalRowsOf(df, country))
    ensures forall i :: 0 <= i < |rows| ==>
      0 < rows[i].count == |Where(MedalRowsOf(df, country), YearIs(rows[i].year))|
  {
    SizeByYear(MedalRowsOf(df, country))
  }

  /** The total of the tally row keyed `k`, 0 where there is none. */
  function TotalFor(rows: seq<TallyRow>, k: TallyKey): nat {
    if rows == [] then 0 else if rows[0].key == k then rows[0].total else TotalFor(rows[1..], k)
  }

  lemma {:induction false} TotalForAt(rows: seq<TallyRow>, i: nat)
    requires i < |rows| && DistinctBy(rows, RowKey)
    ensures TotalFor(rows, rows[i].key) == rows[i].total
  {
    if i > 0 {
      assert RowKey(rows[0]) != RowKey(rows[i]);
      assert DistinctBy(rows[1..], RowKey);
      TotalForAt(rows[1..], i - 1);
    }
  }

  lemma {:induction false} TotalForMissing(rows: seq<TallyRow>, k: TallyKey)
    requires forall i :: 0 <= i < |rows| ==> rows[i].key != k
    ensures TotalFor(rows, k) == 0
  {
    if rows != [] {
      TotalForMissing(rows[1..], k);
    }
  }

  /** In a country's over-all-years tally, every year's total sums the indicator columns of its rows. */
  lemma YearTotal(df: seq<Record>, country: string, y: int)
    ensures var t := Where(Selected(df, Overall, Only(country)), YearIs(y));
      TotalFor(FetchMedalTally(df, Overall, Only(country)), ByYear(y))
        == MedalSum(t, Gold) + MedalSum(t, Silver) + MedalSum(t, Bronze)
  {
    var sel := Selected(df, Overall, Only(country));
    var x := FetchMedalTally(df, Overall, Only(country));
    FetchMedalTallyByYear(df, country);
    if y in YearSet(sel) {
      var i :| 0 <= i < |x| && x[i].key == ByYear(y);
      assert DistinctBy(x, RowKey);
      TotalForAt(x, i);
    } else {
      TotalForMissing(x, ByYear(y));
      WhereYearMissing(sel, y);
    }
  }

  /**
    The yearwise medal count of a country is, year by year, the `total`
    column of its over-all-years medal tally (0 on both sides for a year
    without medals).
  */
  lemma YearwiseMatchesTally(df: seq<Record>, country: string, y: int)
    requires forall r :: r in df ==> IndicatorsAgree(r)
    ensures CountFor(YearwiseMedalTally(df, country), y)
         == TotalFor(FetchMedalTally(df, Overall, Only(country)), ByYear(y))
  {
    var d := DropDuplicates(df, MEDAL_SUBSET);
    var sel := Selected(df, Overall, Only(country));
    var t := Where(sel, YearIs(y));
    YearTotal(df, country, y);
    SubsequenceMembers(d, df);
    MedalSumCounts(t, Gold);
    MedalSumCounts(t, Silver);
    MedalSumCounts(t, Bronze);
    MedalSplit(t);
    SizeByYearCount(MedalRowsOf(df, country), y);
    HasMedalRespects(df);
    DropDuplicatesWhere(df, MEDAL_SUBSET, HasMedal);
    // Both sides filter the same deduplicated rows by medal, country and year.
    WhereWhere(d, HasMedal, RegionIs(country));
    WhereWhere(Where(d, HasMedal), RegionIs(country), YearIs(y));
    WhereWhere(d, Both(HasMedal, RegionIs(country)), YearIs(y));
    WhereWhere(d, RegionIs(country), YearIs(y));
    WhereWhere(Where(d, RegionIs(country)), YearIs(y), HasMedal);
    WhereWhere(d, Both(RegionIs(country), YearIs(y)), HasMedal);
    WhereSame(d, Both(Both(HasMedal, RegionIs(country)), YearIs(y)), Both(Both(RegionIs(country), YearIs(y)), HasMedal));
  }

  // ---------------------------------------------------- country_event_heatmap

  /** A dense sport × year table of counts, rows and columns labelled. */
  datatype Heatmap = Heatmap(sports: seq<string>, years: seq<int>, counts: seq<seq<nat>>)

  function PivotRow(s: seq<Record>, sport: string, years: seq<int>): (row: seq<nat>)
    ensures |row| == |years|
  {
    seq(|years|, j requires 0 <= j < |years| => |Where(Where(s, SportIs(sport)), YearIs(years[j]))|)
  }

  function PivotRows(s: seq<Record>, sports: seq<string>, years: seq<int>): (rows: seq<seq<nat>>)
    ensures |rows| == |sports|
    ensures forall i :: 0 <= i < |rows| ==> rows[i] == PivotRow(s, sports[i], years)
  {
    if sports == [] then [] else [PivotRow(s, sports[0], years)] + PivotRows(s, sports[1..], years)
  }

  /**
    `country_event_heatmap(df, country)`: `pivot_table(index='Sport',
    columns='Year', aggfunc='count').fillna(0)` over the country's
    deduplicated medal rows.
  */
  function CountryEventHeatmap(df: seq<Record>, country: string): (h: Heatmap)
    ensures IncreasingTexts(h.sports) && Increasing(h.years)
    ensures forall sp :: sp in h.sports <==> sp in SportSet(MedalRowsOf(df, country))
    ensures forall y :: y in h.years <==> y in YearSet(MedalRowsOf(df, country))
    ensures |h.counts| == |h.sports|
    ensures forall i :: 0 <= i < |h.sports| ==> |h.counts[i]| == |h.years|
    ensures forall i, j :: 0 <= i < |h.sports| && 0 <= j < |h.years| ==>
      h.counts[i][j] == |Where(MedalRowsOf(df, country), Both(SportIs(h.sports[i]), YearIs(h.years[j])))|
  {
    var s := MedalRowsOf(df, country);
    var sports, years := SortedSports(s), SortedYears(s);
    assert forall sp, y :: Where(Where(s, SportIs(sp)), YearIs(y)) == Where(s, Both(SportIs(sp), YearIs(y))) by {
      forall sp, y ensures Where(Where(s, SportIs(sp)), YearIs(y)) == Where(s, Both(SportIs(sp), YearIs(y))) {
        WhereWhere(s, SportIs(sp), YearIs(y));
      }
    }
    Heatmap(sports, years, PivotRows(s, sports, years))
  }

  /** The sum of column `j` of a table; a row too short contributes 0. */
  function ColumnSum(counts: seq<seq<nat>>, j: nat): nat {
    if counts == [] then 0
    else (if j < |counts[0]| then counts[0][j] else 0) + ColumnSum(counts[1..], j)
  }

  /** How often `v` occurs in `xs`. */
  function Occurrences(xs: seq<string>, v: string): nat {
    if xs == [] then 0 else (if xs[0] == v then 1 else 0) + Occurrences(xs[1..], v)
  }

  lemma {:induction false} OccurrencesOnce(xs: seq<string>, v: string)
    requires IncreasingTexts(xs) && v in xs
    ensures Occurrences(xs, v) == 1
  {
    if xs[0] == v {
      OccurrencesNone(xs[1..], v);
    } else {
      OccurrencesOnce(xs[1..], v);
    }
  }

  lemma {:induction false} OccurrencesNone(xs: seq<string>, v: string)
    requires IncreasingTexts([v] + xs)
    ensures Occurrences(xs, v) == 0
  {
    if xs != [] {
      assert TextLess(v, xs[0]) by {
        assert ([v] + xs)[0] == v && ([v] + xs)[1] == xs[0];
      }
      TextLessIrreflexive(v);
      var w, u := [v] + xs, [v] + xs[1..];
      forall i, j | 0 <= i < j < |u| ensures TextLess(u[i], u[j]) {
        assert u[j] == xs[j] == w[j + 1];
        if i > 0 {
          assert u[i] == xs[i] == w[i + 1];
        } else {
          assert u[i] == w[0];
        }
      }
      OccurrencesNone(xs[1..], v);
    }
  }

  /** Σ over the sports in `sports` of the rows of `s` in each sport. */
  function SportTotals(s: seq<Record>, sports: seq<string>): nat {
    if sports == [] then 0 else |Where(s, SportIs(sports[0]))| + SportTotals(s, sports[1..])
  }

  lemma {:induction false} SportTotalsCons(x: Record, t: seq<Record>, sports: seq<string>)
    ensures SportTotals([x] + t, sports) == SportTotals(t, sports) + Occurrences(sports, x.sport)
  {
    assert ([x] + t)[1..] == t;
    if sports != [] {
      SportTotalsCons(x, t, sports[1..]);
    }
  }

  /** Splitting rows by sport loses none and counts none twice. */
  lemma {:induction false} SportPartition(s: seq<Record>, sports: seq<string>)
    requires IncreasingTexts(sports)
    requires forall x :: x in s ==> x.sport in sports
    ensures SportTotals(s, sports) == |s|
  {
    if s == [] {
      SportTotalsEmpty(sports);
    } else {
      assert s == [s[0]] + s[1..];
      SportTotalsCons(s[0], s[1..], sports);
      OccurrencesOnce(sports, s[0].sport);
      SportPartition(s[1..], sports);
    }
  }

  lemma {:induction false} SportTotalsEmpty(sports: seq<string>)
    ensures SportTotals([], sports) == 0
  {
    if sports != [] {
      SportTotalsEmpty(sports[1..]);
    }
  }

  lemma {:induction false} PivotColumn(s: seq<Record>, sports: seq<string>, years: seq<int>, j: nat)
    requires j < |years|
    ensures ColumnSum(PivotRows(s, sports, years), j) == SportTotals(Where(s, YearIs(years[j])), sports)
  {
    if sports != [] {
      var rows := PivotRows(s, sports, years);
      assert rows[1..] == PivotRows(s, sports[1..], years);
      PivotColumn(s, sports[1..], years, j);
      WhereWhere(s, SportIs(sports[0]), YearIs(years[j]));
      WhereWhere(s, YearIs(years[j]), SportIs(sports[0]));
      WhereSame(s, Both(SportIs(sports[0]), YearIs(years[j])), Both(YearIs(years[j]), SportIs(sports[0])));
    }
  }

  /**
    Every column of the heatmap adds up to the country's medal count of
    that year in `yearwise_medal_tally`.
  */
  lemma HeatmapColumnTotals(df: seq<Record>, country: string, j: nat)
    requires j < |CountryEventHeatmap(df, country).years|
    ensures var h := CountryEventHeatmap(df, country);
      ColumnSum(h.counts, j) == CountFor(YearwiseMedalTally(df, country), h.years[j])
  {
    var s := MedalRowsOf(df, country);
    var h := CountryEventHeatmap(df, country);
    assert h.counts == PivotRows(s, h.sports, h.years);
    PivotColumn(s, h.sports, h.years, j);
    SportPartition(Where(s, YearIs(h.years[j])), h.sports);
    SizeByYearCount(s, h.years[j]);
  }

  // ------------------------------------------------------------ scenarios

  /** One member of the 2008 United States basketball team that won gold. */
  function Teammate(name: string): Record {
    Record("United States", "USA", "2008 Summer", 2008, "Beijing", "Basketball",
           "Basketball Men's Basketball", name, M, None, None, None,
           Some("USA"), Some(Gold), 1, 0, 0)
  }

  /** Three teammates sharing one gold make one gold in their country's tally. */
  lemma TeamGoldCountsOnce()
    ensures FetchMedalTally([Teammate("A"), Teammate("B"), Teammate("C")], Overall, Only("USA"))
         == [TallyRow(ByYear(2008), 1, 0, 0, 1)]
  {
    var df := [Teammate("A"), Teammate("B"), Teammate("C")];
    var k := KeyOf(Teammate("A"), MEDAL_SUBSET);
    assert KeyOf(Teammate("B"), MEDAL_SUBSET) == k && KeyOf(Teammate("C"), MEDAL_SUBSET) == k;
    assert df[1..] == [Teammate("B"), Teammate("C")];
    assert df[1..][1..] == [Teammate("C")];
    assert DropDuplicates(df, MEDAL_SUBSET) == [Teammate("A")];
    var t := Selected(df, Overall, Only("USA"));
    assert t == [Teammate("A")];
    assert seq(|t|, i requires 0 <= i < |t| => t[i].year) == [2008];
    assert SortUnique([2008]) == [2008] by {
      assert [2008][1..] == [];
    }
  }
}
