/**
  The per-athlete queries of helper.py: `weight_v_height`, one row per
  (Name, region) with a missing medal recoded as "No Medal", and
  `men_vs_women`, the number of male and female athletes per edition.
  Both start from `drop_duplicates(subset=['Name', 'region'])`, which keeps
  each athlete's first record only.
*/
module Athletes {
  import opened Olympics
  import opened Frames

  /** The recoded `Medal` column: a medal, or the text "No Medal" in place of NaN. */
  datatype MedalLabel = Won(medal: Medal) | NoMedal

  /** A row of `weight_v_height`: the athlete's record with its `Medal` column recoded. */
  datatype AthleteRow = AthleteRow(record: Record, medalLabel: MedalLabel)

  /** `fillna('No Medal')` on one row. */
  function Recode(r: Record): AthleteRow {
    AthleteRow(r, if r.medal.Some? then Won(r.medal.value) else NoMedal)
  }

  function RecodeAll(s: seq<Record>): (rows: seq<AthleteRow>)
    ensures |rows| == |s|
    ensures forall i :: 0 <= i < |rows| ==> rows[i] == Recode(s[i])
  {
    seq(|s|, i requires 0 <= i < |s| => Recode(s[i]))
  }

  /** `athlete_df[athlete_df['Sport'] == sport]` on the recoded table. */
  function SportRows(rows: seq<AthleteRow>, sport: string): (r: seq<AthleteRow>)
    ensures forall x :: x in r <==> x in rows && x.record.sport == sport
  {
    if rows == [] then []
    else if rows[0].record.sport == sport then [rows[0]] + SportRows(rows[1..], sport)
    else SportRows(rows[1..], sport)
  }

  /** `weight_v_height(df, sport)`. */
  function WeightVHeight(df: seq<Record>, sport: Choice<string>): seq<AthleteRow> {
    var athletes := RecodeAll(DropDuplicates(df, ATHLETE_SUBSET));
    match sport
    case Overall => athletes
    case Only(s) => SportRows(athletes, s)
  }

  /** The mask a sport choice stands for. */
  function SportCond(sport: Choice<string>): Cond {
    match sport
    case Overall => Always
    case Only(s) => SportIs(s)
  }

  /** Recoding and then filtering on the sport is filtering on the sport and then recoding. */
  lemma {:induction false} SportRowsRecode(s: seq<Record>, sport: string)
    ensures SportRows(RecodeAll(s), sport) == RecodeAll(Where(s, SportIs(sport)))
  {
    if s != [] {
      assert RecodeAll(s)[1..] == RecodeAll(s[1..]);
      SportRowsRecode(s[1..], sport);
      if s[0].sport == sport {
        assert RecodeAll(Where(s, SportIs(sport))) == [Recode(s[0])] + RecodeAll(Where(s[1..], SportIs(sport)));
      }
    }
  }

  /**
    The rows of `weight_v_height` are, in order, the first record of every
    (Name, region) pair, kept when that first record has the chosen sport
    (a pair whose first record is of another sport is absent even if later
    records have the chosen one), each with a label that is "No Medal"
    exactly where the medal is missing and the medal itself otherwise.
  */
  lemma WeightVHeightSpec(df: seq<Record>, sport: Choice<string>)
    ensures var rows := WeightVHeight(df, sport);
      var kept := Where(DropDuplicates(df, ATHLETE_SUBSET), SportCond(sport));
      && |rows| == |kept|
      && (forall i :: 0 <= i < |rows| ==> rows[i].record == kept[i])
      && (forall i :: 0 <= i < |rows| ==> (rows[i].medalLabel == NoMedal <==> rows[i].record.medal == None))
      && (forall i, m :: 0 <= i < |rows| ==> (rows[i].medalLabel == Won(m) <==> rows[i].record.medal == Some(m)))
      && (forall i :: 0 <= i < |rows| ==> rows[i].record in df && Holds(SportCond(sport), rows[i].record))
      && DistinctKeys(kept, ATHLETE_SUBSET)
      && (forall x :: x in kept ==> x == FirstWithKey(df, ATHLETE_SUBSET, KeyOf(x, ATHLETE_SUBSET)))
  {
    var d := DropDuplicates(df, ATHLETE_SUBSET);
    var kept := Where(d, SportCond(sport));
    match sport {
      case Overall =>
        WhereAlways(d);
      case Only(s) =>
        SportRowsRecode(d, s);
    }
    SubsequenceMembers(d, df);
    WhereDistinct(d, ATHLETE_SUBSET, SportCond(sport));
    forall x | x in kept ensures x == FirstWithKey(df, ATHLETE_SUBSET, KeyOf(x, ATHLETE_SUBSET)) {
      DropDuplicatesKeepsFirst(df, ATHLETE_SUBSET, x);
    }
    assert forall i :: 0 <= i < |kept| ==> kept[i] in kept;
  }

  /** One row of `men_vs_women`: the athletes of one edition by sex. */
  datatype SexCount = SexCount(year: int, male: nat, female: nat)

  /** `drop_duplicates(subset=['Name', 'region'])`: each athlete's first record. */
  function AthleteFirsts(df: seq<Record>): seq<Record> {
    DropDuplicates(df, ATHLETE_SUBSET)
  }

  /**
    `men_vs_women(df)`: the male counts per year, left-merged on `Year`
    with the female counts, a missing female count filled with 0.
  */
  function MenVsWomen(df: seq<Record>): seq<SexCount> {
    var a := AthleteFirsts(df);
    var men := SizeByYear(Where(a, SexIs(M)));
    var women := SizeByYear(Where(a, SexIs(F)));
    seq(|men|, i requires 0 <= i < |men| => SexCount(men[i].year, men[i].count, CountFor(women, men[i].year)))
  }

  /**
    The athletes of one sex whose first (Name, region) record is of year
    `y`; an athlete of several editions counts in the first one only.
  */
  function SexYear(df: seq<Record>, x: Sex, y: int): nat {
    |Where(AthleteFirsts(df), Both(SexIs(x), YearIs(y)))|
  }

  /**
    One row per year that is the first year of at least one male
    (Name, region) pair, ascending; `male` and `female` count the athletes
    of each sex whose first record is of that year, `female` being 0 when
    there is none. No other year has a row, so a year whose athletes all
    appeared earlier, or whose first-time athletes are all female, is absent.
  */
  lemma MenVsWomenSpec(df: seq<Record>)
    ensures var rows := MenVsWomen(df);
      && (forall i, j :: 0 <= i < j < |rows| ==> rows[i].year < rows[j].year)
      && (forall i :: 0 <= i < |rows| ==>
            0 < rows[i].male == SexYear(df, M, rows[i].year) && rows[i].female == SexYear(df, F, rows[i].year))
      && (forall y :: (exists i :: 0 <= i < |rows| && rows[i].year == y) <==> SexYear(df, M, y) > 0)
  {
    var a := AthleteFirsts(df);
    var men := SizeByYear(Where(a, SexIs(M)));
    var women := SizeByYear(Where(a, SexIs(F)));
    var rows := MenVsWomen(df);
    forall i | 0 <= i < |rows|
      ensures 0 < rows[i].male == SexYear(df, M, rows[i].year) && rows[i].female == SexYear(df, F, rows[i].year)
    {
      WhereWhere(a, SexIs(M), YearIs(rows[i].year));
      WhereWhere(a, SexIs(F), YearIs(rows[i].year));
      SizeByYearCount(Where(a, SexIs(F)), rows[i].year);
    }
    forall y ensures (exists i :: 0 <= i < |rows| && rows[i].year == y) <==> SexYear(df, M, y) > 0 {
      WhereWhere(a, SexIs(M), YearIs(y));
      SizeByYearCount(Where(a, SexIs(M)), y);
      if SexYear(df, M, y) > 0 {
        var x := Where(Where(a, SexIs(M)), YearIs(y))[0];
        assert x in Where(Where(a, SexIs(M)), YearIs(y));
        assert y in YearSet(Where(a, SexIs(M)));
        var row :| row in men && row.year == y;
        var i :| 0 <= i < |men| && men[i] == row;
        assert rows[i].year == y;
      } else {
        if exists i :: 0 <= i < |rows| && rows[i].year == y {
          assert false;
        }
      }
    }
  }

  lemma SexOne(x: Record, c: Cond)
    ensures (if Holds(Both(SexIs(M), c), x) then 1 else 0) + (if Holds(Both(SexIs(F), c), x) then 1 else 0)
         == (if Holds(c, x) then 1 else 0)
  {
  }

  /** The two sexes split every selection. */
  lemma {:induction false} SexSplit(s: seq<Record>, c: Cond)
    ensures |Where(s, Both(SexIs(M), c))| + |Where(s, Both(SexIs(F), c))| == |Where(s, c)|
  {
    if s != [] {
      SexSplit(s[1..], c);
      WhereCount(s, Both(SexIs(M), c));
      WhereCount(s, Both(SexIs(F), c));
      WhereCount(s, c);
      SexOne(s[0], c);
    }
  }

  /** Each row's male and female counts add up to all athletes whose first record is of that year. */
  lemma MenVsWomenTotals(df: seq<Record>, i: nat)
    requires i < |MenVsWomen(df)|
    ensures var row := MenVsWomen(df)[i];
      row.male + row.female == |Where(AthleteFirsts(df), YearIs(row.year))|
  {
    MenVsWomenSpec(df);
    SexSplit(AthleteFirsts(df), YearIs(MenVsWomen(df)[i].year));
  }
}
