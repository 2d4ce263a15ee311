/**
  The athlete rankings of helper.py: `most_successful` (top 15 by medal
  rows, optionally within one sport) and `most_successful_countrywise`
  (top 10 within one country). Both count medal rows per name with
  `value_counts`, left-merge the counts with the full dataset on `Name` to
  pick up further columns, keep the first merged row of every name and
  take the head of the table.
*/
module Rankings {
  import opened Olympics
  import opened Frames

  /** One row of `value_counts()` on `Name`. */
  datatype NameCount = NameCount(name: string, medals: nat)

  function CountName(c: NameCount): string { c.name }

  function CountMedals(c: NameCount): int { c.medals }

  /** The subset under which records are grouped by athlete name. */
  const NAME_SUBSET: seq<Column> := [NameCol]

  lemma NameKey(x: Record)
    ensures KeyOf(x, NAME_SUBSET) == [Text(x.name)]
  {
  }

  /** Distinct key tuples on `Name` are distinct names. */
  lemma {:induction false} DistinctNames(s: seq<Record>)
    requires DistinctKeys(s, NAME_SUBSET)
    ensures forall i, j :: 0 <= i < j < |s| ==> s[i].name != s[j].name
  {
    if s != [] {
      DistinctNames(s[1..]);
      forall j | 0 < j < |s| ensures s[0].name != s[j].name {
        assert s[j] == s[1..][j - 1];
        NameKey(s[0]);
        NameKey(s[j]);
      }
      forall i, j | 0 < i < j < |s| ensures s[i].name != s[j].name {
        assert s[i] == s[1..][i - 1] && s[j] == s[1..][j - 1];
      }
    }
  }

  /** Every name of `temp` once, in order of first appearance, with its number of rows. */
  function Tally(temp: seq<Record>): (r: seq<NameCount>)
    ensures DistinctBy(r, CountName)
    ensures forall i :: 0 <= i < |r| ==> r[i].name in NameSet(temp) && r[i].medals == |Where(temp, NameIs(r[i].name))|
    ensures forall n :: n in NameSet(temp) ==> exists i :: 0 <= i < |r| && r[i].name == n
  {
    var firsts := DropDuplicates(temp, NAME_SUBSET);
    var r := seq(|firsts|, i requires 0 <= i < |firsts| => NameCount(firsts[i].name, |Where(temp, NameIs(firsts[i].name))|));
    SubsequenceMembers(firsts, temp);
    DistinctNames(firsts);
    forall n | n in NameSet(temp) ensures exists i :: 0 <= i < |r| && r[i].name == n {
      var x :| x in temp && x.name == n;
      assert KeyOf(x, NAME_SUBSET) in Keys(firsts, NAME_SUBSET);
      var e :| e in firsts && KeyOf(e, NAME_SUBSET) == KeyOf(x, NAME_SUBSET);
      NameKey(x);
      NameKey(e);
      var i :| 0 <= i < |firsts| && firsts[i] == e;
      assert r[i].name == n;
    }
    forall i | 0 <= i < |r| ensures r[i].name in NameSet(temp) {
      assert firsts[i] in temp;
    }
    r
  }

  /**
    `temp['Name'].value_counts().reset_index()`: one row per name of
    `temp` with its number of rows, most rows first (ties in no specified order).
  */
  function ValueCounts(temp: seq<Record>): (r: seq<NameCount>)
    ensures NonIncreasing(r, CountMedals)
    ensures DistinctBy(r, CountName)
    ensures forall i :: 0 <= i < |r| ==> r[i].name in NameSet(temp) && r[i].medals == |Where(temp, NameIs(r[i].name))|
    ensures forall n :: n in NameSet(temp) ==> exists i :: 0 <= i < |r| && r[i].name == n
  {
    var t := Tally(temp);
    var r := SortDesc(t, CountMedals);
    SortDescDistinct(t, CountMedals, CountName);
    SameCounts(r, t, temp);
    r
  }

  /** A reordering of a tally is still a tally of the same names. */
  lemma SameCounts(r: seq<NameCount>, t: seq<NameCount>, temp: seq<Record>)
    requires multiset(r) == multiset(t)
    requires forall i :: 0 <= i < |t| ==> t[i].name in NameSet(temp) && t[i].medals == |Where(temp, NameIs(t[i].name))|
    requires forall n :: n in NameSet(temp) ==> exists i :: 0 <= i < |t| && t[i].name == n
    ensures forall i :: 0 <= i < |r| ==> r[i].name in NameSet(temp) && r[i].medals == |Where(temp, NameIs(r[i].name))|
    ensures forall n :: n in NameSet(temp) ==> exists i :: 0 <= i < |r| && r[i].name == n
  {
    SameMembers(r, t);
    forall i | 0 <= i < |r|
      ensures r[i].name in NameSet(temp) && r[i].medals == |Where(temp, NameIs(r[i].name))|
    {
      var k :| 0 <= k < |t| && t[k] == r[i];
    }
    forall n | n in NameSet(temp) ensures exists i :: 0 <= i < |r| && r[i].name == n {
      var k :| 0 <= k < |t| && t[k].name == n;
      var i :| 0 <= i < |r| && r[i] == t[k];
      assert r[i].name == n;
    }
  }

  /** Two sequences with the same multiset have the same positions' elements. */
  lemma SameMembers<T>(r: seq<T>, t: seq<T>)
    requires multiset(r) == multiset(t)
    ensures forall i :: 0 <= i < |r| ==> exists k :: 0 <= k < |t| && t[k] == r[i]
    ensures forall k :: 0 <= k < |t| ==> exists i :: 0 <= i < |r| && r[i] == t[k]
  {
    forall i | 0 <= i < |r| ensures exists k :: 0 <= k < |t| && t[k] == r[i] {
      assert r[i] in multiset(t);
    }
    forall k | 0 <= k < |t| ensures exists i :: 0 <= i < |r| && r[i] == t[k] {
      assert t[k] in multiset(r);
    }
  }

  /**
    A row of the merged table: a count row and, when the dataset has a
    record of that name, the projected columns of one such record.
  */
  datatype Joined<E> = Joined(name: string, medals: nat, extra: Option<E>)

  function JoinedName<E>(j: Joined<E>): string { j.name }

  function JoinedMedals<E>(j: Joined<E>): int { j.medals }

  /** The rows a left merge makes for one count row whose name has the records `rows`. */
  function Matches<E>(c: NameCount, rows: seq<Record>, project: Record -> E): (r: seq<Joined<E>>)
    ensures |r| == if rows == [] then 1 else |rows|
    ensures forall k :: 0 <= k < |r| ==> r[k].name == c.name && r[k].medals == c.medals
    ensures forall k :: 0 <= k < |rows| ==> r[k].extra == Some(project(rows[k]))
    ensures rows == [] ==> r[0].extra == None
  {
    if rows == [] then [Joined(c.name, c.medals, None)]
    else seq(|rows|, k requires 0 <= k < |rows| => Joined(c.name, c.medals, Some(project(rows[k]))))
  }

  /**
    `counts.merge(df[['Name', …]], on='Name', how='left')`: every count
    row in order, repeated once per record of that name, or once with no
    further columns when there is none.
  */
  function MergeLeft<E>(counts: seq<NameCount>, df: seq<Record>, project: Record -> E): seq<Joined<E>> {
    if counts == [] then []
    else Matches(counts[0], Where(df, NameIs(counts[0].name)), project) + MergeLeft(counts[1..], df, project)
  }

  /** Keeps each row whose name is neither in `seen` nor on an earlier row. */
  function DedupNamesFrom<E>(s: seq<Joined<E>>, seen: set<string>): (r: seq<Joined<E>>)
    ensures DistinctBy(r, JoinedName)
    ensures forall k :: 0 <= k < |r| ==> r[k] in s && r[k].name !in seen
  {
    if s == [] then []
    else if s[0].name in seen then DedupNamesFrom(s[1..], seen)
    else
      var rest := DedupNamesFrom(s[1..], seen + {s[0].name});
      var r := [s[0]] + rest;
      forall i, j | 0 <= i < j < |r| ensures r[i].name != r[j].name {
        assert r[j] == rest[j - 1];
        if i > 0 {
          assert r[i] == rest[i - 1];
        }
      }
      r
  }

  /** `drop_duplicates('Name')` on the merged table: the first row of every name. */
  function DedupNames<E>(s: seq<Joined<E>>): (r: seq<Joined<E>>)
    ensures DistinctBy(r, JoinedName)
    ensures forall k :: 0 <= k < |r| ==> r[k] in s
  {
    DedupNamesFrom(s, {})
  }

  /** The row the merge and deduplication keep for count row `c`. */
  function FirstMatch<E>(c: NameCount, df: seq<Record>, project: Record -> E): Joined<E> {
    var rows := Where(df, NameIs(c.name));
    Joined(c.name, c.medals, if rows == [] then None else Some(project(rows[0])))
  }

  lemma {:induction false} SkipSeen<E>(a: seq<Joined<E>>, b: seq<Joined<E>>, seen: set<string>)
    requires forall k :: 0 <= k < |a| ==> a[k].name in seen
    ensures DedupNamesFrom(a + b, seen) == DedupNamesFrom(b, seen)
  {
    if a != [] {
      assert (a + b)[0] == a[0] && a[0].name in seen;
      assert forall k :: 0 <= k < |a[1..]| ==> a[1..][k] == a[k + 1];
      assert (a + b)[1..] == a[1..] + b;
      SkipSeen(a[1..], b, seen);
    } else {
      assert a + b == b;
    }
  }

  /**
    Merging counts with distinct names and deduplicating on `Name` keeps,
    for every count row in order, the first record of that name.
  */
  lemma {:induction false} DedupMerge<E>(counts: seq<NameCount>, df: seq<Record>, project: Record -> E, seen: set<string>)
    requires DistinctBy(counts, CountName)
    requires forall i :: 0 <= i < |counts| ==> counts[i].name !in seen
    ensures DedupNamesFrom(MergeLeft(counts, df, project), seen)
         == seq(|counts|, i requires 0 <= i < |counts| => FirstMatch(counts[i], df, project))
  {
    if counts != [] {
      var c := counts[0];
      var m := Matches(c, Where(df, NameIs(c.name)), project);
      var rest := MergeLeft(counts[1..], df, project);
      assert MergeLeft(counts, df, project) == m + rest;
      assert (m + rest)[0] == m[0];
      assert (m + rest)[1..] == m[1..] + rest;
      assert m[0] == FirstMatch(c, df, project);
      SkipSeen(m[1..], rest, seen + {c.name});
      forall i, j | 0 <= i < j < |counts[1..]| ensures CountName(counts[1..][i]) != CountName(counts[1..][j]) {
        assert counts[1..][i] == counts[i + 1] && counts[1..][j] == counts[j + 1];
      }
      forall i | 0 <= i < |counts[1..]| ensures counts[1..][i].name !in seen + {c.name} {
        assert counts[1..][i] == counts[i + 1];
        assert CountName(counts[0]) != CountName(counts[i + 1]);
      }
      DedupMerge(counts[1..], df, project, seen + {c.name});
    }
  }

  /**
    The ranking pipeline shared by both queries: count the rows of `temp`
    per name, merge with `df` on `Name`, keep the first row of every name
    and take the first `n`.
  */
  function TopAthletes<E>(df: seq<Record>, temp: seq<Record>, project: Record -> E, n: nat): seq<Joined<E>> {
    Head(DedupNames(MergeLeft(ValueCounts(temp), df, project)), n)
  }

  /**
    What a top-`n` table of the names of `temp` is: at most `n` rows,
    pairwise distinct names, counts non-increasing, each count the number
    of rows of `temp` with that name, the further columns taken from the
    first record of that name in `df`, and every name left out ranking no
    higher than any name kept, with the table then full.
  */
  ghost predicate IsTopRanking<E>(r: seq<Joined<E>>, df: seq<Record>, temp: seq<Record>, project: Record -> E, n: nat) {
    && |r| <= n
    && DistinctBy(r, JoinedName)
    && NonIncreasing(r, JoinedMedals)
    && (forall i :: 0 <= i < |r| ==> r[i].name in NameSet(temp) && r[i].medals == |Where(temp, NameIs(r[i].name))|)
    && (forall i :: 0 <= i < |r| ==>
          Where(df, NameIs(r[i].name)) != [] && r[i].extra == Some(project(Where(df, NameIs(r[i].name))[0])))
    && (forall m :: m in NameSet(temp) && (forall i :: 0 <= i < |r| ==> r[i].name != m) ==>
          |r| == n && forall i :: 0 <= i < |r| ==> r[i].medals >= |Where(temp, NameIs(m))|)
  }

  /** The ranked table is the first rows of the count rows, each with its first record. */
  lemma TopRows<E>(df: seq<Record>, temp: seq<Record>, project: Record -> E, n: nat)
    ensures var vc, r := ValueCounts(temp), TopAthletes(df, temp, project, n);
      && |r| <= n && |r| <= |vc| && (|r| == n || |r| == |vc|)
      && forall i :: 0 <= i < |r| ==> r[i] == FirstMatch(vc[i], df, project)
  {
    var vc := ValueCounts(temp);
    DedupMerge(vc, df, project, {});
  }

  /** Order and distinctness carry over from the count rows to the ranked rows. */
  lemma TopOrder<E>(r: seq<Joined<E>>, vc: seq<NameCount>, df: seq<Record>, project: Record -> E)
    requires NonIncreasing(vc, CountMedals) && DistinctBy(vc, CountName)
    requires |r| <= |vc| && forall i :: 0 <= i < |r| ==> r[i] == FirstMatch(vc[i], df, project)
    ensures DistinctBy(r, JoinedName) && NonIncreasing(r, JoinedMedals)
  {
    forall i, j | 0 <= i < j < |r| ensures JoinedName(r[i]) != JoinedName(r[j]) && JoinedMedals(r[i]) >= JoinedMedals(r[j]) {
      assert CountName(vc[i]) != CountName(vc[j]) && CountMedals(vc[i]) >= CountMedals(vc[j]);
    }
  }

  /** Every ranked name has a record in `df`, whose columns the row carries. */
  lemma TopExtra<E>(r: seq<Joined<E>>, vc: seq<NameCount>, df: seq<Record>, temp: seq<Record>, project: Record -> E)
    requires forall x :: x in temp ==> x in df
    requires forall i :: 0 <= i < |vc| ==> vc[i].name in NameSet(temp)
    requires |r| <= |vc| && forall i :: 0 <= i < |r| ==> r[i] == FirstMatch(vc[i], df, project)
    ensures forall i :: 0 <= i < |r| ==>
      Where(df, NameIs(r[i].name)) != [] && r[i].extra == Some(project(Where(df, NameIs(r[i].name))[0]))
  {
    forall i | 0 <= i < |r|
      ensures Where(df, NameIs(r[i].name)) != [] && r[i].extra == Some(project(Where(df, NameIs(r[i].name))[0]))
    {
      var x :| x in temp && x.name == vc[i].name;
      assert x in Where(df, NameIs(vc[i].name));
    }
  }

  /** A name left out of a top-`n` table ranks no higher than any name in it, and the table is full. */
  lemma TopMissing<E>(r: seq<Joined<E>>, vc: seq<NameCount>, df: seq<Record>, temp: seq<Record>, project: Record -> E, n: nat)
    requires NonIncreasing(vc, CountMedals)
    requires forall i :: 0 <= i < |vc| ==> vc[i].medals == |Where(temp, NameIs(vc[i].name))|
    requires forall m :: m in NameSet(temp) ==> exists i :: 0 <= i < |vc| && vc[i].name == m
    requires |r| <= |vc| && (|r| == n || |r| == |vc|)
    requires forall i :: 0 <= i < |r| ==> r[i] == FirstMatch(vc[i], df, project)
    ensures forall m :: m in NameSet(temp) && (forall i :: 0 <= i < |r| ==> r[i].name != m) ==>
      |r| == n && forall i :: 0 <= i < |r| ==> r[i].medals >= |Where(temp, NameIs(m))|
  {
    forall m | m in NameSet(temp) && (forall i :: 0 <= i < |r| ==> r[i].name != m)
      ensures |r| == n && forall i :: 0 <= i < |r| ==> r[i].medals >= |Where(temp, NameIs(m))|
    {
      var k :| 0 <= k < |vc| && vc[k].name == m;
      assert forall i :: 0 <= i < |r| ==> vc[i].name != m;
      assert |r| <= k;
      forall i | 0 <= i < |r| ensures r[i].medals >= |Where(temp, NameIs(m))| {
        assert CountMedals(vc[i]) >= CountMedals(vc[k]);
      }
    }
  }

  lemma TopAthletesSpec<E>(df: seq<Record>, temp: seq<Record>, project: Record -> E, n: nat)
    requires forall x :: x in temp ==> x in df
    ensures IsTopRanking(TopAthletes(df, temp, project, n), df, temp, project, n)
  {
    var vc := ValueCounts(temp);
    var r := TopAthletes(df, temp, project, n);
    TopRows(df, temp, project, n);
    TopOrder(r, vc, df, project);
    TopExtra(r, vc, df, temp, project);
    TopMissing(r, vc, df, temp, project, n);
  }

  /** The athlete's sport and region, as `df[['Name', 'Sport', 'region']]` contributes them. */
  datatype SportRegion = SportRegion(sport: string, region: Option<string>)

  function SportAndRegion(x: Record): SportRegion { SportRegion(x.sport, x.region) }

  function SportOf(x: Record): string { x.sport }

  /** Filtering by name after a mask is filtering by both. */
  lemma WhereThenName(s: seq<Record>, c: Cond)
    ensures forall n :: Where(Where(s, c), NameIs(n)) == Where(s, Both(c, NameIs(n)))
  {
    forall n ensures Where(Where(s, c), NameIs(n)) == Where(s, Both(c, NameIs(n))) {
      WhereWhere(s, c, NameIs(n));
    }
  }

  /**
    `dropna(subset=['Medal'])`, then, unless `sport` is `Overall`, the rows
    of that sport. The rows keep their order and their repetitions, so each
    name has as many rows as the dataset has medal rows of it (in the sport).
  */
  function SportMedals(df: seq<Record>, sport: Choice<string>): (temp: seq<Record>)
    ensures forall x :: x in temp <==> x in df && x.medal.Some? && (sport.Only? ==> x.sport == sport.value)
    ensures IsSubsequence(temp, df)
    ensures sport.Overall? ==>
      forall n :: |Where(temp, NameIs(n))| == |Where(df, Both(HasMedal, NameIs(n)))|
    ensures sport.Only? ==>
      forall n :: |Where(temp, NameIs(n))| == |Where(df, Both(Both(HasMedal, SportIs(sport.value)), NameIs(n)))|
  {
    var withMedal := Where(df, HasMedal);
    match sport
    case Overall =>
      WhereThenName(df, HasMedal);
      withMedal
    case Only(s) =>
      WhereWhere(df, HasMedal, SportIs(s));
      WhereThenName(df, Both(HasMedal, SportIs(s)));
      SubsequenceTrans(Where(withMedal, SportIs(s)), withMedal, df);
      Where(withMedal, SportIs(s))
  }

  /** `most_successful(df, sport)`. */
  function MostSuccessful(df: seq<Record>, sport: Choice<string>): seq<Joined<SportRegion>> {
    TopAthletes(df, SportMedals(df, sport), SportAndRegion, 15)
  }

  /**
    The top 15 athletes by medal rows (in `sport`, unless `Overall`), each
    with the sport and region of their first record in the whole dataset.
  */
  lemma MostSuccessfulSpec(df: seq<Record>, sport: Choice<string>)
    ensures IsTopRanking(MostSuccessful(df, sport), df, SportMedals(df, sport), SportAndRegion, 15)
  {
    TopAthletesSpec(df, SportMedals(df, sport), SportAndRegion, 15);
  }

  /**
    `dropna(subset=['Medal'])`, then the rows whose region is `country`, in
    order and with their repetitions.
  */
  function CountryMedals(df: seq<Record>, country: string): (temp: seq<Record>)
    ensures forall x :: x in temp <==> x in df && x.medal.Some? && x.region == Some(country)
    ensures IsSubsequence(temp, df)
    ensures forall n :: |Where(temp, NameIs(n))| == |Where(df, Both(Both(HasMedal, RegionIs(country)), NameIs(n)))|
  {
    WhereWhere(df, HasMedal, RegionIs(country));
    WhereThenName(df, Both(HasMedal, RegionIs(country)));
    SubsequenceTrans(Where(Where(df, HasMedal), RegionIs(country)), Where(df, HasMedal), df);
    Where(Where(df, HasMedal), RegionIs(country))
  }

  /** `most_successful_countrywise(df, country)`. */
  function MostSuccessfulCountrywise(df: seq<Record>, country: string): seq<Joined<string>> {
    TopAthletes(df, CountryMedals(df, country), SportOf, 10)
  }

  /**
    The top 10 athletes of `country` by medal rows, each with the sport of
    their first record in the whole dataset.
  */
  lemma MostSuccessfulCountrywiseSpec(df: seq<Record>, country: string)
    ensures IsTopRanking(MostSuccessfulCountrywise(df, country), df, CountryMedals(df, country), SportOf, 10)
  {
    TopAthletesSpec(df, CountryMedals(df, country), SportOf, 10);
  }
}
