/**
  The table operations the queries are built from, as operations on
  sequences of records: a boolean-mask filter, `drop_duplicates` on a
  column subset, `groupby('Year').size()`, sorting and `head`.
*/
module Frames {
  import opened Olympics

  /** `a` is `b` with some elements left out, order kept. */
  predicate IsSubsequence<T(==)>(a: seq<T>, b: seq<T>)
    decreases |b|
  {
    a == [] || (b != [] && ((a[0] == b[0] && IsSubsequence(a[1..], b[1..])) || IsSubsequence(a, b[1..])))
  }

  lemma {:induction false} SubsequenceMembers<T>(a: seq<T>, b: seq<T>)
    requires IsSubsequence(a, b)
    ensures |a| <= |b|
    ensures forall x :: x in a ==> x in b
    decreases |b|
  {
    if a != [] {
      if a[0] == b[0] && IsSubsequence(a[1..], b[1..]) {
        SubsequenceMembers(a[1..], b[1..]);
        assert forall x :: x in a ==> x == a[0] || x in a[1..];
      } else {
        SubsequenceMembers(a, b[1..]);
      }
      assert forall x :: x in b[1..] ==> x in b;
    }
  }

  /** A subsequence of a subsequence is a subsequence. */
  lemma {:induction false} SubsequenceTrans<T>(a: seq<T>, b: seq<T>, c: seq<T>)
    requires IsSubsequence(a, b) && IsSubsequence(b, c)
    ensures IsSubsequence(a, c)
    decreases |c|
  {
    if a != [] {
      if b[0] == c[0] && IsSubsequence(b[1..], c[1..]) {
        if a[0] == b[0] && IsSubsequence(a[1..], b[1..]) {
          SubsequenceTrans(a[1..], b[1..], c[1..]);
        } else {
          SubsequenceTrans(a, b[1..], c[1..]);
        }
      } else {
        SubsequenceTrans(a, b, c[1..]);
      }
    }
  }

  // ---------------------------------------------------------------- masks

  /** `df[mask]`: the records satisfying `c`, in their original order. */
  function Where(s: seq<Record>, c: Cond): (r: seq<Record>)
    ensures |r| <= |s|
    ensures forall x :: x in r <==> x in s && Holds(c, x)
    ensures IsSubsequence(r, s)
  {
    if s == [] then []
    else if Holds(c, s[0]) then [s[0]] + Where(s[1..], c)
    else Where(s[1..], c)
  }

  /** The first record adds one to a filter's length exactly when it satisfies the mask. */
  lemma WhereCount(s: seq<Record>, c: Cond)
    requires s != []
    ensures |Where(s, c)| == (if Holds(c, s[0]) then 1 else 0) + |Where(s[1..], c)|
  {
  }

  /** Filtering twice is filtering once with both conditions. */
  lemma {:induction false} WhereWhere(s: seq<Record>, a: Cond, b: Cond)
    ensures Where(Where(s, a), b) == Where(s, Both(a, b))
  {
    if s != [] {
      WhereWhere(s[1..], a, b);
      var w := Where(s[1..], a);
      if Holds(a, s[0]) {
        assert Where(s, a) == [s[0]] + w;
        assert ([s[0]] + w)[0] == s[0] && ([s[0]] + w)[1..] == w;
        assert Holds(Both(a, b), s[0]) == Holds(b, s[0]);
      } else {
        assert Where(s, a) == w;
        assert !Holds(Both(a, b), s[0]);
      }
    }
  }

  /** Two masks that agree on every record select the same rows. */
  lemma {:induction false} WhereSame(s: seq<Record>, a: Cond, b: Cond)
    requires forall x :: x in s ==> Holds(a, x) == Holds(b, x)
    ensures Where(s, a) == Where(s, b)
  {
    if s != [] {
      assert forall x :: x in s[1..] ==> x in s;
      WhereSame(s[1..], a, b);
    }
  }

  lemma WhereAlways(s: seq<Record>)
    ensures Where(s, Always) == s
  {
  }

  // ------------------------------------------------------- drop_duplicates

  /** The distinct key tuples of `s` on `subset`. */
  function Keys(s: seq<Record>, subset: seq<Column>): set<seq<Cell>> {
    set x | x in s :: KeyOf(x, subset)
  }

  lemma KeysCons(s: seq<Record>, subset: seq<Column>)
    requires s != []
    ensures Keys(s, subset) == {KeyOf(s[0], subset)} + Keys(s[1..], subset)
  {
    assert forall x :: x in s <==> x == s[0] || x in s[1..];
  }

  /** No two records of `s` share a key tuple. */
  predicate DistinctKeys(s: seq<Record>, subset: seq<Column>) {
    s == [] || (KeyOf(s[0], subset) !in Keys(s[1..], subset) && DistinctKeys(s[1..], subset))
  }

  /** Keeps each record whose key is neither in `seen` nor on an earlier record. */
  function DedupFrom(s: seq<Record>, subset: seq<Column>, seen: set<seq<Cell>>): (r: seq<Record>)
    ensures IsSubsequence(r, s)
    ensures DistinctKeys(r, subset)
    ensures Keys(r, subset) == Keys(s, subset) - seen
  {
    if s == [] then []
    else
      KeysCons(s, subset);
      if KeyOf(s[0], subset) in seen then DedupFrom(s[1..], subset, seen)
      else
        var rest := DedupFrom(s[1..], subset, seen + {KeyOf(s[0], subset)});
        KeysCons([s[0]] + rest, subset);
        assert ([s[0]] + rest)[1..] == rest;
        [s[0]] + rest
  }

  /** `drop_duplicates(subset=…)`: the first record of every key tuple, in order. */
  function DropDuplicates(s: seq<Record>, subset: seq<Column>): (r: seq<Record>)
    ensures IsSubsequence(r, s)
    ensures DistinctKeys(r, subset)
    ensures Keys(r, subset) == Keys(s, subset)
  {
    DedupFrom(s, subset, {})
  }

  /** The first record of `s` whose key tuple is `k`. */
  function FirstWithKey(s: seq<Record>, subset: seq<Column>, k: seq<Cell>): (r: Record)
    requires k in Keys(s, subset)
    ensures r in s && KeyOf(r, subset) == k
  {
    KeysCons(s, subset);
    if KeyOf(s[0], subset) == k then s[0] else FirstWithKey(s[1..], subset, k)
  }

  lemma {:induction false} DedupFromKeepsFirst(s: seq<Record>, subset: seq<Column>, seen: set<seq<Cell>>, x: Record)
    requires x in DedupFrom(s, subset, seen)
    ensures KeyOf(x, subset) in Keys(s, subset) && x == FirstWithKey(s, subset, KeyOf(x, subset))
  {
    KeysCons(s, subset);
    var k := KeyOf(s[0], subset);
    if k in seen {
      DedupFromKeepsFirst(s[1..], subset, seen, x);
      assert KeyOf(x, subset) in Keys(DedupFrom(s[1..], subset, seen), subset);
    } else if x != s[0] {
      var rest := DedupFrom(s[1..], subset, seen + {k});
      assert x in rest;
      DedupFromKeepsFirst(s[1..], subset, seen + {k}, x);
      assert KeyOf(x, subset) in Keys(rest, subset);
    }
  }

  /** Every record that survives is the first one of its key tuple. */
  lemma DropDuplicatesKeepsFirst(s: seq<Record>, subset: seq<Column>, x: Record)
    requires x in DropDuplicates(s, subset)
    ensures KeyOf(x, subset) in Keys(s, subset)
    ensures x == FirstWithKey(s, subset, KeyOf(x, subset))
  {
    DedupFromKeepsFirst(s, subset, {}, x);
  }

  lemma {:induction false} DedupFromDistinct(s: seq<Record>, subset: seq<Column>, seen: set<seq<Cell>>)
    requires DistinctKeys(s, subset) && Keys(s, subset) !! seen
    ensures DedupFrom(s, subset, seen) == s
  {
    if s != [] {
      KeysCons(s, subset);
      DedupFromDistinct(s[1..], subset, seen + {KeyOf(s[0], subset)});
    }
  }

  /** Deduplicating a second time changes nothing. */
  lemma DropDuplicatesIdempotent(s: seq<Record>, subset: seq<Column>)
    ensures DropDuplicates(DropDuplicates(s, subset), subset) == DropDuplicates(s, subset)
  {
    DedupFromDistinct(DropDuplicates(s, subset), subset, {});
  }

  /** With distinct keys there are as many key tuples as records. */
  lemma {:induction false} DistinctKeysCount(s: seq<Record>, subset: seq<Column>)
    requires DistinctKeys(s, subset)
    ensures |Keys(s, subset)| == |s|
  {
    if s != [] {
      KeysCons(s, subset);
      DistinctKeysCount(s[1..], subset);
    }
  }

  lemma {:induction false} WhereKeys(s: seq<Record>, subset: seq<Column>, c: Cond)
    ensures Keys(Where(s, c), subset) <= Keys(s, subset)
  {
  }

  /** A filter of a deduplicated table is still deduplicated. */
  lemma {:induction false} WhereDistinct(s: seq<Record>, subset: seq<Column>, c: Cond)
    requires DistinctKeys(s, subset)
    ensures DistinctKeys(Where(s, c), subset)
  {
    if s != [] {
      KeysCons(s, subset);
      WhereDistinct(s[1..], subset, c);
      WhereKeys(s[1..], subset, c);
      if Holds(c, s[0]) {
        var w := [s[0]] + Where(s[1..], c);
        assert w[1..] == Where(s[1..], c);
      }
    }
  }

  /** Whether a record passes `c` is decided by its key tuple. */
  ghost predicate Respects(c: Cond, s: seq<Record>, subset: seq<Column>) {
    forall a, b :: a in s && b in s && KeyOf(a, subset) == KeyOf(b, subset) ==> Holds(c, a) == Holds(c, b)
  }

  lemma {:induction false} WhereDedupFrom(s: seq<Record>, subset: seq<Column>, c: Cond, seenAll: set<seq<Cell>>, seenKept: set<seq<Cell>>)
    requires Respects(c, s, subset)
    requires forall x :: x in s && Holds(c, x) ==> (KeyOf(x, subset) in seenAll <==> KeyOf(x, subset) in seenKept)
    ensures Where(DedupFrom(s, subset, seenAll), c) == DedupFrom(Where(s, c), subset, seenKept)
  {
    if s != [] {
      var x, t := s[0], s[1..];
      var k := KeyOf(x, subset);
      assert forall y :: y in t ==> y in s;
      if Holds(c, x) {
        assert Where(s, c) == [x] + Where(t, c);
        assert ([x] + Where(t, c))[1..] == Where(t, c);
        if k in seenAll {
          WhereDedupFrom(t, subset, c, seenAll, seenKept);
        } else {
          WhereDedupFrom(t, subset, c, seenAll + {k}, seenKept + {k});
        }
      } else {
        if k in seenAll {
          WhereDedupFrom(t, subset, c, seenAll, seenKept);
        } else {
          WhereDedupFrom(t, subset, c, seenAll + {k}, seenKept);
        }
      }
    }
  }

  /** Filtering on a condition of the key commutes with deduplication. */
  lemma DropDuplicatesWhere(s: seq<Record>, subset: seq<Column>, c: Cond)
    requires Respects(c, s, subset)
    ensures Where(DropDuplicates(s, subset), c) == DropDuplicates(Where(s, c), subset)
  {
    WhereDedupFrom(s, subset, c, {}, {});
  }

  // ------------------------------------------------------------ columns

  /** The distinct values of one column, a missing value counting as `Null`. */
  function Values(s: seq<Record>, col: Column): set<Cell> {
    set x | x in s :: CellOf(x, col)
  }

  lemma ValuesCons(s: seq<Record>, col: Column)
    requires s != []
    ensures Values(s, col) == {CellOf(s[0], col)} + Values(s[1..], col)
  {
    assert forall x :: x in s <==> x == s[0] || x in s[1..];
  }

  function YearSet(s: seq<Record>): set<int> {
    set x | x in s :: x.year
  }

  /** A year no record has selects nothing. */
  lemma {:induction false} WhereYearMissing(s: seq<Record>, y: int)
    requires y !in YearSet(s)
    ensures Where(s, YearIs(y)) == []
  {
    if s != [] {
      assert s[0] in s;
      assert YearSet(s[1..]) <= YearSet(s) by {
        assert forall x :: x in s[1..] ==> x in s;
      }
      WhereYearMissing(s[1..], y);
    }
  }

  /** The non-missing regions, as `dropna()` leaves them. */
  function RegionSet(s: seq<Record>): set<string> {
    set x | x in s && x.region.Some? :: x.region.value
  }

  function SportSet(s: seq<Record>): set<string> {
    set x | x in s :: x.sport
  }

  function NameSet(s: seq<Record>): set<string> {
    set x | x in s :: x.name
  }

  /** `sum()` of the indicator column of medal `m`. */
  function MedalSum(s: seq<Record>, m: Medal): nat {
    if s == [] then 0 else Indicator(s[0], m) + MedalSum(s[1..], m)
  }

  /** Summing the indicator column counts the rows that won that medal. */
  lemma {:induction false} MedalSumCounts(s: seq<Record>, m: Medal)
    requires forall x :: x in s ==> IndicatorsAgree(x)
    ensures MedalSum(s, m) == |Where(s, MedalIs(m))|
  {
    if s != [] {
      assert forall x :: x in s[1..] ==> x in s;
      MedalSumCounts(s[1..], m);
      assert s[0] in s;
      assert Indicator(s[0], m) == if Holds(MedalIs(m), s[0]) then 1 else 0;
    }
  }

  // ------------------------------------------------------------ ordering

  predicate Increasing(xs: seq<int>) {
    forall i, j :: 0 <= i < j < |xs| ==> xs[i] < xs[j]
  }

  lemma PrependIncreasing(y: int, xs: seq<int>)
    requires Increasing(xs)
    requires forall k :: 0 <= k < |xs| ==> y < xs[k]
    ensures Increasing([y] + xs)
  {
    var r := [y] + xs;
    forall i, j | 0 <= i < j < |r| ensures r[i] < r[j] {
      assert r[j] == xs[j - 1];
      if i > 0 {
        assert r[i] == xs[i - 1];
      }
    }
  }

  function InsertUnique(y: int, xs: seq<int>): (r: seq<int>)
    requires Increasing(xs)
    ensures Increasing(r)
    ensures forall z :: z in r <==> z == y || z in xs
  {
    if xs == [] || y < xs[0] then
      PrependIncreasing(y, xs);
      [y] + xs
    else if y == xs[0] then xs
    else
      var rest := InsertUnique(y, xs[1..]);
      forall k | 0 <= k < |rest| ensures xs[0] < rest[k] {
        assert rest[k] in rest;
        if rest[k] != y {
          assert rest[k] in xs[1..];
          var m :| 0 <= m < |xs[1..]| && xs[1..][m] == rest[k];
          assert xs[m + 1] == rest[k];
        }
      }
      PrependIncreasing(xs[0], rest);
      [xs[0]] + rest
  }

  /** The distinct values of `xs`, ascending. */
  function SortUnique(xs: seq<int>): (r: seq<int>)
    ensures Increasing(r)
    ensures forall z :: z in r <==> z in xs
  {
    if xs == [] then [] else InsertUnique(xs[0], SortUnique(xs[1..]))
  }

  /** The group keys of `groupby('Year')`: every year once, ascending. */
  function SortedYears(s: seq<Record>): (ys: seq<int>)
    ensures Increasing(ys)
    ensures forall y :: y in ys <==> y in YearSet(s)
  {
    var column := seq(|s|, i requires 0 <= i < |s| => s[i].year);
    assert forall y :: y in column <==> y in YearSet(s) by {
      forall y | y in YearSet(s) ensures y in column {
        var x :| x in s && x.year == y;
        var i :| 0 <= i < |s| && s[i] == x;
        assert column[i] == y;
      }
    }
    SortUnique(column)
  }

  /** Python's ordering of strings: code point by code point, a proper prefix first. */
  predicate TextLess(a: string, b: string) {
    b != [] && (a == [] || a[0] < b[0] || (a[0] == b[0] && TextLess(a[1..], b[1..])))
  }

  lemma {:induction false} TextLessIrreflexive(a: string)
    ensures !TextLess(a, a)
  {
    if a != [] {
      TextLessIrreflexive(a[1..]);
    }
  }

  lemma {:induction false} TextLessTotal(a: string, b: string)
    ensures a == b || TextLess(a, b) || TextLess(b, a)
  {
    if a != [] && b != [] && a[0] == b[0] {
      TextLessTotal(a[1..], b[1..]);
      if a[1..] == b[1..] {
        assert a == [a[0]] + a[1..] && b == [b[0]] + b[1..];
      }
    }
  }

  lemma {:induction false} TextLessTransitive(a: string, b: string, c: string)
    requires TextLess(a, b) && TextLess(b, c)
    ensures TextLess(a, c)
  {
    if a != [] && a[0] == b[0] && b[0] == c[0] {
      TextLessTransitive(a[1..], b[1..], c[1..]);
    }
  }

  predicate IncreasingTexts(xs: seq<string>) {
    forall i, j :: 0 <= i < j < |xs| ==> TextLess(xs[i], xs[j])
  }

  function InsertText(y: string, xs: seq<string>): (r: seq<string>)
    requires IncreasingTexts(xs)
    ensures IncreasingTexts(r)
    ensures forall z :: z in r <==> z == y || z in xs
  {
    if xs == [] then [y]
    else if TextLess(y, xs[0]) then
      assert forall j :: 0 <= j < |xs| ==> TextLess(y, xs[j]) by {
        forall j | 0 < j < |xs| ensures TextLess(y, xs[j]) {
          TextLessTransitive(y, xs[0], xs[j]);
        }
      }
      [y] + xs
    else if y == xs[0] then xs
    else
      TextLessTotal(y, xs[0]);
      var rest := InsertText(y, xs[1..]);
      assert forall z :: z in rest ==> TextLess(xs[0], z);
      [xs[0]] + rest
  }

  /** The distinct values of `xs` in Python's `sorted` order. */
  function SortTexts(xs: seq<string>): (r: seq<string>)
    ensures IncreasingTexts(r)
    ensures forall z :: z in r <==> z in xs
  {
    if xs == [] then [] else InsertText(xs[0], SortTexts(xs[1..]))
  }

  /** `sorted(np.unique(df['region'].dropna()))`. */
  function SortedRegions(s: seq<Record>): (rs: seq<string>)
    ensures IncreasingTexts(rs)
    ensures forall g :: g in rs <==> g in RegionSet(s)
  {
    if s == [] then []
    else if s[0].region.Some? then
      assert RegionSet(s) == {s[0].region.value} + RegionSet(s[1..]) by {
        assert forall x :: x in s <==> x == s[0] || x in s[1..];
      }
      InsertText(s[0].region.value, SortedRegions(s[1..]))
    else
      assert RegionSet(s) == RegionSet(s[1..]) by {
        assert forall x :: x in s <==> x == s[0] || x in s[1..];
      }
      SortedRegions(s[1..])
  }

  /** The distinct sports of `s`, ascending. */
  function SortedSports(s: seq<Record>): (ss: seq<string>)
    ensures IncreasingTexts(ss)
    ensures forall g :: g in ss <==> g in SportSet(s)
  {
    if s == [] then []
    else
      assert SportSet(s) == {s[0].sport} + SportSet(s[1..]) by {
        assert forall x :: x in s <==> x == s[0] || x in s[1..];
      }
      InsertText(s[0].sport, SortedSports(s[1..]))
  }

  predicate NonIncreasing<T>(s: seq<T>, rank: T -> int) {
    forall i, j :: 0 <= i < j < |s| ==> rank(s[i]) >= rank(s[j])
  }

  lemma PrependNonIncreasing<T>(x: T, s: seq<T>, rank: T -> int)
    requires NonIncreasing(s, rank)
    requires forall k :: 0 <= k < |s| ==> rank(x) >= rank(s[k])
    ensures NonIncreasing([x] + s, rank)
  {
    var r := [x] + s;
    forall i, j | 0 <= i < j < |r| ensures rank(r[i]) >= rank(r[j]) {
      assert r[j] == s[j - 1];
      if i > 0 {
        assert r[i] == s[i - 1];
      }
    }
  }

  /** Inserts `x` before the first element that ranks no higher. */
  function InsertDesc<T>(x: T, s: seq<T>, rank: T -> int): (r: seq<T>)
    requires NonIncreasing(s, rank)
    ensures NonIncreasing(r, rank)
    ensures multiset(r) == multiset(s) + multiset{x}
  {
    if s == [] || rank(x) >= rank(s[0]) then
      PrependNonIncreasing(x, s, rank);
      [x] + s
    else
      var rest := InsertDesc(x, s[1..], rank);
      assert s == [s[0]] + s[1..];
      forall k | 0 <= k < |rest| ensures rank(s[0]) >= rank(rest[k]) {
        var z := rest[k];
        assert z in multiset(s[1..]) + multiset{x};
        if z != x {
          assert z in s[1..];
        }
      }
      PrependNonIncreasing(s[0], rest, rank);
      [s[0]] + rest
  }

  /** `sort_values(ascending=False)` on the column `rank`; the order of ties is not specified. */
  function SortDesc<T>(s: seq<T>, rank: T -> int): (r: seq<T>)
    ensures NonIncreasing(r, rank)
    ensures multiset(r) == multiset(s)
  {
    if s == [] then []
    else
      assert s == [s[0]] + s[1..];
      InsertDesc(s[0], SortDesc(s[1..], rank), rank)
  }

  /** No two elements of `s` have the same `key`. */
  predicate DistinctBy<T, K(==)>(s: seq<T>, key: T -> K) {
    forall i, j :: 0 <= i < j < |s| ==> key(s[i]) != key(s[j])
  }

  lemma {:induction false} InsertDescDistinct<T, K>(x: T, s: seq<T>, rank: T -> int, key: T -> K)
    requires NonIncreasing(s, rank) && DistinctBy(s, key)
    requires forall y :: y in s ==> key(y) != key(x)
    ensures DistinctBy(InsertDesc(x, s, rank), key)
  {
    var r := InsertDesc(x, s, rank);
    if s == [] || rank(x) >= rank(s[0]) {
      forall i, j | 0 <= i < j < |r| ensures key(r[i]) != key(r[j]) {
        if i > 0 {
          assert r[i] == s[i - 1] && r[j] == s[j - 1];
        } else {
          assert r[j] in s;
        }
      }
    } else {
      var rest := InsertDesc(x, s[1..], rank);
      assert DistinctBy(s[1..], key);
      InsertDescDistinct(x, s[1..], rank, key);
      forall i, j | 0 <= i < j < |r| ensures key(r[i]) != key(r[j]) {
        if i == 0 {
          var z := rest[j - 1];
          assert z in multiset(rest);
          if z != x {
            assert z in multiset(s[1..]);
            var k :| 0 <= k < |s[1..]| && s[1..][k] == z;
            assert s[k + 1] == z;
          } else {
            assert s[0] in s;
          }
        } else {
          assert r[i] == rest[i - 1] && r[j] == rest[j - 1];
        }
      }
    }
  }

  /** Sorting keeps keys distinct. */
  lemma {:induction false} SortDescDistinct<T, K>(s: seq<T>, rank: T -> int, key: T -> K)
    requires DistinctBy(s, key)
    ensures DistinctBy(SortDesc(s, rank), key)
  {
    if s != [] {
      var rest := SortDesc(s[1..], rank);
      assert DistinctBy(s[1..], key);
      SortDescDistinct(s[1..], rank, key);
      forall y | y in rest ensures key(y) != key(s[0]) {
        assert y in multiset(rest);
        assert y in multiset(s[1..]);
        var k :| 0 <= k < |s[1..]| && s[1..][k] == y;
        assert s[k + 1] == y;
      }
      InsertDescDistinct(s[0], rest, rank, key);
    }
  }

  /** `head(n)`. */
  function Head<T>(s: seq<T>, n: nat): (r: seq<T>)
    ensures |r| <= n && |r| <= |s|
    ensures |r| == n || |r| == |s|
    ensures r == s[..|r|]
  {
    if |s| <= n then s else s[..n]
  }

  // ------------------------------------------------------------ grouping

  datatype YearCount = YearCount(year: int, count: nat)

  function RowYears(rows: seq<YearCount>): set<int> {
    set row | row in rows :: row.year
  }

  /** `groupby('Year').size()`: one row per year of `s`, ascending, with its number of rows. */
  function SizeByYear(s: seq<Record>): (rows: seq<YearCount>)
    ensures forall i, j :: 0 <= i < j < |rows| ==> rows[i].year < rows[j].year
    ensures RowYears(rows) == YearSet(s)
    ensures forall i :: 0 <= i < |rows| ==> 0 < rows[i].count == |Where(s, YearIs(rows[i].year))|
  {
    var ys := SortedYears(s);
    var rows := seq(|ys|, i requires 0 <= i < |ys| => YearCount(ys[i], |Where(s, YearIs(ys[i]))|));
    assert RowYears(rows) == YearSet(s) by {
      forall y | y in YearSet(s) ensures y in RowYears(rows) {
        var i :| 0 <= i < |ys| && ys[i] == y;
        assert rows[i] in rows;
      }
    }
    assert forall i :: 0 <= i < |rows| ==> 0 < rows[i].count by {
      forall i | 0 <= i < |rows| ensures 0 < rows[i].count {
        assert ys[i] in YearSet(s);
        var x :| x in s && x.year == ys[i];
        assert x in Where(s, YearIs(ys[i]));
      }
    }
    rows
  }

  /** The count a year-indexed table holds for `y`, 0 where it has no row (`fillna(0)`). */
  function CountFor(rows: seq<YearCount>, y: int): nat {
    if rows == [] then 0 else if rows[0].year == y then rows[0].count else CountFor(rows[1..], y)
  }

  lemma {:induction false} CountForAt(rows: seq<YearCount>, i: nat)
    requires i < |rows|
    requires forall a, b :: 0 <= a < b < |rows| ==> rows[a].year < rows[b].year
    ensures CountFor(rows, rows[i].year) == rows[i].count
  {
    if i > 0 {
      CountForAt(rows[1..], i - 1);
    }
  }

  lemma {:induction false} CountForMissing(rows: seq<YearCount>, y: int)
    requires y !in RowYears(rows)
    ensures CountFor(rows, y) == 0
  {
    if rows != [] {
      assert rows[0] in rows;
      assert RowYears(rows[1..]) <= RowYears(rows) by {
        forall z | z in RowYears(rows[1..]) ensures z in RowYears(rows) {
          var row :| row in rows[1..] && row.year == z;
          assert row in rows;
        }
      }
      CountForMissing(rows[1..], y);
    }
  }

  /** Every year, present or not, reads back as the number of rows of that year. */
  lemma SizeByYearCount(s: seq<Record>, y: int)
    ensures CountFor(SizeByYear(s), y) == |Where(s, YearIs(y))|
  {
    var rows := SizeByYear(s);
    if y in YearSet(s) {
      var row :| row in rows && row.year == y;
      var i :| 0 <= i < |rows| && rows[i] == row;
      CountForAt(rows, i);
    } else {
      CountForMissing(rows, y);
      if Where(s, YearIs(y)) != [] {
        assert Where(s, YearIs(y))[0] in Where(s, YearIs(y));
      }
    }
  }
}
