/**
  The data model of the Olympic participation dataset: one Record per
  athlete, event and result, the columns that queries select and
  deduplicate on, and the boolean masks that queries filter with.
*/
module Olympics {

  datatype Option<+T> = None | Some(value: T)

  /** A filter value: `Overall` means "no restriction on this axis". */
  datatype Choice<+T> = Overall | Only(value: T)

  datatype Medal = Gold | Silver | Bronze

  datatype Sex = M | F

  /**
    One row of the preprocessed dataset. `gold`, `silver` and `bronze` are
    the indicator columns the preprocessor derives from `medal`; `age`,
    `height` and `weight` are carried but never computed with.
  */
  datatype Record = Record(
    team: string, noc: string, games: string, year: int, city: string,
    sport: string, event: string, name: string, sex: Sex,
    age: Option<real>, height: Option<real>, weight: Option<real>,
    region: Option<string>, medal: Option<Medal>,
    gold: nat, silver: nat, bronze: nat)

  /** The columns a query can name in a `subset=` or a `groupby`. */
  datatype Column =
    | TeamCol | NocCol | GamesCol | YearCol | CityCol | SportCol | EventCol
    | NameCol | SexCol | RegionCol | MedalCol

  /** The value of one cell; `Null` is a missing value (NaN). */
  datatype Cell = Null | Text(text: string) | Number(number: int) | SexCell(sex: Sex) | MedalCell(medal: Medal)

  function CellOf(r: Record, c: Column): Cell {
    match c
    case TeamCol => Text(r.team)
    case NocCol => Text(r.noc)
    case GamesCol => Text(r.games)
    case YearCol => Number(r.year)
    case CityCol => Text(r.city)
    case SportCol => Text(r.sport)
    case EventCol => Text(r.event)
    case NameCol => Text(r.name)
    case SexCol => SexCell(r.sex)
    case RegionCol => if r.region.Some? then Text(r.region.value) else Null
    case MedalCol => if r.medal.Some? then MedalCell(r.medal.value) else Null
  }

  /** The key tuple of `r` on the columns `subset`, as `drop_duplicates` compares it. */
  function KeyOf(r: Record, subset: seq<Column>): seq<Cell> {
    seq(|subset|, i requires 0 <= i < |subset| => CellOf(r, subset[i]))
  }

  /** The key under which a team's medal is recorded once per athlete. */
  const MEDAL_SUBSET: seq<Column> := [TeamCol, NocCol, GamesCol, YearCol, CityCol, SportCol, EventCol, MedalCol]

  /** One athlete of one country. */
  const ATHLETE_SUBSET: seq<Column> := [NameCol, RegionCol]

  /** A boolean mask over records. */
  datatype Cond =
    | Always
    | YearIs(year: int)
    | RegionIs(region: string)
    | SportIs(sport: string)
    | NameIs(name: string)
    | SexIs(sex: Sex)
    | MedalIs(medal: Medal)
    | HasMedal
    | Both(left: Cond, right: Cond)

  /** A comparison with a missing `region` or `medal` is false, as NaN never equals a value. */
  predicate Holds(c: Cond, r: Record) {
    match c
    case Always => true
    case YearIs(y) => r.year == y
    case RegionIs(g) => r.region == Some(g)
    case SportIs(s) => r.sport == s
    case NameIs(n) => r.name == n
    case SexIs(x) => r.sex == x
    case MedalIs(m) => r.medal == Some(m)
    case HasMedal => r.medal.Some?
    case Both(a, b) => Holds(a, r) && Holds(b, r)
  }

  /** The indicator column of medal `m`. */
  function Indicator(r: Record, m: Medal): nat {
    match m
    case Gold => r.gold
    case Silver => r.silver
    case Bronze => r.bronze
  }

  /** The preprocessor's indicator columns: 1 for the medal won, 0 otherwise. */
  predicate IndicatorsAgree(r: Record) {
    && r.gold == (if r.medal == Some(Gold) then 1 else 0)
    && r.silver == (if r.medal == Some(Silver) then 1 else 0)
    && r.bronze == (if r.medal == Some(Bronze) then 1 else 0)
  }

  /** The region is looked up from the NOC code, so records with one NOC share a region. */
  predicate RegionFollowsNoc(df: seq<Record>) {
    forall a, b :: a in df && b in df && a.noc == b.noc ==> a.region == b.region
  }

  /** What the preprocessor guarantees of the dataset it hands over. */
  predicate Preprocessed(df: seq<Record>) {
    && (forall r :: r in df ==> IndicatorsAgree(r))
    && RegionFollowsNoc(df)
  }
}
