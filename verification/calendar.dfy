/**
  Calendar arithmetic on year–month pairs and on seasons.
  A season is numbered `year * 4 + ordinal` with Winter = 0, Spring = 1,
  Summer = 2, Fall = 3, so that the Winter running from December to February
  carries the year of its January.
 */
module Calendar {
  import opened Wrappers

  /** `datetime.MAXYEAR`: moving past December of this year raises. */
  const MaxYear: nat := 9999

  datatype YearMonth = YearMonth(year: nat, month: nat) {
    /** What `datetime` accepts: years 1..9999 and months 1..12. */
    predicate Valid() {
      1 <= year <= MaxYear && 1 <= month <= 12
    }
  }

  const LastMonth := YearMonth(MaxYear, 12)

  /** Months elapsed since January of year 0; `datetime` comparison is comparison of `Ord`. */
  function Ord(ym: YearMonth): int {
    ym.year * 12 + ym.month - 1
  }

  lemma OrdInjective(a: YearMonth, b: YearMonth)
    requires 1 <= a.month <= 12 && 1 <= b.month <= 12
    ensures Ord(a) == Ord(b) <==> a == b
  {
    if Ord(a) == Ord(b) {
      assert (a.year - b.year) * 12 == b.month - a.month;
    }
  }

  /** One calendar month later, the way the source steps: `replace(month=m + 1)`,
      or `replace(year=y + 1, month=1)` in December, which fails past `MaxYear`. */
  function Next(ym: YearMonth): (r: Option<YearMonth>)
    requires ym.Valid()
    ensures r.None? <==> ym == LastMonth
    ensures r.Some? ==> r.value.Valid() && Ord(r.value) == Ord(ym) + 1
  {
    if ym.month == 12 then
      if ym.year == MaxYear then None else Some(YearMonth(ym.year + 1, 1))
    else Some(YearMonth(ym.year, ym.month + 1))
  }

  /** Every month from `s` to `e`, both included, in calendar order. */
  function Months(s: YearMonth, e: YearMonth): (r: seq<YearMonth>)
    requires s.Valid() && e.Valid()
    ensures |r| == if Ord(s) <= Ord(e) then Ord(e) - Ord(s) + 1 else 0
    ensures forall i :: 0 <= i < |r| ==> r[i].Valid() && Ord(r[i]) == Ord(s) + i
    decreases Ord(e) - Ord(s)
  {
    if Ord(s) > Ord(e) then []
    else if Ord(s) == Ord(e) then [s]
    else [s] + Months(Next(s).value, e)
  }

  /** The range starts at `s`, ends at `e`, and each month is followed by the next one. */
  lemma MonthsGapless(s: YearMonth, e: YearMonth)
    requires s.Valid() && e.Valid() && Ord(s) <= Ord(e)
    ensures Months(s, e)[0] == s
    ensures Months(s, e)[|Months(s, e)| - 1] == e
    ensures forall i :: 0 <= i < |Months(s, e)| - 1 ==> Next(Months(s, e)[i]) == Some(Months(s, e)[i + 1])
  {
    var r := Months(s, e);
    OrdInjective(r[0], s);
    OrdInjective(r[|r| - 1], e);
    forall i | 0 <= i < |r| - 1
      ensures Next(r[i]) == Some(r[i + 1])
    {
      OrdInjective(Next(r[i]).value, r[i + 1]);
    }
  }

  datatype Season = Winter | Spring | Summer | Fall

  /** The position `sort_seasons` gives a season within its year. */
  function Ordinal(s: Season): (k: nat)
    ensures k < 4
  {
    match s
    case Winter => 0
    case Spring => 1
    case Summer => 2
    case Fall => 3
  }

  function SeasonAt(k: nat): (s: Season)
    requires k < 4
    ensures Ordinal(s) == k
  {
    [Winter, Spring, Summer, Fall][k]
  }

  function Name(s: Season): string {
    match s
    case Winter => "Winter"
    case Spring => "Spring"
    case Summer => "Summer"
    case Fall => "Fall"
  }

  /** Looking a season up by its name; only the four names are recognised. */
  function SeasonNamed(name: string): (r: Option<Season>)
    ensures r.Some? <==> name in ["Winter", "Spring", "Summer", "Fall"]
    ensures r.Some? ==> Name(r.value) == name
  {
    if name == "Winter" then Some(Winter)
    else if name == "Spring" then Some(Spring)
    else if name == "Summer" then Some(Summer)
    else if name == "Fall" then Some(Fall)
    else None
  }

  lemma NamedName(s: Season)
    ensures SeasonNamed(Name(s)) == Some(s)
  {
  }

  /** The season a month falls in, numbered `year * 4 + ordinal` (December counts towards the next year). */
  function SeasonIndex(ym: YearMonth): int {
    (Ord(ym) + 1) / 3
  }

  /** The `(year, ordinal)` pair `sort_seasons` produces. */
  datatype SeasonKey = SeasonKey(year: int, ordinal: int)

  /** Python's `>=`/`<=` on the pair: year first, then ordinal. */
  predicate KeyLe(a: SeasonKey, b: SeasonKey) {
    a.year < b.year || (a.year == b.year && a.ordinal <= b.ordinal)
  }

  function KeyOfIndex(i: int): SeasonKey {
    SeasonKey(i / 4, i % 4)
  }

  /** Comparing keys is comparing season numbers. */
  lemma KeyOrder(i: int, j: int)
    ensures KeyLe(KeyOfIndex(i), KeyOfIndex(j)) <==> i <= j
  {
    assert i == 4 * (i / 4) + i % 4;
    assert j == 4 * (j / 4) + j % 4;
  }

  /** A season number is at or after the key `(year, ordinal)` exactly when
      it is at least `year * 4 + ordinal`. */
  lemma KeyAtLeast(year: int, ordinal: int, j: int)
    requires 0 <= ordinal < 4
    ensures KeyLe(SeasonKey(year, ordinal), KeyOfIndex(j)) <==> year * 4 + ordinal <= j
  {
    var t := year * 4 + ordinal;
    assert t / 4 == year && t % 4 == ordinal;
    KeyOrder(t, j);
  }

  /** December belongs to the next year's Winter; every other month m to season m / 3 of its own year. */
  lemma SeasonIndexKey(ym: YearMonth)
    requires ym.Valid()
    ensures KeyOfIndex(SeasonIndex(ym)) ==
      if ym.month == 12 then SeasonKey(ym.year + 1, 0) else SeasonKey(ym.year, ym.month / 3)
  {
    var y, m := ym.year, ym.month;
    var i := SeasonIndex(ym);
    if m == 12 {
      assert Ord(ym) + 1 == 3 * (4 * (y + 1));
      assert i == 4 * (y + 1);
    } else {
      assert Ord(ym) + 1 == 3 * (4 * y + m / 3) + m % 3;
      assert i == 4 * y + m / 3;
    }
  }

  /** Moving one month on never moves the season back, and moves it on by at most one. */
  lemma SeasonIndexStep(ym: YearMonth)
    requires ym.Valid() && ym != LastMonth
    ensures SeasonIndex(ym) <= SeasonIndex(Next(ym).value) <= SeasonIndex(ym) + 1
  {
  }
}
