/**
  `aggregate_by_season` of `backend/spotify_utils.py`: count the dates per
  season, span the seasons from the earliest to the latest date, keep those
  from the requested start season on, and read each one's count.
 */
module SeasonCounts {
  import opened Wrappers
  import opened Seqs
  import opened Digits
  import opened Calendar
  import opened MonthText
  import opened SpotifyUtils

  /** A chart: one count per label, in label order. */
  datatype Histogram<L> = Histogram(labels: seq<L>, data: seq<nat>)

  /** `date.split("-")[:2]`: the year and month fields, or fewer. */
  function DateFields(date: string): (f: seq<string>)
    ensures 1 <= |f| <= 2
    ensures forall i :: 0 <= i < |f| ==> '-' !in f[i]
  {
    Take(Split(date, '-'), 2)
  }

  /** The season the counting loop files a date under; `None` when the date
      is skipped: fewer than two fields or a non-integer part (both a
      `ValueError` the loop catches), or a month outside 1..12. */
  function DateSeason(date: string): (r: Option<SeasonLabel>)
    ensures r.Some? ==> |DateFields(date)| == 2
    ensures r.Some? ==> MonthToSeason(DateFields(date)[0], DateFields(date)[1]) == Ok(r)
    ensures |DateFields(date)| == 2 && MonthToSeason(DateFields(date)[0], DateFields(date)[1]).Ok? ==>
              r == MonthToSeason(DateFields(date)[0], DateFields(date)[1]).value
  {
    var f := DateFields(date);
    if |f| < 2 then None
    else match MonthToSeason(f[0], f[1])
      case Err(_) => None
      case Ok(season) => season
  }

  /** Each date's season, `None` for a date the loop skips. */
  function DateSeasons(dates: seq<string>): (r: seq<Option<SeasonLabel>>)
    ensures |r| == |dates|
    ensures forall i :: 0 <= i < |dates| ==> r[i] == DateSeason(dates[i])
  {
    seq(|dates|, i requires 0 <= i < |dates| => DateSeason(dates[i]))
  }

  /** The seasons of the counted dates, in date order: `season_counts[x]` is
      how often `x` occurs here. */
  function Classified(dates: seq<string>): (r: seq<SeasonLabel>)
    ensures |r| <= |dates|
    ensures r == [] <==> forall i :: 0 <= i < |dates| ==> DateSeason(dates[i]).None?
  {
    Somes(DateSeasons(dates))
  }

  /** A season occurs in the classification as often as there are dates with
      that season: the skipped dates drop out and nothing else does. */
  lemma ClassifiedCount(dates: seq<string>, x: SeasonLabel)
    ensures Count(Classified(dates), x) == Count(DateSeasons(dates), Some(x))
  {
    CountSomes(DateSeasons(dates), x);
  }

  /** When every date is counted, the classification is the dates' seasons, one each. */
  lemma ClassifiedAll(dates: seq<string>)
    requires forall i :: 0 <= i < |dates| ==> DateSeason(dates[i]).Some?
    ensures |Classified(dates)| == |dates|
    ensures forall i :: 0 <= i < |dates| ==> Classified(dates)[i] == DateSeason(dates[i]).value
  {
    SomesAll(DateSeasons(dates));
  }

  /** `[s for s in all_seasons if sort_seasons(s) >= (int(start_year), ordinal)]`.
      `int(start_year)` is only evaluated once there is an element to compare. */
  function FilterFrom(all: seq<SeasonLabel>, startYear: string, ordinal: int): (r: Result<seq<SeasonLabel>, Error>)
    ensures r.Ok? <==> all == [] || (ParseInt(startYear).Some? && forall i :: 0 <= i < |all| ==> SortSeasons(all[i]).Some?)
    ensures r.Err? ==> r.error == NotAnInteger
    ensures r.Ok? ==> |r.value| <= |all| && forall j :: 0 <= j < |r.value| ==> r.value[j] in all
    ensures r.Ok? && all != [] ==>
      forall i :: 0 <= i < |all| ==>
        (all[i] in r.value <==> KeyLe(SeasonKey(ParseInt(startYear).value, ordinal), SortSeasons(all[i]).value))
    decreases |all|
  {
    if all == [] then Ok([])
    else match (SortSeasons(all[0]), ParseInt(startYear))
      case (None, _) => Err(NotAnInteger)
      case (_, None) => Err(NotAnInteger)
      case (Some(key), Some(y)) =>
        match FilterFrom(all[1..], startYear, ordinal)
        case Err(e) => Err(e)
        case Ok(rest) =>
          assert forall i :: 1 <= i < |all| ==> all[i] == all[1..][i - 1];
          if KeyLe(SeasonKey(y, ordinal), key) then Ok([all[0]] + rest) else Ok(rest)
  }

  /** Filtering keeps a list free of repeats. */
  lemma {:induction false} FilterFromDistinct(all: seq<SeasonLabel>, startYear: string, ordinal: int)
    requires NoDuplicates(all)
    requires FilterFrom(all, startYear, ordinal).Ok?
    ensures NoDuplicates(FilterFrom(all, startYear, ordinal).value)
    decreases |all|
  {
    if all != [] {
      var tail := all[1..];
      assert NoDuplicates(tail) by {
        assert forall i :: 0 <= i < |tail| ==> tail[i] == all[i + 1];
      }
      FilterFromDistinct(tail, startYear, ordinal);
      assert all[0] !in tail by {
        assert forall i :: 0 <= i < |tail| ==> tail[i] == all[i + 1];
      }
    }
  }

  /** `start_date` and `end_date` of `aggregate_by_season`: the first and
      last of the sorted field lists, glued back with a dash;
      `MissingDatePart` when one of them has no month field. */
  function DateSpan(dates: seq<string>): (r: Result<(string, string), Error>)
    requires |dates| > 0
    ensures r.Err? ==> r.error == MissingDatePart
  {
    var fields := seq(|dates|, i requires 0 <= i < |dates| => DateFields(dates[i]));
    var first := Least(fields, ListLt);
    var last := Greatest(fields, ListLt);
    if |first| < 2 || |last| < 2 then Err(MissingDatePart)
    else Ok((first[0] + "-" + first[1], last[0] + "-" + last[1]))
  }

  /** The span comes from a date whose fields nothing sorts below and one whose
      fields nothing sorts above; it fails exactly when one of those two has
      no month field, and otherwise joins each one's fields with a dash. */
  lemma DateSpanEnds(dates: seq<string>) returns (a: nat, b: nat)
    requires |dates| > 0
    ensures a < |dates| && b < |dates|
    ensures forall i :: 0 <= i < |dates| ==>
              !ListLt(DateFields(dates[i]), DateFields(dates[a])) && !ListLt(DateFields(dates[b]), DateFields(dates[i]))
    ensures DateSpan(dates).Err? <==> |DateFields(dates[a])| < 2 || |DateFields(dates[b])| < 2
    ensures DateSpan(dates).Ok? ==>
              var fa, fb := DateFields(dates[a]), DateFields(dates[b]);
              DateSpan(dates).value == (fa[0] + "-" + fa[1], fb[0] + "-" + fb[1])
  {
    var fields := seq(|dates|, i requires 0 <= i < |dates| => DateFields(dates[i]));
    ListExtremes(fields);
    var first, last := Least(fields, ListLt), Greatest(fields, ListLt);
    a :| 0 <= a < |fields| && fields[a] == first;
    b :| 0 <= b < |fields| && fields[b] == last;
    assert forall i :: 0 <= i < |dates| ==> fields[i] == DateFields(dates[i]);
  }

  /** `start_season.split(" ")` unpacked into a season name and a year text,
      the name checked against the four seasons. */
  function StartSeason(startSeason: string): (r: Result<(Season, string), Error>)
    ensures r.Ok? <==> |Split(startSeason, ' ')| == 2 && SeasonNamed(Split(startSeason, ' ')[0]).Some?
    ensures r.Ok? ==> Name(r.value.0) + " " + r.value.1 == startSeason
  {
    var parts := Split(startSeason, ' ');
    if |parts| != 2 then Err(MalformedStartSeason)
    else match SeasonNamed(parts[0])
      case None => Err(InvalidStartSeason)
      case Some(season) =>
        JoinSplit(startSeason, ' ');
        Ok((season, parts[1]))
  }

  /** `aggregate_by_season(added_dates, start_season)`. */
  function AggregateBySeason(dates: seq<string>, startSeason: string): (r: Result<Histogram<SeasonLabel>, Error>)
    ensures Classified(dates) == [] ==> r == Ok(Histogram([], []))
    ensures r.Ok? ==> |r.value.labels| == |r.value.data|
    ensures r.Ok? ==> forall i :: 0 <= i < |r.value.labels| ==> r.value.data[i] == Count(Classified(dates), r.value.labels[i])
    ensures r.Ok? && Classified(dates) != [] ==> StartSeason(startSeason).Ok?
    ensures Classified(dates) != [] && StartSeason(startSeason).Err? ==> r.Err?
  {
    var counted := Classified(dates);
    if counted == [] then Ok(Histogram([], []))
    else match DateSpan(dates)
      case Err(e) => Err(e)
      case Ok((startText, endText)) =>
        match StartSeason(startSeason)
        case Err(e) => Err(e)
        case Ok((season, startYear)) =>
          match SeasonRange(startText, endText)
          case Err(e) => Err(e)
          case Ok(all) =>
            match FilterFrom(all, startYear, Ordinal(season))
            case Err(e) => Err(e)
            case Ok(labels) => Ok(Histogram(labels, CountsFor(counted, labels)))
  }

  /** Each bar counts the dates whose season is its label; the dates the loop
      skips are in no bar. */
  lemma SeasonDataCounts(dates: seq<string>, startSeason: string)
    ensures AggregateBySeason(dates, startSeason).Ok? ==>
      var h := AggregateBySeason(dates, startSeason).value;
      forall i :: 0 <= i < |h.labels| ==> h.data[i] == Count(DateSeasons(dates), Some(h.labels[i]))
  {
    var r := AggregateBySeason(dates, startSeason);
    if r.Ok? {
      forall i | 0 <= i < |r.value.labels|
        ensures r.value.data[i] == Count(DateSeasons(dates), Some(r.value.labels[i]))
      {
        ClassifiedCount(dates, r.value.labels[i]);
      }
    }
  }

  /** What a nonempty filter keeps sorts at or after the start key. */
  lemma FilterFromKeyed(all: seq<SeasonLabel>, startYear: string, ordinal: int)
    requires FilterFrom(all, startYear, ordinal).Ok? && FilterFrom(all, startYear, ordinal).value != []
    ensures ParseInt(startYear).Some?
    ensures forall i :: 0 <= i < |FilterFrom(all, startYear, ordinal).value| ==>
              && SortSeasons(FilterFrom(all, startYear, ordinal).value[i]).Some?
              && KeyLe(SeasonKey(ParseInt(startYear).value, ordinal), SortSeasons(FilterFrom(all, startYear, ordinal).value[i]).value)
  {
    var kept := FilterFrom(all, startYear, ordinal).value;
    forall i | 0 <= i < |kept|
      ensures SortSeasons(kept[i]).Some? && KeyLe(SeasonKey(ParseInt(startYear).value, ordinal), SortSeasons(kept[i]).value)
    {
      var k :| 0 <= k < |all| && all[k] == kept[i];
    }
  }

  /** Every label has a sort key and the keys never decrease along the list. */
  predicate KeysSorted(all: seq<SeasonLabel>) {
    && (forall i :: 0 <= i < |all| ==> SortSeasons(all[i]).Some?)
    && (forall i, j :: 0 <= i < j < |all| ==> KeyLe(SortSeasons(all[i]).value, SortSeasons(all[j]).value))
  }

  /** On a sorted list whose head passes, the filter keeps everything. */
  lemma {:induction false} FilterFromKeepsAll(all: seq<SeasonLabel>, startYear: string, ordinal: int)
    requires KeysSorted(all) && all != [] && ParseInt(startYear).Some?
    requires KeyLe(SeasonKey(ParseInt(startYear).value, ordinal), SortSeasons(all[0]).value)
    ensures FilterFrom(all, startYear, ordinal) == Ok(all)
    decreases |all|
  {
    var tail := all[1..];
    if tail != [] {
      assert KeysSorted(tail) by {
        assert forall i :: 0 <= i < |tail| ==> tail[i] == all[i + 1];
      }
      assert tail[0] == all[1];
      FilterFromKeepsAll(tail, startYear, ordinal);
    }
    assert all == [all[0]] + tail;
  }

  /** On a sorted list the filter keeps a suffix: it drops the seasons before
      the start and nothing after it. */
  lemma {:induction false} FilterFromSuffix(all: seq<SeasonLabel>, startYear: string, ordinal: int) returns (k: nat)
    requires KeysSorted(all) && ParseInt(startYear).Some?
    ensures k <= |all| && FilterFrom(all, startYear, ordinal) == Ok(all[k..])
    ensures forall i :: 0 <= i < k ==> !KeyLe(SeasonKey(ParseInt(startYear).value, ordinal), SortSeasons(all[i]).value)
    ensures k < |all| ==> KeyLe(SeasonKey(ParseInt(startYear).value, ordinal), SortSeasons(all[k]).value)
    decreases |all|
  {
    if all == [] {
      k := 0;
    } else if KeyLe(SeasonKey(ParseInt(startYear).value, ordinal), SortSeasons(all[0]).value) {
      FilterFromKeepsAll(all, startYear, ordinal);
      k := 0;
    } else {
      var tail := all[1..];
      assert KeysSorted(tail) by {
        assert forall i :: 0 <= i < |tail| ==> tail[i] == all[i + 1];
      }
      var k' := FilterFromSuffix(tail, startYear, ordinal);
      k := k' + 1;
      assert tail[k'..] == all[k..];
      assert forall i :: 1 <= i <= k' ==> all[i] == tail[i - 1];
    }
  }

  /** Every season the chart shows sorts at or after the start season. */
  lemma LabelsFromStart(dates: seq<string>, startSeason: string)
    ensures var r := AggregateBySeason(dates, startSeason);
      r.Ok? && r.value.labels != [] ==>
        && StartSeason(startSeason).Ok? && ParseInt(StartSeason(startSeason).value.1).Some?
        && forall i :: 0 <= i < |r.value.labels| ==>
             && SortSeasons(r.value.labels[i]).Some?
             && KeyLe(SeasonKey(ParseInt(StartSeason(startSeason).value.1).value, Ordinal(StartSeason(startSeason).value.0)),
                      SortSeasons(r.value.labels[i]).value)
  {
    var r := AggregateBySeason(dates, startSeason);
    if r.Ok? && r.value.labels != [] {
      var (startText, endText) := DateSpan(dates).value;
      var (season, startYear) := StartSeason(startSeason).value;
      var all := SeasonRange(startText, endText).value;
      FilterFromKeyed(all, startYear, Ordinal(season));
    }
  }

  /** `date.split("-")[:2]` of a date written `YYYY-MM...`. */
  function MonthFields(ym: YearMonth): seq<string> {
    [Pad(ym.year, 4), Pad(ym.month, 2)]
  }

  /** A date whose fields are a formatted month is counted under that month's season. */
  lemma DatesClassified(dates: seq<string>, months: seq<YearMonth>)
    requires |months| == |dates|
    requires forall i :: 0 <= i < |dates| ==> months[i].Valid() && DateFields(dates[i]) == MonthFields(months[i])
    ensures |Classified(dates)| == |dates|
    ensures forall i :: 0 <= i < |dates| ==> Classified(dates)[i] == LabelOfMonth(months[i])
  {
    forall i | 0 <= i < |dates|
      ensures DateSeason(dates[i]) == Some(LabelOfMonth(months[i]))
    {
      LabelOfMonthClassifies(months[i]);
    }
    ClassifiedAll(dates);
  }

  lemma FieldsNotBelow(x: YearMonth, y: YearMonth)
    requires x.Valid() && y.Valid()
    ensures !ListLt(MonthFields(x), MonthFields(y)) ==> Ord(y) <= Ord(x)
  {
    FieldsOrder(x, y);
  }

  /** The smallest and largest field lists belong to the earliest and latest months. */
  lemma FieldEnds(fields: seq<seq<string>>, months: seq<YearMonth>) returns (a: nat, b: nat)
    requires |fields| == |months| > 0
    requires forall i :: 0 <= i < |months| ==> months[i].Valid() && fields[i] == MonthFields(months[i])
    ensures a < |months| && b < |months|
    ensures Least(fields, ListLt) == fields[a] && Greatest(fields, ListLt) == fields[b]
    ensures forall i :: 0 <= i < |months| ==> Ord(months[a]) <= Ord(months[i]) <= Ord(months[b])
  {
    ListExtremes(fields);
    a :| 0 <= a < |fields| && fields[a] == Least(fields, ListLt);
    b :| 0 <= b < |fields| && fields[b] == Greatest(fields, ListLt);
    forall i | 0 <= i < |months|
      ensures Ord(months[a]) <= Ord(months[i]) <= Ord(months[b])
    {
      assert !ListLt(fields[i], fields[a]) && !ListLt(fields[b], fields[i]);
      FieldsNotBelow(months[i], months[a]);
      FieldsNotBelow(months[b], months[i]);
    }
  }

  /** The span of dates written as months runs from the earliest month to the latest. */
  lemma SpanOfMonths(dates: seq<string>, months: seq<YearMonth>) returns (s: YearMonth, e: YearMonth)
    requires |dates| > 0 && |months| == |dates|
    requires forall i :: 0 <= i < |dates| ==> months[i].Valid() && DateFields(dates[i]) == MonthFields(months[i])
    ensures DateSpan(dates) == Ok((Format(s), Format(e)))
    ensures s in months && e in months
    ensures forall i :: 0 <= i < |months| ==> Ord(s) <= Ord(months[i]) <= Ord(e)
  {
    var fields := seq(|dates|, i requires 0 <= i < |dates| => DateFields(dates[i]));
    var a, b := FieldEnds(fields, months);
    s, e := months[a], months[b];
  }

  /** A start season written `"<Name> <year>"` reads back as that season and year. */
  lemma StartSeasonOf(season: Season, year: int)
    ensures StartSeason(Name(season) + " " + IntText(year)) == Ok((season, IntText(year)))
    ensures ParseInt(IntText(year)) == Some(year)
  {
    assert ' ' !in Name(season);
    assert ' ' !in IntText(year);
    SplitFirst(Name(season), ' ', IntText(year));
    SplitNone(IntText(year), ' ');
    NamedName(season);
    ParseIntText(year);
  }

  /** Every season in the range has a sort key, and the range has no repeats. */
  lemma RangeKeyed(s: YearMonth, e: YearMonth)
    requires s.Valid() && e.Valid() && e != LastMonth
    ensures SeasonTexts(s, e).Ok? && NoDuplicates(SeasonTexts(s, e).value)
    ensures forall j :: 0 <= j < |SeasonTexts(s, e).value| ==> SortSeasons(SeasonTexts(s, e).value[j]).Some?
  {
    SeasonTextsCovers(s, e);
    var all := SeasonTexts(s, e).value;
    var months := Months(s, e);
    forall j | 0 <= j < |all|
      ensures SortSeasons(all[j]).Some?
    {
      var k :| 0 <= k < |months| && all[j] == LabelOfMonth(months[k]);
      LabelKey(months[k]);
    }
  }

  /** Seasons from the start season on, over a range that spans the given
      months: distinct, and holding every one of those months' seasons. */
  lemma WindowHoldsMonths(s: YearMonth, e: YearMonth, months: seq<YearMonth>, season: Season, year: int)
    requires s.Valid() && e.Valid() && e != LastMonth
    requires forall i :: 0 <= i < |months| ==> months[i].Valid() && Ord(s) <= Ord(months[i]) <= Ord(e)
    requires forall i :: 0 <= i < |months| ==>
      KeyLe(SeasonKey(year, Ordinal(season)), KeyOfIndex(SeasonIndex(months[i])))
    ensures SeasonTexts(s, e).Ok?
    ensures FilterFrom(SeasonTexts(s, e).value, IntText(year), Ordinal(season)).Ok?
    ensures NoDuplicates(FilterFrom(SeasonTexts(s, e).value, IntText(year), Ordinal(season)).value)
    ensures forall i :: 0 <= i < |months| ==>
      LabelOfMonth(months[i]) in FilterFrom(SeasonTexts(s, e).value, IntText(year), Ordinal(season)).value
  {
    ParseIntText(year);
    RangeKeyed(s, e);
    var all := SeasonTexts(s, e).value;
    var filtered := FilterFrom(all, IntText(year), Ordinal(season));
    FilterFromDistinct(all, IntText(year), Ordinal(season));
    forall i | 0 <= i < |months|
      ensures LabelOfMonth(months[i]) in filtered.value
    {
      SeasonTextsMember(s, e, months[i]);
      LabelKey(months[i]);
    }
  }

  /** Every date is a `YYYY-MM...` date before December 9999, at or after
      the start season. */
  ghost predicate DatedFrom(dates: seq<string>, months: seq<YearMonth>, season: Season, year: int) {
    && |dates| > 0 && |months| == |dates|
    && (forall i :: 0 <= i < |dates| ==>
          months[i].Valid() && months[i] != LastMonth && DateFields(dates[i]) == MonthFields(months[i]))
    && (forall i :: 0 <= i < |dates| ==>
          KeyLe(SeasonKey(year, Ordinal(season)), KeyOfIndex(SeasonIndex(months[i]))))
  }

  /** Under `DatedFrom`, the histogram's labels are the filtered season range
      between the earliest and the latest month, and they hold every date's season. */
  lemma SeasonAggregateShape(dates: seq<string>, months: seq<YearMonth>, season: Season, year: int)
    returns (labels: seq<SeasonLabel>)
    requires DatedFrom(dates, months, season, year)
    ensures AggregateBySeason(dates, Name(season) + " " + IntText(year)) == Ok(Histogram(labels, CountsFor(Classified(dates), labels)))
    ensures NoDuplicates(labels)
    ensures |Classified(dates)| == |dates| && forall i :: 0 <= i < |dates| ==> Classified(dates)[i] in labels
  {
    var counted := Classified(dates);
    DatesClassified(dates, months);
    var s, e := SpanOfMonths(dates, months);
    StartSeasonOf(season, year);
    ParseFormat(s);
    ParseFormat(e);
    assert SeasonRange(Format(s), Format(e)) == SeasonTexts(s, e);
    WindowHoldsMonths(s, e, months, season, year);
    labels := FilterFrom(SeasonTexts(s, e).value, IntText(year), Ordinal(season)).value;
  }

  /** When every date is a `YYYY-MM...` date before December 9999 and falls in
      or after the start season: the labels are distinct and every date is
      counted in exactly one bar. */
  lemma SeasonTotal(dates: seq<string>, months: seq<YearMonth>, season: Season, year: int)
    requires DatedFrom(dates, months, season, year)
    ensures AggregateBySeason(dates, Name(season) + " " + IntText(year)).Ok?
    ensures NoDuplicates(AggregateBySeason(dates, Name(season) + " " + IntText(year)).value.labels)
    ensures Sum(AggregateBySeason(dates, Name(season) + " " + IntText(year)).value.data) == |dates|
  {
    var labels := SeasonAggregateShape(dates, months, season, year);
    SumCountsCovers(Classified(dates), labels);
  }

  /** The season range is sorted by its keys, from year 1000 on. */
  lemma RangeSorted(s: YearMonth, e: YearMonth)
    requires s.Valid() && e.Valid() && e != LastMonth
    requires Ord(s) <= Ord(e) && s.year >= 1000
    ensures SeasonTexts(s, e).Ok? && KeysSorted(SeasonTexts(s, e).value)
  {
    SeasonTextsIncreasing(s, e);
  }

  /** The season number of the start season `"<season> <startYear>"`. */
  function StartNumber(startYear: string, season: Season): int
    requires ParseInt(startYear).Some?
  {
    ParseInt(startYear).value * 4 + Ordinal(season)
  }

  /** How many of the `n` seasons numbered from `lo` come before season `t`. */
  function SeasonsBefore(lo: int, n: nat, t: int): (k: nat)
    ensures k <= n
  {
    if t <= lo then 0 else if t - lo < n then t - lo else n
  }

  /** Over seasons numbered from `lo`, the first season the filter keeps is
      the start season, or the first of the list when that is later. */
  lemma KeptFrom(all: seq<SeasonLabel>, lo: int, year: int, season: Season, k: nat)
    requires k <= |all|
    requires forall j :: 0 <= j < |all| ==> SortSeasons(all[j]) == Some(KeyOfIndex(lo + j))
    requires forall i :: 0 <= i < k ==> !KeyLe(SeasonKey(year, Ordinal(season)), SortSeasons(all[i]).value)
    requires k < |all| ==> KeyLe(SeasonKey(year, Ordinal(season)), SortSeasons(all[k]).value)
    ensures k == SeasonsBefore(lo, |all|, year * 4 + Ordinal(season))
  {
    var t := year * 4 + Ordinal(season);
    if k > 0 {
      assert SortSeasons(all[k - 1]).value == KeyOfIndex(lo + k - 1);
      KeyAtLeast(year, Ordinal(season), lo + k - 1);
      assert lo + k - 1 < t;
    }
    if k < |all| {
      assert SortSeasons(all[k]).value == KeyOfIndex(lo + k);
      KeyAtLeast(year, Ordinal(season), lo + k);
      assert t <= lo + k;
    }
  }

  /** The labels of consecutive season numbers are sorted by their keys. */
  lemma RunSorted(lo: int, n: nat)
    ensures KeysSorted(Run(LabelOfIndex, lo, n))
  {
    var all := Run(LabelOfIndex, lo, n);
    RunKeys(lo, n);
    forall i, j | 0 <= i < j < n
      ensures KeyLe(SortSeasons(all[i]).value, SortSeasons(all[j]).value)
    {
      KeyOrder(lo + i, lo + j);
    }
  }

  /** Filtering the labels of consecutive season numbers from the season
      `(year, ordinal)` on drops exactly those numbered below
      `year * 4 + ordinal` and keeps the rest. */
  lemma FilterFromRun(lo: int, n: nat, startYear: string, season: Season) returns (k: nat)
    requires ParseInt(startYear).Some?
    ensures k == SeasonsBefore(lo, n, ParseInt(startYear).value * 4 + Ordinal(season))
    ensures FilterFrom(Run(LabelOfIndex, lo, n), startYear, Ordinal(season)) == Ok(Run(LabelOfIndex, lo + k, n - k))
  {
    var all := Run(LabelOfIndex, lo, n);
    RunKeys(lo, n);
    RunSorted(lo, n);
    k := FilterFromSuffix(all, startYear, Ordinal(season));
    RunSuffix(LabelOfIndex, lo, n, k);
    KeptFrom(all, lo, ParseInt(startYear).value, season, k);
  }

  /** Filtering the season range from `s` to `e` from a start season on keeps
      its seasons from the later of the start season and the first month's
      season, one after the other; from year 1000 on. */
  lemma RangeFromStart(s: YearMonth, e: YearMonth, startYear: string, season: Season)
    returns (lo: int, n: nat, k: nat)
    requires s.Valid() && e.Valid() && e != LastMonth
    requires Ord(s) <= Ord(e) && s.year >= 1000 && ParseInt(startYear).Some?
    ensures lo == SeasonIndex(s) && n == SeasonIndex(e) - SeasonIndex(s) + 1
    ensures k == SeasonsBefore(lo, n, StartNumber(startYear, season))
    ensures SeasonTexts(s, e).Ok?
    ensures FilterFrom(SeasonTexts(s, e).value, startYear, Ordinal(season)) == Ok(Run(LabelOfIndex, lo + k, n - k))
  {
    SeasonTextsConsecutive(s, e);
    var all := SeasonTexts(s, e).value;
    lo, n := SeasonIndex(s), |all|;
    k := FilterFromRun(lo, n, startYear, season);
    assert StartNumber(startYear, season) == ParseInt(startYear).value * 4 + Ordinal(season);
  }

  /** For dates written `YYYY-MM...` and a well-formed start season, the chart
      is the season range between the earliest and the latest month, filtered
      from the start season on. */
  lemma ChartOfSpan(dates: seq<string>, months: seq<YearMonth>, startSeason: string)
    returns (s: YearMonth, e: YearMonth)
    requires |dates| > 0 && |months| == |dates|
    requires forall i :: 0 <= i < |dates| ==>
               months[i].Valid() && months[i] != LastMonth && DateFields(dates[i]) == MonthFields(months[i])
    requires StartSeason(startSeason).Ok?
    ensures s in months && e in months
    ensures forall i :: 0 <= i < |months| ==> Ord(s) <= Ord(months[i]) <= Ord(e)
    ensures SeasonTexts(s, e).Ok?
    ensures var kept := FilterFrom(SeasonTexts(s, e).value, StartSeason(startSeason).value.1,
                                   Ordinal(StartSeason(startSeason).value.0));
            kept.Ok? ==> AggregateBySeason(dates, startSeason).Ok?
                         && AggregateBySeason(dates, startSeason).value.labels == kept.value
  {
    DatesClassified(dates, months);
    s, e := SpanOfMonths(dates, months);
    ParseFormat(s);
    ParseFormat(e);
    assert SeasonRange(Format(s), Format(e)) == SeasonTexts(s, e);
  }

  /** For dates written `YYYY-MM...` from year 1000 on and a start season that
      parses, the chart runs over every season from the start season or the
      earliest date's season, whichever is later, to the latest date's season,
      one after the other; it is empty when the start season is after the
      latest date's. The span comes from the data, not from the start. */
  lemma SeasonChartConsecutive(dates: seq<string>, months: seq<YearMonth>, startSeason: string)
    returns (s: YearMonth, e: YearMonth, lo: int, n: nat, k: nat)
    requires |dates| > 0 && |months| == |dates|
    requires forall i :: 0 <= i < |dates| ==>
               months[i].Valid() && months[i] != LastMonth && months[i].year >= 1000 && DateFields(dates[i]) == MonthFields(months[i])
    requires StartSeason(startSeason).Ok? && ParseInt(StartSeason(startSeason).value.1).Some?
    ensures s in months && e in months
    ensures forall i :: 0 <= i < |months| ==> Ord(s) <= Ord(months[i]) <= Ord(e)
    ensures lo == SeasonIndex(s) && n == SeasonIndex(e) - SeasonIndex(s) + 1
    ensures k == SeasonsBefore(lo, n, StartNumber(StartSeason(startSeason).value.1, StartSeason(startSeason).value.0))
    ensures AggregateBySeason(dates, startSeason).Ok?
    ensures AggregateBySeason(dates, startSeason).value.labels == Run(LabelOfIndex, lo + k, n - k)
  {
    var start := StartSeason(startSeason).value;
    s, e := ChartOfSpan(dates, months, startSeason);
    lo, n, k := RangeFromStart(s, e, start.1, start.0);
  }

  /** The fields of the two dates of `UncountedDateFailsSpan`. */
  lemma SampleFields()
    ensures DateFields("2022-09") == ["2022", "09"]
    ensures DateFields("x") == ["x"]
  {
    assert "2022-09" == "2022" + ['-'] + "09";
    SplitFirst("2022", '-', "09");
    SplitNone("09", '-');
    SplitNone("x", '-');
  }

  /** `int("09") == 9`. */
  lemma SampleMonth()
    ensures ParseInt("09") == Some(9)
  {
    assert "09"[..1] == "0";
    assert Value("0") == 0;
  }

  /** The first sample date is counted under Fall 2022; the second is not counted. */
  lemma SampleSeasons()
    ensures DateSeason("2022-09") == Some(SeasonLabel(Fall, "2022"))
    ensures DateSeason("x") == None
  {
    SampleFields();
    SampleMonth();
  }

  /** Of a counted date followed by an uncounted one, only the first is counted. */
  lemma ClassifiedPair(a: string, b: string, season: SeasonLabel)
    requires DateSeason(a) == Some(season) && DateSeason(b) == None
    ensures Classified([a, b]) == [season]
  {
    var dates := [a, b];
    var seasons := DateSeasons(dates);
    assert seasons == [Some(season), None];
    var first := seasons[..1];
    assert first == [Some(season)] && first[..0] == [];
    assert Somes(first) == [season];
    assert Somes(seasons) == Somes(first);
  }

  /** The latest sample field list is `["x"]`, which has no month field. */
  lemma SampleSpan()
    ensures DateSpan(["2022-09", "x"]) == Err(MissingDatePart)
  {
    var dates := ["2022-09", "x"];
    var fields := seq(|dates|, i requires 0 <= i < |dates| => DateFields(dates[i]));
    SampleFields();
    assert fields == [["2022", "09"], ["x"]];
    assert !ListLt(["x"], ["2022", "09"]) by {
      assert !StrLt("x", "2022");
    }
    assert fields[1..] == [["x"]];
    assert Greatest(fields, ListLt) == ["x"];
  }

  /** The span is taken over every date, counted or not: a date without a dash
      that sorts last fails the whole chart, though another date is counted. */
  lemma UncountedDateFailsSpan()
    ensures Classified(["2022-09", "x"]) == [SeasonLabel(Fall, "2022")]
    ensures AggregateBySeason(["2022-09", "x"], "Fall 2022") == Err(MissingDatePart)
  {
    SampleSeasons();
    ClassifiedPair("2022-09", "x", SeasonLabel(Fall, "2022"));
    SampleSpan();
  }
}
