/**
  The pure helpers of `backend/spotify_utils.py`: pulling the added-at dates
  out of track records, the month and season ranges, the month-to-season
  classifier, the season sort key and the season histogram.
 */
module SpotifyUtils {
  import opened Wrappers
  import opened Seqs
  import opened Digits
  import opened Calendar
  import opened MonthText

  /** The ways an analysis can fail; in the source each is a raised exception. */
  datatype Error =
    | UnparseableMonth       // `strptime` raised `ValueError`
    | YearOutOfRange         // `datetime.replace(year=10000)` raised `ValueError`
    | NotAnInteger           // `int(...)` raised `ValueError`
    | MissingDatePart        // a date without a dash made `sorted_dates[0][1]` or `sorted_dates[-1][1]` raise `IndexError`
    | MalformedStartSeason   // the start season did not split into exactly two fields
    | InvalidStartSeason     // the start season's name is not one of the four seasons

  // ---------------------------------------------------------------- dates

  /** A playlist item as the catalog returns it; only `added_at` is read.
      `None` stands for a missing key or a JSON null. */
  datatype Track = Track(addedAt: Option<string>)

  predicate AllDated(tracks: seq<Track>) {
    forall i :: 0 <= i < |tracks| ==> tracks[i].addedAt.Some?
  }

  /** The list comprehension `[track["added_at"][:10] for track in tracks]`;
      `None` when it raises. */
  function AddedDates(tracks: seq<Track>): (r: Option<seq<string>>)
    ensures r.Some? <==> AllDated(tracks)
    ensures r.Some? ==> |r.value| == |tracks|
    ensures r.Some? ==> forall i :: 0 <= i < |tracks| ==> r.value[i] == Take(tracks[i].addedAt.value, 10)
    decreases |tracks|
  {
    if tracks == [] then Some([])
    else match tracks[0].addedAt
      case None => None
      case Some(stamp) =>
        match AddedDates(tracks[1..])
        case None => None
        case Some(rest) => Some([Take(stamp, 10)] + rest)
  }

  /** `extract_added_dates`: all dates or, if any track lacks one, none at all. */
  function ExtractAddedDates(tracks: seq<Track>): (dates: seq<string>)
    ensures AllDated(tracks) ==> |dates| == |tracks|
    ensures AllDated(tracks) ==> forall i :: 0 <= i < |tracks| ==> dates[i] == Take(tracks[i].addedAt.value, 10)
    ensures !AllDated(tracks) ==> dates == []
  {
    AddedDates(tracks).GetOr([])
  }

  // ---------------------------------------------------------------- month range

  function FormatAll(months: seq<YearMonth>): (r: seq<string>)
    ensures |r| == |months|
  {
    seq(|months|, i requires 0 <= i < |months| => Format(months[i]))
  }

  /** The months from `s` to `e` as `generate_month_range` writes them, once
      both ends are parsed; stepping past December 9999 raises. */
  function MonthTexts(s: YearMonth, e: YearMonth): (r: Result<seq<string>, Error>)
    requires s.Valid() && e.Valid()
    ensures r.Err? <==> Ord(s) <= Ord(e) && e == LastMonth
    ensures r.Ok? ==> |r.value| == if Ord(s) <= Ord(e) then Ord(e) - Ord(s) + 1 else 0
  {
    if Ord(s) <= Ord(e) && e == LastMonth then Err(YearOutOfRange)
    else Ok(FormatAll(Months(s, e)))
  }

  /** What `generate_month_range(start, end)` returns or raises. */
  function MonthRange(startText: string, endText: string): (r: Result<seq<string>, Error>)
    ensures Parse(startText).None? || Parse(endText).None? <==> r == Err(UnparseableMonth)
  {
    match (Parse(startText), Parse(endText))
    case (None, _) => Err(UnparseableMonth)
    case (_, None) => Err(UnparseableMonth)
    case (Some(s), Some(e)) => MonthTexts(s, e)
  }

  /** The first `|months|` months from `s`, in order. */
  ghost predicate MonthsFrom(s: YearMonth, months: seq<YearMonth>) {
    forall i :: 0 <= i < |months| ==> months[i].Valid() && Ord(months[i]) == Ord(s) + i
  }

  /** Once the loop has visited every month up to `e`, they are the range's months. */
  lemma MonthsFromComplete(s: YearMonth, e: YearMonth, months: seq<YearMonth>)
    requires s.Valid() && e.Valid()
    requires |months| == if Ord(s) <= Ord(e) then Ord(e) - Ord(s) + 1 else 0
    requires MonthsFrom(s, months)
    ensures months == Months(s, e)
  {
    var expected := Months(s, e);
    forall i | 0 <= i < |months|
      ensures months[i] == expected[i]
    {
      OrdInjective(expected[i], months[i]);
    }
  }

  lemma FormatAllSnoc(months: seq<YearMonth>, m: YearMonth)
    ensures FormatAll(months + [m]) == FormatAll(months) + [Format(m)]
  {
    var both := months + [m];
    assert forall i :: 0 <= i < |months| ==> both[i] == months[i];
  }

  /** The loop of `generate_month_range`: emit the month, then move one month on. */
  method StepMonths(s: YearMonth, e: YearMonth) returns (r: Result<seq<string>, Error>)
    requires s.Valid() && e.Valid()
    ensures r == MonthTexts(s, e)
  {
    var current := s;
    var months: seq<string> := [];
    ghost var visited: seq<YearMonth> := [];
    while Ord(current) <= Ord(e)
      invariant current.Valid() && Ord(s) <= Ord(current)
      invariant Ord(current) <= Ord(e) + 1 || current == s
      invariant |visited| == Ord(current) - Ord(s) && MonthsFrom(s, visited)
      invariant months == FormatAll(visited)
      decreases Ord(e) - Ord(current)
    {
      FormatAllSnoc(visited, current);
      months := months + [Format(current)];
      visited := visited + [current];
      var next := Next(current);
      if next.None? {
        OrdInjective(e, LastMonth);
        return Err(YearOutOfRange);
      }
      current := next.value;
    }
    MonthsFromComplete(s, e, visited);
    return Ok(months);
  }

  /** `generate_month_range`: parse both ends with `strptime`, then step. */
  method GenerateMonthRange(startText: string, endText: string) returns (r: Result<seq<string>, Error>)
    ensures r == MonthRange(startText, endText)
  {
    var parsedStart := Parse(startText);
    if parsedStart.None? {
      return Err(UnparseableMonth);
    }
    var parsedEnd := Parse(endText);
    if parsedEnd.None? {
      return Err(UnparseableMonth);
    }
    r := StepMonths(parsedStart.value, parsedEnd.value);
  }

  /** The range is inclusive: it starts at `s` and ends at `e`. */
  lemma MonthTextsEnds(s: YearMonth, e: YearMonth)
    requires s.Valid() && e.Valid() && Ord(s) <= Ord(e) && e != LastMonth
    ensures MonthTexts(s, e).Ok?
    ensures MonthTexts(s, e).value[0] == Format(s)
    ensures Last(MonthTexts(s, e).value) == Format(e)
  {
    var months := Months(s, e);
    assert MonthTexts(s, e) == Ok(FormatAll(months));
    MonthsGapless(s, e);
  }

  /** The range is gapless: every entry is month text, and each is one calendar
      month after the one before, December rolling over to January of the next year. */
  lemma MonthTextsGapless(s: YearMonth, e: YearMonth)
    requires s.Valid() && e.Valid() && e != LastMonth
    ensures MonthTexts(s, e).Ok?
    ensures forall i :: 0 <= i < |MonthTexts(s, e).value| ==> IsMonthText(MonthTexts(s, e).value[i])
    ensures forall i :: 0 <= i < |MonthTexts(s, e).value| - 1 ==>
              Parse(MonthTexts(s, e).value[i]).Some? &&
              Next(Parse(MonthTexts(s, e).value[i]).value) == Parse(MonthTexts(s, e).value[i + 1])
  {
    var months := Months(s, e);
    var r := FormatAll(months);
    assert MonthTexts(s, e) == Ok(r);
    forall i | 0 <= i < |r|
      ensures Parse(r[i]) == Some(months[i]) && IsMonthText(r[i])
    {
      ParseFormat(months[i]);
    }
    if Ord(s) <= Ord(e) {
      MonthsGapless(s, e);
    }
  }

  /** A start after the end gives no months at all, not an error. */
  lemma MonthTextsEmpty(s: YearMonth, e: YearMonth)
    requires s.Valid() && e.Valid() && Ord(s) > Ord(e)
    ensures MonthTexts(s, e) == Ok([])
  {
  }

  /** Every month between the ends is listed. */
  lemma MonthTextsMember(s: YearMonth, e: YearMonth, ym: YearMonth)
    requires s.Valid() && e.Valid() && ym.Valid() && e != LastMonth
    requires Ord(s) <= Ord(ym) <= Ord(e)
    ensures MonthTexts(s, e).Ok? && Format(ym) in MonthTexts(s, e).value
  {
    var months := Months(s, e);
    var j := Ord(ym) - Ord(s);
    OrdInjective(months[j], ym);
    assert MonthTexts(s, e).value[j] == Format(ym);
  }

  /** Nothing else is listed: every label is the text of a month between the ends. */
  lemma MonthTextsOnly(s: YearMonth, e: YearMonth, text: string)
    requires s.Valid() && e.Valid() && e != LastMonth
    requires text in MonthTexts(s, e).value
    ensures IsMonthText(text)
    ensures Ord(s) <= Ord(Parse(text).value) <= Ord(e)
  {
    var months := Months(s, e);
    var j :| 0 <= j < |months| && MonthTexts(s, e).value[j] == text;
    ParseFormat(months[j]);
  }

  /** No month is listed twice. */
  lemma MonthTextsDistinct(s: YearMonth, e: YearMonth)
    requires s.Valid() && e.Valid() && e != LastMonth
    ensures MonthTexts(s, e).Ok? && NoDuplicates(MonthTexts(s, e).value)
  {
    var months := Months(s, e);
    var texts := MonthTexts(s, e).value;
    forall i, j | 0 <= i < j < |texts|
      ensures texts[i] != texts[j]
    {
      FormatInjective(months[i], months[j]);
    }
  }

  // ---------------------------------------------------------------- seasons

  /** A season label, the text `"<Name> <year>"`; the year is kept as text
      because the source builds it from the date's own digits. */
  datatype SeasonLabel = SeasonLabel(season: Season, year: string)

  function LabelText(sl: SeasonLabel): string {
    Name(sl.season) + " " + sl.year
  }

  /** `month_to_season(year, month)`: `Ok(None)` for a month outside 1..12,
      `Err` when `int(...)` raises. December's Winter takes the next year. */
  function MonthToSeason(yearText: string, monthText: string): (r: Result<Option<SeasonLabel>, Error>)
    ensures ParseInt(monthText).None? ==> r == Err(NotAnInteger)
    ensures ParseInt(monthText).Some? ==>
      var m := ParseInt(monthText).value;
      && (!(1 <= m <= 12) ==> r == Ok(None))
      && (1 <= m <= 11 ==> r == Ok(Some(SeasonLabel(SeasonAt(m / 3), yearText))))
      && (m == 12 ==> r == match ParseInt(yearText)
                           case None => Err(NotAnInteger)
                           case Some(y) => Ok(Some(SeasonLabel(Winter, IntText(y + 1)))))
  {
    match ParseInt(monthText)
    case None => Err(NotAnInteger)
    case Some(m) =>
      if m in [12, 1, 2] then
        if m == 12 then
          match ParseInt(yearText)
          case None => Err(NotAnInteger)
          case Some(y) => Ok(Some(SeasonLabel(Winter, IntText(y + 1))))
        else Ok(Some(SeasonLabel(Winter, yearText)))
      else if m in [3, 4, 5] then Ok(Some(SeasonLabel(Spring, yearText)))
      else if m in [6, 7, 8] then Ok(Some(SeasonLabel(Summer, yearText)))
      else if m in [9, 10, 11] then Ok(Some(SeasonLabel(Fall, yearText)))
      else Ok(None)
  }

  /** The label `generate_season_range` computes for a month from its
      `strftime("%Y")` and `strftime("%m")` texts (see `LabelOfMonthClassifies`). */
  function LabelOfMonth(ym: YearMonth): SeasonLabel
    requires ym.Valid()
  {
    if ym.month == 12 then SeasonLabel(Winter, IntText(ym.year + 1))
    else SeasonLabel(SeasonAt(ym.month / 3), Pad(ym.year, 4))
  }

  /** `LabelOfMonth` is what `month_to_season` returns for the formatted year and month. */
  lemma LabelOfMonthClassifies(ym: YearMonth)
    requires ym.Valid()
    ensures MonthToSeason(Pad(ym.year, 4), Pad(ym.month, 2)) == Ok(Some(LabelOfMonth(ym)))
  {
    PadValue(ym.year, 4);
    PadValue(ym.month, 2);
  }

  function LabelsOf(months: seq<YearMonth>): (r: seq<SeasonLabel>)
    requires forall i :: 0 <= i < |months| ==> months[i].Valid()
    ensures |r| == |months|
  {
    seq(|months|, i requires 0 <= i < |months| => LabelOfMonth(months[i]))
  }

  /** The seasons `generate_season_range` lists once both ends are parsed: the
      season of every month from `s` to `e`, each kept the first time it
      appears; stepping past December 9999 raises. */
  function SeasonTexts(s: YearMonth, e: YearMonth): (r: Result<seq<SeasonLabel>, Error>)
    requires s.Valid() && e.Valid()
    ensures r.Err? <==> Ord(s) <= Ord(e) && e == LastMonth
  {
    if Ord(s) <= Ord(e) && e == LastMonth then Err(YearOutOfRange)
    else Ok(Dedup(LabelsOf(Months(s, e))))
  }

  /** The season list has no repeats, holds the season of every month in the
      range, and holds nothing else. */
  lemma SeasonTextsCovers(s: YearMonth, e: YearMonth)
    requires s.Valid() && e.Valid() && e != LastMonth
    ensures SeasonTexts(s, e).Ok?
    ensures NoDuplicates(SeasonTexts(s, e).value)
    ensures forall j :: 0 <= j < |Months(s, e)| ==> LabelOfMonth(Months(s, e)[j]) in SeasonTexts(s, e).value
    ensures forall i :: 0 <= i < |SeasonTexts(s, e).value| ==>
              exists j :: 0 <= j < |Months(s, e)| && SeasonTexts(s, e).value[i] == LabelOfMonth(Months(s, e)[j])
  {
    var months := Months(s, e);
    var labels := LabelsOf(months);
    var r := Dedup(labels);
    assert SeasonTexts(s, e) == Ok(r);
    DedupSpec(labels);
    forall j | 0 <= j < |months|
      ensures LabelOfMonth(months[j]) in r
    {
      assert labels[j] == LabelOfMonth(months[j]);
    }
    forall i | 0 <= i < |r|
      ensures exists j :: 0 <= j < |months| && r[i] == LabelOfMonth(months[j])
    {
      var j :| 0 <= j < |labels| && labels[j] == r[i];
      assert labels[j] == LabelOfMonth(months[j]);
    }
  }

  function SeasonRange(startText: string, endText: string): (r: Result<seq<SeasonLabel>, Error>)
    ensures Parse(startText).None? || Parse(endText).None? <==> r == Err(UnparseableMonth)
  {
    match (Parse(startText), Parse(endText))
    case (None, _) => Err(UnparseableMonth)
    case (_, None) => Err(UnparseableMonth)
    case (Some(s), Some(e)) => SeasonTexts(s, e)
  }

  lemma LabelsOfSnoc(months: seq<YearMonth>, m: YearMonth)
    requires forall i :: 0 <= i < |months| ==> months[i].Valid()
    requires m.Valid()
    ensures LabelsOf(months + [m]) == LabelsOf(months) + [LabelOfMonth(m)]
  {
    var both := months + [m];
    assert forall i :: 0 <= i < |months| ==> both[i] == months[i];
  }

  /** The season of every month between the ends is listed. */
  lemma SeasonTextsMember(s: YearMonth, e: YearMonth, ym: YearMonth)
    requires s.Valid() && e.Valid() && ym.Valid() && e != LastMonth
    requires Ord(s) <= Ord(ym) <= Ord(e)
    ensures SeasonTexts(s, e).Ok? && LabelOfMonth(ym) in SeasonTexts(s, e).value
  {
    var months := Months(s, e);
    var j := Ord(ym) - Ord(s);
    OrdInjective(months[j], ym);
    SeasonTextsCovers(s, e);
    assert LabelOfMonth(months[j]) in SeasonTexts(s, e).value;
  }

  /** One more month visited: the seasons so far gain its season if it is new. */
  lemma SeasonsVisit(s: YearMonth, visited: seq<YearMonth>, current: YearMonth)
    requires MonthsFrom(s, visited) && current.Valid() && Ord(current) == Ord(s) + |visited|
    ensures MonthsFrom(s, visited + [current])
    ensures Dedup(LabelsOf(visited + [current])) == AddNew(Dedup(LabelsOf(visited)), LabelOfMonth(current))
  {
    LabelsOfSnoc(visited, current);
    DedupSnoc(LabelsOf(visited), LabelOfMonth(current));
  }

  /** The loop of `generate_season_range`: classify the month, append its
      season if not yet present, move one month on. */
  method StepSeasons(s: YearMonth, e: YearMonth) returns (r: Result<seq<SeasonLabel>, Error>)
    requires s.Valid() && e.Valid()
    ensures r == SeasonTexts(s, e)
  {
    var current := s;
    var seasons: seq<SeasonLabel> := [];
    ghost var visited: seq<YearMonth> := [];
    while Ord(current) <= Ord(e)
      invariant current.Valid() && Ord(s) <= Ord(current)
      invariant Ord(current) <= Ord(e) + 1 || current == s
      invariant |visited| == Ord(current) - Ord(s) && MonthsFrom(s, visited)
      invariant seasons == Dedup(LabelsOf(visited))
      decreases Ord(e) - Ord(current)
    {
      SeasonsVisit(s, visited, current);
      seasons := AddNew(seasons, LabelOfMonth(current));
      visited := visited + [current];
      var next := Next(current);
      if next.None? {
        OrdInjective(e, LastMonth);
        return Err(YearOutOfRange);
      }
      current := next.value;
    }
    MonthsFromComplete(s, e, visited);
    return Ok(seasons);
  }

  /** `generate_season_range`: parse both ends with `strptime`, then step. */
  method GenerateSeasonRange(startText: string, endText: string) returns (r: Result<seq<SeasonLabel>, Error>)
    ensures r == SeasonRange(startText, endText)
  {
    var parsedStart := Parse(startText);
    if parsedStart.None? {
      return Err(UnparseableMonth);
    }
    var parsedEnd := Parse(endText);
    if parsedEnd.None? {
      return Err(UnparseableMonth);
    }
    r := StepSeasons(parsedStart.value, parsedEnd.value);
  }

  /** `sort_seasons(label)`: `(int(year), ordinal)`; `None` when `int` raises. */
  function SortSeasons(sl: SeasonLabel): (r: Option<SeasonKey>)
    ensures r.Some? <==> ParseInt(sl.year).Some?
    ensures r.Some? ==> r.value.ordinal == Ordinal(sl.season) && r.value.year == ParseInt(sl.year).value
  {
    match ParseInt(sl.year)
    case None => None
    case Some(y) => Some(SeasonKey(y, Ordinal(sl.season)))
  }

  /** Every month's label has a sort key, and it is the number of the season the month lies in. */
  lemma LabelKey(ym: YearMonth)
    requires ym.Valid()
    ensures SortSeasons(LabelOfMonth(ym)) == Some(KeyOfIndex(SeasonIndex(ym)))
  {
    SeasonIndexKey(ym);
    if ym.month == 12 {
      ParseIntText(ym.year + 1);
    } else {
      PadValue(ym.year, 4);
    }
  }

  /** Composed with the classifier, the sort key never goes down as the months
      advance, across the year boundary too: November's Fall Y sorts before
      December's Winter Y+1. */
  lemma SortKeyMonotone(ym: YearMonth)
    requires ym.Valid() && ym != LastMonth
    ensures SortSeasons(LabelOfMonth(ym)).Some?
    ensures SortSeasons(LabelOfMonth(Next(ym).value)).Some?
    ensures KeyLe(SortSeasons(LabelOfMonth(ym)).value, SortSeasons(LabelOfMonth(Next(ym).value)).value)
  {
    LabelKey(ym);
    LabelKey(Next(ym).value);
    SeasonIndexStep(ym);
    KeyOrder(SeasonIndex(ym), SeasonIndex(Next(ym).value));
  }

  /** The label of season number `k` (`year * 4 + ordinal`), its year written by `str`. */
  function LabelOfIndex(k: int): SeasonLabel {
    SeasonLabel(SeasonAt(k % 4), IntText(k / 4))
  }

  /** The season number a label's sort key stands for (0 when it has none). */
  function IndexOfLabel(sl: SeasonLabel): int {
    match SortSeasons(sl)
    case None => 0
    case Some(key) => key.year * 4 + key.ordinal
  }

  /** Season number `k`'s label sorts under key `k`, so distinct numbers give distinct labels. */
  lemma LabelOfIndexKey(k: int)
    ensures SortSeasons(LabelOfIndex(k)) == Some(KeyOfIndex(k))
    ensures IndexOfLabel(LabelOfIndex(k)) == k
  {
    ParseIntText(k / 4);
  }

  /** From year 1000 on, `%Y` and `str` write a year alike, so a month's label
      is the label of the season number it falls in. */
  lemma LabelOfMonthIndex(ym: YearMonth)
    requires ym.Valid() && ym.year >= 1000
    ensures LabelOfMonth(ym) == LabelOfIndex(SeasonIndex(ym))
  {
    SeasonIndexKey(ym);
    if ym.month != 12 {
      assert Pow10(3) == 1000 && Pow10(4) == 10000;
      DecimalIsPad(ym.year, 4);
    }
  }

  /** `IndexOfLabel` undoes `LabelOfIndex`. */
  lemma IndexOfLabelInverse()
    ensures forall k :: IndexOfLabel(LabelOfIndex(k)) == k
  {
    forall k
      ensures IndexOfLabel(LabelOfIndex(k)) == k
    {
      LabelOfIndexKey(k);
    }
  }

  /** Consecutive months' season numbers are equal or one apart. */
  lemma IndexSteps(s: YearMonth, months: seq<YearMonth>) returns (idx: seq<int>)
    requires forall i :: 0 <= i < |months| ==> months[i].Valid() && Ord(months[i]) == Ord(s) + i
    ensures |idx| == |months|
    ensures forall i :: 0 <= i < |months| ==> idx[i] == SeasonIndex(months[i])
    ensures forall i, j :: 0 <= i < |idx| && 0 <= j < |idx| && j == i + 1 ==> idx[i] <= idx[j] <= idx[i] + 1
  {
    idx := seq(|months|, i requires 0 <= i < |months| => SeasonIndex(months[i]));
    forall i, j | 0 <= i < |idx| && 0 <= j < |idx| && j == i + 1
      ensures idx[i] <= idx[j] <= idx[i] + 1
    {
      assert Ord(months[j]) == Ord(months[i]) + 1;
    }
  }

  /** From year 1000 on, every month's label is the label of its season number. */
  lemma LabelsIndexed(months: seq<YearMonth>, idx: seq<int>)
    requires |idx| == |months|
    requires forall i :: 0 <= i < |months| ==> months[i].Valid() && months[i].year >= 1000
    requires forall i :: 0 <= i < |months| ==> idx[i] == SeasonIndex(months[i])
    ensures forall i :: 0 <= i < |months| ==> LabelsOf(months)[i] == LabelOfIndex(idx[i])
  {
    forall i | 0 <= i < |months|
      ensures LabelsOf(months)[i] == LabelOfIndex(idx[i])
    {
      LabelOfMonthIndex(months[i]);
    }
  }

  /** Labels that step through season numbers by at most one collapse to the
      run of every season from the first number to the last. */
  lemma LabelsRun(labels: seq<SeasonLabel>, idx: seq<int>)
    requires |labels| == |idx| > 0
    requires forall i :: 0 <= i < |labels| ==> labels[i] == LabelOfIndex(idx[i])
    requires forall i, j :: 0 <= i < |idx| && 0 <= j < |idx| && j == i + 1 ==> idx[i] <= idx[j] <= idx[i] + 1
    ensures idx[0] <= idx[|idx| - 1]
    ensures Dedup(labels) == Run(LabelOfIndex, idx[0], idx[|idx| - 1] - idx[0] + 1)
  {
    IndexOfLabelInverse();
    DedupSteps(labels, idx, LabelOfIndex, IndexOfLabel);
  }

  /** The season numbers of the months from `s` to `e`, from year 1000 on. */
  lemma MonthsIndexed(s: YearMonth, e: YearMonth) returns (idx: seq<int>)
    requires s.Valid() && e.Valid() && Ord(s) <= Ord(e) && s.year >= 1000
    ensures |idx| == |LabelsOf(Months(s, e))| > 0
    ensures idx[0] == SeasonIndex(s) && idx[|idx| - 1] == SeasonIndex(e)
    ensures forall i :: 0 <= i < |idx| ==> LabelsOf(Months(s, e))[i] == LabelOfIndex(idx[i])
    ensures forall i, j :: 0 <= i < |idx| && 0 <= j < |idx| && j == i + 1 ==> idx[i] <= idx[j] <= idx[i] + 1
  {
    var months := Months(s, e);
    forall i | 0 <= i < |months|
      ensures months[i].year >= 1000
    {
      assert Ord(months[i]) >= Ord(s);
    }
    idx := IndexSteps(s, months);
    LabelsIndexed(months, idx);
    OrdInjective(months[0], s);
    OrdInjective(months[|months| - 1], e);
  }

  /** From year 1000 on, the season range is every season from the first
      month's to the last month's, in order, each once: none skipped. */
  lemma SeasonTextsConsecutive(s: YearMonth, e: YearMonth)
    requires s.Valid() && e.Valid() && e != LastMonth
    requires Ord(s) <= Ord(e) && s.year >= 1000
    ensures SeasonTexts(s, e).Ok?
    ensures SeasonTexts(s, e).value == Run(LabelOfIndex, SeasonIndex(s), SeasonIndex(e) - SeasonIndex(s) + 1)
  {
    var idx := MonthsIndexed(s, e);
    LabelsRun(LabelsOf(Months(s, e)), idx);
  }

  /** The labels of a run of season numbers sort under those numbers. */
  lemma RunKeys(lo: int, n: nat)
    ensures forall j :: 0 <= j < n ==> SortSeasons(Run(LabelOfIndex, lo, n)[j]) == Some(KeyOfIndex(lo + j))
  {
    forall j | 0 <= j < n
      ensures SortSeasons(Run(LabelOfIndex, lo, n)[j]) == Some(KeyOfIndex(lo + j))
    {
      LabelOfIndexKey(lo + j);
    }
  }

  /** From year 1000 on, the season range's sort keys climb one season at a
      time from the first month's season. */
  lemma SeasonTextsKeys(s: YearMonth, e: YearMonth)
    requires s.Valid() && e.Valid() && e != LastMonth
    requires Ord(s) <= Ord(e) && s.year >= 1000
    ensures SeasonTexts(s, e).Ok?
    ensures forall j :: 0 <= j < |SeasonTexts(s, e).value| ==>
              SortSeasons(SeasonTexts(s, e).value[j]) == Some(KeyOfIndex(SeasonIndex(s) + j))
  {
    var lo, n := SeasonIndex(s), SeasonIndex(e) - SeasonIndex(s) + 1;
    SeasonTextsConsecutive(s, e);
    var r := SeasonTexts(s, e).value;
    assert r == Run(LabelOfIndex, lo, n);
    RunKeys(lo, n);
  }

  /** From year 1000 on, the season range is strictly increasing under the sort
      key, across the year boundary too. */
  lemma SeasonTextsIncreasing(s: YearMonth, e: YearMonth)
    requires s.Valid() && e.Valid() && e != LastMonth
    requires Ord(s) <= Ord(e) && s.year >= 1000
    ensures SeasonTexts(s, e).Ok?
    ensures forall j :: 0 <= j < |SeasonTexts(s, e).value| ==> SortSeasons(SeasonTexts(s, e).value[j]).Some?
    ensures forall i, j :: 0 <= i < |SeasonTexts(s, e).value| && 0 <= j < |SeasonTexts(s, e).value| ==>
              (KeyLe(SortSeasons(SeasonTexts(s, e).value[i]).value, SortSeasons(SeasonTexts(s, e).value[j]).value) <==> i <= j)
  {
    SeasonTextsKeys(s, e);
    var r := SeasonTexts(s, e).value;
    forall i, j | 0 <= i < |r| && 0 <= j < |r|
      ensures KeyLe(SortSeasons(r[i]).value, SortSeasons(r[j]).value) <==> i <= j
    {
      KeyOrder(SeasonIndex(s) + i, SeasonIndex(s) + j);
    }
  }
}
