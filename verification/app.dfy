/**
  The `/api/analyze` handler of `backend/app.py`, without the web framework:
  read the request's view mode and start, take the tracks' added-at dates,
  and answer with a month histogram (built inline in the handler) or a
  season histogram (`aggregate_by_season`). Fetching the tracks is a
  parameter: the caller supplies the playlist items.
 */
module App {
  import opened Wrappers
  import opened Seqs
  import opened Digits
  import opened Calendar
  import opened MonthText
  import opened SpotifyUtils
  import opened SeasonCounts

  /** The JSON body's fields; `None` when a key is absent. */
  datatype Request = Request(playlistId: Option<string>, viewMode: Option<string>, start: Option<string>)

  /** What the handler answers: the chart, a 400 for a missing playlist, or
      the 500 an exception turns into. */
  datatype Response =
    | Chart(labels: seq<string>, data: seq<nat>)
    | MissingPlaylist
    | Failure(error: Error)

  /** `data.get("viewMode", "month")` */
  function ViewMode(req: Request): (mode: string)
    ensures req.viewMode.Some? ==> mode == req.viewMode.value
    ensures req.viewMode.None? ==> mode == "month"
  {
    req.viewMode.GetOr("month")
  }

  /** `data.get("start", "2022-09" if view_mode == "month" else "Fall 2022")` */
  function StartOf(req: Request): (start: string)
    ensures req.start.Some? ==> start == req.start.value
    ensures req.start.None? && ViewMode(req) == "month" ==> start == Format(YearMonth(2022, 9))
    ensures req.start.None? && ViewMode(req) != "month" ==> start == LabelText(SeasonLabel(Fall, Pad(2022, 4)))
  {
    DefaultMonth();
    DefaultSeason();
    req.start.GetOr(if ViewMode(req) == "month" then "2022-09" else "Fall 2022")
  }

  /** The default month start is a formatted month. */
  lemma DefaultMonth()
    ensures "2022-09" == Format(YearMonth(2022, 9))
  {
    PaddedYear();
    assert Pad(9, 2) == "09" by {
      assert Pad(0, 1) == "0";
    }
  }

  /** The default season start is a season label's text. */
  lemma DefaultSeason()
    ensures "Fall 2022" == LabelText(SeasonLabel(Fall, Pad(2022, 4)))
  {
    PaddedYear();
  }

  /** The year of both defaults, written with `%Y`. */
  lemma PaddedYear()
    ensures Pad(2022, 4) == "2022"
  {
    assert Pad(2, 1) == "2" && Pad(20, 2) == "20" && Pad(202, 3) == "202";
  }

  /** `[date[:7] for date in added_dates]` */
  function MonthPrefixes(dates: seq<string>): (r: seq<string>)
    ensures |r| == |dates|
    ensures forall i :: 0 <= i < |dates| ==> r[i] == Take(dates[i], 7)
  {
    seq(|dates|, i requires 0 <= i < |dates| => Take(dates[i], 7))
  }

  /** The month branch of `analyze`: count the `YYYY-MM` prefixes, span the
      months from `start` (or the earliest prefix when `start` is `"start"`)
      to the latest prefix, and read each month's count. */
  function AggregateByMonth(dates: seq<string>, start: string): (r: Result<Histogram<string>, Error>)
    requires |dates| > 0
    ensures r.Ok? ==> |r.value.labels| == |r.value.data|
    ensures r.Ok? ==> forall i :: 0 <= i < |r.value.labels| ==>
                        r.value.data[i] == Count(MonthPrefixes(dates), r.value.labels[i])
    ensures start != "start" && Parse(start).None? ==> r == Err(UnparseableMonth)
  {
    var prefixes := MonthPrefixes(dates);
    var first := if start == "start" then Least(prefixes, StrLt) else start;
    var last := Greatest(prefixes, StrLt);
    match MonthRange(first, last)
    case Err(e) => Err(e)
    case Ok(labels) => Ok(Histogram(labels, CountsFor(prefixes, labels)))
  }

  /** Season labels as the JSON carries them. */
  function LabelTexts(labels: seq<SeasonLabel>): (r: seq<string>)
    ensures |r| == |labels|
    ensures forall i :: 0 <= i < |labels| ==> r[i] == LabelText(labels[i])
  {
    seq(|labels|, i requires 0 <= i < |labels| => LabelText(labels[i]))
  }

  /** `analyze()` once the token is in hand, with `tracks` what
      `get_playlist_tracks` fetched for the request's playlist. */
  function Analyze(req: Request, tracks: seq<Track>): (r: Response)
    ensures req.playlistId.None? || req.playlistId == Some("") <==> r == MissingPlaylist
    ensures r != MissingPlaylist && ExtractAddedDates(tracks) == [] ==> r == Chart([], [])
    ensures r.Chart? ==> |r.labels| == |r.data|
  {
    if req.playlistId.None? || req.playlistId == Some("") then MissingPlaylist
    else
      var dates := ExtractAddedDates(tracks);
      if dates == [] then Chart([], [])
      else if ViewMode(req) == "season" then
        match AggregateBySeason(dates, StartOf(req))
        case Err(e) => Failure(e)
        case Ok(h) => Chart(LabelTexts(h.labels), h.data)
      else
        match AggregateByMonth(dates, StartOf(req))
        case Err(e) => Failure(e)
        case Ok(h) => Chart(h.labels, h.data)
  }

  /** An aggregation error becomes a failure response and a histogram becomes
      the chart, in either mode; nothing else fails once the playlist is named. */
  lemma AnalyzeOutcome(req: Request, tracks: seq<Track>)
    requires req.playlistId.Some? && req.playlistId != Some("")
    requires ExtractAddedDates(tracks) != []
    ensures ViewMode(req) == "season" ==>
      match AggregateBySeason(ExtractAddedDates(tracks), StartOf(req))
      case Err(e) => Analyze(req, tracks) == Failure(e)
      case Ok(h) => Analyze(req, tracks) == Chart(LabelTexts(h.labels), h.data)
    ensures ViewMode(req) != "season" ==>
      match AggregateByMonth(ExtractAddedDates(tracks), StartOf(req))
      case Err(e) => Analyze(req, tracks) == Failure(e)
      case Ok(h) => Analyze(req, tracks) == Chart(h.labels, h.data)
  {
  }

  /** A month prefix that parses: its month is listed in the range. */
  lemma PrefixListed(p: string, s: YearMonth, e: YearMonth)
    requires IsMonthText(p) && s.Valid() && e.Valid() && e != LastMonth
    requires !StrLt(p, Format(s)) && !StrLt(Format(e), p)
    ensures MonthTexts(s, e).Ok? && p in MonthTexts(s, e).value
  {
    var ym := Parse(p).value;
    FormatParse(p);
    FormatOrder(ym, s);
    FormatOrder(e, ym);
    MonthTextsMember(s, e, ym);
  }

  /** The months of the earliest and latest prefix bound every prefix. */
  lemma PrefixEnds(p: seq<string>) returns (s: YearMonth, e: YearMonth)
    requires |p| > 0
    requires forall i :: 0 <= i < |p| ==> IsMonthText(p[i]) && p[i] != Format(LastMonth)
    ensures s.Valid() && e.Valid() && e != LastMonth
    ensures Least(p, StrLt) == Format(s) && Greatest(p, StrLt) == Format(e)
    ensures MonthTexts(s, e).Ok? && forall i :: 0 <= i < |p| ==> p[i] in MonthTexts(s, e).value
  {
    StrExtremes(p);
    var first := Least(p, StrLt);
    var last := Greatest(p, StrLt);
    var a :| 0 <= a < |p| && p[a] == first;
    var b :| 0 <= b < |p| && p[b] == last;
    s := Parse(first).value;
    e := Parse(last).value;
    FormatParse(first);
    FormatParse(last);
    forall i | 0 <= i < |p|
      ensures p[i] in MonthTexts(s, e).value
    {
      PrefixListed(p[i], s, e);
    }
  }

  /** From the earliest month on (`start` is `"start"`), when every prefix is
      a well-formed month before December 9999: the labels are every month
      from the earliest prefix to the latest, none repeated, and every date
      is counted in exactly one bar. */
  lemma MonthTotal(dates: seq<string>) returns (s: YearMonth, e: YearMonth)
    requires |dates| > 0
    requires forall i :: 0 <= i < |dates| ==> IsMonthText(Take(dates[i], 7))
    requires forall i :: 0 <= i < |dates| ==> Take(dates[i], 7) != Format(LastMonth)
    ensures s.Valid() && e.Valid() && e != LastMonth
    ensures Least(MonthPrefixes(dates), StrLt) == Format(s) && Greatest(MonthPrefixes(dates), StrLt) == Format(e)
    ensures AggregateByMonth(dates, "start").Ok?
    ensures AggregateByMonth(dates, "start").value.labels == MonthTexts(s, e).value
    ensures NoDuplicates(AggregateByMonth(dates, "start").value.labels)
    ensures Sum(AggregateByMonth(dates, "start").value.data) == |dates|
  {
    var p := MonthPrefixes(dates);
    s, e := PrefixEnds(p);
    ParseFormat(s);
    ParseFormat(e);
    MonthTextsDistinct(s, e);
    var labels := MonthTexts(s, e).value;
    assert MonthRange(Format(s), Format(e)) == Ok(labels);
    SumCountsCovers(p, labels);
  }

  /** Whether text `p` names a month at or after `s`. */
  predicate AtOrAfter(p: string, s: YearMonth) {
    Parse(p).Some? && Ord(s) <= Ord(Parse(p).value)
  }

  /** For month text no later than `e`: it is a label of the range from `s`
      to `e` exactly when its month is at or after `s`. */
  lemma InRangeFrom(p: string, s: YearMonth, e: YearMonth)
    requires IsMonthText(p) && s.Valid() && e.Valid() && e != LastMonth
    requires Ord(Parse(p).value) <= Ord(e)
    ensures MonthTexts(s, e).Ok?
    ensures p in MonthTexts(s, e).value <==> AtOrAfter(p, s)
  {
    var ym := Parse(p).value;
    if p in MonthTexts(s, e).value {
      MonthTextsOnly(s, e, p);
    }
    if Ord(s) <= Ord(ym) {
      FormatParse(p);
      MonthTextsMember(s, e, ym);
    }
  }

  /** From an explicit start month, when every prefix is a well-formed month
      before December 9999: the labels are the months from the start to the
      latest prefix, and a date is counted exactly when its month is at or
      after the start, so the dates before it are dropped. */
  lemma MonthFromStart(dates: seq<string>, start: string) returns (e: YearMonth)
    requires |dates| > 0 && Parse(start).Some?
    requires forall i :: 0 <= i < |dates| ==> IsMonthText(Take(dates[i], 7))
    requires forall i :: 0 <= i < |dates| ==> Take(dates[i], 7) != Format(LastMonth)
    ensures e.Valid() && e != LastMonth && Greatest(MonthPrefixes(dates), StrLt) == Format(e)
    ensures AggregateByMonth(dates, start).Ok?
    ensures AggregateByMonth(dates, start).value.labels == MonthTexts(Parse(start).value, e).value
    ensures Sum(AggregateByMonth(dates, start).value.data)
              == CountWhere(MonthPrefixes(dates), p => AtOrAfter(p, Parse(start).value))
  {
    var p := MonthPrefixes(dates);
    var s0 := Parse(start).value;
    var first: YearMonth;
    first, e := PrefixEnds(p);
    assert start != "start" by {
      assert !IsDigit("start"[0]);
    }
    ParseFormat(e);
    var labels := MonthTexts(s0, e).value;
    assert AggregateByMonth(dates, start) == Ok(Histogram(labels, CountsFor(p, labels)));
    MonthTextsDistinct(s0, e);
    SumCountsIn(p, labels);
    forall i | 0 <= i < |p|
      ensures (p[i] in labels) == AtOrAfter(p[i], s0)
    {
      FormatParse(p[i]);
      MonthTextsOnly(first, e, p[i]);
      InRangeFrom(p[i], s0, e);
    }
    CountWhereSame(p, x => x in labels, q => AtOrAfter(q, s0));
  }

  /** A start month later than every dated month gives an empty chart, not an error. */
  lemma MonthStartAfterLatest(dates: seq<string>, start: string)
    requires |dates| > 0 && start != "start" && Parse(start).Some?
    requires forall i :: 0 <= i < |dates| ==> Parse(Take(dates[i], 7)).Some?
    requires forall i :: 0 <= i < |dates| ==> Ord(Parse(Take(dates[i], 7)).value) < Ord(Parse(start).value)
    ensures AggregateByMonth(dates, start) == Ok(Histogram([], []))
  {
    var p := MonthPrefixes(dates);
    var last := Greatest(p, StrLt);
    var b :| 0 <= b < |p| && p[b] == last;
    MonthTextsEmpty(Parse(start).value, Parse(last).value);
  }
}
