# Playlist temporal bucketing, modelled in Dafny

The playlist analyser takes the "added at" timestamps of a playlist's tracks
and draws a histogram with no gaps. The histogram is keyed either by calendar
month (`"2022-09"`) or by season (`"Fall 2022"`). This project models the part
that does the bucketing:

- the pure helpers of `backend/spotify_utils.py`:
  - date extraction;
  - month ranges;
  - the month-to-season classifier, where December belongs to the next
    year's Winter;
  - season ranges;
  - the `(year, ordinal)` season sort key;
  - season aggregation.
- the month-mode aggregation written inline in the `analyze` handler of
  `backend/app.py`, with the handler's defaults, its empty-input
  short-circuit and the way it maps errors to a response.

Modules, one concept each:

- `Wrappers`: `Option` and `Result`.
- `Seqs`: slicing, `str.split`, counting, first-occurrence de-duplication,
  and lexicographic order with `sorted()[0]`/`[-1]`.
- `Digits`: `int()`, `str()` and zero-padding.
- `Calendar`:
  - `YearMonth`, the month ordinal `Ord`;
  - the month step with its December rollover, and the error at December 9999;
  - `Season`, the season number `SeasonIndex` (`year * 4 + ordinal`) and the
    sort key.
- `MonthText`: `strptime`/`strftime` with `"%Y-%m"`.
- `SpotifyUtils`: the functions of `backend/spotify_utils.py`.
  `generate_month_range` and `generate_season_range` are modelled twice:
  - as a loop method, which mirrors the source;
  - as a function, which the rest of the model uses.
- `SeasonCounts`: `aggregate_by_season`.
- `App`: the aggregation inside `analyze`.

Errors that Python raises are modelled as values of `SpotifyUtils.Error`,
returned in a `Result`:

| Error | Python cause |
|---|---|
| `UnparseableMonth` | `strptime` fails |
| `YearOutOfRange` | `replace(year=10000)` |
| `NotAnInteger` | `int()` fails |
| `MissingDatePart` | the `IndexError` of `sorted_dates[0][1]` or `sorted_dates[-1][1]` |
| `MalformedStartSeason` | the unpacking of the start season fails |
| `InvalidStartSeason` | the start season's name is not a season |

The model follows the order in which Python would raise them.

A season label keeps its year as text, as the source does. In the counting
loop, the year of a non-December date is copied verbatim from the date's
first field. The season range writes it with `strftime("%Y")`, which pads to four
digits. A December label writes the following year with `str(int(year) + 1)`.
From year 1000 on, these spellings agree. Before year 1000 they differ: the
range holds both `"Winter 0999"` (from January 999) and `"Winter 999"` (from
December 998). This is why the lemmas about consecutive seasons require years
from 1000 on.

Four behaviours of the code are easy to misread:

- Extraction drops the whole batch to `[]` as soon as one record lacks
  `added_at`. It does not skip only that record
  (`backend/spotify_utils.py:19-27`). `ExtractAddedDates` models this.
- An invalid start-season name is an error only when some date classifies.
  The name is checked after the "nothing classified" short-circuit
  (`backend/spotify_utils.py:97-109`). So when no date classifies, any start
  season gives an empty chart.
- The counting loop skips dates whose fields do not parse, but the span of
  the season range is taken over every date
  (`backend/spotify_utils.py:100-102`). So a date without a dash that sorts
  first or last fails the whole season chart with an `IndexError`, even when
  other dates are counted. `SeasonCounts.UncountedDateFailsSpan` shows this
  for the dates `"2022-09"` and `"x"`.
- A date with a malformed stamp is not skipped by extraction. Its first ten
  characters are kept, whatever they are, because Python slicing never fails.

## Model

| member | source | states |
|---|---|---|
| SpotifyUtils.AddedDates | backend/spotify_utils.py:21-23 | The comprehension succeeds exactly when every track has `added_at`. It then keeps the tracks' order, one date per track, each the first ten characters of the stamp. |
| SpotifyUtils.ExtractAddedDates | backend/spotify_utils.py:19-27 | All or nothing: with every track dated, one ten-character prefix per track in order. If any track lacks the field, the result is `[]`. |
| Seqs.Split | backend/spotify_utils.py:89 | `str.split(sep)`: at least one field, and no field contains the separator. |
| Seqs.JoinSplit | backend/spotify_utils.py:104 | Joining the fields of a split with the separator gives back the original string. |
| Digits.ParseInt | backend/spotify_utils.py:46 | `int(text)` accepts a nonempty ASCII digit string, with its decimal value, and a sign followed by such a string, negated after `-`. It accepts nothing else. The interpreter's limit on the number of digits is not modelled. |
| Digits.ParseIntText | backend/spotify_utils.py:48 | `int(str(n)) == n`, so December's `str(int(year) + 1)` reads back as the next year. |
| Digits.PadOrder | backend/app.py:138 | Zero-padded numbers of one width compare as strings exactly as they compare as numbers. |
| MonthText.Format | backend/spotify_utils.py:36 | `strftime("%Y-%m")` writes seven characters with the dash at position 4. |
| MonthText.Parse | backend/spotify_utils.py:31-32 | `strptime(text, "%Y-%m")` accepts exactly four digits naming a year from 1, a dash and a month field of one or two digits from 1 to 12. It yields the valid month with that year and that month number, so `"2022-9"` is September 2022. |
| MonthText.ParseFormat | backend/spotify_utils.py:31-36 | Parsing a formatted month gives the month back. The formatted text is in `strftime` shape. |
| MonthText.FormatParse | backend/spotify_utils.py:31-36 | Formatting a parsed seven-character month text gives the text back. |
| MonthText.FormatInjective | backend/spotify_utils.py:36 | Two months have the same text exactly when they are the same month. |
| MonthText.FormatOrder | backend/app.py:138-141 | Formatted months compare as strings exactly as they compare in time. So `sorted()` of the month prefixes is chronological. |
| MonthText.FieldsOrder | backend/spotify_utils.py:100-102 | `[year, month]` field lists of formatted months compare as lists exactly as the months compare in time. |
| Calendar.OrdInjective | backend/spotify_utils.py:35 | Two valid months are equal exactly when their ordinals are. `datetime` comparison is comparison of `Ord`. |
| Calendar.Next | backend/spotify_utils.py:37-40 | Stepping fails exactly at December 9999. Otherwise it gives a valid month one ordinal later, so December rolls over to January of the next year. |
| Calendar.Months | backend/spotify_utils.py:35-40 | The inclusive range has length `Ord(e) - Ord(s) + 1`, or 0 when `s` is after `e`. Entry `i` is the month `i` months after `s`. |
| Calendar.MonthsGapless | backend/spotify_utils.py:35-40 | A nonempty range starts at `s` and ends at `e`. Each entry is followed by the next calendar month. |
| SpotifyUtils.MonthTexts | backend/spotify_utils.py:33-42 | The loop fails exactly when the range reaches December 9999 and would step past it. Otherwise the length is `Ord(e) - Ord(s) + 1`, or 0 when the start is later. |
| SpotifyUtils.MonthRange | backend/spotify_utils.py:30-32 | `generate_month_range` fails with `UnparseableMonth` exactly when an end does not parse. |
| SpotifyUtils.StepMonths | backend/spotify_utils.py:33-42 | The `while` loop (append, then step with the December rollover) computes `MonthTexts`. |
| SpotifyUtils.GenerateMonthRange | backend/spotify_utils.py:30-42 | The whole function, with parsing and the loop, agrees with `MonthRange`. |
| SpotifyUtils.MonthTextsEnds | backend/spotify_utils.py:30-42 | The range is inclusive: its first label is the start month and its last is the end month. |
| SpotifyUtils.MonthTextsGapless | backend/spotify_utils.py:35-40 | Every label is month text, and each label is followed by the next calendar month. |
| SpotifyUtils.MonthTextsEmpty | backend/spotify_utils.py:35 | A start after the end gives an empty range, not an error. |
| SpotifyUtils.MonthTextsMember | backend/spotify_utils.py:35-40 | Every month between the ends is listed. |
| SpotifyUtils.MonthTextsOnly | backend/spotify_utils.py:35-40 | Nothing else is listed: every label is the text of a month between the ends. |
| SpotifyUtils.MonthTextsDistinct | backend/spotify_utils.py:35-40 | No month is listed twice. |
| SpotifyUtils.MonthToSeason | backend/spotify_utils.py:45-56 | A non-integer month raises. Month 12 gives Winter of `int(year) + 1`, and raises if the year is not an integer. Months 1-2 are Winter, 3-5 Spring, 6-8 Summer and 9-11 Fall, all with the year text unchanged. Any other month gives `None`. |
| SpotifyUtils.LabelOfMonthClassifies | backend/spotify_utils.py:66 | For every valid month, the classifier applied to its `%Y` and `%m` texts succeeds with the month's label. |
| Calendar.SeasonIndexKey | backend/spotify_utils.py:45-56 | December falls in Winter of the next year. Every other month `m` falls in season `m / 3` of its own year. |
| Calendar.SeasonIndexStep | backend/spotify_utils.py:37-40 | A month step moves the season number by 0 or 1, never back. |
| Calendar.SeasonNamed | backend/spotify_utils.py:105-109 | A name is accepted exactly when it is one of the four season names, and it maps back to that name. |
| Calendar.KeyOrder | backend/spotify_utils.py:115 | Comparing `(year, ordinal)` keys is comparing season numbers, in both directions. |
| SpotifyUtils.SortSeasons | backend/spotify_utils.py:79-82 | A key exists exactly when the year text is an integer. The key is `(int(year), ordinal)`, with Winter 0, Spring 1, Summer 2, Fall 3. |
| SpotifyUtils.LabelKey | backend/spotify_utils.py:79-82 | Every month's label has a key, and that key is the month's season number. |
| SpotifyUtils.SortKeyMonotone | backend/spotify_utils.py:45-56 | Over one month step, the classifier's key never decreases, including November's Fall Y to December's Winter Y+1. |
| SpotifyUtils.SeasonTexts | backend/spotify_utils.py:62-76 | The season loop fails exactly when it would step past December 9999. |
| SpotifyUtils.StepSeasons | backend/spotify_utils.py:62-76 | The `while` loop, which appends a season the first time it appears and then steps a month, computes `SeasonTexts`. |
| SpotifyUtils.SeasonRange | backend/spotify_utils.py:59-61 | `generate_season_range` fails with `UnparseableMonth` exactly when an end does not parse. |
| SpotifyUtils.GenerateSeasonRange | backend/spotify_utils.py:59-76 | The whole function agrees with `SeasonRange`. |
| SpotifyUtils.SeasonTextsCovers | backend/spotify_utils.py:65-68 | The range has no duplicates. Every month's season is in it. Every label is the season of some month in the range. |
| SpotifyUtils.SeasonTextsMember | backend/spotify_utils.py:65-68 | The season of every month between the ends is listed. |
| SpotifyUtils.LabelOfIndexKey | backend/spotify_utils.py:79-82 | The label of season number `k` sorts under key `k`, so `IndexOfLabel` recovers `k`. |
| SpotifyUtils.LabelOfMonthIndex | backend/spotify_utils.py:45-56 | From year 1000 on, a month's label is the label of its season number. |
| SpotifyUtils.SeasonTextsConsecutive | backend/spotify_utils.py:59-76 | From year 1000 on, the season range is exactly the seasons numbered from the start month's to the end month's, each once, in order. |
| SpotifyUtils.SeasonTextsKeys | backend/spotify_utils.py:59-82 | From year 1000 on, the `j`-th season's key is the start month's season number plus `j`. |
| SpotifyUtils.SeasonTextsIncreasing | backend/spotify_utils.py:59-82 | From year 1000 on, every season in the range has a key. Position `i` is at or before position `j` exactly when key `i` is at most key `j`, so the keys strictly increase. |
| Seqs.DedupSpec | backend/spotify_utils.py:67-68 | First-occurrence de-duplication has no repeats, adds no values and drops no values. |
| Seqs.DedupSteps | backend/spotify_utils.py:65-68 | Values listed along a walk whose step is 0 or +1 de-duplicate to the full run from the first value to the last. |
| SeasonCounts.DateFields | backend/spotify_utils.py:89 | `date.split("-")[:2]` has one or two fields, none containing a dash. |
| SeasonCounts.DateSeason | backend/spotify_utils.py:88-92 | A date is counted exactly when it has two fields and the classifier returns a season for them, and then under that season; a date with fewer fields or an error or `None` from the classifier is skipped. |
| SeasonCounts.Classified | backend/spotify_utils.py:86-95 | No date is counted exactly when no date classifies. There are never more counted seasons than dates. |
| SeasonCounts.ClassifiedCount | backend/spotify_utils.py:86-95 | For every input, a season occurs in the classification as often as there are dates whose season it is. Skipped dates drop out and nothing else does. |
| Seqs.CountSomes | backend/spotify_utils.py:90-95 | Dropping the absent values keeps the count of every present value. |
| SeasonCounts.ClassifiedAll | backend/spotify_utils.py:86-95 | When every date classifies, the counted seasons are the dates' seasons, one per date, in order. |
| SeasonCounts.ClassifiedPair | backend/spotify_utils.py:86-95 | Of a counted date followed by an uncounted one, only the first date's season is counted. |
| SeasonCounts.UncountedDateFailsSpan | backend/spotify_utils.py:86-102 | For the dates `"2022-09"` and `"x"`, the first date is counted under Fall 2022. The chart still fails with `MissingDatePart`, because `["x"]` sorts last and has no month field. |
| SeasonCounts.DatesClassified | backend/spotify_utils.py:87-92 | A date whose fields are a formatted month is counted under that month's label. |
| SeasonCounts.DateSpanEnds | backend/spotify_utils.py:100-102 | The span is taken from a date whose field list nothing sorts below and one whose field list nothing sorts above. It fails with `MissingDatePart` exactly when one of those two lacks a month field, and otherwise joins each one's two fields with a dash. |
| SeasonCounts.SpanOfMonths | backend/spotify_utils.py:100-102 | For dates written as months, the span runs from the earliest date's month to the latest date's month. |
| SeasonCounts.StartSeason | backend/spotify_utils.py:104-109 | Succeeds exactly when the start splits into two fields and the first is a season name. The parts joined with a space give the start back. |
| SeasonCounts.StartSeasonOf | backend/spotify_utils.py:104-115 | A start written `"<Name> <year>"` reads back as that season and that integer year. |
| SeasonCounts.FilterFrom | backend/spotify_utils.py:111-116 | The filter fails (only with `NotAnInteger`) exactly when the list is nonempty and the start year or some label's year is not an integer. Otherwise it keeps only labels from the list, and keeps a label exactly when its key is at or after the start key. |
| SeasonCounts.FilterFromDistinct | backend/spotify_utils.py:112-116 | Filtering a list without repeats gives a list without repeats. |
| SeasonCounts.FilterFromKeyed | backend/spotify_utils.py:112-116 | Every kept label has a key at or after the start key. |
| SeasonCounts.FilterFromKeepsAll | backend/spotify_utils.py:112-116 | On a key-sorted list whose head passes, the filter keeps everything. |
| SeasonCounts.FilterFromSuffix | backend/spotify_utils.py:112-116 | On a key-sorted list, the filter keeps a suffix. Every dropped label sorts before the start key, and the first kept label does not. |
| Calendar.KeyAtLeast | backend/spotify_utils.py:115 | A season number is at or after the key `(year, ordinal)` exactly when it is at least `year * 4 + ordinal`. |
| SeasonCounts.KeptFrom | backend/spotify_utils.py:112-116 | Over seasons numbered from `lo`, the number of labels the filter drops is the number of those seasons before the start season. |
| SeasonCounts.RunSorted | backend/spotify_utils.py:79-82 | The labels of consecutive season numbers are sorted by their keys. |
| SeasonCounts.FilterFromRun | backend/spotify_utils.py:112-116 | Filtering the labels of consecutive season numbers drops exactly those numbered below the start season's number `year * 4 + ordinal` and keeps the rest, in order. |
| SeasonCounts.RangeKeyed | backend/spotify_utils.py:111-116 | Every season in the range has a key, and the range has no repeats. |
| SeasonCounts.RangeSorted | backend/spotify_utils.py:111 | From year 1000 on, the season range is key-sorted. |
| SeasonCounts.RangeFromStart | backend/spotify_utils.py:111-116 | From year 1000 on, the filtered range is the run of consecutive seasons from the later of the start season and the first month's season to the end month's season. It is empty when the start season is after the end month's. |
| SeasonCounts.AggregateBySeason | backend/spotify_utils.py:85-121 | With no date classified, the chart is empty whatever the start. Otherwise: labels and data have equal length, and `data[i]` is the number of dates counted under `labels[i]`, 0 for none. A success with dates counted means the start season was valid. A malformed or invalid start with dates counted is an error. |
| SeasonCounts.SeasonDataCounts | backend/spotify_utils.py:86-119 | Each bar's value is the number of dates whose season is its label. A date the loop skips is in no bar. |
| SeasonCounts.LabelsFromStart | backend/spotify_utils.py:111-119 | Every label of a nonempty chart has a key at or after the start season's key. |
| SeasonCounts.WindowHoldsMonths | backend/spotify_utils.py:111-116 | The filtered range has no repeats, and it holds the season of every month at or after the start season. |
| SeasonCounts.SeasonAggregateShape | backend/spotify_utils.py:85-121 | For dates that are formatted months, the chart's labels are distinct and hold every date's season. The data are the counts of those labels. |
| SeasonCounts.SeasonTotal | backend/spotify_utils.py:85-121 | When every date is a month before December 9999, at or after the start season: the chart succeeds, its labels are distinct, and its data sum to the number of dates. |
| SeasonCounts.ChartOfSpan | backend/spotify_utils.py:97-121 | For month dates and a well-formed start, the chart's labels are the season range between the earliest and latest month, filtered from the start season on. |
| SeasonCounts.SeasonChartConsecutive | backend/spotify_utils.py:97-121 | For month dates from year 1000 on and a well-formed start, the chart succeeds. It lists consecutive seasons, from the later of the start season and the earliest date's season to the latest date's season. It is empty when the start season is after the latest date's. The span is set by the earliest and latest date. |
| Seqs.Least | backend/app.py:140 | `sorted(...)[0]` is one of the values, and no value is smaller. |
| Seqs.Greatest | backend/app.py:141 | `sorted(...)[-1]` is one of the values, and no value is larger. |
| Seqs.CountsFor | backend/app.py:145 | One count per label, each the number of occurrences (`Counter.get(label, 0)`). |
| Seqs.SumCountsCovers | backend/app.py:137-145 | When every item is among distinct labels, the counts sum to the number of items. |
| Seqs.SumCountsIn | backend/app.py:137-145 | For distinct labels, the counts sum to the number of items that are among the labels. Items outside them are dropped, and no item is counted twice. |
| Seqs.CountWhereSame | backend/app.py:137-145 | Two tests that agree on every item count the same items. |
| App.ViewMode | backend/app.py:115 | A given view mode is used unchanged. Without one, the mode is `"month"`. |
| App.StartOf | backend/app.py:116 | A given start is used unchanged. The default is `"2022-09"` in month mode and `"Fall 2022"` in every other mode. |
| App.MonthPrefixes | backend/app.py:136 | One seven-character prefix per date, in order. |
| App.AggregateByMonth | backend/app.py:136-145 | Labels and data have equal length, and `data[i]` counts the dates whose prefix is `labels[i]`. An unparseable explicit start is an error. |
| App.LabelTexts | backend/app.py:134 | Each season label becomes its `"<Name> <year>"` text, in order. |
| App.Analyze | backend/app.py:123-154 | The response is the missing-playlist error exactly when the playlist id is absent or empty. With no dates, the chart is empty in every mode. A chart's labels and data have equal length. |
| App.AnalyzeOutcome | backend/app.py:133-154 | In either mode, an aggregation error becomes a failure response and a histogram becomes the chart. |
| App.PrefixListed | backend/app.py:140-142 | A month prefix between the earliest and latest prefix is a label of the range. |
| App.PrefixEnds | backend/app.py:138-142 | The earliest and latest prefixes are the first and last month. Every prefix is a label of the range between them. |
| App.MonthTotal | backend/app.py:136-145 | With start `"start"` and every prefix a month before December 9999, the chart succeeds. Its labels are `generate_month_range` from the month of the least prefix to that of the greatest, which are distinct, and its data sum to the number of dates. |
| App.InRangeFrom | backend/app.py:140-142 | A month no later than the end is a label of the range from `s` exactly when it is at or after `s`. |
| App.MonthFromStart | backend/app.py:136-145 | With an explicit start month and every prefix a month before December 9999, the chart succeeds. Its labels are the months from the start to the latest prefix. Its data sum to the number of dates whose month is at or after the start, so earlier dates are dropped. |
| App.MonthStartAfterLatest | backend/app.py:140-145 | An explicit start later than every dated month gives an empty chart, not an error. |

## Left out

- Flask routing, static files, JSON encoding and HTTP status codes (`backend/app.py:41-88`, `157-172`). A `Failure` response stands for the 500 reply with its message. The message texts are not modelled.
- The token checks and the OAuth client (`backend/app.py:106-111`, `backend/auth.py`): these are process-global mutable state and calls into an external library.
- `get_playlist_tracks` (`backend/spotify_utils.py:6-16`) is a paginating network client. The tracks it returns are a parameter of `App.Analyze`.
- `backend/plotting.py` only renders a picture.
- Logging calls are omitted.
- App.Request: a request field is either absent or a string. JSON `null`, numbers and other values are not modelled. The same goes for other falsy playlist ids such as `0` or `false`.
- Digits.ParseInt: Python's `int()` also accepts surrounding whitespace, underscores between digits and non-ASCII digits. The model accepts only an optional sign followed by ASCII digits.
- Digits.ParseInt: CPython 3.11 and later (and the security releases that backport it) raise `ValueError` in `int(text)` for more than 4300 digits (`sys.int_info.default_max_str_digits`, configurable); the model reads digit strings of any length. With such a start year, `int(start_year)` raises in the season filter and the handler answers with a failure, where the model keeps no label and answers with an empty chart. The same limit on `str()` of a December year + 1 is not modelled either.
- MonthText.Parse: `strptime`'s `\d` also matches non-ASCII digits. The model accepts ASCII digits only.
- MonthText.Format: `strftime("%Y")` is modelled as padding to four digits. Some platforms' C libraries write years before 1000 without padding.
- SpotifyUtils.SortSeasons: the label is a structured value, so the whitespace split of its text is not modelled. Every label it is applied to comes from the season range, whose years never contain spaces.
- SpotifyUtils.SeasonTextsConsecutive: stated only from year 1000 on. Before then, padded and unpadded spellings of one Winter are two labels; `SeasonCounts.FilterFromRun` holds for every year.
- SpotifyUtils.LabelOfMonthIndex: stated only from year 1000 on. Before then, padded and unpadded spellings of one Winter are two labels; `SeasonCounts.FilterFromRun` holds for every year.
- SpotifyUtils.SeasonTextsKeys: stated only from year 1000 on. Before then, padded and unpadded spellings of one Winter are two labels; `SeasonCounts.FilterFromRun` holds for every year.
- SpotifyUtils.SeasonTextsIncreasing: stated only from year 1000 on. Before then, padded and unpadded spellings of one Winter are two labels; `SeasonCounts.FilterFromRun` holds for every year.
- SeasonCounts.RangeSorted: stated only from year 1000 on. Before then, padded and unpadded spellings of one Winter are two labels; `SeasonCounts.FilterFromRun` holds for every year.
- SeasonCounts.RangeFromStart: stated only from year 1000 on. Before then, padded and unpadded spellings of one Winter are two labels; `SeasonCounts.FilterFromRun` holds for every year.
- SeasonCounts.SeasonChartConsecutive: stated only from year 1000 on. Before then, padded and unpadded spellings of one Winter are two labels; `SeasonCounts.FilterFromRun` holds for every year.
- App.AggregateByMonth requires at least one date. The handler reaches the month branch only after its empty-input short-circuit. `App.Analyze` covers the empty case.
- SeasonCounts.SeasonTotal: requires every date before December 9999. From that month on, the range step raises `YearOutOfRange`, which `SpotifyUtils.MonthTexts` and `SpotifyUtils.SeasonTexts` state.
- App.MonthTotal: requires every date before December 9999. From that month on, the range step raises `YearOutOfRange`, which `SpotifyUtils.MonthTexts` and `SpotifyUtils.SeasonTexts` state.
- App.MonthFromStart: requires every date before December 9999. From that month on, the range step raises `YearOutOfRange`, which `SpotifyUtils.MonthTexts` and `SpotifyUtils.SeasonTexts` state.
