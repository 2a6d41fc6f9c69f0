# Dataset exporter: date window, tags and manifest fields

This project models the pure logic of `jobs/data_download.py`. That script
downloads daily closing prices for a ticker and describes them in a YAML
manifest. The model covers:

- turning a day offset into an ISO 8601 extended-format date `YYYY-MM-DD`
  (section 5.2.1.1 of ISO 8601:2004), `n` days before "today" in the proleptic
  Gregorian calendar (`to_date`);
- the two-date download window built from the start and end offsets;
- cutting each row's timestamp text to its date;
- the `Length`, `Start` and `End` summary tags taken from the series;
- the manifest's dataset name, version, CSV path and description;
- one whole run, ending in the first uncaught fault in source order or in the
  manifest fields.

"Today" is an explicit, valid civil date parameter. The download is
represented by the rows the provider returns.

Modules:

- `Outcomes` (outcomes.dfy): `Option` and `Result`. A `Failure` stands for a
  Python exception the script does not catch.
- `Calendar` (calendar.dfy): the calendar as Python's `datetime.date` has it.
  Dates run from 0001-01-01 to 9999-12-31. Each date has an ordinal, where day 1
  is 0001-01-01. `d - timedelta(days=n)` is ordinal subtraction and fails
  (OverflowError) outside that range. `PrevDay` and `StepBack` are an
  independent day-by-day reference for the subtraction.
- `IsoDate` (iso_date.dfy): the zero-padded `str(date)` rendering, reading such
  a text back, and Python's lexicographic `<` on texts.
- `DataDownload` (data_download.dfy): the script's own derivations.

The uncaught faults are:

- `DateOverflow`: the window date falls outside the representable range.
- `EmptySeries`: `data.index[0]` is evaluated on a series with no rows.
- `NoPeriodInTicker`: `ticker.index('.')` finds no period.

A run reports them in source order: window, then tags, then name.

## Model

| member | source | states |
|---|---|---|
| `Calendar.ToOrdinal` | jobs/data_download.py:31 | a valid date's day number lies in 1..3652059 and inside its own year's span |
| `Calendar.FromOrdinal` | jobs/data_download.py:31 | every day number in range names a valid date whose day number is that number |
| `Calendar.FromToOrdinal` | jobs/data_download.py:31 | every valid date is recovered from its day number (the conversion is a bijection) |
| `Calendar.OrdinalOrder` | jobs/data_download.py:31 | one valid date is earlier than another exactly when its day number is smaller, and equal exactly when the numbers are equal |
| `Calendar.PrevDay` | jobs/data_download.py:31 | the calendar's previous day (across month, year and leap-day boundaries) is valid and exactly one day number earlier |
| `Calendar.StepBack` | jobs/data_download.py:31 | walking back k days one at a time gives a valid date exactly k day numbers earlier |
| `Calendar.MinusDays` | jobs/data_download.py:31 | `date - timedelta(days=n)` succeeds exactly when the result is in range, and then it is valid and exactly n days earlier |
| `Calendar.MinusZero` | jobs/data_download.py:31 | subtracting zero days gives the same date |
| `Calendar.MinusDaysIsStepBack` | jobs/data_download.py:31 | subtracting n days equals stepping back n days through the calendar |
| `Calendar.MinusDaysSucc` | jobs/data_download.py:31 | subtracting one more day gives the previous calendar day |
| `Calendar.MinusDaysAntitone` | jobs/data_download.py:31 | a larger offset gives a strictly earlier date |
| `Calendar.MinusDaysCompose` | jobs/data_download.py:31 | subtracting m days and then n days is subtracting m + n days, failing in the same cases |
| `IsoDate.Pad2` | jobs/data_download.py:31 | two-digit zero padding gives two digits denoting the number |
| `IsoDate.Pad4` | jobs/data_download.py:31 | four-digit zero padding gives four digits denoting the number |
| `IsoDate.Format` | jobs/data_download.py:31 | `str(date)` is 10 characters: digits, with `-` at positions 4 and 7 |
| `IsoDate.Parse` | jobs/data_download.py:31 | the script never reads a date back; this is a reference reader that pins down what `str(date)` produces: a text it accepts has the `YYYY-MM-DD` shape and names a valid date |
| `IsoDate.ParseFormat` | jobs/data_download.py:31 | reading back a rendered date gives that date |
| `IsoDate.FormatParse` | jobs/data_download.py:31 | every text that reads back as a date is exactly that date's rendering |
| `IsoDate.Pad2Value` | jobs/data_download.py:31 | every two-digit text is the padding of the number it denotes |
| `IsoDate.Pad4Value` | jobs/data_download.py:31 | every four-digit text is the padding of the number it denotes |
| `IsoDate.LexConcat` | jobs/data_download.py:42-43 | texts cut at the same length compare by their heads, or by their tails when the heads are equal |
| `IsoDate.FormatOrder` | jobs/data_download.py:42-43 | a date is earlier exactly when its rendering is smaller as a text |
| `DataDownload.ToDate` | jobs/data_download.py:30-31 | `to_date(n)` fails with OverflowError exactly when the date is out of range; otherwise it is a `YYYY-MM-DD` text of the date exactly n days before today |
| `DataDownload.ToDateZero` | jobs/data_download.py:30-31 | `to_date(0)` is today's date |
| `DataDownload.ToDateStepsBack` | jobs/data_download.py:30-31 | `to_date(n)` renders the date reached by stepping back n days through the calendar |
| `DataDownload.DateWindow` | jobs/data_download.py:42-43 | the window fails exactly when either date overflows; otherwise both ends are `YYYY-MM-DD` texts |
| `DataDownload.WindowStart` | jobs/data_download.py:42 | the window's start is a valid date `start` days before today |
| `DataDownload.WindowEnd` | jobs/data_download.py:43 | the window's end is a valid date `end` days before today |
| `DataDownload.WindowDates` | jobs/data_download.py:42-43 | the window's two texts are the `YYYY-MM-DD` renderings of the start date and of the end date |
| `DataDownload.WindowOrdered` | jobs/data_download.py:42-43 | start offset > end offset exactly when the start date is earlier than the end date, both in time and as texts; equal offsets exactly when the two texts are equal |
| `DataDownload.StampText` | jobs/data_download.py:49 | a timestamp's text is 19 characters and begins with its date's rendering |
| `DataDownload.NormaliseDate` | jobs/data_download.py:49 | `str(x)[:10]` is the first min(10, length) characters of the text |
| `DataDownload.StampTexts` | jobs/data_download.py:49 | `str(x) for x in data.index`: one text per row, each the rendering of that row's timestamp |
| `DataDownload.NormaliseRenderedDate` | jobs/data_download.py:49 | cutting a rendered date followed by any time or zone text gives exactly the date |
| `DataDownload.NormaliseIdempotent` | jobs/data_download.py:49 | cutting twice is cutting once |
| `DataDownload.NormaliseDates` | jobs/data_download.py:49 | the Date column has one entry per index value, each that value's text cut to 10 characters |
| `DataDownload.NormalisedStampsAreDates` | jobs/data_download.py:49 | each Date column entry is its row's date as `YYYY-MM-DD` and reads back as that date |
| `DataDownload.SummaryTags` | jobs/data_download.py:56-59 | fails with IndexError exactly when the series is empty; otherwise `Length` is the row count, and `Start` and `End` are the first and last rows' dates |
| `DataDownload.TagsAgreeWithDateColumn` | jobs/data_download.py:49-59 | `Start` and `End` are the first and last entries of the Date column |
| `DataDownload.TagsOrdered` | jobs/data_download.py:57-59 | on a chronological series, `Start` < `End` as texts exactly when there are two rows or more, and they are equal exactly when there is one row |
| `DataDownload.TagsInsideWindow` | jobs/data_download.py:42-59 | if the provider returns only dates in [start, end), then `Start` is not before the window's start and `End` is before the window's end, as texts |
| `DataDownload.IndexOf` | jobs/data_download.py:64 | `s.index(c)` fails exactly when c is absent; otherwise it is the position of the first c |
| `DataDownload.DatasetName` | jobs/data_download.py:64 | the name fails with ValueError exactly when the ticker has no period; otherwise it has no period and ticker = name + "." + rest |
| `DataDownload.DatasetNameUnique` | jobs/data_download.py:64 | any period-free head followed by a period is the name |
| `DataDownload.RemoveAll` | jobs/data_download.py:65 | `re.sub('-', '', s)` leaves no `-` and removes exactly as many characters as there were `-` |
| `DataDownload.RemoveAllAppend` | jobs/data_download.py:65 | removal distributes over concatenation, so the remaining characters keep their order |
| `DataDownload.RemoveAllAbsent` | jobs/data_download.py:65 | a text with no `-` is unchanged |
| `DataDownload.Version` | jobs/data_download.py:65 | the version has no `-` |
| `DataDownload.VersionIsBasicFormat` | jobs/data_download.py:65 | the version is year, month and day digits run together (`YYYYMMDD`): 8 digits |
| `DataDownload.VersionIsTodayCompacted` | jobs/data_download.py:65 | the version is `to_date(0)` with its hyphens removed |
| `DataDownload.VersionInjective` | jobs/data_download.py:65 | different days give different versions |
| `DataDownload.CsvPath` | jobs/data_download.py:53 | the path is `../data/`, then the ticker, then `.csv` |
| `DataDownload.CsvPathInjective` | jobs/data_download.py:53 | different tickers get different CSV paths |
| `DataDownload.Description` | jobs/data_download.py:66 | the description's length is the fixed template's length plus the lengths of the ticker and both dates |
| `DataDownload.DescriptionFields` | jobs/data_download.py:66 | with 10-character dates, the description is `Stock data for `, the ticker, ` during `, `Start`, `:`, `End` and ` in 1d interval.`, each at a fixed place |
| `DataDownload.DescriptionInjective` | jobs/data_download.py:66 | with 10-character dates, the description determines the ticker, `Start` and `End` |
| `DataDownload.Export` | jobs/data_download.py:41-66 | a run fails exactly when the window overflows, the series is empty or the ticker has no period, with the first of these faults in source order |
| `DataDownload.ExportManifest` | jobs/data_download.py:53-66 | a manifest holds the period-free name that prefixes the ticker, the row count, the first and last row dates, the CSV path, the description over those tags, and the 8-digit `YYYYMMDD` version |

## Left out

- Directory creation and logging configuration (jobs/data_download.py:19-28), and all logging calls: filesystem I/O.
- Argument parsing (jobs/data_download.py:35-39): the ticker and both offsets are plain inputs. Non-integer offsets are rejected before any of the modelled code runs.
- The download through `yf.download` (jobs/data_download.py:46): a network call to a third-party provider. Its answer is the `rows` input. `TagsInsideWindow` states as a hypothesis that the provider keeps to the half-open window; the model does not promise it.
- Column selection and CSV output (jobs/data_download.py:50, 54): a library not modelled here, plus file I/O. The Date column built at line 49 is discarded by the column selection at line 50, so it never reaches the CSV. `Export` does not build that column either. The separate function `NormaliseDates` models it, and `TagsAgreeWithDateColumn` relates it to the tags.
- The `Median` and `SD` tags (jobs/data_download.py:60-61): floating-point statistics. Closing prices are carried as opaque `real` values and nothing is computed from them.
- Rendering and writing the YAML manifest, and the completion notice (jobs/data_download.py:70-82): text templating around float-valued tags, plus file I/O. `Manifest` holds the derived fields. The schema URL and `type: uri_file` are constants.
- Reading the clock (jobs/data_download.py:31, 65): both reads are the one `today` parameter. The script reads the clock once per `to_date` call and again for the version, so a run that crosses midnight can mix two dates. The model does not capture this.
- `StampText` renders a timestamp without time zone or fractional seconds. `NormaliseRenderedDate` covers any text after the date, so the cut date is the same for those forms.
- Constructing `timedelta(days=n)` with |n| > 999999999 raises OverflowError in Python. Any such n also puts the result out of range, so both cases are the one `DateOverflow`.
- `FromOrdinal` finds the year and month by searching upward, not by Python's 400-year-cycle arithmetic. Both compute the same function: `FromOrdinal` and `ToOrdinal` are proved mutually inverse.
