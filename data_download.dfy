/** The derivations of `jobs/data_download.py`: the date window computed from
    two day offsets, the per-row date text, the summary tags taken from the
    downloaded series, and the manifest fields derived from the ticker and the
    current date. The current date is a parameter; the market-data download is
    represented by the rows it returns. */
module DataDownload {
  import opened Outcomes
  import opened Calendar
  import opened IsoDate

  /** The faults the script leaves uncaught, each of which ends the run. */
  datatype Error =
    | DateOverflow       // OverflowError from `date - timedelta`
    | EmptySeries        // IndexError from `data.index[0]` on an empty series
    | NoPeriodInTicker   // ValueError from `ticker.index('.')`

  const DataDir: string := "../data"

  // ---------------------------------------------------------------------------
  // Offsets to calendar dates

  /** `to_date(days)`: the date `days` days before `today`, as `YYYY-MM-DD`. */
  function ToDate(today: Date, days: int): (r: Result<string, Error>)
    requires IsValid(today)
    ensures r.Failure? <==> !(1 <= ToOrdinal(today) - days <= MaxOrdinal)
    ensures r.Failure? ==> r.error == DateOverflow
    ensures r.Success? ==> IsIsoShape(r.value)
    ensures r.Success? ==> Parse(r.value).Some? && ToOrdinal(Parse(r.value).value) == ToOrdinal(today) - days
  {
    match MinusDays(today, days)
    case None => Failure(DateOverflow)
    case Some(d) =>
      ParseFormat(d);
      Success(Format(d))
  }

  /** An offset of zero gives today's date. */
  lemma ToDateZero(today: Date)
    requires IsValid(today)
    ensures ToDate(today, 0) == Success(Format(today))
  {
    MinusZero(today);
  }

  /** An offset of n is the date reached by stepping back n days through the calendar. */
  lemma ToDateStepsBack(today: Date, n: nat)
    requires IsValid(today) && n < ToOrdinal(today)
    ensures ToDate(today, n) == Success(Format(StepBack(today, n)))
  {
    MinusDaysIsStepBack(today, n);
  }

  /** The two dates the script asks the provider for. */
  datatype Window = Window(start: string, end: string)

  /** Lines 42-43: `start = to_date(start)`, then `end = to_date(end)`. */
  function DateWindow(today: Date, startDays: int, endDays: int): (r: Result<Window, Error>)
    requires IsValid(today)
    ensures r.Failure? <==> ToDate(today, startDays).Failure? || ToDate(today, endDays).Failure?
    ensures r.Failure? ==> r.error == DateOverflow
    ensures r.Success? ==> IsIsoShape(r.value.start) && IsIsoShape(r.value.end)
  {
    var start :- ToDate(today, startDays);
    var end :- ToDate(today, endDays);
    Success(Window(start, end))
  }

  /** The start date of the window as a date (defined when the window is). */
  function WindowStart(today: Date, startDays: int, endDays: int): (d: Date)
    requires IsValid(today) && DateWindow(today, startDays, endDays).Success?
    ensures IsValid(d) && ToOrdinal(d) == ToOrdinal(today) - startDays
  {
    MinusDays(today, startDays).value
  }

  /** The end date of the window as a date (defined when the window is). */
  function WindowEnd(today: Date, startDays: int, endDays: int): (d: Date)
    requires IsValid(today) && DateWindow(today, startDays, endDays).Success?
    ensures IsValid(d) && ToOrdinal(d) == ToOrdinal(today) - endDays
  {
    MinusDays(today, endDays).value
  }

  lemma WindowDates(today: Date, startDays: int, endDays: int)
    requires IsValid(today) && DateWindow(today, startDays, endDays).Success?
    ensures DateWindow(today, startDays, endDays).value.start == Format(WindowStart(today, startDays, endDays))
    ensures DateWindow(today, startDays, endDays).value.end == Format(WindowEnd(today, startDays, endDays))
  {
  }

  /** A larger start offset than end offset gives a forward window, both in time
      and as texts; equal offsets give an empty window. */
  lemma WindowOrdered(today: Date, startDays: int, endDays: int)
    requires IsValid(today) && DateWindow(today, startDays, endDays).Success?
    ensures var w := DateWindow(today, startDays, endDays).value;
      && (startDays > endDays <==> Before(WindowStart(today, startDays, endDays), WindowEnd(today, startDays, endDays)))
      && (startDays > endDays <==> LexLess(w.start, w.end))
      && (startDays == endDays <==> w.start == w.end)
  {
    var s, e := WindowStart(today, startDays, endDays), WindowEnd(today, startDays, endDays);
    OrdinalOrder(s, e);
    FormatOrder(s, e);
    if Format(s) == Format(e) {
      ParseFormat(s);
      ParseFormat(e);
    }
  }

  // ---------------------------------------------------------------------------
  // Rows returned by the provider

  /** An index value of the downloaded series: a pandas Timestamp without time zone. */
  datatype Timestamp = Timestamp(date: Date, hour: int, minute: int, second: int)

  predicate IsValidStamp(t: Timestamp) {
    IsValid(t.date) && 0 <= t.hour < 24 && 0 <= t.minute < 60 && 0 <= t.second < 60
  }

  /** `str(timestamp)`: `YYYY-MM-DD HH:MM:SS`. */
  function StampText(t: Timestamp): (s: string)
    requires IsValidStamp(t)
    ensures |s| == 19 && s[..10] == Format(t.date)
  {
    Format(t.date) + " " + Pad2(t.hour) + ":" + Pad2(t.minute) + ":" + Pad2(t.second)
  }

  /** One row of the closing-price series. */
  datatype Row = Row(stamp: Timestamp, close: real)

  predicate ValidRows(rows: seq<Row>) {
    forall i :: 0 <= i < |rows| ==> IsValidStamp(rows[i].stamp)
  }

  /** Line 49: `str(x)[:10]`, the first ten characters, or the whole text if shorter. */
  function NormaliseDate(text: string): (r: string)
    ensures |r| == if |text| < 10 then |text| else 10
    ensures r == text[..|r|]
  {
    if |text| <= 10 then text else text[..10]
  }

  /** Cutting a rendered date followed by anything (time of day, time zone) gives the date. */
  lemma NormaliseRenderedDate(d: Date, rest: string)
    requires IsValid(d)
    ensures NormaliseDate(Format(d) + rest) == Format(d)
  {
    assert (Format(d) + rest)[..10] == Format(d);
  }

  lemma NormaliseIdempotent(text: string)
    ensures NormaliseDate(NormaliseDate(text)) == NormaliseDate(text)
  {
  }

  /** Line 49: the index texts of all rows, each cut to its date. */
  function NormaliseDates(texts: seq<string>): (r: seq<string>)
    ensures |r| == |texts|
    ensures forall i :: 0 <= i < |texts| ==> r[i] == NormaliseDate(texts[i])
  {
    seq(|texts|, i requires 0 <= i < |texts| => NormaliseDate(texts[i]))
  }

  function StampTexts(rows: seq<Row>): (r: seq<string>)
    requires ValidRows(rows)
    ensures |r| == |rows|
    ensures forall i :: 0 <= i < |rows| ==> r[i] == StampText(rows[i].stamp)
  {
    seq(|rows|, i requires 0 <= i < |rows| => StampText(rows[i].stamp))
  }

  /** The Date column of line 49 holds exactly each row's calendar date. */
  lemma NormalisedStampsAreDates(rows: seq<Row>)
    requires ValidRows(rows)
    ensures var r := NormaliseDates(StampTexts(rows));
      forall i :: 0 <= i < |rows| ==> r[i] == Format(rows[i].stamp.date) && Parse(r[i]) == Some(rows[i].stamp.date)
  {
    forall i | 0 <= i < |rows|
      ensures NormaliseDates(StampTexts(rows))[i] == Format(rows[i].stamp.date)
      ensures Parse(Format(rows[i].stamp.date)) == Some(rows[i].stamp.date)
    {
      var t := rows[i].stamp;
      assert StampText(t) == Format(t.date) + StampText(t)[10..];
      NormaliseRenderedDate(t.date, StampText(t)[10..]);
      ParseFormat(t.date);
    }
  }

  // ---------------------------------------------------------------------------
  // Summary tags

  /** The `Length`, `Start` and `End` tags (the numeric `Median` and `SD` are not modelled). */
  datatype Tags = Tags(length: nat, start: string, end: string)

  /** Lines 56-59: row count, first row's date, last row's date. */
  function SummaryTags(rows: seq<Row>): (r: Result<Tags, Error>)
    requires ValidRows(rows)
    ensures r.Failure? <==> rows == []
    ensures r.Failure? ==> r.error == EmptySeries
    ensures r.Success? ==> && r.value.length == |rows|
                           && Parse(r.value.start) == Some(rows[0].stamp.date)
                           && Parse(r.value.end) == Some(rows[|rows| - 1].stamp.date)
  {
    if rows == [] then Failure(EmptySeries)
    else
      ParseFormat(rows[0].stamp.date);
      ParseFormat(rows[|rows| - 1].stamp.date);
      Success(Tags(|rows|, Format(rows[0].stamp.date), Format(rows[|rows| - 1].stamp.date)))
  }

  /** `Start` and `End` are the first and last entries of the Date column of line 49. */
  lemma TagsAgreeWithDateColumn(rows: seq<Row>)
    requires ValidRows(rows) && rows != []
    ensures var dates := NormaliseDates(StampTexts(rows));
      && SummaryTags(rows).value.start == dates[0]
      && SummaryTags(rows).value.end == dates[|rows| - 1]
  {
    NormalisedStampsAreDates(rows);
  }

  /** Rows in strictly increasing date order, one per trading day. */
  predicate Chronological(rows: seq<Row>) {
    forall i, j :: 0 <= i < j < |rows| ==> Before(rows[i].stamp.date, rows[j].stamp.date)
  }

  /** On a chronological series, `Start` comes before `End` exactly when there are two rows or more. */
  lemma TagsOrdered(rows: seq<Row>)
    requires ValidRows(rows) && rows != [] && Chronological(rows)
    ensures var t := SummaryTags(rows).value;
      && (|rows| > 1 <==> LexLess(t.start, t.end))
      && (|rows| == 1 <==> t.start == t.end)
  {
    var a, b := rows[0].stamp.date, rows[|rows| - 1].stamp.date;
    FormatOrder(a, b);
    if |rows| > 1 {
      LexAsymmetric(Format(a), Format(b));
      LexIrreflexive(Format(a));
    } else {
      LexIrreflexive(Format(a));
    }
  }

  /** When the provider honours the window (dates from the start date up to,
      not including, the end date), `Start` and `End` lie inside it as texts. */
  lemma TagsInsideWindow(today: Date, startDays: int, endDays: int, rows: seq<Row>)
    requires IsValid(today) && DateWindow(today, startDays, endDays).Success?
    requires ValidRows(rows) && rows != []
    requires forall i :: 0 <= i < |rows| ==>
      ToOrdinal(today) - startDays <= ToOrdinal(rows[i].stamp.date) < ToOrdinal(today) - endDays
    ensures var w, t := DateWindow(today, startDays, endDays).value, SummaryTags(rows).value;
      && !LexLess(t.start, w.start)
      && LexLess(t.end, w.end)
  {
    var s, e := WindowStart(today, startDays, endDays), WindowEnd(today, startDays, endDays);
    var first, last := rows[0].stamp.date, rows[|rows| - 1].stamp.date;
    OrdinalOrder(first, s);
    FormatOrder(first, s);
    OrdinalOrder(last, e);
    FormatOrder(last, e);
  }

  // ---------------------------------------------------------------------------
  // Manifest fields

  /** Python's `s.index(c)`, with None where it raises ValueError. */
  function IndexOf(s: string, c: char): (r: Option<nat>)
    ensures r.None? <==> c !in s
    ensures r.Some? ==> r.value < |s| && s[r.value] == c && c !in s[..r.value]
  {
    if s == [] then None
    else if s[0] == c then Some(0)
    else match IndexOf(s[1..], c)
      case None => None
      case Some(i) =>
        assert s[..i + 1] == [s[0]] + s[1..][..i];
        Some(i + 1)
  }

  /** Line 64: `ticker[:ticker.index('.')]`, the ticker up to its first period. */
  function DatasetName(ticker: string): (r: Result<string, Error>)
    ensures r.Failure? <==> '.' !in ticker
    ensures r.Failure? ==> r.error == NoPeriodInTicker
    ensures r.Success? ==> && '.' !in r.value
                           && |r.value| < |ticker|
                           && ticker == r.value + "." + ticker[|r.value| + 1..]
  {
    match IndexOf(ticker, '.')
    case None => Failure(NoPeriodInTicker)
    case Some(i) =>
      assert ticker == ticker[..i] + "." + ticker[i + 1..];
      Success(ticker[..i])
  }

  /** The name is the only period-free head of the ticker followed by a period. */
  lemma DatasetNameUnique(ticker: string, head: string, rest: string)
    requires ticker == head + "." + rest && '.' !in head
    ensures DatasetName(ticker) == Success(head)
  {
    assert ticker[|head|] == '.';
    var name := DatasetName(ticker).value;
    assert name == ticker[..|name|] && head == ticker[..|head|];
  }

  /** How many times c occurs in s. */
  function Occurrences(s: string, c: char): nat {
    if s == [] then 0 else (if s[0] == c then 1 else 0) + Occurrences(s[1..], c)
  }

  /** `re.sub(c, '', s)` for a one-character pattern: every c removed. */
  function RemoveAll(s: string, c: char): (r: string)
    ensures c !in r
    ensures |r| == |s| - Occurrences(s, c)
  {
    if s == [] then []
    else (if s[0] == c then [] else [s[0]]) + RemoveAll(s[1..], c)
  }

  lemma {:induction false} RemoveAllAppend(a: string, b: string, c: char)
    ensures RemoveAll(a + b, c) == RemoveAll(a, c) + RemoveAll(b, c)
  {
    if a != [] {
      var h := if a[0] == c then [] else [a[0]];
      assert (a + b)[0] == a[0] && (a + b)[1..] == a[1..] + b;
      assert RemoveAll(a + b, c) == h + RemoveAll(a[1..] + b, c);
      assert RemoveAll(a, c) == h + RemoveAll(a[1..], c);
      RemoveAllAppend(a[1..], b, c);
    } else {
      assert a + b == b;
    }
  }

  /** Removing a character the text does not hold leaves it unchanged: order is kept. */
  lemma {:induction false} RemoveAllAbsent(s: string, c: char)
    requires c !in s
    ensures RemoveAll(s, c) == s
  {
    if s != [] {
      RemoveAllAbsent(s[1..], c);
    }
  }

  lemma DigitsHaveNoHyphen(s: string)
    requires AllDigits(s)
    ensures '-' !in s
  {
  }

  /** Line 65: today's date with every `-` removed. */
  function Version(today: Date): (v: string)
    requires IsValid(today)
    ensures '-' !in v
  {
    RemoveAll(Format(today), '-')
  }

  /** Removing the `-` that joins two texts leaves the two texts, each cleaned. */
  lemma RemoveJoiningHyphen(a: string, b: string)
    ensures RemoveAll(a + "-" + b, '-') == RemoveAll(a, '-') + RemoveAll(b, '-')
  {
    RemoveAllAppend(a + "-", b, '-');
    RemoveAllAppend(a, "-", '-');
    RemoveHyphenAlone();
  }

  lemma RemoveHyphenAlone()
    ensures RemoveAll("-", '-') == []
  {
  }

  lemma AllDigitsAppend(a: string, b: string)
    requires AllDigits(a) && AllDigits(b)
    ensures AllDigits(a + b)
  {
    forall i | 0 <= i < |a + b| ensures IsDigit((a + b)[i]) {
      if i < |a| { assert (a + b)[i] == a[i]; } else { assert (a + b)[i] == b[i - |a|]; }
    }
  }

  /** The version is the ISO 8601 basic format `YYYYMMDD`: year, month and day digits run together. */
  lemma VersionIsBasicFormat(today: Date)
    requires IsValid(today)
    ensures Version(today) == Pad4(today.year) + Pad2(today.month) + Pad2(today.day)
    ensures |Version(today)| == 8 && AllDigits(Version(today))
  {
    var y, m, d := Pad4(today.year), Pad2(today.month), Pad2(today.day);
    assert Format(today) == (y + "-" + m) + "-" + d;
    RemoveJoiningHyphen(y + "-" + m, d);
    RemoveJoiningHyphen(y, m);
    DigitsHaveNoHyphen(y);
    DigitsHaveNoHyphen(m);
    DigitsHaveNoHyphen(d);
    RemoveAllAbsent(y, '-');
    RemoveAllAbsent(m, '-');
    RemoveAllAbsent(d, '-');
    AllDigitsAppend(y, m);
    AllDigitsAppend(y + m, d);
  }

  /** The version is today's `to_date(0)` with its hyphens removed. */
  lemma VersionIsTodayCompacted(today: Date)
    requires IsValid(today)
    ensures Version(today) == RemoveAll(ToDate(today, 0).value, '-')
  {
    ToDateZero(today);
  }

  lemma SplitBasicFormat(y: string, m: string, d: string)
    requires |y| == 4 && |m| == 2 && |d| == 2
    ensures (y + m + d)[..4] == y && (y + m + d)[4..6] == m && (y + m + d)[6..] == d
  {
  }

  /** Different days give different versions. */
  lemma VersionInjective(a: Date, b: Date)
    requires IsValid(a) && IsValid(b) && Version(a) == Version(b)
    ensures a == b
  {
    VersionIsBasicFormat(a);
    VersionIsBasicFormat(b);
    SplitBasicFormat(Pad4(a.year), Pad2(a.month), Pad2(a.day));
    SplitBasicFormat(Pad4(b.year), Pad2(b.month), Pad2(b.day));
    assert Pad4(a.year) == Pad4(b.year) && Pad2(a.month) == Pad2(b.month) && Pad2(a.day) == Pad2(b.day);
    assert Value(Pad4(a.year)) == a.year && Value(Pad4(b.year)) == b.year;
  }

  /** Line 53: `f'{DATA_DIR}/{ticker}.csv'`. */
  function CsvPath(ticker: string): (p: string)
    ensures |p| == |DataDir| + |ticker| + 5
    ensures p[..|DataDir| + 1] == DataDir + "/"
    ensures p[|DataDir| + 1..|p| - 4] == ticker
    ensures p[|p| - 4..] == ".csv"
  {
    DataDir + "/" + ticker + ".csv"
  }

  /** Different tickers are written to different files. */
  lemma CsvPathInjective(a: string, b: string)
    requires CsvPath(a) == CsvPath(b)
    ensures a == b
  {
  }

  const DescriptionHead: string := "Stock data for "
  const DescriptionMiddle: string := " during "
  const DescriptionTail: string := " in 1d interval."

  /** Line 66: the fixed sentence around the ticker and `Start:End`. */
  function Description(ticker: string, tags: Tags): (s: string)
    ensures |s| == |DescriptionHead| + |ticker| + |DescriptionMiddle| + |tags.start| + 1 + |tags.end| + |DescriptionTail|
  {
    DescriptionHead + ticker + DescriptionMiddle + tags.start + ":" + tags.end + DescriptionTail
  }

  /** With ten-character dates the template words, the ticker and both dates
      sit at fixed places in the description, so it determines all three. */
  lemma DescriptionFields(ticker: string, tags: Tags)
    requires |tags.start| == 10 && |tags.end| == 10
    ensures var s, n := Description(ticker, tags), |DescriptionHead| + |ticker|;
      && s[..|DescriptionHead|] == "Stock data for "
      && s[|DescriptionHead|..n] == ticker
      && s[n..n + |DescriptionMiddle|] == " during "
      && s[n + |DescriptionMiddle|..n + |DescriptionMiddle| + 10] == tags.start
      && s[n + |DescriptionMiddle| + 10] == ':'
      && s[n + |DescriptionMiddle| + 11..n + |DescriptionMiddle| + 21] == tags.end
      && s[n + |DescriptionMiddle| + 21..] == " in 1d interval."
  {
  }

  lemma DescriptionInjective(t1: string, g1: Tags, t2: string, g2: Tags)
    requires |g1.start| == 10 && |g1.end| == 10 && |g2.start| == 10 && |g2.end| == 10
    requires Description(t1, g1) == Description(t2, g2)
    ensures t1 == t2 && g1.start == g2.start && g1.end == g2.end
  {
    DescriptionFields(t1, g1);
    DescriptionFields(t2, g2);
  }

  // ---------------------------------------------------------------------------
  // The whole run

  /** The fields the script writes to its manifest (schema URL and type are constants). */
  datatype Manifest = Manifest(name: string, description: string, path: string, tags: Tags, version: string)

  /** One run, given today's date, the arguments and the provider's rows for the
      window: the first uncaught fault in source order, or the manifest. */
  function Export(today: Date, ticker: string, startDays: int, endDays: int, rows: seq<Row>): (r: Result<Manifest, Error>)
    requires IsValid(today) && ValidRows(rows)
    ensures r.Failure? <==> DateWindow(today, startDays, endDays).Failure? || rows == [] || '.' !in ticker
    ensures r.Failure? ==> r.error == (if DateWindow(today, startDays, endDays).Failure? then DateOverflow
                                       else if rows == [] then EmptySeries
                                       else NoPeriodInTicker)
  {
    var window := DateWindow(today, startDays, endDays);
    var path := CsvPath(ticker);
    var tags := SummaryTags(rows);
    var name := DatasetName(ticker);
    if window.Failure? then Failure(window.error)
    else if tags.Failure? then Failure(tags.error)
    else if name.Failure? then Failure(name.error)
    else Success(Manifest(name.value, Description(ticker, tags.value), path, tags.value, Version(today)))
  }

  /** A manifest, when there is one, holds the name, the row count, the first and
      last row dates, the CSV path and the 8-digit version derived above. */
  lemma ExportManifest(today: Date, ticker: string, startDays: int, endDays: int, rows: seq<Row>)
    requires IsValid(today) && ValidRows(rows)
    requires Export(today, ticker, startDays, endDays, rows).Success?
    ensures var m := Export(today, ticker, startDays, endDays, rows).value;
      && '.' !in m.name
      && ticker == m.name + "." + ticker[|m.name| + 1..]
      && m.tags.length == |rows|
      && Parse(m.tags.start) == Some(rows[0].stamp.date)
      && Parse(m.tags.end) == Some(rows[|rows| - 1].stamp.date)
      && m.path == CsvPath(ticker)
      && m.description == Description(ticker, m.tags)
      && |m.version| == 8 && AllDigits(m.version)
      && m.version == Pad4(today.year) + Pad2(today.month) + Pad2(today.day)
  {
    var tags, name := SummaryTags(rows), DatasetName(ticker);
    assert DateWindow(today, startDays, endDays).Success? && tags.Success? && name.Success?;
    var m := Export(today, ticker, startDays, endDays, rows).value;
    assert m == Manifest(name.value, Description(ticker, tags.value), CsvPath(ticker), tags.value, Version(today));
    ExportManifestFields(ticker, rows, today, m, name.value, tags.value);
  }

  lemma ExportManifestFields(ticker: string, rows: seq<Row>, today: Date, m: Manifest, name: string, tags: Tags)
    requires IsValid(today) && ValidRows(rows)
    requires SummaryTags(rows) == Success(tags) && DatasetName(ticker) == Success(name)
    requires m == Manifest(name, Description(ticker, tags), CsvPath(ticker), tags, Version(today))
    ensures && '.' !in m.name
            && ticker == m.name + "." + ticker[|m.name| + 1..]
            && m.tags.length == |rows|
            && Parse(m.tags.start) == Some(rows[0].stamp.date)
            && Parse(m.tags.end) == Some(rows[|rows| - 1].stamp.date)
            && m.path == CsvPath(ticker)
            && m.description == Description(ticker, m.tags)
            && |m.version| == 8 && AllDigits(m.version)
            && m.version == Pad4(today.year) + Pad2(today.month) + Pad2(today.day)
  {
    assert m.name == name && m.tags == tags && m.version == Version(today);
    VersionIsBasicFormat(today);
  }
}
