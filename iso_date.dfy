/** Rendering a calendar date the way Python's `str(date)` does: ISO 8601
    extended format `YYYY-MM-DD` (section 5.2.1.1 of ISO 8601:2004), every
    field zero-padded. Also the reading back of such a text, and the
    lexicographic string order Python's `<` applies to texts. */
module IsoDate {
  import opened Outcomes
  import opened Calendar

  predicate IsDigit(c: char) {
    '0' <= c <= '9'
  }

  predicate AllDigits(s: string) {
    forall i :: 0 <= i < |s| ==> IsDigit(s[i])
  }

  function DigitValue(c: char): int {
    (c as int) - ('0' as int)
  }

  function DigitChar(v: int): (c: char)
    requires 0 <= v <= 9
    ensures IsDigit(c) && DigitValue(c) == v
  {
    (('0' as int) + v) as char
  }

  /** The number a string of decimal digits denotes. */
  function Value(s: string): int {
    if s == [] then 0 else 10 * Value(s[..|s| - 1]) + DigitValue(s[|s| - 1])
  }

  lemma Value2(s: string)
    requires |s| == 2
    ensures Value(s) == 10 * DigitValue(s[0]) + DigitValue(s[1])
  {
    var h := s[..1];
    assert h[..0] == [] && h[0] == s[0];
    assert Value(h) == 10 * Value(h[..0]) + DigitValue(h[0]);
    assert Value(s) == 10 * Value(h) + DigitValue(s[1]);
  }

  lemma ValueAppend2(a: string, b: string)
    requires |b| == 2
    ensures Value(a + b) == 100 * Value(a) + Value(b)
  {
    assert (a + b)[..|a + b| - 1] == a + [b[0]];
    assert (a + [b[0]])[..|a|] == a;
    Value2(b);
  }

  /** `%02d`: two digits, leading zero. */
  function Pad2(v: int): (s: string)
    requires 0 <= v <= 99
    ensures |s| == 2 && AllDigits(s) && Value(s) == v
  {
    var s := [DigitChar(v / 10), DigitChar(v % 10)];
    Value2(s);
    s
  }

  /** `%04d`: four digits, leading zeros. */
  function Pad4(v: int): (s: string)
    requires 0 <= v <= 9999
    ensures |s| == 4 && AllDigits(s) && Value(s) == v
  {
    ValueAppend2(Pad2(v / 100), Pad2(v % 100));
    Pad2(v / 100) + Pad2(v % 100)
  }

  /** The shape of an extended-format date: digits, with `-` at positions 4 and 7. */
  predicate IsIsoShape(s: string) {
    && |s| == 10
    && s[4] == '-' && s[7] == '-'
    && forall i :: 0 <= i < 10 && i != 4 && i != 7 ==> IsDigit(s[i])
  }

  /** Python's `str(date)` / `date.isoformat()`. */
  function Format(d: Date): (s: string)
    requires IsValid(d)
    ensures IsIsoShape(s)
  {
    Pad4(d.year) + "-" + Pad2(d.month) + "-" + Pad2(d.day)
  }

  /** Reading an extended-format date back; None for any other text. */
  function Parse(s: string): (r: Option<Date>)
    ensures r.Some? ==> IsIsoShape(s) && IsValid(r.value)
  {
    if IsIsoShape(s) then
      var d := Date(Value(s[..4]), Value(s[5..7]), Value(s[8..]));
      if IsValid(d) then Some(d) else None
    else None
  }

  lemma FormatFields(d: Date)
    requires IsValid(d)
    ensures Format(d)[..4] == Pad4(d.year)
    ensures Format(d)[5..7] == Pad2(d.month)
    ensures Format(d)[8..] == Pad2(d.day)
  {
  }

  /** Reading back a rendered date gives the date. */
  lemma ParseFormat(d: Date)
    requires IsValid(d)
    ensures Parse(Format(d)) == Some(d)
  {
    FormatFields(d);
  }

  lemma Pad2Value(s: string)
    requires |s| == 2 && AllDigits(s)
    ensures 0 <= Value(s) <= 99
    ensures Pad2(Value(s)) == s
  {
    Value2(s);
  }

  lemma Pad4Value(s: string)
    requires |s| == 4 && AllDigits(s)
    ensures 0 <= Value(s) <= 9999
    ensures Pad4(Value(s)) == s
  {
    var hi, lo := s[..2], s[2..];
    assert s == hi + lo;
    Pad2Value(hi);
    Pad2Value(lo);
    ValueAppend2(hi, lo);
    var v := Value(s);
    assert v / 100 == Value(hi) && v % 100 == Value(lo);
    assert Pad4(v) == Pad2(Value(hi)) + Pad2(Value(lo));
  }

  /** Every text that reads back as a date is exactly that date's rendering:
      with ParseFormat, Format is a bijection onto the well-formed texts. */
  lemma FormatParse(s: string)
    requires Parse(s).Some?
    ensures Format(Parse(s).value) == s
  {
    Pad4Value(s[..4]);
    Pad2Value(s[5..7]);
    Pad2Value(s[8..]);
    assert s == s[..4] + "-" + s[5..7] + "-" + s[8..];
  }

  /** Python's `<` on texts: lexicographic by code point, a proper prefix first. */
  predicate LexLess(s: string, t: string) {
    if |s| == 0 then |t| > 0
    else |t| > 0 && (s[0] < t[0] || (s[0] == t[0] && LexLess(s[1..], t[1..])))
  }

  lemma {:induction false} LexIrreflexive(s: string)
    ensures !LexLess(s, s)
  {
    if |s| > 0 {
      LexIrreflexive(s[1..]);
    }
  }

  lemma {:induction false} LexAsymmetric(s: string, t: string)
    requires LexLess(s, t)
    ensures !LexLess(t, s)
  {
    if |s| > 0 && s[0] == t[0] {
      LexAsymmetric(s[1..], t[1..]);
    }
  }

  /** Comparing two texts cut at the same place: the heads decide unless they are equal. */
  lemma {:induction false} LexConcat(a: string, b: string, c: string, d: string)
    requires |a| == |c|
    ensures LexLess(a + b, c + d) <==> LexLess(a, c) || (a == c && LexLess(b, d))
  {
    if |a| == 0 {
      assert a + b == b && c + d == d;
    } else {
      assert (a + b)[0] == a[0] && (c + d)[0] == c[0];
      assert (a + b)[1..] == a[1..] + b && (c + d)[1..] == c[1..] + d;
      LexConcat(a[1..], b, c[1..], d);
      if a[0] == c[0] && a[1..] == c[1..] {
        assert a == c;
      }
      if a == c {
        assert a[1..] == c[1..];
      }
    }
  }

  lemma Pad2Order(v: int, w: int)
    requires 0 <= v < w <= 99
    ensures LexLess(Pad2(v), Pad2(w))
  {
    var p, q := Pad2(v), Pad2(w);
    assert p == [DigitChar(v / 10)] + [DigitChar(v % 10)];
    assert q == [DigitChar(w / 10)] + [DigitChar(w % 10)];
    LexConcat([DigitChar(v / 10)], [DigitChar(v % 10)], [DigitChar(w / 10)], [DigitChar(w % 10)]);
  }

  lemma Pad4Order(v: int, w: int)
    requires 0 <= v < w <= 9999
    ensures LexLess(Pad4(v), Pad4(w))
  {
    LexConcat(Pad2(v / 100), Pad2(v % 100), Pad2(w / 100), Pad2(w % 100));
    if v / 100 < w / 100 {
      Pad2Order(v / 100, w / 100);
    } else {
      Pad2Order(v % 100, w % 100);
    }
  }

  lemma FormatOrderForward(a: Date, b: Date)
    requires IsValid(a) && IsValid(b) && Before(a, b)
    ensures LexLess(Format(a), Format(b))
  {
    var ya, yb := Pad4(a.year), Pad4(b.year);
    var ma, mb := Pad2(a.month), Pad2(b.month);
    var da, db := Pad2(a.day), Pad2(b.day);
    if a.year < b.year {
      assert Format(a) == ya + ("-" + ma + "-" + da);
      assert Format(b) == yb + ("-" + mb + "-" + db);
      Pad4Order(a.year, b.year);
      LexConcat(ya, "-" + ma + "-" + da, yb, "-" + mb + "-" + db);
    } else if a.month < b.month {
      assert Format(a) == (ya + "-") + (ma + ("-" + da));
      assert Format(b) == (ya + "-") + (mb + ("-" + db));
      Pad2Order(a.month, b.month);
      LexConcat(ma, "-" + da, mb, "-" + db);
      LexConcat(ya + "-", ma + ("-" + da), ya + "-", mb + ("-" + db));
    } else {
      assert Format(a) == (ya + "-" + ma + "-") + da;
      assert Format(b) == (ya + "-" + ma + "-") + db;
      Pad2Order(a.day, b.day);
      LexConcat(ya + "-" + ma + "-", da, ya + "-" + ma + "-", db);
    }
  }

  /** Zero padding makes text order agree with chronological order, in both directions. */
  lemma FormatOrder(a: Date, b: Date)
    requires IsValid(a) && IsValid(b)
    ensures Before(a, b) <==> LexLess(Format(a), Format(b))
  {
    if Before(a, b) {
      FormatOrderForward(a, b);
    } else if a == b {
      LexIrreflexive(Format(a));
    } else {
      FormatOrderForward(b, a);
      LexAsymmetric(Format(b), Format(a));
    }
  }
}
