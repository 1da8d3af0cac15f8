/** extractYear: the year of a release date written in the pattern
    "M/d/yyyy h:mm:ss a" (for example "3/13/1991 12:00:00 AM"), or the
    sentinel 0 when the text is empty or the pattern rejects it. */
module Dates {
  import opened Wrappers
  import opened Numbers

  /** A numeric field read from the front of the text: its value, how many
      digits it used, and the text after it. */
  datatype Scan = Scan(value: nat, width: nat, rest: string)

  /** The most digits a variable-width pattern field reads. */
  const MaxWidth: nat := 19

  /** A numeric pattern field: the longest run of at most `max` digits, which
      must hold at least `min` of them, and the literal separator after it. */
  function Field(text: string, min: nat, max: nat, sep: char): (r: Option<Scan>)
    ensures r.Some? ==> min <= r.value.width <= max
    ensures r.Some? && r.value.width <= 4 ==> r.value.value <= 9999
  {
    var (ds, rest) := TakeDigits(text, max);
    if |ds| < min || rest == [] || rest[0] != sep then None
    else
      assert |ds| <= 4 ==> DigitsValue(ds) <= 9999 by {
        if |ds| <= 4 { FourDigitsBound(ds); }
      }
      Some(Scan(DigitsValue(ds), |ds|, rest[1..]))
  }

  /** The field ranges the smart date/time resolver enforces. The day is
      checked against 1..31 only: for shorter months the resolver moves an
      out-of-range day back to the month's last day, leaving the year as it
      is. The clock hour is checked against 1..12 only when it is not 0, so
      an hour of 0 is accepted and read as 12. */
  predicate InRange(month: int, day: int, year: int, hour: int, minute: int, second: int) {
    && 1 <= month <= 12
    && 1 <= day <= 31
    && 1 <= year
    && 0 <= hour <= 12
    && 0 <= minute <= 59
    && 0 <= second <= 59
  }

  /** One numeric field of the pattern: the fewest and the most digits it
      reads, and the literal that follows it. */
  datatype FieldSpec = FieldSpec(min: nat, max: nat, sep: char)

  /** "M/d/yyyy h:mm:ss a" up to the am/pm marker: month, day, year, hour,
      minute and second, each with the literal after it. */
  const ReleaseDatePattern: seq<FieldSpec> := [
    FieldSpec(1, MaxWidth, '/'), FieldSpec(1, MaxWidth, '/'), FieldSpec(4, MaxWidth, ' '),
    FieldSpec(1, MaxWidth, ':'), FieldSpec(2, 2, ':'), FieldSpec(2, 2, ' ')]

  /** Reads the fields `specs[k..]` in order, each from the text the
      previous one left; fails as soon as one field fails. */
  function ReadFields(text: string, specs: seq<FieldSpec>, k: nat): (r: Option<seq<Scan>>)
    requires k <= |specs|
    ensures r.Some? ==> |r.value| == |specs| - k
    decreases |specs| - k
  {
    if k == |specs| then Some([])
    else
      match Field(text, specs[k].min, specs[k].max, specs[k].sep)
      case None => None
      case Some(first) =>
        match ReadFields(first.rest, specs, k + 1)
        case None => None
        case Some(others) => Some([first] + others)
  }

  /** Every field read keeps to the widths of its spec. */
  lemma {:induction false} ReadFieldsWidths(text: string, specs: seq<FieldSpec>, k: nat)
    requires k <= |specs| && ReadFields(text, specs, k).Some?
    ensures forall j :: 0 <= j < |specs| - k ==>
      var f := ReadFields(text, specs, k).value[j];
      specs[k + j].min <= f.width <= specs[k + j].max && (f.width <= 4 ==> f.value <= 9999)
    decreases |specs| - k
  {
    if k < |specs| {
      var first := Field(text, specs[k].min, specs[k].max, specs[k].sep).value;
      ReadFieldsWidths(first.rest, specs, k + 1);
    }
  }

  /** LocalDate.parse(text, ofPattern("M/d/yyyy h:mm:ss a")), keeping only
      the year: M, d and h read one or more digits, yyyy exactly four (an
      unsigned year of more digits is refused), mm and ss exactly two, the
      separators are matched literally, the text ends with "AM" or "PM", and
      nothing may follow. None stands for the DateTimeParseException. */
  function ParseReleaseYear(text: string): (r: Option<int>)
    ensures r.Some? ==> 1 <= r.value <= 9999
  {
    match ReadFields(text, ReleaseDatePattern, 0)
    case None => None
    case Some(f) =>
      assert f[2].width == 4 ==> f[2].value <= 9999 by {
        ReadFieldsWidths(text, ReleaseDatePattern, 0);
      }
      if f[2].width == 4 && (f[5].rest == "AM" || f[5].rest == "PM")
         && InRange(f[0].value, f[1].value, f[2].value, f[3].value, f[4].value, f[5].value)
      then Some(f[2].value)
      else None
  }

  lemma {:induction false} FourDigitsBound(s: string)
    requires AllDigits(s) && |s| <= 4
    ensures DigitsValue(s) <= 9999
  {
    if s != [] {
      var p := s[..|s| - 1];
      assert DigitsValue(p) <= 999 by {
        if p != [] {
          var q := p[..|p| - 1];
          assert DigitsValue(q) <= 99 by {
            if q != [] {
              assert DigitsValue(q[..|q| - 1]) <= 9;
            }
          }
        }
      }
    }
  }

  /** extractYear: 0 for the empty text and for every text the pattern
      rejects; otherwise the year, which is never 0. */
  function ExtractYear(date: string): (year: int)
    ensures year == 0 <==> date == [] || ParseReleaseYear(date).None?
    ensures 0 <= year <= 9999
  {
    if date == [] then 0
    else
      match ParseReleaseYear(date)
      case Some(y) => y
      case None => 0
  }

  /** The fields of a release date as the external catalog writes it. */
  datatype ReleaseDate = ReleaseDate(month: nat, day: nat, year: nat, hour: nat, minute: nat, second: nat, pm: bool)

  predicate ValidReleaseDate(d: ReleaseDate) {
    InRange(d.month, d.day, d.year, d.hour, d.minute, d.second) && d.year <= 9999
  }

  /** Digits followed by a separator and the rest of the text. */
  function Then(digits: string, sep: char, rest: string): string {
    digits + [sep] + rest
  }

  /** Prints a release date in the "M/d/yyyy h:mm:ss a" pattern. */
  function FormatReleaseDate(d: ReleaseDate): string {
    Then(Digits(d.month), '/', Then(Digits(d.day), '/', Then(PadDigits(d.year, 4), ' ',
      Then(Digits(d.hour), ':', Then(PadDigits(d.minute, 2), ':', Then(PadDigits(d.second, 2), ' ',
        if d.pm then "PM" else "AM"))))))
  }

  lemma {:induction false} FieldOf(ds: string, sep: char, rest: string, min: nat, max: nat)
    requires AllDigits(ds) && min <= |ds| <= max && !IsDigit(sep)
    ensures Field(Then(ds, sep, rest), min, max, sep) == Some(Scan(DigitsValue(ds), |ds|, rest))
  {
    assert Then(ds, sep, rest) == ds + ([sep] + rest);
    TakeDigitsOf(ds, [sep] + rest, max);
  }

  lemma {:induction false} DigitsAtMostFour(n: nat)
    requires n <= 9999
    ensures |Digits(n)| <= 4
  {
    if n >= 10 {
      DigitsAtMostFour(n / 10);
    }
  }

  /** A field written as the spec asks is read back, and reading goes on
      after its separator. */
  lemma {:induction false} ReadFieldsThen(ds: string, sep: char, rest: string, specs: seq<FieldSpec>, k: nat, others: seq<Scan>)
    requires k < |specs| && specs[k].sep == sep && !IsDigit(sep)
    requires AllDigits(ds) && specs[k].min <= |ds| <= specs[k].max
    requires ReadFields(rest, specs, k + 1) == Some(others)
    ensures ReadFields(Then(ds, sep, rest), specs, k) == Some([Scan(DigitsValue(ds), |ds|, rest)] + others)
  {
    FieldOf(ds, sep, rest, specs[k].min, specs[k].max);
  }

  /** The hour, minute and second fields, written with the right widths
      and separators, are read back in order. */
  lemma {:induction false} ReadTimeFields(h: string, mi: string, s: string, ampm: string, p: seq<FieldSpec>)
    requires |p| == 6 && p[3] == FieldSpec(1, MaxWidth, ':') && p[4] == FieldSpec(2, 2, ':') && p[5] == FieldSpec(2, 2, ' ')
    requires AllDigits(h) && 1 <= |h| <= MaxWidth && AllDigits(mi) && |mi| == 2 && AllDigits(s) && |s| == 2
    ensures ReadFields(Then(h, ':', Then(mi, ':', Then(s, ' ', ampm))), p, 3) ==
      Some([Scan(DigitsValue(h), |h|, Then(mi, ':', Then(s, ' ', ampm)))] +
           ([Scan(DigitsValue(mi), |mi|, Then(s, ' ', ampm))] + ([Scan(DigitsValue(s), |s|, ampm)] + [])))
  {
    var s5 := Then(s, ' ', ampm);
    var s4 := Then(mi, ':', s5);
    var f5 := [Scan(DigitsValue(s), |s|, ampm)] + [];
    var f4 := [Scan(DigitsValue(mi), |mi|, s5)] + f5;
    assert ReadFields(ampm, p, 6) == Some([]);
    ReadFieldsThen(s, ' ', ampm, p, 5, []);
    ReadFieldsThen(mi, ':', s5, p, 4, f5);
    ReadFieldsThen(h, ':', s4, p, 3, f4);
  }

  /** The month, day and year fields, written with the right widths and
      separators, are read back in order, followed by whatever the rest of
      the text yields. */
  lemma {:induction false} ReadDateFields(m: string, d: string, y: string, rest: string, time: seq<Scan>, p: seq<FieldSpec>)
    requires |p| == 6 && p[0] == FieldSpec(1, MaxWidth, '/') && p[1] == FieldSpec(1, MaxWidth, '/') && p[2] == FieldSpec(4, MaxWidth, ' ')
    requires AllDigits(m) && 1 <= |m| <= MaxWidth && AllDigits(d) && 1 <= |d| <= MaxWidth
    requires AllDigits(y) && 4 <= |y| <= MaxWidth
    requires ReadFields(rest, p, 3) == Some(time)
    ensures ReadFields(Then(m, '/', Then(d, '/', Then(y, ' ', rest))), p, 0) ==
      Some([Scan(DigitsValue(m), |m|, Then(d, '/', Then(y, ' ', rest)))] +
           ([Scan(DigitsValue(d), |d|, Then(y, ' ', rest))] + ([Scan(DigitsValue(y), |y|, rest)] + time)))
  {
    var s2 := Then(y, ' ', rest);
    var s1 := Then(d, '/', s2);
    var f2 := [Scan(DigitsValue(y), |y|, rest)] + time;
    var f1 := [Scan(DigitsValue(d), |d|, s2)] + f2;
    ReadFieldsThen(y, ' ', rest, p, 2, time);
    ReadFieldsThen(d, '/', s2, p, 1, f2);
    ReadFieldsThen(m, '/', s1, p, 0, f1);
  }

  /** Once the six fields are read, the year is accepted exactly when it has
      four digits, the text ends with the marker, and the fields are in range. */
  lemma {:induction false} ParseReleaseYearOfFields(text: string, f: seq<Scan>)
    requires ReadFields(text, ReleaseDatePattern, 0) == Some(f)
    requires f[2].width == 4 && (f[5].rest == "AM" || f[5].rest == "PM")
    requires InRange(f[0].value, f[1].value, f[2].value, f[3].value, f[4].value, f[5].value)
    ensures ParseReleaseYear(text) == Some(f[2].value)
  {
  }

  /** The pattern accepts six digit fields of the right widths, separated as
      the pattern says and followed by "AM" or "PM", whenever their values are
      in range, and the year it yields is the value of the four year digits. */
  lemma {:induction false} ParseReleaseYearOf(m: string, d: string, y: string, h: string, mi: string, s: string, ampm: string)
    requires AllDigits(m) && 1 <= |m| <= MaxWidth && AllDigits(d) && 1 <= |d| <= MaxWidth
    requires AllDigits(y) && |y| == 4 && AllDigits(h) && 1 <= |h| <= MaxWidth
    requires AllDigits(mi) && |mi| == 2 && AllDigits(s) && |s| == 2
    requires ampm == "AM" || ampm == "PM"
    requires InRange(DigitsValue(m), DigitsValue(d), DigitsValue(y), DigitsValue(h), DigitsValue(mi), DigitsValue(s))
    ensures ParseReleaseYear(Then(m, '/', Then(d, '/', Then(y, ' ', Then(h, ':', Then(mi, ':', Then(s, ' ', ampm))))))) == Some(DigitsValue(y))
  {
    var p := ReleaseDatePattern;
    assert |p| == 6 && p[0] == FieldSpec(1, MaxWidth, '/') && p[1] == FieldSpec(1, MaxWidth, '/') && p[2] == FieldSpec(4, MaxWidth, ' ');
    assert p[3] == FieldSpec(1, MaxWidth, ':') && p[4] == FieldSpec(2, 2, ':') && p[5] == FieldSpec(2, 2, ' ');
    var rest := Then(h, ':', Then(mi, ':', Then(s, ' ', ampm)));
    ReadTimeFields(h, mi, s, ampm, p);
    var time := ReadFields(rest, p, 3).value;
    ReadDateFields(m, d, y, rest, time, p);
    var text := Then(m, '/', Then(d, '/', Then(y, ' ', rest)));
    var f := ReadFields(text, p, 0).value;
    assert f[0].value == DigitsValue(m) && f[1].value == DigitsValue(d);
    assert f[2] == Scan(DigitsValue(y), |y|, rest);
    assert f[3].value == DigitsValue(h) && f[4].value == DigitsValue(mi);
    assert f[5] == Scan(DigitsValue(s), |s|, ampm);
    ParseReleaseYearOfFields(text, f);
  }

  /** The fields of a valid date are printed with the widths the pattern
      reads, and read back as the date's own values. */
  lemma {:induction false} FormattedFields(d: ReleaseDate)
    requires ValidReleaseDate(d)
    ensures AllDigits(Digits(d.month)) && 1 <= |Digits(d.month)| <= MaxWidth && DigitsValue(Digits(d.month)) == d.month
    ensures AllDigits(Digits(d.day)) && 1 <= |Digits(d.day)| <= MaxWidth && DigitsValue(Digits(d.day)) == d.day
    ensures AllDigits(PadDigits(d.year, 4)) && |PadDigits(d.year, 4)| == 4 && DigitsValue(PadDigits(d.year, 4)) == d.year
    ensures AllDigits(Digits(d.hour)) && 1 <= |Digits(d.hour)| <= MaxWidth && DigitsValue(Digits(d.hour)) == d.hour
    ensures AllDigits(PadDigits(d.minute, 2)) && |PadDigits(d.minute, 2)| == 2 && DigitsValue(PadDigits(d.minute, 2)) == d.minute
    ensures AllDigits(PadDigits(d.second, 2)) && |PadDigits(d.second, 2)| == 2 && DigitsValue(PadDigits(d.second, 2)) == d.second
  {
    DigitsValueOfDigits(d.month);
    DigitsValueOfDigits(d.day);
    DigitsValueOfDigits(d.hour);
    PadDigitsValue(d.year, 4);
    PadDigitsValue(d.minute, 2);
    PadDigitsValue(d.second, 2);
    DigitsAtMostFour(d.year);
  }

  /** Every valid release date, once printed, yields its own year. */
  lemma {:induction false} ExtractYearOfFormatted(d: ReleaseDate)
    requires ValidReleaseDate(d)
    ensures ExtractYear(FormatReleaseDate(d)) == d.year
  {
    FormattedFields(d);
    var m, dd, y := Digits(d.month), Digits(d.day), PadDigits(d.year, 4);
    var h, mi, s := Digits(d.hour), PadDigits(d.minute, 2), PadDigits(d.second, 2);
    var ampm := if d.pm then "PM" else "AM";
    var text := Then(m, '/', Then(dd, '/', Then(y, ' ', Then(h, ':', Then(mi, ':', Then(s, ' ', ampm))))));
    assert FormatReleaseDate(d) == text;
    ParseReleaseYearOf(m, dd, y, h, mi, s, ampm);
    assert text != [];
  }

  /** A release date at midnight whose month, day and year are written with
      the given digits yields the year those digits spell. */
  lemma {:induction false} ExtractYearAtMidnight(date: string, m: string, d: string, y: string)
    requires AllDigits(m) && 1 <= |m| <= 2 && AllDigits(d) && 1 <= |d| <= 2 && AllDigits(y) && |y| == 4
    requires 1 <= DigitsValue(m) <= 12 && 1 <= DigitsValue(d) <= 31 && 1 <= DigitsValue(y)
    requires date == Then(m, '/', Then(d, '/', Then(y, ' ', "12:00:00 AM")))
    ensures ExtractYear(date) == DigitsValue(y)
  {
    TwoDigitsValue("12");
    TwoDigitsValue("00");
    assert Then("12", ':', Then("00", ':', Then("00", ' ', "AM"))) == "12:00:00 AM";
    ParseReleaseYearOf(m, d, y, "12", "00", "00", "AM");
  }

  lemma {:induction false} TwoDigitsValue(s: string)
    requires AllDigits(s) && |s| == 2
    ensures DigitsValue(s) == 10 * DigitValue(s[0]) + DigitValue(s[1])
  {
    var a := s[..1];
    assert DigitsValue(a) == 10 * DigitsValue(a[..0]) + DigitValue(a[0]);
    assert a[..0] == [] && a[0] == s[0];
    assert DigitsValue(s) == 10 * DigitsValue(a) + DigitValue(s[1]);
  }

  lemma {:induction false} FourDigitsValue(s: string)
    requires AllDigits(s) && |s| == 4
    ensures DigitsValue(s) == 1000 * DigitValue(s[0]) + 100 * DigitValue(s[1]) + 10 * DigitValue(s[2]) + DigitValue(s[3])
  {
    var a := s[..3];
    var b := a[..2];
    var c := b[..1];
    assert DigitsValue(c) == 10 * DigitsValue(c[..0]) + DigitValue(c[0]);
    assert c[..0] == [] && c[0] == s[0] && b[1] == s[1] && a[2] == s[2];
    assert DigitsValue(b) == 10 * DigitsValue(c) + DigitValue(b[1]);
    assert DigitsValue(a) == 10 * DigitsValue(b) + DigitValue(a[2]);
    assert DigitsValue(s) == 10 * DigitsValue(a) + DigitValue(s[3]);
  }

  lemma {:induction false} SpelledExample(date: string)
    requires date == "3/13/1991 12:00:00 AM"
    ensures date == Then("3", '/', Then("13", '/', Then("1991", ' ', "12:00:00 AM")))
  {
  }

  lemma {:induction false} MidnightExample(date: string)
    requires date == Then("3", '/', Then("13", '/', Then("1991", ' ', "12:00:00 AM")))
    ensures ExtractYear(date) == 1991
  {
    TwoDigitsValue("13");
    FourDigitsValue("1991");
    assert DigitsValue("3") == 3;
    ExtractYearAtMidnight(date, "3", "13", "1991");
  }

  /** The date of the documented example. */
  lemma {:induction false} ExtractYearExample(date: string)
    requires date == "3/13/1991 12:00:00 AM"
    ensures ExtractYear(date) == 1991
  {
    SpelledExample(date);
    MidnightExample(date);
  }

  lemma {:induction false} SpelledRelease(date: string, digits: string)
    requires date == "7/16/" + digits + " 12:00:00 AM"
    ensures date == Then("7", '/', Then("16", '/', Then(digits, ' ', "12:00:00 AM")))
  {
  }

  lemma {:induction false} MidnightRelease(date: string, year: nat, digits: string)
    requires (year, digits) == (2010, "2010") || (year, digits) == (2011, "2011")
    requires date == Then("7", '/', Then("16", '/', Then(digits, ' ', "12:00:00 AM")))
    ensures ExtractYear(date) == year
  {
    TwoDigitsValue("16");
    FourDigitsValue(digits);
    assert DigitsValue("7") == 7;
    ExtractYearAtMidnight(date, "7", "16", digits);
  }

  /** Two release dates a year apart. */
  lemma {:induction false} ExtractYearReleaseExamples(date: string, year: nat)
    requires year == 2010 || year == 2011
    requires date == if year == 2010 then "7/16/2010 12:00:00 AM" else "7/16/2011 12:00:00 AM"
    ensures ExtractYear(date) == year
  {
    var digits := if year == 2010 then "2010" else "2011";
    assert date == "7/16/" + digits + " 12:00:00 AM";
    SpelledRelease(date, digits);
    MidnightRelease(date, year, digits);
  }

  lemma {:induction false} SpelledZeroHour(date: string)
    requires date == "7/16/2010 0:00:00 AM"
    ensures date == Then("7", '/', Then("16", '/', Then("2010", ' ', Then("0", ':', Then("00", ':', Then("00", ' ', "AM"))))))
  {
  }

  /** A clock hour of 0 is accepted, so the year still comes back. */
  lemma {:induction false} ZeroHourExample(date: string)
    requires date == "7/16/2010 0:00:00 AM"
    ensures ExtractYear(date) == 2010
  {
    SpelledZeroHour(date);
    TwoDigitsValue("16");
    TwoDigitsValue("00");
    FourDigitsValue("2010");
    assert DigitsValue("7") == 7 && DigitsValue("0") == 0;
    ParseReleaseYearOf("7", "16", "2010", "0", "00", "00", "AM");
  }

  /** A year written with other than four digits (say "91") is refused, so
      the sentinel comes back whatever follows. */
  lemma {:induction false} ExtractYearNeedsFourDigits(m: string, d: string, y: string, rest: string)
    requires AllDigits(m) && 1 <= |m| <= MaxWidth
    requires AllDigits(d) && 1 <= |d| <= MaxWidth
    requires AllDigits(y) && |y| <= MaxWidth && |y| != 4
    ensures ExtractYear(Then(m, '/', Then(d, '/', Then(y, ' ', rest)))) == 0
  {
    var p := ReleaseDatePattern;
    var s2 := Then(y, ' ', rest);
    var s1 := Then(d, '/', s2);
    var s0 := Then(m, '/', s1);
    FieldOf(m, '/', s1, 1, MaxWidth);
    FieldOf(d, '/', s2, 1, MaxWidth);
    assert s2 == y + ([' '] + rest);
    TakeDigitsOf(y, [' '] + rest, MaxWidth);
    var year := Field(s2, 4, MaxWidth, ' ');
    assert year.Some? ==> year.value.width == |y|;
    var r2 := ReadFields(s2, p, 2);
    assert r2.Some? ==> r2.value[0].width == |y|;
    var r1 := ReadFields(s1, p, 1);
    assert r1.Some? ==> r1.value[1] == r2.value[0];
    var r0 := ReadFields(s0, p, 0);
    assert r0.Some? ==> r0.value[2] == r1.value[1];
  }
}
