/**
 * The file name of `src/components/CSVExport/CSVExport.tsx`: `contact_data_<stamp>.csv`, where
 * the stamp is the local time as `yyMMddHHmmss`. The clock is a parameter: the fields that
 * `Date`'s getters return for the moment of the export.
 */
module CsvExport {
  import opened Common
  import opened Text

  /**
   * What `getFullYear`, `getMonth`, `getDate`, `getHours`, `getMinutes` and `getSeconds`
   * return; `month` counts from 0, as `getMonth` does.
   */
  datatype LocalTime = LocalTime(year: nat, month: nat, date: nat, hours: nat, minutes: nat, seconds: nat)

  /** The ranges `Date`'s getters return in. */
  predicate InRange(t: LocalTime)
  {
    t.month < 12 && 1 <= t.date <= 31 && t.hours < 24 && t.minutes < 60 && t.seconds < 60
  }

  /** `String(n).padStart(2, '0')`. */
  function TwoDigits(n: nat): (r: string)
    ensures |r| >= 2
    ensures forall i :: 0 <= i < |r| ==> IsAsciiDigit(r[i])
  {
    PadStart(Decimal(n), 2, '0')
  }

  /** Below one hundred, the padded field is exactly two digits that read back as `n`. */
  lemma TwoDigitsValue(n: nat)
    requires n < 100
    ensures |TwoDigits(n)| == 2 && DecimalValue(TwoDigits(n)) == n
  {
    DecimalLength(n);
    DecimalRoundTrip(n);
    if n < 10 {
      assert TwoDigits(n) == "0" + Decimal(n);
      DecimalValueLeadingZero(Decimal(n));
    }
  }

  /** `String(year).slice(-2)`: the last two digits, or the only one of a year below ten. */
  function YearDigits(year: nat): (r: string)
    ensures 1 <= |r| <= 2
    ensures forall i :: 0 <= i < |r| ==> IsAsciiDigit(r[i])
  {
    SliceLast(Decimal(year), 2)
  }

  /** The last digit `String(m)` writes is `m % 10`. */
  lemma DecimalLastDigit(m: nat)
    ensures Decimal(m)[|Decimal(m)| - 1] == DigitChar(m % 10)
  {
  }

  /** A two-character digit string reads as ten times its first digit plus its second. */
  lemma PairValue(s: string)
    requires |s| == 2 && IsAsciiDigit(s[0]) && IsAsciiDigit(s[1])
    ensures DecimalValue(s) == 10 * (s[0] as int - '0' as int) + (s[1] as int - '0' as int)
  {
    var h := s[..1];
    assert h[..0] == [];
    assert DecimalValue(h) == s[0] as int - '0' as int;
  }

  /** Two digit characters read as a two-digit number. */
  lemma TwoDigitValue(a: nat, b: nat)
    requires a < 10 && b < 10
    ensures DecimalValue([DigitChar(a), DigitChar(b)]) == 10 * a + b
  {
    PairValue([DigitChar(a), DigitChar(b)]);
  }

  /** The year field reads back as the year modulo one hundred; it has two digits from the year 10 on. */
  lemma YearDigitsValue(year: nat)
    ensures DecimalValue(YearDigits(year)) == year % 100
    ensures |YearDigits(year)| == 2 <==> year >= 10
  {
    DecimalLength(year);
    if year < 10 {
      DecimalRoundTrip(year);
    } else {
      var q := year / 10;
      assert YearDigits(year) == [DigitChar(q % 10), DigitChar(year % 10)] by {
        DecimalLastDigit(q);
        assert Decimal(year) == Decimal(q) + [DigitChar(year % 10)];
      }
      TwoDigitValue(q % 10, year % 10);
      LastTwoDigits(year);
    }
  }

  /** The last two decimal digits of `n`, as a number. */
  lemma LastTwoDigits(n: nat)
    ensures n % 100 == 10 * (n / 10 % 10) + n % 10
  {
    var q := n / 10;
    var r := 10 * (q % 10) + n % 10;
    assert n == 100 * (q / 10) + r;
    assert 0 <= r < 100;
    assert n / 100 == q / 10;
  }

  /** `getFormattedDate()`: `${y}${M}${d}${H}${m}${s}`. */
  function FormattedDate(t: LocalTime): string
  {
    YearDigits(t.year) + TwoDigits(t.month + 1) + TwoDigits(t.date) + TwoDigits(t.hours) + TwoDigits(t.minutes) + TwoDigits(t.seconds)
  }

  /** The six numbers a `yyMMddHHmmss` stamp spells. */
  datatype StampFields = StampFields(year: nat, month: nat, date: nat, hours: nat, minutes: nat, seconds: nat)

  /** The number two ASCII digits spell. */
  function PairNumber(hi: char, lo: char): (r: nat)
    requires IsAsciiDigit(hi) && IsAsciiDigit(lo)
    ensures r < 100
  {
    10 * (hi as int - '0' as int) + (lo as int - '0' as int)
  }

  /** Reads a stamp back: twelve ASCII digits, split into six two-digit numbers; anything else is `None`. */
  function ReadStamp(s: string): (r: Option<StampFields>)
    ensures r.Some? <==> |s| == 12 && forall i :: 0 <= i < |s| ==> IsAsciiDigit(s[i])
  {
    if |s| == 12 && forall i :: 0 <= i < |s| ==> IsAsciiDigit(s[i]) then
      Some(StampFields(PairNumber(s[0], s[1]), PairNumber(s[2], s[3]), PairNumber(s[4], s[5]),
        PairNumber(s[6], s[7]), PairNumber(s[8], s[9]), PairNumber(s[10], s[11])))
    else None
  }

  /**
   * From the year 10 on, the stamp of an in-range time reads back as its components: the
   * year modulo one hundred, the month counted from 1, the day, the hours, the minutes and
   * the seconds.
   */
  lemma FormattedDateReadsBack(t: LocalTime)
    requires InRange(t) && t.year >= 10
    ensures ReadStamp(FormattedDate(t)) == Some(StampFields(t.year % 100, t.month + 1, t.date, t.hours, t.minutes, t.seconds))
  {
    FieldPairs(t);
    ReadFields(t, StampFields(t.year % 100, t.month + 1, t.date, t.hours, t.minutes, t.seconds));
  }

  /** Each field of an in-range time's stamp, from the year 10 on, is a pair of digits spelling its component. */
  lemma FieldPairs(t: LocalTime)
    requires InRange(t) && t.year >= 10
    ensures Pair(YearDigits(t.year)) && PairNumber(YearDigits(t.year)[0], YearDigits(t.year)[1]) == t.year % 100
    ensures Pair(TwoDigits(t.month + 1)) && PairNumber(TwoDigits(t.month + 1)[0], TwoDigits(t.month + 1)[1]) == t.month + 1
    ensures Pair(TwoDigits(t.date)) && PairNumber(TwoDigits(t.date)[0], TwoDigits(t.date)[1]) == t.date
    ensures Pair(TwoDigits(t.hours)) && PairNumber(TwoDigits(t.hours)[0], TwoDigits(t.hours)[1]) == t.hours
    ensures Pair(TwoDigits(t.minutes)) && PairNumber(TwoDigits(t.minutes)[0], TwoDigits(t.minutes)[1]) == t.minutes
    ensures Pair(TwoDigits(t.seconds)) && PairNumber(TwoDigits(t.seconds)[0], TwoDigits(t.seconds)[1]) == t.seconds
  {
    YearDigitsPair(t.year);
    TwoDigitsPair(t.month + 1);
    TwoDigitsPair(t.date);
    TwoDigitsPair(t.hours);
    TwoDigitsPair(t.minutes);
    TwoDigitsPair(t.seconds);
  }

  /** A stamp whose six fields are pairs of digits spelling the numbers of `v` reads back as `v`. */
  lemma ReadFields(t: LocalTime, v: StampFields)
    requires Pair(YearDigits(t.year)) && PairNumber(YearDigits(t.year)[0], YearDigits(t.year)[1]) == v.year
    requires Pair(TwoDigits(t.month + 1)) && PairNumber(TwoDigits(t.month + 1)[0], TwoDigits(t.month + 1)[1]) == v.month
    requires Pair(TwoDigits(t.date)) && PairNumber(TwoDigits(t.date)[0], TwoDigits(t.date)[1]) == v.date
    requires Pair(TwoDigits(t.hours)) && PairNumber(TwoDigits(t.hours)[0], TwoDigits(t.hours)[1]) == v.hours
    requires Pair(TwoDigits(t.minutes)) && PairNumber(TwoDigits(t.minutes)[0], TwoDigits(t.minutes)[1]) == v.minutes
    requires Pair(TwoDigits(t.seconds)) && PairNumber(TwoDigits(t.seconds)[0], TwoDigits(t.seconds)[1]) == v.seconds
    ensures ReadStamp(FormattedDate(t)) == Some(v)
  {
    ReadSixFields(YearDigits(t.year), TwoDigits(t.month + 1), TwoDigits(t.date), TwoDigits(t.hours),
      TwoDigits(t.minutes), TwoDigits(t.seconds));
  }

  /** A two-character string of ASCII digits. */
  predicate Pair(s: string)
  {
    |s| == 2 && IsAsciiDigit(s[0]) && IsAsciiDigit(s[1])
  }

  /** Six two-digit fields side by side read back as their six numbers. */
  lemma ReadSixFields(a: string, b: string, c: string, d: string, e: string, f: string)
    requires Pair(a) && Pair(b) && Pair(c) && Pair(d) && Pair(e) && Pair(f)
    ensures ReadStamp(a + b + c + d + e + f) ==
      Some(StampFields(PairNumber(a[0], a[1]), PairNumber(b[0], b[1]), PairNumber(c[0], c[1]),
        PairNumber(d[0], d[1]), PairNumber(e[0], e[1]), PairNumber(f[0], f[1])))
  {
  }

  /** A padded field below one hundred is a pair of digits spelling `n`. */
  lemma TwoDigitsPair(n: nat)
    requires n < 100
    ensures Pair(TwoDigits(n)) && PairNumber(TwoDigits(n)[0], TwoDigits(n)[1]) == n
  {
    TwoDigitsValue(n);
    PairValue(TwoDigits(n));
  }

  /** From the year 10 on, the year field is a pair of digits spelling the year modulo one hundred. */
  lemma YearDigitsPair(year: nat)
    requires year >= 10
    ensures Pair(YearDigits(year)) && PairNumber(YearDigits(year)[0], YearDigits(year)[1]) == year % 100
  {
    YearDigitsValue(year);
    PairValue(YearDigits(year));
  }

  /** Before the year 10 the year field has one digit, so the stamp is eleven characters and does not read back. */
  lemma ShortYearStamp(t: LocalTime)
    requires InRange(t) && t.year < 10
    ensures |FormattedDate(t)| == 11 && ReadStamp(FormattedDate(t)) == None
  {
    DecimalLength(t.year);
    assert |YearDigits(t.year)| == 1;
    TwoDigitsLength(t.month + 1);
    TwoDigitsLength(t.date);
    TwoDigitsLength(t.hours);
    TwoDigitsLength(t.minutes);
    TwoDigitsLength(t.seconds);
    assert |FormattedDate(t)| == 11;
  }

  /** Below one hundred the padded field has two characters. */
  lemma TwoDigitsLength(n: nat)
    requires n < 100
    ensures |TwoDigits(n)| == 2
  {
    DecimalLength(n);
  }

  /**
   * Two in-range times from the year 10 on share a stamp exactly when they agree on every
   * component except the century.
   */
  lemma FormattedDateDistinguishes(t: LocalTime, u: LocalTime)
    requires InRange(t) && InRange(u) && t.year >= 10 && u.year >= 10
    ensures FormattedDate(t) == FormattedDate(u) <==>
      && t.year % 100 == u.year % 100 && t.month == u.month && t.date == u.date
      && t.hours == u.hours && t.minutes == u.minutes && t.seconds == u.seconds
  {
    FormattedDateReadsBack(t);
    FormattedDateReadsBack(u);
    if t.year % 100 == u.year % 100 && t.month == u.month && t.date == u.date
      && t.hours == u.hours && t.minutes == u.minutes && t.seconds == u.seconds {
      ConcatFields(t, u);
    }
  }

  /** Equal components give equal stamps, whatever the century. */
  lemma ConcatFields(t: LocalTime, u: LocalTime)
    requires t.year >= 10 && u.year >= 10 && t.year % 100 == u.year % 100
    requires t.month == u.month && t.date == u.date && t.hours == u.hours && t.minutes == u.minutes && t.seconds == u.seconds
    ensures FormattedDate(t) == FormattedDate(u)
  {
    SameYearDigits(t.year, u.year);
  }

  /** From the year 10 on, two years with the same last two digits are written alike. */
  lemma SameYearDigits(y: nat, z: nat)
    requires y >= 10 && z >= 10 && y % 100 == z % 100
    ensures YearDigits(y) == YearDigits(z)
  {
    YearDigitsValue(y);
    YearDigitsValue(z);
    YearDigitsPair(y);
    YearDigitsPair(z);
    SameTwoDigits(YearDigits(y), YearDigits(z));
  }

  /** Two two-digit strings with one value are one string. */
  lemma SameTwoDigits(a: string, b: string)
    requires |a| == 2 && |b| == 2
    requires forall i :: 0 <= i < 2 ==> IsAsciiDigit(a[i]) && IsAsciiDigit(b[i])
    requires DecimalValue(a) == DecimalValue(b)
    ensures a == b
  {
    PairValue(a);
    PairValue(b);
  }

  /** `contact_data_${stamp}.csv`. */
  function FileName(stamp: string): (r: string)
    ensures |r| == |stamp| + 17
    ensures r[..13] == "contact_data_" && r[|r| - 4..] == ".csv"
    ensures r[13..|r| - 4] == stamp
  {
    "contact_data_" + stamp + ".csv"
  }

  /** Different stamps give different file names. */
  lemma FileNameInjective(a: string, b: string)
    requires FileName(a) == FileName(b)
    ensures a == b
  {
    assert a == FileName(a)[13..|FileName(a)| - 4];
  }

  /** The name of the downloaded file for the moment `t`. */
  function ExportFileName(t: LocalTime): (r: string)
    ensures |r| >= 17
    ensures r[..13] == "contact_data_" && r[|r| - 4..] == ".csv"
  {
    FileName(FormattedDate(t))
  }

  /** From the year 10 on, an in-range moment gives a 29-character name. */
  lemma ExportFileNameLength(t: LocalTime)
    requires InRange(t) && t.year >= 10
    ensures |ExportFileName(t)| == 29
  {
    FormattedDateReadsBack(t);
  }
}
