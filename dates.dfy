/**
 * Calendar dates of the proleptic Gregorian calendar, years 1 through 9999,
 * their day numbers ("ordinals", 0001-01-01 being day 1), and their text form
 * YYYY-MM-DD (the full-date of section 5.6 of RFC 3339).  Moving a date by a
 * number of days is integer arithmetic on ordinals, as in Python's datetime.
 */
module Dates {
  import opened Wrappers
  import Lex

  datatype Date = Date(year: int, month: int, day: int)

  /** The leap-year rule of Appendix C of RFC 3339. */
  predicate IsLeap(y: int)
  {
    y % 4 == 0 && (y % 100 != 0 || y % 400 == 0)
  }

  function DaysInMonth(y: int, m: int): (n: int)
    requires 1 <= m <= 12
    ensures 28 <= n <= 31
  {
    if m == 2 then (if IsLeap(y) then 29 else 28)
    else if m == 4 || m == 6 || m == 9 || m == 11 then 30
    else 31
  }

  function DaysInYear(y: int): int
  {
    if IsLeap(y) then 366 else 365
  }

  /** A date Python's datetime can represent. */
  predicate Valid(d: Date)
  {
    1 <= d.year <= 9999 && 1 <= d.month <= 12 && 1 <= d.day <= DaysInMonth(d.year, d.month)
  }

  /** The ordinal of 9999-12-31, the last representable date. */
  const MaxOrdinal: int := 3652059

  /** Days in the years 1 .. y-1. */
  function DaysBeforeYear(y: int): int
    requires y >= 1
  {
    var k := y - 1;
    365 * k + k / 4 - k / 100 + k / 400
  }

  /** Days in the months 1 .. m-1 of year y. */
  function DaysBeforeMonth(y: int, m: int): int
    requires 1 <= m <= 12
  {
    [0, 31, 59, 90, 120, 151, 181, 212, 243, 273, 304, 334][m - 1]
    + (if m > 2 && IsLeap(y) then 1 else 0)
  }

  /** The day number of a date: 0001-01-01 is 1. */
  function ToOrdinal(d: Date): (n: int)
    requires Valid(d)
    ensures DaysBeforeYear(d.year) < n <= DaysBeforeYear(d.year) + DaysInYear(d.year)
  {
    YearEnd(d.year, d.month);
    DaysBeforeYear(d.year) + DaysBeforeMonth(d.year, d.month) + d.day
  }

  /** `a` is on or before `b`, comparing year, then month, then day. */
  predicate OnOrBefore(a: Date, b: Date)
  {
    a.year < b.year
    || (a.year == b.year && (a.month < b.month || (a.month == b.month && a.day <= b.day)))
  }

  // ---------------------------------------------------------------------------
  // Day-number arithmetic

  /** Moving from k to k + 1 adds one to k / c exactly when k + 1 is a multiple of c. */
  lemma DivStep(k: int, c: int)
    requires k >= 0 && (c == 4 || c == 100 || c == 400)
    ensures (k + 1) / c == k / c + (if (k + 1) % c == 0 then 1 else 0)
  {
    if c == 4 {
      assert (k + 1) / 4 == k / 4 + (if (k + 1) % 4 == 0 then 1 else 0);
    } else if c == 100 {
      assert (k + 1) / 100 == k / 100 + (if (k + 1) % 100 == 0 then 1 else 0);
    } else {
      assert (k + 1) / 400 == k / 400 + (if (k + 1) % 400 == 0 then 1 else 0);
    }
  }

  /** A multiple of 400 is one of 100, and a multiple of 100 is one of 4. */
  lemma Multiples(y: int)
    ensures y % 400 == 0 ==> y % 100 == 0
    ensures y % 100 == 0 ==> y % 4 == 0
  {
    if y % 400 == 0 {
      var q := y / 400;
      assert y == 400 * q;
      assert y / 100 == 4 * q;
    }
    if y % 100 == 0 {
      var q := y / 100;
      assert y == 100 * q;
      assert y / 4 == 25 * q;
    }
  }

  /** Consecutive years are DaysInYear apart. */
  lemma YearStep(y: int)
    requires y >= 1
    ensures DaysBeforeYear(y + 1) == DaysBeforeYear(y) + DaysInYear(y)
  {
    var k := y - 1;
    DivStep(k, 4);
    DivStep(k, 100);
    DivStep(k, 400);
    Multiples(y);
    var leaps := (if y % 4 == 0 then 1 else 0) - (if y % 100 == 0 then 1 else 0)
                 + (if y % 400 == 0 then 1 else 0);
    assert DaysBeforeYear(y + 1) == DaysBeforeYear(y) + 365 + leaps;
    assert leaps == (if IsLeap(y) then 1 else 0);
  }

  lemma {:induction false} YearsIncrease(a: int, b: int)
    requires 1 <= a <= b
    ensures DaysBeforeYear(a) + 365 * (b - a) <= DaysBeforeYear(b)
    decreases b - a
  {
    if a < b {
      YearStep(a);
      YearsIncrease(a + 1, b);
    }
  }

  lemma MonthStep(y: int, m: int)
    requires 1 <= m < 12
    ensures DaysBeforeMonth(y, m + 1) == DaysBeforeMonth(y, m) + DaysInMonth(y, m)
  {
  }

  lemma MonthsIncrease(y: int, m: int, n: int)
    requires 1 <= m < n <= 12
    ensures DaysBeforeMonth(y, m) + DaysInMonth(y, m) <= DaysBeforeMonth(y, n)
  {
  }

  lemma YearEnd(y: int, m: int)
    requires 1 <= m <= 12
    ensures DaysBeforeMonth(y, m) + DaysInMonth(y, m) <= DaysInYear(y)
    ensures m == 12 ==> DaysBeforeMonth(y, m) + DaysInMonth(y, m) == DaysInYear(y)
  {
  }

  /** Every representable date has an ordinal in 1 .. MaxOrdinal. */
  lemma OrdinalRange(d: Date)
    requires Valid(d)
    ensures 1 <= ToOrdinal(d) <= MaxOrdinal
  {
    YearsIncrease(d.year, 9999);
    YearsIncrease(1, d.year);
    YearStep(d.year);
    assert DaysBeforeYear(9999) + DaysInYear(9999) == MaxOrdinal;
    if d.year < 9999 {
      YearsIncrease(d.year + 1, 9999);
    }
  }

  /** A date of an earlier year has a smaller ordinal. */
  lemma EarlierYear(a: Date, b: Date)
    requires Valid(a) && Valid(b) && a.year < b.year
    ensures ToOrdinal(a) < ToOrdinal(b)
  {
    YearStep(a.year);
    YearsIncrease(a.year + 1, b.year);
  }

  /** Within a year, a date of an earlier month has a smaller ordinal. */
  lemma EarlierMonth(a: Date, b: Date)
    requires Valid(a) && Valid(b) && a.year == b.year && a.month < b.month
    ensures ToOrdinal(a) < ToOrdinal(b)
  {
    MonthsIncrease(a.year, a.month, b.month);
  }

  /** Ordinals order dates chronologically. */
  lemma OrdinalOrder(a: Date, b: Date)
    requires Valid(a) && Valid(b)
    ensures OnOrBefore(a, b) <==> ToOrdinal(a) <= ToOrdinal(b)
  {
    if a.year < b.year {
      EarlierYear(a, b);
    } else if b.year < a.year {
      EarlierYear(b, a);
    } else if a.month < b.month {
      EarlierMonth(a, b);
    } else if b.month < a.month {
      EarlierMonth(b, a);
    }
  }

  /** Distinct dates have distinct ordinals. */
  lemma OrdinalInjective(a: Date, b: Date)
    requires Valid(a) && Valid(b) && ToOrdinal(a) == ToOrdinal(b)
    ensures a == b
  {
    OrdinalOrder(a, b);
    OrdinalOrder(b, a);
  }

  /** The year holding day number n, searched upward from year y. */
  function FindYear(n: int, y: int): (r: int)
    requires 1 <= y <= 9999 && DaysBeforeYear(y) < n <= MaxOrdinal
    ensures y <= r <= 9999 && DaysBeforeYear(r) < n <= DaysBeforeYear(r) + DaysInYear(r)
    decreases n - DaysBeforeYear(y)
  {
    YearStep(y);
    assert DaysBeforeYear(9999) + DaysInYear(9999) == MaxOrdinal;
    if n <= DaysBeforeYear(y) + DaysInYear(y) then y else FindYear(n, y + 1)
  }

  /** The month holding day r of year y, searched upward from month m. */
  function FindMonth(y: int, r: int, m: int): (mo: int)
    requires 1 <= m <= 12 && DaysBeforeMonth(y, m) < r <= DaysInYear(y)
    ensures m <= mo <= 12
    ensures DaysBeforeMonth(y, mo) < r <= DaysBeforeMonth(y, mo) + DaysInMonth(y, mo)
    decreases 12 - m
  {
    YearEnd(y, m);
    if r <= DaysBeforeMonth(y, m) + DaysInMonth(y, m) then m
    else
      MonthStep(y, m);
      FindMonth(y, r, m + 1)
  }

  /** The date with day number n: the inverse of ToOrdinal. */
  function FromOrdinal(n: int): (d: Date)
    requires 1 <= n <= MaxOrdinal
    ensures Valid(d) && ToOrdinal(d) == n
  {
    var y := FindYear(n, 1);
    var m := FindMonth(y, n - DaysBeforeYear(y), 1);
    Date(y, m, n - DaysBeforeYear(y) - DaysBeforeMonth(y, m))
  }

  lemma FromToOrdinal(d: Date)
    requires Valid(d)
    ensures ToOrdinal(d) <= MaxOrdinal && FromOrdinal(ToOrdinal(d)) == d
  {
    OrdinalRange(d);
    OrdinalInjective(FromOrdinal(ToOrdinal(d)), d);
  }

  /**
   * `d` moved by k days (k < 0 moves back), as `d + timedelta(days=k)`;
   * None where Python raises OverflowError: the result leaves years 1..9999.
   */
  function AddDays(d: Date, k: int): (r: Option<Date>)
    requires Valid(d)
    ensures r.Some? <==> 1 <= ToOrdinal(d) + k <= MaxOrdinal
    ensures r.Some? ==> Valid(r.value) && ToOrdinal(r.value) == ToOrdinal(d) + k
  {
    var n := ToOrdinal(d) + k;
    if 1 <= n <= MaxOrdinal then Some(FromOrdinal(n)) else None
  }

  // ---------------------------------------------------------------------------
  // Text form YYYY-MM-DD

  function Pow10(w: nat): nat
  {
    if w == 0 then 1 else 10 * Pow10(w - 1)
  }

  predicate IsDigit(c: char)
  {
    '0' <= c <= '9'
  }

  predicate IsDigits(s: string)
  {
    forall i :: 0 <= i < |s| ==> IsDigit(s[i])
  }

  function DigitChar(v: int): (c: char)
    requires 0 <= v <= 9
    ensures IsDigit(c)
  {
    ('0' as int + v) as char
  }

  /** The last w decimal digits of x, zero-padded on the left. */
  function Pad(x: nat, w: nat): (s: string)
    ensures |s| == w && IsDigits(s)
  {
    if w == 0 then [] else Pad(x / 10, w - 1) + [DigitChar(x % 10)]
  }

  /** The number a string of decimal digits spells. */
  function Value(s: string): nat
    requires IsDigits(s)
  {
    if |s| == 0 then 0
    else 10 * Value(s[..|s| - 1]) + (s[|s| - 1] as int - '0' as int)
  }

  /** A number of at most w digits reads back from its padded form. */
  lemma {:induction false} ValuePad(x: nat, w: nat)
    requires x < Pow10(w)
    ensures Value(Pad(x, w)) == x
  {
    if w > 0 {
      var s := Pad(x, w);
      assert s[..w - 1] == Pad(x / 10, w - 1);
      ValuePad(x / 10, w - 1);
    }
  }

  /** A digit string is the padded form of its value. */
  lemma {:induction false} PadValue(s: string)
    requires IsDigits(s)
    ensures Value(s) < Pow10(|s|) && Pad(Value(s), |s|) == s
  {
    if |s| > 0 {
      var init := s[..|s| - 1];
      PadValue(init);
      var v, d := Value(init), s[|s| - 1] as int - '0' as int;
      assert Value(s) / 10 == v && Value(s) % 10 == d;
      assert s == init + [s[|s| - 1]];
    }
  }

  /** Zero-padded numbers of equal width sort as strings the way they sort as numbers. */
  lemma {:induction false} PadOrder(x: nat, y: nat, w: nat)
    requires x < Pow10(w) && y < Pow10(w)
    ensures Lex.Le(Pad(x, w), Pad(y, w)) <==> x <= y
    decreases w
  {
    if w > 0 {
      var p, q := Pad(x / 10, w - 1), Pad(y / 10, w - 1);
      var c, e := DigitChar(x % 10), DigitChar(y % 10);
      PadOrder(x / 10, y / 10, w - 1);
      Lex.Append(p, [c], q, [e]);
      if p == q {
        Lex.Reflexive(p);
        PadOrder(y / 10, x / 10, w - 1);
      } else if x / 10 == y / 10 {
        assert false;
      }
    }
  }

  /** Zero-padded numbers of equal width are equal exactly when the numbers are. */
  lemma PadInjective(x: nat, y: nat, w: nat)
    requires x < Pow10(w) && y < Pow10(w)
    ensures Pad(x, w) == Pad(y, w) <==> x == y
  {
    if Pad(x, w) == Pad(y, w) {
      ValuePad(x, w);
      ValuePad(y, w);
    }
  }

  /** The YYYY-MM-DD text of a date, as `strftime('%Y-%m-%d')`. */
  function Format(d: Date): (s: string)
    requires Valid(d)
    ensures |s| == 10
  {
    Pad(d.year, 4) + (['-'] + (Pad(d.month, 2) + (['-'] + Pad(d.day, 2))))
  }

  /**
   * The date a YYYY-MM-DD string names, as `strptime(s, '%Y-%m-%d')`; None
   * where strptime raises ValueError (wrong shape, or no such day).
   */
  function Parse(s: string): (r: Option<Date>)
    ensures r.Some? ==> Valid(r.value) && |s| == 10
  {
    if |s| == 10 && s[4] == '-' && s[7] == '-'
       && IsDigits(s[..4]) && IsDigits(s[5..7]) && IsDigits(s[8..])
    then
      var d := Date(Value(s[..4]), Value(s[5..7]), Value(s[8..]));
      if Valid(d) then Some(d) else None
    else None
  }

  /**
   * A string made of a 4-digit, a 2-digit and a 2-digit field separated by
   * dashes parses to the date those fields spell, when there is such a day.
   */
  lemma ParseFields(s: string, y: nat, m: nat, d: nat)
    requires y < 10000 && m < 100 && d < 100
    requires s == Pad(y, 4) + (['-'] + (Pad(m, 2) + (['-'] + Pad(d, 2))))
    ensures Parse(s) == if Valid(Date(y, m, d)) then Some(Date(y, m, d)) else None
  {
    assert s[..4] == Pad(y, 4);
    assert s[5..7] == Pad(m, 2);
    assert s[8..] == Pad(d, 2);
    assert Pow10(4) == 10000 && Pow10(2) == 100;
    ValuePad(y, 4);
    ValuePad(m, 2);
    ValuePad(d, 2);
  }

  /** Formatting a date and parsing the text gives the date back. */
  lemma ParseFormat(d: Date)
    requires Valid(d)
    ensures Parse(Format(d)) == Some(d)
  {
    ParseFields(Format(d), d.year, d.month, d.day);
  }

  /** Every string that parses is the formatted text of its date. */
  lemma FormatParse(s: string)
    requires Parse(s).Some?
    ensures Format(Parse(s).value) == s
  {
    PadValue(s[..4]);
    PadValue(s[5..7]);
    PadValue(s[8..]);
    assert s == s[..4] + (['-'] + (s[5..7] + (['-'] + s[8..])));
  }

  /**
   * Formatted dates sort as strings in chronological order, so the service's
   * string comparisons of dates are date comparisons.
   */
  lemma FormatOrder(a: Date, b: Date)
    requires Valid(a) && Valid(b)
    ensures Lex.Le(Format(a), Format(b)) <==> ToOrdinal(a) <= ToOrdinal(b)
  {
    assert Pow10(4) == 10000 && Pow10(2) == 100;
    var ya, yb := Pad(a.year, 4), Pad(b.year, 4);
    var ma, mb := Pad(a.month, 2), Pad(b.month, 2);
    var da, db := Pad(a.day, 2), Pad(b.day, 2);
    var dash: string := ['-'];
    Lex.Append(ya, dash + (ma + (dash + da)), yb, dash + (mb + (dash + db)));
    Lex.Append(dash, ma + (dash + da), dash, mb + (dash + db));
    Lex.Append(ma, dash + da, mb, dash + db);
    Lex.Append(dash, da, dash, db);
    PadOrder(a.year, b.year, 4);
    PadOrder(a.month, b.month, 2);
    PadOrder(a.day, b.day, 2);
    PadInjective(a.year, b.year, 4);
    PadInjective(a.month, b.month, 2);
    OrdinalOrder(a, b);
  }
}
