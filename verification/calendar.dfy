/**
 * The calendar the heatmap reads through JavaScript's Date: days are integer
 * day numbers counted from 1970-01-01 (day 0), laid out on the proleptic
 * Gregorian calendar. A day has a weekday (Sunday = 0, as Date.getDay), a
 * zero-based month (as Date.getMonth), a day of month (as Date.getDate) and an
 * ISO-8601 date key (the part of Date.toISOString before the 'T').
 */
module Calendar {
  import opened Wrappers

  /** A calendar day, as a count of days since 1970-01-01. */
  type Day = int

  /** A civil date; month runs 1..12 and day 1..31 as in the ISO key. */
  datatype Civil = Civil(year: int, month: int, day: int)

  predicate IsLeapYear(y: int) {
    y % 4 == 0 && (y % 100 != 0 || y % 400 == 0)
  }

  function DaysInMonth(y: int, m: int): (n: int)
    requires 1 <= m <= 12
    ensures 28 <= n <= 31
    ensures n == 29 <==> m == 2 && IsLeapYear(y)
  {
    if m == 2 then (if IsLeapYear(y) then 29 else 28)
    else if m == 4 || m == 6 || m == 9 || m == 11 then 30
    else 31
  }

  /** A date that exists on the proleptic Gregorian calendar. */
  predicate Valid(c: Civil) {
    1 <= c.month <= 12 && 1 <= c.day <= DaysInMonth(c.year, c.month)
  }

  /** Chronological order of civil dates (lexicographic on year, month, day). */
  predicate Before(a: Civil, b: Civil) {
    a.year < b.year
    || (a.year == b.year && (a.month < b.month || (a.month == b.month && a.day < b.day)))
  }

  /** The following day: a valid date after c. */
  function Next(c: Civil): (n: Civil)
    requires Valid(c)
    ensures Valid(n) && Before(c, n)
  {
    if c.day < DaysInMonth(c.year, c.month) then Civil(c.year, c.month, c.day + 1)
    else if c.month < 12 then Civil(c.year, c.month + 1, 1)
    else Civil(c.year + 1, 1, 1)
  }

  /** Next skips nothing: no valid date lies strictly between c and Next(c). */
  lemma NextIsImmediate(c: Civil, x: Civil)
    requires Valid(c) && Valid(x) && Before(c, x)
    ensures x == Next(c) || Before(Next(c), x)
  {
  }

  /** The preceding day; Next undoes it. */
  function Prev(c: Civil): (p: Civil)
    requires Valid(c)
    ensures Valid(p) && Next(p) == c
  {
    if c.day > 1 then Civil(c.year, c.month, c.day - 1)
    else if c.month > 1 then Civil(c.year, c.month - 1, DaysInMonth(c.year, c.month - 1))
    else Civil(c.year - 1, 12, 31)
  }

  /** Day 0 of the count: Thursday, 1 January 1970. */
  const Epoch: Civil := Civil(1970, 1, 1)

  /** The date reached from c by n steps forward (n > 0) or -n steps back (n < 0). */
  function Walk(c: Civil, n: int): Civil
    requires Valid(c)
    decreases if n < 0 then -n else n
  {
    if n == 0 then c
    else if n > 0 then Walk(Next(c), n - 1)
    else Walk(Prev(c), n + 1)
  }

  lemma {:induction false} WalkValid(c: Civil, n: int)
    requires Valid(c)
    ensures Valid(Walk(c, n))
    decreases if n < 0 then -n else n
  {
    if n > 0 {
      WalkValid(Next(c), n - 1);
    } else if n < 0 {
      WalkValid(Prev(c), n + 1);
    }
  }

  /** Stepping from the following day is the same as stepping and then taking the following day. */
  lemma {:induction false} WalkNext(c: Civil, n: int)
    requires Valid(c)
    ensures Valid(Walk(c, n)) && Walk(Next(c), n) == Next(Walk(c, n))
    decreases if n < 0 then -n else n
  {
    WalkValid(c, n);
    if n > 0 {
      WalkNext(Next(c), n - 1);
    } else if n < 0 {
      WalkNext(Prev(c), n + 1);
      assert Prev(Next(c)) == c by {
        NextPrev(c);
      }
    }
  }

  /** Prev undoes Next. */
  lemma NextPrev(c: Civil)
    requires Valid(c)
    ensures Prev(Next(c)) == c
  {
  }

  /** One step more is the following day. */
  lemma WalkSucc(c: Civil, n: int)
    requires Valid(c)
    ensures Valid(Walk(c, n)) && Walk(c, n + 1) == Next(Walk(c, n))
  {
    WalkValid(c, n);
    if n >= 0 {
      WalkNext(c, n);
    } else {
      WalkNext(Prev(c), n + 1);
    }
  }

  /** Stepping a + b days forward from c is stepping b days from where a days lead. */
  lemma {:induction false} WalkAdd(c: Civil, a: nat, b: nat, mid: Civil)
    requires Valid(c) && Walk(c, a) == mid
    ensures Valid(mid) && Walk(c, a + b) == Walk(mid, b)
    decreases a
  {
    WalkValid(c, a);
    if a > 0 {
      WalkAdd(Next(c), a - 1, b, mid);
    }
  }

  /** Within a month, n steps forward add n to the day of the month. */
  lemma {:induction false} WalkInMonth(c: Civil, n: nat)
    requires Valid(c) && c.day + n <= DaysInMonth(c.year, c.month)
    ensures Walk(c, n) == Civil(c.year, c.month, c.day + n)
    decreases n
  {
    if n > 0 {
      WalkInMonth(Next(c), n - 1);
    }
  }

  /** From the 1st of a month, as many steps as the month has days reach the 1st of the next month. */
  lemma MonthWalk(y: int, m: int)
    requires 1 <= m <= 12
    ensures Walk(Civil(y, m, 1), DaysInMonth(y, m)) == if m < 12 then Civil(y, m + 1, 1) else Civil(y + 1, 1, 1)
  {
    var c := Civil(y, m, 1);
    var n := DaysInMonth(y, m);
    WalkInMonth(c, n - 1);
    WalkAdd(c, n - 1, 1, Civil(y, m, n));
  }

  /** Days in the months of year y before month m. */
  function DaysBeforeMonth(y: int, m: int): nat
    requires 1 <= m <= 13
  {
    if m == 1 then 0 else DaysBeforeMonth(y, m - 1) + DaysInMonth(y, m - 1)
  }

  /** Days before the 1st of each month in a common year; index 12 is the whole year. */
  const CommonYearStarts: seq<nat> := [0, 31, 59, 90, 120, 151, 181, 212, 243, 273, 304, 334, 365]

  /** The summed month lengths agree with the common-year table, one day later after February in a leap year. */
  lemma {:induction false} DaysBeforeMonthTable(y: int, m: int)
    requires 1 <= m <= 13
    ensures DaysBeforeMonth(y, m) == CommonYearStarts[m - 1] + if m > 2 && IsLeapYear(y) then 1 else 0
  {
    if m > 1 {
      DaysBeforeMonthTable(y, m - 1);
    }
  }

  /** From 1 January, the days of the earlier months reach the 1st of month m. */
  lemma {:induction false} WalkToMonth(y: int, m: int)
    requires 1 <= m <= 12
    ensures Walk(Civil(y, 1, 1), DaysBeforeMonth(y, m)) == Civil(y, m, 1)
  {
    if m > 1 {
      var a, b := DaysBeforeMonth(y, m - 1), DaysInMonth(y, m - 1);
      assert DaysBeforeMonth(y, m) == a + b;
      WalkToMonth(y, m - 1);
      WalkAdd(Civil(y, 1, 1), a, b, Civil(y, m - 1, 1));
      MonthWalk(y, m - 1);
    }
  }

  /**
   * The month table makes a year of 365 days, 366 in a leap year, and
   * stepping that many days from 1 January reaches 1 January of the next year.
   */
  lemma YearLength(y: int)
    ensures DaysBeforeMonth(y, 13) == if IsLeapYear(y) then 366 else 365
    ensures Walk(Civil(y, 1, 1), DaysBeforeMonth(y, 13)) == Civil(y + 1, 1, 1)
  {
    DaysBeforeMonthTable(y, 13);
    WalkToMonth(y, 12);
    WalkAdd(Civil(y, 1, 1), DaysBeforeMonth(y, 12), DaysInMonth(y, 12), Civil(y, 12, 1));
    MonthWalk(y, 12);
  }

  /** The civil date of a day number, reached by stepping day by day from the epoch. */
  function CivilOf(d: Day): Civil {
    Walk(Epoch, d)
  }

  /** Every day number names a valid date. */
  lemma CivilOfValid(d: Day)
    ensures Valid(CivilOf(d))
  {
    WalkValid(Epoch, d);
  }

  /** Consecutive day numbers are consecutive civil dates. */
  lemma CivilOfSucc(d: Day)
    ensures Valid(CivilOf(d)) && CivilOf(d + 1) == Next(CivilOf(d))
  {
    WalkSucc(Epoch, d);
  }

  /** Day numbering is chronological, hence one-to-one. */
  lemma {:induction false} CivilOfOrdered(a: Day, b: Day)
    requires a < b
    ensures Before(CivilOf(a), CivilOf(b))
    decreases b - a
  {
    CivilOfSucc(b - 1);
    if a < b - 1 {
      CivilOfOrdered(a, b - 1);
    }
  }

  lemma CivilOfInjective(a: Day, b: Day)
    ensures CivilOf(a) == CivilOf(b) <==> a == b
  {
    if a < b {
      CivilOfOrdered(a, b);
    } else if b < a {
      CivilOfOrdered(b, a);
    }
  }

  /** Day of the week, Sunday = 0 ... Saturday = 6; day 0 was a Thursday. */
  function Weekday(d: Day): (w: int)
    ensures 0 <= w <= 6
  {
    (d + 4) % 7
  }

  /** Weekdays cycle: the next day is one later, seven days on is the same. */
  lemma WeekdayStep(d: Day)
    ensures Weekday(d + 1) == (Weekday(d) + 1) % 7
    ensures Weekday(d + 7) == Weekday(d)
  {
  }

  const Saturday: int := 6

  /** Zero-based month, January = 0, as Date.getMonth. */
  function Month0(d: Day): (m: int)
    ensures 0 <= m <= 11
  {
    CivilOfValid(d);
    CivilOf(d).month - 1
  }

  /** Day of the month, starting at 1, as Date.getDate. */
  function DayOfMonth(d: Day): (n: int)
    ensures 1 <= n <= 31
  {
    CivilOfValid(d);
    CivilOf(d).day
  }

  /**
   * Stepping one day either advances the day of month within the same month,
   * or starts the next month (cyclically) on its 1st after a day numbered 28 or later.
   */
  lemma MonthStep(d: Day)
    ensures DayOfMonth(d + 1) == 1 || DayOfMonth(d + 1) == DayOfMonth(d) + 1
    ensures DayOfMonth(d + 1) != 1 ==> Month0(d + 1) == Month0(d)
    ensures DayOfMonth(d + 1) == 1 ==> Month0(d + 1) == (Month0(d) + 1) % 12 && DayOfMonth(d) >= 28
  {
    var c := CivilOf(d);
    CivilOfSucc(d);
    assert CivilOf(d + 1) == Next(c);
  }

  // ---- The ISO date key ----

  predicate IsDigit(c: char) {
    '0' <= c <= '9'
  }

  predicate AllDigits(s: string) {
    forall i :: 0 <= i < |s| ==> IsDigit(s[i])
  }

  /** The number a string of decimal digits denotes. */
  function DigitsValue(s: string): (n: nat)
    requires AllDigits(s)
  {
    if |s| == 0 then 0
    else DigitsValue(s[..|s| - 1]) * 10 + (s[|s| - 1] as int - '0' as int)
  }

  /** n in decimal, left-padded with zeros to at least `width` digits. */
  function Digits(n: nat, width: nat): string
    decreases n + width
  {
    var last := ('0' as int + n % 10) as char;
    if n < 10 && width <= 1 then [last]
    else Digits(n / 10, if width == 0 then 0 else width - 1) + [last]
  }

  /** 10 to the power n. */
  function Pow10(n: nat): (p: nat)
    ensures p >= 1
  {
    if n == 0 then 1 else 10 * Pow10(n - 1)
  }

  /**
   * Digits writes at least `width` decimal digits (and at least one) that read
   * back as n, and exactly `width` of them when n has no more digits than that.
   */
  lemma {:induction false} DigitsSpec(n: nat, width: nat)
    ensures var s := Digits(n, width);
      && |s| >= width && |s| >= 1
      && AllDigits(s) && DigitsValue(s) == n
      && (1 <= width && n < Pow10(width) ==> |s| == width)
    decreases n + width
  {
    var s := Digits(n, width);
    var last := ('0' as int + n % 10) as char;
    if !(n < 10 && width <= 1) {
      var w := if width == 0 then 0 else width - 1;
      var t := Digits(n / 10, w);
      DigitsSpec(n / 10, w);
      assert s == t + [last];
      assert s[..|s| - 1] == t;
      if 1 <= width && n < Pow10(width) {
        assert Pow10(width) == 10 * Pow10(w);
        assert n / 10 < Pow10(w);
      }
    }
  }

  /**
   * The year as Date.toISOString writes it: four digits for years 0..9999,
   * otherwise a sign and at least six digits.
   */
  function FormatYear(y: int): string {
    if 0 <= y <= 9999 then Digits(y, 4)
    else if y < 0 then "-" + Digits(-y, 6)
    else "+" + Digits(y, 6)
  }

  function ParseYear(s: string): Option<int> {
    if |s| > 1 && (s[0] == '-' || s[0] == '+') && AllDigits(s[1..]) then
      var v: int := DigitsValue(s[1..]);
      Some(if s[0] == '-' then -v else v)
    else if |s| > 0 && AllDigits(s) then Some(DigitsValue(s))
    else None
  }

  /** YYYY-MM-DD for a civil date. */
  function FormatCivil(c: Civil): string
    requires Valid(c)
  {
    FormatYear(c.year) + "-" + Digits(c.month, 2) + "-" + Digits(c.day, 2)
  }

  /** Reads a YYYY-MM-DD key back into its year, month and day; None if malformed. */
  function ParseDateKey(s: string): Option<Civil> {
    if |s| < 10 || s[|s| - 6] != '-' || s[|s| - 3] != '-' then None
    else
      var y, m, d := s[..|s| - 6], s[|s| - 5..|s| - 3], s[|s| - 2..];
      if !AllDigits(m) || !AllDigits(d) then None
      else
        match ParseYear(y)
        case None => None
        case Some(yv) => Some(Civil(yv, DigitsValue(m), DigitsValue(d)))
  }

  /** An unsigned run of digits reads back as its value. */
  lemma ParseUnsigned(s: string)
    requires |s| > 0 && AllDigits(s)
    ensures ParseYear(s) == Some(DigitsValue(s))
  {
    assert IsDigit(s[0]);
  }

  /** A sign followed by a run of digits reads back as the signed value. */
  lemma ParseSigned(sign: char, t: string)
    requires sign == '-' || sign == '+'
    requires |t| > 0 && AllDigits(t)
    ensures var v: int := DigitsValue(t);
      ParseYear([sign] + t) == Some(if sign == '-' then -v else v)
  {
    assert ([sign] + t)[1..] == t;
  }

  lemma ParseYearRoundTrip(y: int)
    ensures ParseYear(FormatYear(y)) == Some(y)
    ensures |FormatYear(y)| >= 4
  {
    var s := FormatYear(y);
    if 0 <= y <= 9999 {
      assert s == Digits(y, 4);
      DigitsSpec(y, 4);
      ParseUnsigned(s);
    } else if y < 0 {
      assert s == ['-'] + Digits(-y, 6);
      DigitsSpec(-y, 6);
      ParseSigned('-', Digits(-y, 6));
    } else {
      assert s == ['+'] + Digits(y, 6);
      DigitsSpec(y, 6);
      ParseSigned('+', Digits(y, 6));
    }
  }

  /** Where the three fields of y-m-d sit when month and day take two characters each. */
  lemma KeyFields(y: string, m: string, d: string)
    requires |m| == 2 && |d| == 2
    ensures var s := y + "-" + m + "-" + d;
      |s| == |y| + 6 && s[|s| - 6] == '-' && s[|s| - 3] == '-'
      && s[..|s| - 6] == y && s[|s| - 5..|s| - 3] == m && s[|s| - 2..] == d
  {
    var s := y + "-" + m + "-" + d;
    assert s[..|s| - 6] == y;
    assert s[|s| - 5..|s| - 3] == m;
    assert s[|s| - 2..] == d;
  }

  /** A key assembled from a year that parses and two two-digit fields parses to those three values. */
  lemma ParseAssembledKey(y: string, m: string, d: string, c: Civil)
    requires |y| >= 4 && ParseYear(y) == Some(c.year)
    requires |m| == 2 && AllDigits(m) && DigitsValue(m) == c.month
    requires |d| == 2 && AllDigits(d) && DigitsValue(d) == c.day
    ensures ParseDateKey(y + "-" + m + "-" + d) == Some(c)
  {
    KeyFields(y, m, d);
  }

  /** Parsing a formatted civil date gives that date back. */
  lemma ParseFormatCivil(c: Civil)
    requires Valid(c)
    ensures ParseDateKey(FormatCivil(c)) == Some(c)
  {
    ParseYearRoundTrip(c.year);
    DigitsSpec(c.month, 2);
    DigitsSpec(c.day, 2);
    ParseAssembledKey(FormatYear(c.year), Digits(c.month, 2), Digits(c.day, 2), c);
  }

  /** The ISO date key of a day, YYYY-MM-DD. */
  function DateKey(d: Day): string {
    CivilOfValid(d);
    FormatCivil(CivilOf(d))
  }

  /** A day's key parses back to the day's civil date. */
  lemma DateKeyRoundTrip(d: Day)
    ensures ParseDateKey(DateKey(d)) == Some(CivilOf(d))
  {
    CivilOfValid(d);
    ParseFormatCivil(CivilOf(d));
  }

  /** Distinct days have distinct keys. */
  lemma DateKeyInjective(a: Day, b: Day)
    ensures DateKey(a) == DateKey(b) <==> a == b
  {
    if DateKey(a) == DateKey(b) {
      DateKeyRoundTrip(a);
      DateKeyRoundTrip(b);
      CivilOfInjective(a, b);
    }
  }

  /**
   * The exact shape of the year text: four digits for years 0..9999; a sign
   * and six digits for the other years of six digits or fewer; a sign and
   * more digits beyond that.
   */
  lemma FormatYearShape(y: int)
    ensures var s := FormatYear(y);
      && (0 <= y <= 9999 ==> |s| == 4 && AllDigits(s) && DigitsValue(s) == y)
      && (!(0 <= y <= 9999) ==>
            |s| >= 7 && s[0] == (if y < 0 then '-' else '+')
            && AllDigits(s[1..]) && DigitsValue(s[1..]) == if y < 0 then -y else y)
      && (!(0 <= y <= 9999) && -999999 <= y <= 999999 ==> |s| == 7)
  {
    var s := FormatYear(y);
    if 0 <= y <= 9999 {
      DigitsSpec(y, 4);
    } else {
      var v := if y < 0 then -y else y;
      DigitsSpec(v, 6);
      assert s[1..] == Digits(v, 6);
    }
  }

  /**
   * For years 0..9999 the key of a day is exactly ten characters, YYYY-MM-DD:
   * digit fields of widths 4, 2 and 2 holding the year, month and day of
   * month, separated by '-' at positions 4 and 7. With the digit values and
   * widths fixed, no other text has these properties.
   */
  lemma DateKeyShape(d: Day)
    requires 0 <= CivilOf(d).year <= 9999
    ensures var c, k := CivilOf(d), DateKey(d);
      && |k| == 10 && k[4] == '-' && k[7] == '-'
      && AllDigits(k[..4]) && DigitsValue(k[..4]) == c.year
      && AllDigits(k[5..7]) && DigitsValue(k[5..7]) == c.month
      && AllDigits(k[8..]) && DigitsValue(k[8..]) == c.day
  {
    var c := CivilOf(d);
    CivilOfValid(d);
    var y, m, dd := FormatYear(c.year), Digits(c.month, 2), Digits(c.day, 2);
    FormatYearShape(c.year);
    DigitsSpec(c.month, 2);
    DigitsSpec(c.day, 2);
    KeyFields(y, m, dd);
  }
}

