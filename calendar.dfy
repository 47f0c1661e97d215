/**
 * Calendar dates as the application stores them (a DATE column, no time of day),
 * their `Y-m-d` text form, and the `YYYY-MM` month strings of the history queries.
 */
module Calendar {

  import opened Options

  datatype Date = Date(year: int, month: int, day: int)

  /** Gregorian leap years. */
  predicate IsLeapYear(y: int)
  {
    y % 4 == 0 && (y % 100 != 0 || y % 400 == 0)
  }

  /** Number of days of month `m` of year `y` in the Gregorian calendar. */
  function DaysInMonth(y: int, m: int): (n: int)
    requires 1 <= m <= 12
    ensures 28 <= n <= 31
    ensures m == 2 ==> (n == 29 <==> IsLeapYear(y))
  {
    if m == 2 then (if IsLeapYear(y) then 29 else 28)
    else if m == 4 || m == 6 || m == 9 || m == 11 then 30
    else 31
  }

  /**
   * A day the DATE column accepts whose year has the four digits of the `Y-m-d`
   * form. PostgreSQL has no year 0, so years run from 1.
   */
  predicate ValidDate(d: Date)
  {
    1 <= d.year <= 9999 && 1 <= d.month <= 12 && 1 <= d.day <= DaysInMonth(d.year, d.month)
  }

  /** Chronological order of dates (the order of the DATE column). */
  predicate DateLe(a: Date, b: Date)
  {
    a.year < b.year
    || (a.year == b.year && a.month < b.month)
    || (a.year == b.year && a.month == b.month && a.day <= b.day)
  }

  lemma DateLeTotal(a: Date, b: Date)
    ensures DateLe(a, b) || DateLe(b, a)
    ensures DateLe(a, b) && DateLe(b, a) ==> a == b
  {
  }

  // ---------------------------------------------------------------------------
  // Digits

  predicate IsDigit(c: char)
  {
    '0' <= c <= '9'
  }

  function DigitChar(n: int): (c: char)
    requires 0 <= n <= 9
    ensures IsDigit(c)
  {
    ('0' as int + n) as char
  }

  function DigitValue(c: char): (n: int)
    requires IsDigit(c)
    ensures 0 <= n <= 9
  {
    c as int - '0' as int
  }

  predicate AllDigits(s: string)
  {
    forall i :: 0 <= i < |s| ==> IsDigit(s[i])
  }

  /** The value of a two-digit field. */
  function Num2(s: string): (n: int)
    requires |s| == 2 && AllDigits(s)
    ensures 0 <= n <= 99
  {
    10 * DigitValue(s[0]) + DigitValue(s[1])
  }

  /** The value of a four-digit field. */
  function Num4(s: string): (n: int)
    requires |s| == 4 && AllDigits(s)
    ensures 0 <= n <= 9999
  {
    100 * Num2(s[0..2]) + Num2(s[2..4])
  }

  /** Zero-padded two-digit rendering (`m` and `d` of PHP's date format). */
  function Pad2(n: int): (s: string)
    requires 0 <= n <= 99
    ensures |s| == 2 && AllDigits(s)
  {
    [DigitChar(n / 10), DigitChar(n % 10)]
  }

  /** Zero-padded four-digit rendering (`Y` of PHP's date format for years 0..9999). */
  function Pad4(n: int): (s: string)
    requires 0 <= n <= 9999
    ensures |s| == 4 && AllDigits(s)
  {
    Pad2(n / 100) + Pad2(n % 100)
  }

  lemma Pad2Num2(n: int)
    requires 0 <= n <= 99
    ensures Num2(Pad2(n)) == n
  {
  }

  lemma Pad4Num4(n: int)
    requires 0 <= n <= 9999
    ensures Num4(Pad4(n)) == n
  {
    var s := Pad4(n);
    assert s[0..2] == Pad2(n / 100) && s[2..4] == Pad2(n % 100);
    Pad2Num2(n / 100);
    Pad2Num2(n % 100);
  }

  lemma Num2Pad2(s: string)
    requires |s| == 2 && AllDigits(s)
    ensures Pad2(Num2(s)) == s
  {
    var t := Pad2(Num2(s));
    assert t[0] == s[0] && t[1] == s[1];
  }

  lemma Num4Pad4(s: string)
    requires |s| == 4 && AllDigits(s)
    ensures Pad4(Num4(s)) == s
  {
    var hi, lo := Num2(s[0..2]), Num2(s[2..4]);
    assert (100 * hi + lo) / 100 == hi && (100 * hi + lo) % 100 == lo;
    Num2Pad2(s[0..2]);
    Num2Pad2(s[2..4]);
    assert s == s[0..2] + s[2..4];
  }

  // ---------------------------------------------------------------------------
  // The `Y-m-d` text form

  /** `$date->format('Y-m-d')`. */
  function FormatYmd(d: Date): (s: string)
    requires ValidDate(d)
    ensures |s| == 10 && s[4] == '-' && s[7] == '-'
  {
    Pad4(d.year) + "-" + Pad2(d.month) + "-" + Pad2(d.day)
  }

  /** The shape `dddd-dd-dd`. */
  predicate YmdShape(s: string)
  {
    |s| == 10 && AllDigits(s[0..4]) && s[4] == '-' && AllDigits(s[5..7]) && s[7] == '-' && AllDigits(s[8..10])
  }

  /**
   * How the database reads a date parameter given as text: the canonical
   * `YYYY-MM-DD` form naming a real day, and nothing else. (The repository only
   * ever binds text of that form.)
   */
  function ParseYmd(s: string): Option<Date>
  {
    if !YmdShape(s) then None
    else
      var d := Date(Num4(s[0..4]), Num2(s[5..7]), Num2(s[8..10]));
      if ValidDate(d) then Some(d) else None
  }

  /** Formatting a date and reading it back gives the same date. */
  lemma ParseFormat(d: Date)
    requires ValidDate(d)
    ensures ParseYmd(FormatYmd(d)) == Some(d)
  {
    var s := FormatYmd(d);
    assert s[0..4] == Pad4(d.year);
    assert s[5..7] == Pad2(d.month);
    assert s[8..10] == Pad2(d.day);
    Pad4Num4(d.year);
    Pad2Num2(d.month);
    Pad2Num2(d.day);
  }

  /** Every text the database accepts as a date is the canonical rendering of that date. */
  lemma FormatParse(s: string)
    requires ParseYmd(s).Some?
    ensures ValidDate(ParseYmd(s).value) && FormatYmd(ParseYmd(s).value) == s
  {
    var d := ParseYmd(s).value;
    Num4Pad4(s[0..4]);
    Num2Pad2(s[5..7]);
    Num2Pad2(s[8..10]);
    assert s == s[0..4] + "-" + s[5..7] + "-" + s[8..10];
  }

  // ---------------------------------------------------------------------------
  // `YYYY-MM` month strings

  /** Exactly seven characters `dddd-dd`. */
  predicate MonthShape(s: string)
  {
    |s| == 7 && AllDigits(s[0..4]) && s[4] == '-' && AllDigits(s[5..7])
  }

  /**
   * PHP's `preg_match('/^\d{4}-\d{2}$/', $s)`: `\d` is an ASCII digit and, without
   * the `D` modifier, `$` also matches just before a final line feed.
   */
  predicate YearMonthPattern(s: string)
    ensures YearMonthPattern(s) <==> exists t :: MonthShape(t) && (s == t || s == t + "\n")
  {
    PatternWitness(s);
    MonthShape(s) || (|s| == 8 && MonthShape(s[..7]) && s[7] == '\n')
  }

  /** The two forms the anchored pattern accepts: `dddd-dd`, and `dddd-dd` followed by one line feed. */
  lemma PatternWitness(s: string)
    ensures (MonthShape(s) || (|s| == 8 && MonthShape(s[..7]) && s[7] == '\n'))
            <==> exists t :: MonthShape(t) && (s == t || s == t + "\n")
  {
    if MonthShape(s) {
      assert MonthShape(s) && s == s;
    } else if |s| == 8 && MonthShape(s[..7]) && s[7] == '\n' {
      assert s == s[..7] + "\n";
    }
  }

  /**
   * The month strings whose meaning this model fixes: any string the pattern
   * rejects, and the seven-character ones naming months 01 to 12.
   */
  predicate MonthQueryDefined(s: string)
  {
    YearMonthPattern(s) ==> MonthShape(s) && 1 <= Num2(s[5..7]) <= 12
  }

  predicate WellFormedMonth(s: string)
  {
    MonthShape(s) && 1 <= Num2(s[5..7]) <= 12
  }

  function YearOf(s: string): int
    requires MonthShape(s)
  {
    Num4(s[0..4])
  }

  function MonthOf(s: string): int
    requires MonthShape(s)
  {
    Num2(s[5..7])
  }

  /** `modify('last day of this month')`. */
  function LastDayOfMonth(y: int, m: int): (d: Date)
    requires 1 <= y <= 9999 && 1 <= m <= 12
    ensures ValidDate(d) && d.year == y && d.month == m
    ensures !ValidDate(Date(y, m, d.day + 1))
  {
    Date(y, m, DaysInMonth(y, m))
  }

  /**
   * The start bound `$yearMonth . '-01'`, as the database reads it: day 1 of the
   * month, except for year 0000, which the database refuses.
   */
  lemma MonthStartParses(s: string)
    requires WellFormedMonth(s)
    ensures ParseYmd(s + "-01") == if YearOf(s) >= 1 then Some(Date(YearOf(s), MonthOf(s), 1)) else None
  {
    var start := s + "-01";
    assert |start| == 10;
    assert forall k :: 0 <= k < 7 ==> start[k] == s[k];
    assert start[7] == '-' && start[8] == '0' && start[9] == '1';
    assert start[0..4] == s[0..4];
    assert start[5..7] == s[5..7];
    assert start[8..10] == "01";
    assert YmdShape(start);
    assert Num2(start[8..10]) == 1;
  }

  /** A month whose bounds the database accepts: a well-formed month of a year from 1. */
  predicate StorableMonth(s: string)
  {
    WellFormedMonth(s) && YearOf(s) >= 1
  }

  /**
   * The two bounds the repository binds for a month query, as the database reads
   * them: `$yearMonth . '-01'` and the last day of that month rendered as `Y-m-d`.
   */
  function MonthBounds(s: string): (b: (Date, Date))
    requires StorableMonth(s)
    ensures b.0 == Date(YearOf(s), MonthOf(s), 1)
    ensures b.1 == LastDayOfMonth(YearOf(s), MonthOf(s))
  {
    var last := LastDayOfMonth(YearOf(s), MonthOf(s));
    MonthStartParses(s);
    ParseFormat(last);
    (ParseYmd(s + "-01").value, ParseYmd(FormatYmd(last)).value)
  }

  /** The bounds of a month query cover exactly the days of that calendar month. */
  lemma MonthBoundsExact(s: string, d: Date)
    requires StorableMonth(s) && ValidDate(d)
    ensures DateLe(MonthBounds(s).0, d) && DateLe(d, MonthBounds(s).1)
            <==> d.year == YearOf(s) && d.month == MonthOf(s)
  {
  }
}
