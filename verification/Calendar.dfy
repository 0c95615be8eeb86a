/**
 * Civil dates and their day numbers (the day arithmetic of section 21.4.1 of ECMA-262), the
 * Monday of a week, and the text form of a day.
 */
module Calendar {
  datatype Date = Date(year: int, month: int, day: int)

  predicate Leap(y: int) {
    y % 4 == 0 && (y % 100 != 0 || y % 400 == 0)
  }

  function DaysInMonth(y: int, m: int): int {
    if m == 2 then (if Leap(y) then 29 else 28) else if m == 4 || m == 6 || m == 9 || m == 11 then 30 else 31
  }

  predicate Valid(d: Date) {
    1 <= d.month <= 12 && 1 <= d.day <= DaysInMonth(d.year, d.month)
  }

  // The division is a floor division: the divisors are positive.
  function DayFromYear(y: int): int {
    365 * (y - 1970) + (y - 1969) / 4 - (y - 1901) / 100 + (y - 1601) / 400
  }

  // Days of the year before month m.
  function DaysBefore(y: int, m: int): int
    requires 1 <= m <= 12
  {
    [0, 31, 59, 90, 120, 151, 181, 212, 243, 273, 304, 334][m - 1] + if m > 2 && Leap(y) then 1 else 0
  }

  // Days since 1970-01-01.
  function DayNumber(d: Date): int
    requires 1 <= d.month <= 12
  {
    DayFromYear(d.year) + DaysBefore(d.year, d.month) + d.day - 1
  }

  // 0 is Sunday.
  function WeekDay(d: Date): int
    requires 1 <= d.month <= 12
  {
    (DayNumber(d) + 4) % 7
  }

  predicate Earlier(a: Date, b: Date) {
    || a.year < b.year
    || (a.year == b.year && a.month < b.month)
    || (a.year == b.year && a.month == b.month && a.day < b.day)
  }

  predicate AtOrAfter(a: Date, b: Date) {
    !Earlier(a, b)
  }

  // ----- day numbers follow the calendar -----

  lemma EveryFourth(y: int)
    ensures (y - 1968) / 4 - (y - 1969) / 4 == if y % 4 == 0 then 1 else 0
  {
  }

  lemma EveryHundredth(y: int)
    ensures (y - 1900) / 100 - (y - 1901) / 100 == if y % 100 == 0 then 1 else 0
  {
  }

  lemma EveryFourHundredth(y: int)
    ensures (y - 1600) / 400 - (y - 1601) / 400 == if y % 400 == 0 then 1 else 0
  {
  }

  lemma Multiples(y: int)
    ensures y % 400 == 0 ==> y % 100 == 0
    ensures y % 100 == 0 ==> y % 4 == 0
  {
  }

  lemma YearLength(y: int)
    ensures DayFromYear(y + 1) - DayFromYear(y) == if Leap(y) then 366 else 365
  {
    EveryFourth(y);
    EveryHundredth(y);
    EveryFourHundredth(y);
    Multiples(y);
    assert y + 1 - 1969 == y - 1968 && y + 1 - 1901 == y - 1900 && y + 1 - 1601 == y - 1600;
  }

  lemma MonthLength(y: int, m: int)
    requires 1 <= m <= 12
    ensures DaysBefore(y, m) + DaysInMonth(y, m) ==
              if m < 12 then DaysBefore(y, m + 1) else if Leap(y) then 366 else 365
  {
  }

  lemma {:induction false} MonthsIncrease(y: int, m: int, n: int)
    requires 1 <= m < n <= 12
    ensures DaysBefore(y, m) + DaysInMonth(y, m) <= DaysBefore(y, n)
    decreases n - m
  {
  }

  lemma {:induction false} YearsIncrease(y: int, z: int)
    requires y < z
    ensures DayFromYear(y) + (if Leap(y) then 366 else 365) <= DayFromYear(z)
    decreases z - y
  {
    YearLength(y);
    if y + 1 < z {
      YearsIncrease(y + 1, z);
    }
  }

  lemma WithinYear(d: Date)
    requires Valid(d)
    ensures DayFromYear(d.year) <= DayNumber(d) < DayFromYear(d.year) + if Leap(d.year) then 366 else 365
  {
  }

  // Day numbers order valid dates as the calendar does; in particular they are distinct.
  lemma DayNumberOrders(a: Date, b: Date)
    requires Valid(a) && Valid(b)
    ensures Earlier(a, b) <==> DayNumber(a) < DayNumber(b)
    ensures a == b <==> DayNumber(a) == DayNumber(b)
  {
    DayNumberIncreases(a, b);
    DayNumberIncreases(b, a);
  }

  lemma DayNumberIncreases(a: Date, b: Date)
    requires Valid(a) && Valid(b)
    ensures Earlier(a, b) ==> DayNumber(a) < DayNumber(b)
  {
    if a.year < b.year {
      WithinYear(a);
      WithinYear(b);
      YearsIncrease(a.year, b.year);
    } else if a.year == b.year && a.month < b.month {
      MonthsIncrease(a.year, a.month, b.month);
    }
  }

  // ----- setDate and the start of a week -----

  // setDate(date) for at most six days back: a day of the month below one borrows from the month,
  // and if need be the year, before.
  function SetDate(d: Date, date: int): Date
    requires Valid(d) && d.day - 6 <= date <= d.day
  {
    if date >= 1 then Date(d.year, d.month, date)
    else if d.month > 1 then Date(d.year, d.month - 1, DaysInMonth(d.year, d.month - 1) + date)
    else Date(d.year - 1, 12, 31 + date)
  }

  lemma SetDateMoves(d: Date, date: int)
    requires Valid(d) && d.day - 6 <= date <= d.day
    ensures Valid(SetDate(d, date))
    ensures DayNumber(SetDate(d, date)) == DayNumber(d) - (d.day - date)
  {
    if date < 1 {
      if d.month > 1 {
        MonthLength(d.year, d.month - 1);
      } else {
        MonthLength(d.year - 1, 12);
        YearLength(d.year - 1);
      }
    }
  }

  function StartOfWeek(d: Date): Date
    requires Valid(d)
  {
    var offset := (WeekDay(d) + 6) % 7;
    SetDate(d, d.day - offset)
  }

  lemma MondayOffset(day: int, offset: int)
    requires offset == ((day + 4) % 7 + 6) % 7
    ensures 0 <= offset <= 6 && (day - offset + 4) % 7 == 1
  {
  }

  // The start of a week is a valid Monday at most six days earlier.
  lemma StartOfWeekIsMonday(d: Date)
    requires Valid(d)
    ensures var s := StartOfWeek(d);
      Valid(s) && WeekDay(s) == 1 && DayNumber(s) <= DayNumber(d) <= DayNumber(s) + 6
  {
    var offset := (WeekDay(d) + 6) % 7;
    MondayOffset(DayNumber(d), offset);
    SetDateMoves(d, d.day - offset);
  }

  // And the only such date.
  lemma OnlyOneMonday(d: Date, s: Date)
    requires Valid(d) && Valid(s) && WeekDay(s) == 1 && DayNumber(s) <= DayNumber(d) <= DayNumber(s) + 6
    ensures s == StartOfWeek(d)
  {
    StartOfWeekIsMonday(d);
    SameMonday(DayNumber(s), DayNumber(StartOfWeek(d)), DayNumber(d));
    DayNumberOrders(s, StartOfWeek(d));
  }

  lemma SameMonday(a: int, b: int, day: int)
    requires (a + 4) % 7 == 1 && (b + 4) % 7 == 1
    requires a <= day <= a + 6 && b <= day <= b + 6
    ensures a == b
  {
  }

  lemma StartOfWeekIsIdempotent(d: Date)
    requires Valid(d)
    ensures Valid(StartOfWeek(d)) && StartOfWeek(StartOfWeek(d)) == StartOfWeek(d)
  {
    StartOfWeekIsMonday(d);
    OnlyOneMonday(StartOfWeek(d), StartOfWeek(d));
  }

  lemma MondaysAreAWeekApart(a: int, b: int, x: int, y: int)
    requires (a + 4) % 7 == 1 && (b + 4) % 7 == 1
    requires a <= x <= a + 6 && b <= y <= b + 6 && x <= y
    ensures a <= b
  {
  }

  lemma StartOfWeekIsMonotone(a: Date, b: Date)
    requires Valid(a) && Valid(b) && AtOrAfter(b, a)
    ensures AtOrAfter(StartOfWeek(b), StartOfWeek(a))
  {
    StartOfWeekIsMonday(a);
    StartOfWeekIsMonday(b);
    DayNumberOrders(b, a);
    DayNumberOrders(StartOfWeek(b), StartOfWeek(a));
    MondaysAreAWeekApart(DayNumber(StartOfWeek(a)), DayNumber(StartOfWeek(b)), DayNumber(a), DayNumber(b));
  }

  // A day is at or after a Monday exactly when its week is.
  lemma WeekTestIsDayTest(d: Date, today: Date)
    requires Valid(d) && Valid(today)
    ensures AtOrAfter(d, StartOfWeek(today)) <==> AtOrAfter(StartOfWeek(d), StartOfWeek(today))
  {
    StartOfWeekIsMonday(d);
    StartOfWeekIsMonday(today);
    StartOfWeekIsIdempotent(today);
    DayNumberOrders(d, StartOfWeek(today));
    DayNumberOrders(StartOfWeek(d), StartOfWeek(today));
    if AtOrAfter(d, StartOfWeek(today)) {
      StartOfWeekIsMonotone(StartOfWeek(today), d);
    }
  }

  // Where the count starts, and one start of week across the end of a leap February.
  lemma Anchors()
    ensures DayNumber(Date(1970, 1, 1)) == 0 && WeekDay(Date(1970, 1, 1)) == 4
    ensures Valid(Date(2024, 3, 1)) && StartOfWeek(Date(2024, 3, 1)) == Date(2024, 2, 26)
    ensures !Valid(Date(2023, 2, 29)) && !Valid(Date(1900, 2, 29)) && Valid(Date(2000, 2, 29))
  {
  }

  // ----- the text form -----

  // n in exactly k decimal digits.
  function Digits(n: nat, k: nat): string {
    if k == 0 then "" else Digits(n / 10, k - 1) + [(n % 10 + '0' as int) as char]
  }

  function Width(n: nat): nat {
    if n < 10 then 1 else 1 + Width(n / 10)
  }

  function Decimal(n: nat): string {
    Digits(n, Width(n))
  }

  // A year as a template literal prints it: unpadded, and signed below zero.
  function YearText(y: int): string {
    if y < 0 then "-" + Decimal(-y) else Decimal(y)
  }

  // localDay
  function LocalDay(d: Date): string
    requires Valid(d)
  {
    YearText(d.year) + "-" + Digits(d.month, 2) + "-" + Digits(d.day, 2)
  }

  // The comparison of strings by code unit.
  predicate TextLess(a: string, b: string) {
    b != [] && (a == [] || a[0] < b[0] || (a[0] == b[0] && TextLess(a[1..], b[1..])))
  }

  function Pow10(k: nat): nat {
    if k == 0 then 1 else 10 * Pow10(k - 1)
  }

  lemma {:induction false} DigitsOrder(n: nat, m: nat, k: nat, x: string, y: string)
    requires n < Pow10(k) && m < Pow10(k)
    ensures TextLess(Digits(n, k) + x, Digits(m, k) + y) <==> n < m || (n == m && TextLess(x, y))
    decreases k
  {
    if k == 0 {
      assert Digits(n, 0) + x == x && Digits(m, 0) + y == y;
    } else {
      var c, d := [(n % 10 + '0' as int) as char], [(m % 10 + '0' as int) as char];
      assert Digits(n, k) + x == Digits(n / 10, k - 1) + (c + x);
      assert Digits(m, k) + y == Digits(m / 10, k - 1) + (d + y);
      DigitsOrder(n / 10, m / 10, k - 1, c + x, d + y);
      assert (c + x)[1..] == x && (d + y)[1..] == y;
    }
  }

  lemma Hyphen(x: string, y: string)
    ensures TextLess("-" + x, "-" + y) == TextLess(x, y)
  {
  }

  // One hyphenated field, then the rest.
  lemma FieldOrder(n: nat, m: nat, k: nat, x: string, y: string)
    requires n < Pow10(k) && m < Pow10(k)
    ensures TextLess(Digits(n, k) + ("-" + x), Digits(m, k) + ("-" + y)) <==> n < m || (n == m && TextLess(x, y))
  {
    DigitsOrder(n, m, k, "-" + x, "-" + y);
    Hyphen(x, y);
  }

  lemma LastFieldOrder(n: nat, m: nat, k: nat)
    requires n < Pow10(k) && m < Pow10(k)
    ensures TextLess(Digits(n, k), Digits(m, k)) <==> n < m
  {
    DigitsOrder(n, m, k, "", "");
    assert Digits(n, k) + "" == Digits(n, k) && Digits(m, k) + "" == Digits(m, k);
  }

  // n without its last j digits.
  function Lead(n: nat, j: nat): nat {
    if j == 0 then n else Lead(n / 10, j - 1)
  }

  predicate IsDigits(s: string) {
    forall i :: 0 <= i < |s| ==> '0' <= s[i] <= '9'
  }

  lemma {:induction false} LeadDigits(n: nat, k: nat, j: nat) returns (rest: string)
    requires n < Pow10(k + j)
    ensures Lead(n, j) < Pow10(k)
    ensures Digits(n, k + j) == Digits(Lead(n, j), k) + rest && |rest| == j && IsDigits(rest)
    decreases j
  {
    if j == 0 {
      rest := "";
    } else {
      var front := LeadDigits(n / 10, k, j - 1);
      rest := front + [(n % 10 + '0' as int) as char];
    }
  }

  lemma {:induction false} WidthMeans(n: nat)
    ensures n < Pow10(Width(n))
  {
    if n >= 10 {
      WidthMeans(n / 10);
    }
  }

  // How hyphenated numbers compare as text: the shorter one with the leading digits of the longer
  // one, and before it when they are equal.
  predicate DecimalBefore(n: nat, m: nat) {
    var w, v := Width(n), Width(m);
    if w <= v then n < Lead(m, v - w) || (w < v && n == Lead(m, v - w)) else Lead(n, w - v) < m
  }

  lemma HyphenBeforeDigit(x: string, rest: string, y: string)
    requires rest != "" && IsDigits(rest)
    ensures TextLess("-" + x, rest + y) && !TextLess(rest + y, "-" + x)
  {
  }

  lemma DecimalOrder(n: nat, m: nat, x: string, y: string)
    ensures TextLess(Decimal(n) + ("-" + x), Decimal(m) + ("-" + y)) <==>
              DecimalBefore(n, m) || (n == m && TextLess(x, y))
  {
    var w, v := Width(n), Width(m);
    WidthMeans(n);
    WidthMeans(m);
    if w == v {
      FieldOrder(n, m, w, x, y);
    } else if w < v {
      var rest := LeadDigits(m, w, v - w);
      DigitsOrder(n, Lead(m, v - w), w, "-" + x, rest + ("-" + y));
      assert Digits(m, v) + ("-" + y) == Digits(Lead(m, v - w), w) + (rest + ("-" + y));
      HyphenBeforeDigit(x, rest, "-" + y);
    } else {
      var rest := LeadDigits(n, v, w - v);
      DigitsOrder(Lead(n, w - v), m, v, rest + ("-" + x), "-" + y);
      assert Digits(n, w) + ("-" + x) == Digits(Lead(n, w - v), v) + (rest + ("-" + x));
      HyphenBeforeDigit(y, rest, "-" + x);
    }
  }

  // Whether the text of one year, with what follows, comes before that of another one.
  predicate YearTextBefore(y: int, z: int) {
    if y < 0 && z < 0 then DecimalBefore(-y, -z) else y < 0 || (z >= 0 && DecimalBefore(y, z))
  }

  lemma YearOrder(y: int, z: int, x: string, t: string)
    ensures TextLess(YearText(y) + ("-" + x), YearText(z) + ("-" + t)) <==>
              YearTextBefore(y, z) || (y == z && TextLess(x, t))
  {
    if y < 0 {
      assert YearText(y) + ("-" + x) == "-" + (Decimal(-y) + ("-" + x));
    }
    if z < 0 {
      assert YearText(z) + ("-" + t) == "-" + (Decimal(-z) + ("-" + t));
    }
    if y < 0 && z < 0 {
      DecimalOrder(-y, -z, x, t);
      Hyphen(Decimal(-y) + ("-" + x), Decimal(-z) + ("-" + t));
    } else if y < 0 {
      DecimalIsDigits(z);
      HyphenBeforeDigit(Decimal(-y) + ("-" + x), Decimal(z), "-" + t);
    } else if z < 0 {
      DecimalIsDigits(y);
      HyphenBeforeDigit(Decimal(-z) + ("-" + t), Decimal(y), "-" + x);
    } else {
      DecimalOrder(y, z, x, t);
    }
  }

  lemma {:induction false} DigitsAreDigits(n: nat, k: nat)
    ensures |Digits(n, k)| == k && IsDigits(Digits(n, k))
  {
    if k > 0 {
      DigitsAreDigits(n / 10, k - 1);
    }
  }

  lemma DecimalIsDigits(n: nat)
    ensures Decimal(n) != "" && IsDigits(Decimal(n))
  {
    DigitsAreDigits(n, Width(n));
  }

  function MonthAndDay(d: Date): string
    requires Valid(d)
  {
    Digits(d.month, 2) + ("-" + Digits(d.day, 2))
  }

  // Two days of any years, compared as text.
  lemma DayTextOrder(a: Date, b: Date)
    requires Valid(a) && Valid(b)
    ensures TextLess(LocalDay(a), LocalDay(b)) <==>
              YearTextBefore(a.year, b.year) || (a.year == b.year && Earlier(a, b))
  {
    assert LocalDay(a) == YearText(a.year) + ("-" + MonthAndDay(a));
    assert LocalDay(b) == YearText(b.year) + ("-" + MonthAndDay(b));
    assert Pow10(2) == 100;
    LastFieldOrder(a.day, b.day, 2);
    FieldOrder(a.month, b.month, 2, Digits(a.day, 2), Digits(b.day, 2));
    YearOrder(a.year, b.year, MonthAndDay(a), MonthAndDay(b));
  }

  // Comparing two days as text is comparing them as dates exactly when the years, if they differ,
  // are in the order of their texts.
  lemma TextOrdersDaysExactly(a: Date, b: Date)
    requires Valid(a) && Valid(b)
    ensures (TextLess(LocalDay(a), LocalDay(b)) <==> Earlier(a, b)) <==>
              a.year == b.year || (YearTextBefore(a.year, b.year) <==> a.year < b.year)
  {
    DayTextOrder(a, b);
  }

  // That is so for all years of one width, in particular for those of four digits.
  lemma TextOrdersDays(a: Date, b: Date)
    requires Valid(a) && Valid(b) && a.year >= 0 && b.year >= 0
    requires Width(a.year) == Width(b.year)
    ensures TextLess(LocalDay(a), LocalDay(b)) <==> Earlier(a, b)
  {
    TextOrdersDaysExactly(a, b);
  }

  lemma FourDigits(y: int)
    requires 1000 <= y <= 9999
    ensures Width(y) == 4
  {
    var tens, hundreds, thousands := y / 10, y / 10 / 10, y / 10 / 10 / 10;
    assert 1 <= thousands <= 9 && 10 <= hundreds && 100 <= tens;
    assert Width(thousands) == 1 && Width(hundreds) == 2 && Width(tens) == 3;
  }

  // But every day of the year 10000 comes, as text, before every day of the year 9999.
  lemma LongYearSortsFirst(a: Date, b: Date)
    requires Valid(a) && Valid(b) && a.year == 10000 && b.year == 9999
    ensures TextLess(LocalDay(a), LocalDay(b)) && Earlier(b, a)
  {
    FourDigits(9999);
    FourDigits(1000);
    assert Width(10000) == 5 && Lead(10000, 1) == 1000;
    DayTextOrder(a, b);
  }

  // ----- the filters by prefix -----

  lemma DigitsTellApart(n: nat, m: nat, k: nat)
    requires n < Pow10(k) && m < Pow10(k) && Digits(n, k) == Digits(m, k)
    ensures n == m
  {
    LastFieldOrder(n, m, k);
    LastFieldOrder(m, n, k);
    LastFieldOrder(n, n, k);
  }

  // The first seven characters of a day tell its month, and the first four its year.
  lemma PrefixesTellMonthAndYear(d: Date, today: Date)
    requires Valid(d) && 1000 <= d.year <= 9999 && Valid(today) && 1000 <= today.year <= 9999
    ensures |LocalDay(d)| == |LocalDay(today)| == 10
    ensures LocalDay(today)[..4] <= LocalDay(d) <==> d.year == today.year
    ensures LocalDay(today)[..7] <= LocalDay(d) <==> d.year == today.year && d.month == today.month
  {
    FieldsOfDay(d);
    FieldsOfDay(today);
    var s, t := LocalDay(d), LocalDay(today);
    assert t[..4] <= s <==> t[..4] == s[..4];
    assert t[..7] <= s <==> t[..4] == s[..4] && t[5..7] == s[5..7] by {
      assert forall i :: 0 <= i < 2 ==> t[..7][5 + i] == t[5..7][i] && s[..7][5 + i] == s[5..7][i];
    }
    assert Pow10(2) == 100 && Pow10(4) == 10000;
    if t[..4] == s[..4] {
      DigitsTellApart(d.year, today.year, 4);
    }
    if t[5..7] == s[5..7] {
      DigitsTellApart(d.month, today.month, 2);
    }
  }

  lemma FieldsOfDay(d: Date)
    requires Valid(d) && 1000 <= d.year <= 9999
    ensures var s := LocalDay(d);
      |s| == 10 && s[..4] == Digits(d.year, 4) && s[4] == '-' && s[5..7] == Digits(d.month, 2)
  {
    FourDigits(d.year);
    DigitsAreDigits(d.year, 4);
    DigitsAreDigits(d.month, 2);
    DigitsAreDigits(d.day, 2);
  }
}
