/** Civil dates and day numbers: the era arithmetic against the plain Gregorian count. */
module Calendar {

  datatype Date = Date(year: int, month: int, day: int)

  /** Division that rounds toward zero. */
  function TruncDiv(a: int, b: int): int
    requires b > 0
  {
    if a >= 0 then a / b else -((-a) / b)
  }

  // ---- the plain calendar -----------------------------------------------------

  predicate Leap(year: int) {
    year % 4 == 0 && (year % 100 != 0 || year % 400 == 0)
  }

  function MonthLength(year: int, month: int): int {
    if month == 2 then (if Leap(year) then 29 else 28)
    else if month in {4, 6, 9, 11} then 30
    else 31
  }

  predicate RealDate(date: Date) {
    1 <= date.month <= 12 && 1 <= date.day <= MonthLength(date.year, date.month)
  }

  function YearLength(year: int): int {
    if Leap(year) then 366 else 365
  }

  /** Days from 1 January 1970 to 1 January of a year, counted year by year. */
  function YearStart(year: int): int
    decreases if year >= 1970 then year - 1970 else 1970 - year
  {
    if year == 1970 then 0
    else if year > 1970 then YearStart(year - 1) + YearLength(year - 1)
    else YearStart(year + 1) - YearLength(year)
  }

  /** Days in the months before one. */
  function MonthStart(year: int, month: int): int
    requires 1 <= month <= 12
    decreases month
  {
    if month == 1 then 0 else MonthStart(year, month - 1) + MonthLength(year, month - 1)
  }

  /** The plain day count. */
  function DayCount(date: Date): int
    requires RealDate(date)
  {
    YearStart(date.year) + MonthStart(date.year, date.month) + date.day - 1
  }

  // ---- the era arithmetic -----------------------------------------------------

  /** Day of a year that starts in March, for any month and day numbers. */
  function MarchDay(month: int, day: int): int {
    TruncDiv(153 * (if month > 2 then month - 3 else month + 9) + 2, 5) + day - 1
  }

  /** Days since 1970 from a civil date. */
  function DaysFromCivil(year: int, month: int, day: int): int {
    var ya := if month <= 2 then year - 1 else year;
    var era := TruncDiv(if ya >= 0 then ya else ya - 399, 400);
    var yoe := ya - era * 400;
    var doe := yoe * 365 + TruncDiv(yoe, 4) - TruncDiv(yoe, 100) + MarchDay(month, day);
    era * 146097 + doe - 719468
  }

  /** The civil date of a day since 1970. */
  function CivilFromDays(days: int): Date {
    var z := days + 719468;
    var era := TruncDiv(if z >= 0 then z else z - 146096, 146097);
    var doe := z - era * 146097;
    var yoe := TruncDiv(doe - TruncDiv(doe, 1460) + TruncDiv(doe, 36524) - TruncDiv(doe, 146096), 365);
    var y := yoe + era * 400;
    var doy := doe - (365 * yoe + TruncDiv(yoe, 4) - TruncDiv(yoe, 100));
    FromMarch(y, doy)
  }

  /** The civil date of a day of the year that starts in March of `y`. */
  function FromMarch(y: int, doy: int): Date {
    var mp := TruncDiv(5 * doy + 2, 153);
    var d := doy - TruncDiv(153 * mp + 2, 5) + 1;
    var m := if mp < 10 then mp + 3 else mp - 9;
    Date(if m <= 2 then y + 1 else y, m, d)
  }

  // ---- eras -------------------------------------------------------------------

  /** Shifting a negative numerator makes truncation round down. */
  lemma EraIsFloor(a: int, b: int)
    requires b > 0
    ensures TruncDiv(if a >= 0 then a else a - (b - 1), b) == a / b
  {
    if a < 0 {
      var q := a / b;
      assert a == q * b + a % b;
      var n := -(a - (b - 1));
      assert n == (-q) * b + (b - 1 - a % b);
      Quotient(n, b, -q, b - 1 - a % b);
    }
  }

  lemma Quotient(n: int, b: int, q: int, r: int)
    requires b > 0 && n == q * b + r && 0 <= r < b
    ensures n / b == q
  {
    var d := n / b - q;
    assert n == (n / b) * b + n % b;
    assert d * b == r - n % b;
    Multiple(d, b);
  }

  lemma Multiple(d: int, b: int)
    requires b > 0
    ensures d >= 1 ==> d * b >= b
    ensures d <= -1 ==> d * b <= -b
  {
  }

  // ---- a 400-year cycle -------------------------------------------------------

  /** Days before year `yoe` of an era, years starting in March. */
  function CycleStart(yoe: int): int {
    365 * yoe + yoe / 4 - yoe / 100
  }

  /** The length of year `yoe`, whose last month is the February of the next civil year. */
  function CycleLength(yoe: int): int {
    if yoe % 4 == 3 && (yoe % 100 != 99 || yoe == 399) then 366 else 365
  }

  /** The year of a day of the era, as the code computes it. */
  function YearOfDay(doe: int): int {
    (doe - doe / 1460 + doe / 36524 - doe / 146096) / 365
  }

  /** A day of year `100 * c + 4 * k + j` is found in that year. */
  lemma YearFound(c: int, k: int, j: int, doy: int)
    requires 0 <= c <= 3 && 0 <= k <= 24 && 0 <= j <= 3
    requires 0 <= doy < 365 || (doy == 365 && j == 3 && (k < 24 || c == 3))
    ensures YearOfDay(36524 * c + 1461 * k + 365 * j + doy) == 100 * c + 4 * k + j
  {
    var doe := 36524 * c + 1461 * k + 365 * j + doy;
    var rest := 24 * c + k + 365 * j + doy;
    var e := if rest >= 1460 then 1 else 0;
    assert doe == 1460 * (25 * c + k + e) + (rest - 1460 * e);
    assert doe / 1460 == 25 * c + k + e;
    var a := if c == 3 && k == 24 && j == 3 && doy == 365 then 1 else 0;
    assert doe / 36524 == c + a;
    assert doe / 146096 == a;
    assert doe - doe / 1460 + doe / 36524 - doe / 146096 == 365 * (100 * c + 4 * k + j) + (doy - e);
    assert 0 <= doy - e < 365;
  }

  /** Every day of an era is a day of one of its years. */
  lemma CycleDay(doe: int) returns (yoe: int, doy: int)
    requires 0 <= doe < 146097
    ensures 0 <= yoe < 400 && 0 <= doy < CycleLength(yoe) && doe == CycleStart(yoe) + doy
  {
    var c := if doe / 36524 < 3 then doe / 36524 else 3;
    var r := doe - 36524 * c;
    var k := if r / 1461 < 24 then r / 1461 else 24;
    var s := r - 1461 * k;
    var j := if s / 365 < 3 then s / 365 else 3;
    yoe, doy := 100 * c + 4 * k + j, s - 365 * j;
    CycleParts(c, k, j);
  }

  lemma CycleParts(c: int, k: int, j: int)
    requires 0 <= c <= 3 && 0 <= k <= 24 && 0 <= j <= 3
    ensures CycleStart(100 * c + 4 * k + j) == 36524 * c + 1461 * k + 365 * j
    ensures CycleLength(100 * c + 4 * k + j) == if j == 3 && (k < 24 || c == 3) then 366 else 365
  {
    var y := 100 * c + 4 * k + j;
    assert y / 4 == 25 * c + k && y / 100 == c && y % 4 == j && y % 100 == 4 * k + j;
  }

  lemma YearOfDayIs(yoe: int, doy: int)
    requires 0 <= yoe < 400 && 0 <= doy < CycleLength(yoe)
    ensures 0 <= CycleStart(yoe) + doy < 146097
    ensures YearOfDay(CycleStart(yoe) + doy) == yoe && doy < 366
  {
    var c, k, j := yoe / 100, yoe % 100 / 4, yoe % 4;
    assert yoe == 100 * c + 4 * k + j;
    CycleParts(c, k, j);
    YearFound(c, k, j, doy);
  }

  // ---- a year from March ------------------------------------------------------

  /** The code's month and day of a day of a March year. */
  function MonthOfDay(doy: int): int {
    var mp := (5 * doy + 2) / 153;
    if mp < 10 then mp + 3 else mp - 9
  }

  function DayOfDay(doy: int): int {
    doy - (153 * ((5 * doy + 2) / 153) + 2) / 5 + 1
  }

  /** The longest a month can be. */
  function LongestMonth(month: int): int {
    if month == 2 then 29 else MonthLength(1, month)
  }

  lemma DayOfMarchYear(month: int, day: int)
    requires 1 <= month <= 12 && 1 <= day <= LongestMonth(month)
    ensures var doy := MarchDay(month, day); 0 <= doy < 366 && MonthOfDay(doy) == month && DayOfDay(doy) == day
    ensures MarchDay(month, day) == 365 <==> month == 2 && day == 29
  {
    var mp := if month > 2 then month - 3 else month + 9;
    assert mp in {0, 1, 2, 3, 4, 5, 6, 7, 8, 9, 10, 11};
    assert MarchDay(month, day) == (153 * mp + 2) / 5 + day - 1;
  }

  lemma MonthOfMarchYear(doy: int)
    requires 0 <= doy < 366
    ensures 1 <= MonthOfDay(doy) <= 12 && 1 <= DayOfDay(doy) <= LongestMonth(MonthOfDay(doy))
    ensures MarchDay(MonthOfDay(doy), DayOfDay(doy)) == doy
    ensures MonthOfDay(doy) == 2 && DayOfDay(doy) == 29 <==> doy == 365
  {
    var mp := (5 * doy + 2) / 153;
    assert mp in {0, 1, 2, 3, 4, 5, 6, 7, 8, 9, 10, 11};
  }

  // ---- both directions --------------------------------------------------------

  /** Days before a year that starts in March. */
  function MarchYearStart(ya: int): int {
    ya / 400 * 146097 + CycleStart(ya % 400) - 719468
  }

  lemma DaysParts(year: int, month: int, day: int)
    ensures DaysFromCivil(year, month, day)
            == MarchYearStart(if month <= 2 then year - 1 else year) + MarchDay(month, day)
  {
    hide MarchDay;
    var ya := if month <= 2 then year - 1 else year;
    EraIsFloor(ya, 400);
  }

  lemma CivilParts(era: int, yoe: int, doy: int)
    requires 0 <= yoe < 400 && 0 <= doy < CycleLength(yoe)
    ensures CivilFromDays(era * 146097 + CycleStart(yoe) + doy - 719468)
            == Date(era * 400 + yoe + (if MonthOfDay(doy) <= 2 then 1 else 0), MonthOfDay(doy), DayOfDay(doy))
  {
    hide CivilFromDays, MonthOfDay, DayOfDay, YearOfDay, CycleStart, CycleLength;
    var doe := CycleStart(yoe) + doy;
    YearOfDayIs(yoe, doy);
    var z := era * 146097 + doe;
    EraIsFloor(z, 146097);
    Quotient(z, 146097, era, doe);
    CivilByYear(era * 146097 + doe - 719468, era, yoe, doy);
  }

  lemma CivilByYear(days: int, era: int, yoe: int, doy: int)
    requires 0 <= yoe < 400 && 0 <= doy < 366
    requires days + 719468 == era * 146097 + CycleStart(yoe) + doy && 0 <= CycleStart(yoe) + doy < 146097
    requires TruncDiv(if days + 719468 >= 0 then days + 719468 else days + 719468 - 146096, 146097) == era
    requires YearOfDay(CycleStart(yoe) + doy) == yoe
    ensures CivilFromDays(days)
            == Date(era * 400 + yoe + (if MonthOfDay(doy) <= 2 then 1 else 0), MonthOfDay(doy), DayOfDay(doy))
  {
    hide YearOfDay, FromMarch, MonthOfDay, DayOfDay;
    TruncYear(CycleStart(yoe) + doy);
    FromMarchIs(era * 400 + yoe, doy);
  }

  lemma FromMarchIs(y: int, doy: int)
    requires 0 <= doy < 366
    ensures FromMarch(y, doy) == Date(y + (if MonthOfDay(doy) <= 2 then 1 else 0), MonthOfDay(doy), DayOfDay(doy))
  {
    MonthOfMarchYear(doy);
  }

  lemma TruncYear(doe: int)
    requires 0 <= doe < 146097
    ensures TruncDiv(doe - TruncDiv(doe, 1460) + TruncDiv(doe, 36524) - TruncDiv(doe, 146096), 365) == YearOfDay(doe)
  {
    YearNonNegative(doe);
  }

  lemma YearNonNegative(doe: int)
    requires 0 <= doe < 146097
    ensures doe - doe / 1460 + doe / 36524 - doe / 146096 >= 0
  {
  }

  /** Year `yoe` of an era has a leap day exactly when the February it ends with does. */
  lemma LeapInEra(era: int, yoe: int)
    requires 0 <= yoe < 400
    ensures CycleLength(yoe) == YearLength(era * 400 + yoe + 1)
  {
    Shifted(era, 100, yoe + 1, 4);
    Shifted(era, 4, yoe + 1, 100);
    Shifted(era, 1, yoe + 1, 400);
  }

  lemma Shifted(era: int, k: int, x: int, m: int)
    requires m > 0 && k * m == 400
    ensures (era * 400 + x) % m == x % m
  {
    var n, q := era * 400 + x, era * k + x / m;
    Grouped(era, k, m);
    assert n == q * m + x % m by { Spread(era * k, x / m, m); }
    Quotient(n, m, q, x % m);
  }

  lemma Grouped(era: int, k: int, m: int)
    requires k * m == 400
    ensures era * 400 == (era * k) * m
  {
  }

  lemma Spread(a: int, b: int, m: int)
    ensures (a + b) * m == a * m + b * m
  {
  }

  /** A real date comes back from its day number. */
  lemma DateRoundTrip(date: Date)
    requires RealDate(date)
    ensures CivilFromDays(DaysFromCivil(date.year, date.month, date.day)) == date
  {
    hide CivilFromDays, DaysFromCivil, MarchDay, MonthOfDay, DayOfDay, CycleStart;
    var ya := if date.month <= 2 then date.year - 1 else date.year;
    var era, yoe := ya / 400, ya % 400;
    var doy := MarchDay(date.month, date.day);
    DaysParts(date.year, date.month, date.day);
    DayOfMarchYear(date.month, date.day);
    LeapInEra(era, yoe);
    CivilParts(era, yoe, doy);
  }

  /** Every day has a real date, and its day number is that day. */
  lemma DayRoundTrip(days: int)
    ensures RealDate(CivilFromDays(days))
    ensures var date := CivilFromDays(days); DaysFromCivil(date.year, date.month, date.day) == days
  {
    hide CivilFromDays, DaysFromCivil, MarchDay, MonthOfDay, DayOfDay, CycleStart;
    var z := days + 719468;
    var era := z / 146097;
    var yoe, doy := CycleDay(z % 146097);
    CivilParts(era, yoe, doy);
    LeapInEra(era, yoe);
    MonthOfMarchYear(doy);
    var date := CivilFromDays(days);
    DaysParts(date.year, date.month, date.day);
    assert (era * 400 + yoe) / 400 == era && (era * 400 + yoe) % 400 == yoe;
  }

  // ---- against the plain count ------------------------------------------------

  lemma MarchYearNext(ya: int)
    ensures MarchYearStart(ya + 1) == MarchYearStart(ya) + YearLength(ya + 1)
  {
    hide CycleStart, CycleLength, Leap;
    var era, yoe := ya / 400, ya % 400;
    LeapInEra(era, yoe);
    CycleNext(yoe);
    if yoe == 399 {
      Quotient(ya + 1, 400, era + 1, 0);
    } else {
      Quotient(ya + 1, 400, era, yoe + 1);
    }
  }

  lemma CycleNext(yoe: int)
    requires 0 <= yoe < 400
    ensures CycleStart(yoe) + CycleLength(yoe) == if yoe == 399 then 146097 + CycleStart(0) else CycleStart(yoe + 1)
  {
  }

  lemma {:induction false} YearStarts(year: int)
    ensures DaysFromCivil(year, 1, 1) == YearStart(year)
    decreases if year >= 1970 then year - 1970 else 1970 - year
  {
    hide DaysFromCivil, MarchYearStart;
    DaysParts(year, 1, 1);
    if year == 1970 {
      assert MarchYearStart(1969) == -306 by { FirstYear(); }
    } else if year > 1970 {
      YearStarts(year - 1);
      DaysParts(year - 1, 1, 1);
      MarchYearNext(year - 2);
    } else {
      YearStarts(year + 1);
      DaysParts(year + 1, 1, 1);
      MarchYearNext(year - 1);
    }
  }

  lemma FirstYear()
    ensures MarchYearStart(1969) == -306
  {
  }

  lemma MonthStarts(year: int, month: int)
    requires 1 <= month <= 12
    ensures DaysFromCivil(year, month, 1) == DaysFromCivil(year, 1, 1) + MonthStart(year, month)
  {
    hide DaysFromCivil, MarchYearStart;
    DaysParts(year, month, 1);
    DaysParts(year, 1, 1);
    MarchYearNext(year - 1);
    FirstOfMonth(year, month);
  }

  lemma FirstOfMonth(year: int, month: int)
    requires 1 <= month <= 12
    ensures MonthStart(year, month)
            == MarchDay(month, 1) - MarchDay(1, 1) + (if month <= 2 then 0 else YearLength(year))
    decreases month
  {
    if month > 1 {
      FirstOfMonth(year, month - 1);
      assert month in {2, 3, 4, 5, 6, 7, 8, 9, 10, 11, 12};
    }
  }

  /** The era arithmetic is the plain count of years, leap years and months. */
  lemma PlainCount(date: Date)
    requires RealDate(date)
    ensures DaysFromCivil(date.year, date.month, date.day) == DayCount(date)
  {
    hide DaysFromCivil, MarchYearStart, YearStart, MonthStart;
    YearStarts(date.year);
    MonthStarts(date.year, date.month);
    DaysParts(date.year, date.month, date.day);
    DaysParts(date.year, date.month, 1);
  }
}
