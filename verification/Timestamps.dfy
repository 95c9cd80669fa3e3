/** Timestamps as text: the printer and the two readers. Text is a sequence of bytes. */
module Timestamps {
  import opened Base
  import opened Calendar

  // ---- decimal fields ---------------------------------------------------------

  predicate Digit(c: char) { '0' <= c <= '9' }

  predicate Digits(s: string) { forall i | 0 <= i < |s| :: Digit(s[i]) }

  function DigitOf(n: nat): (c: char)
    requires n < 10
    ensures Digit(c) && c as int - '0' as int == n
  {
    (n + '0' as int) as char
  }

  /** The number a string of digits spells. */
  function Value(s: string): nat
    requires Digits(s)
  {
    if s == "" then 0 else Value(s[..|s| - 1]) * 10 + (s[|s| - 1] as int - '0' as int)
  }

  /** A signed 64-bit field: an optional sign, then digits. */
  function ParseInt(s: string): Option<int> {
    if s == "" then None
    else
      var signed := s[0] == '-' || s[0] == '+';
      var body := if signed then s[1..] else s;
      if body == "" || !Digits(body) then None
      else
        var n: int := if s[0] == '-' then 0 - Value(body) else Value(body);
        if -0x8000_0000_0000_0000 <= n < 0x8000_0000_0000_0000 then Some(n) else None
  }

  function Decimal(n: nat): (s: string)
    ensures s != "" && Digits(s)
  {
    if n < 10 then [DigitOf(n)] else Decimal(n / 10) + [DigitOf(n % 10)]
  }

  function ZeroPad(s: string, width: nat): string
    decreases width
  {
    if |s| >= width then s else ['0'] + ZeroPad(s, width - 1)
  }

  /** A number padded with zeros to a width that counts the sign. */
  function Padded(n: int, width: nat): string {
    if n >= 0 then ZeroPad(Decimal(n), width)
    else ['-'] + ZeroPad(Decimal(-n), if width > 0 then width - 1 else 0)
  }

  /** Exactly `width` digits. */
  function Fixed(n: nat, width: nat): (s: string)
    ensures |s| == width && Digits(s)
  {
    if width == 0 then "" else Fixed(n / 10, width - 1) + [DigitOf(n % 10)]
  }

  function Pow10(k: nat): (p: nat)
    ensures p > 0
  {
    if k == 0 then 1 else 10 * Pow10(k - 1)
  }

  lemma {:induction false} ZeroPadLast(s: string, c: char, width: nat)
    requires width > 0
    ensures ZeroPad(s + [c], width) == ZeroPad(s, width - 1) + [c]
    decreases width
  {
    if |s| + 1 < width {
      ZeroPadLast(s, c, width - 1);
    }
  }

  lemma {:induction false} Zeros(width: nat)
    ensures width > 0 ==> ZeroPad(Decimal(0), width) == Fixed(0, width)
    ensures ZeroPad("", width) == Fixed(0, width)
  {
    if width > 0 {
      Zeros(width - 1);
      ZeroPadLast("", '0', width);
      assert Decimal(0) == "" + ['0'];
      ZeroPadFront("", width);
    }
  }

  lemma ZeroPadFront(s: string, width: nat)
    requires s == "" && width > 0
    ensures ZeroPad(s, width) == ZeroPad(['0'], width)
  {
    ZeroPadLast("", '0', width);
    ZerosShift(width - 1);
  }

  lemma {:induction false} ZerosShift(width: nat)
    ensures ['0'] + ZeroPad("", width) == ZeroPad("", width) + ['0']
  {
    if width > 0 {
      ZerosShift(width - 1);
    }
  }

  lemma PaddedDigit(n: nat, width: nat)
    requires n < 10 && width > 0
    ensures Padded(n, width) == Fixed(n, width)
  {
    hide ZeroPad;
    assert Decimal(n) == "" + [DigitOf(n)];
    ZeroPadLast("", DigitOf(n), width);
    Zeros(width - 1);
  }

  lemma PaddedStep(n: nat, width: nat)
    requires n >= 10 && width > 0
    ensures Padded(n, width) == Padded(n / 10, width - 1) + [DigitOf(n % 10)]
  {
    hide ZeroPad;
    ZeroPadLast(Decimal(n / 10), DigitOf(n % 10), width);
  }

  /** What fits the width is printed with exactly that many digits. */
  lemma {:induction false} PaddedFits(n: nat, width: nat)
    requires n < Pow10(width) && width > 0
    ensures Padded(n, width) == Fixed(n, width)
    decreases width
  {
    hide Padded;
    if n < 10 {
      PaddedDigit(n, width);
    } else {
      assert width > 1 by { assert Pow10(1) == 10 * Pow10(0); }
      PaddedFits(n / 10, width - 1);
      PaddedStep(n, width);
    }
  }

  /** Fixed digits spell their number, and digits are the fixed spelling of theirs. */
  lemma {:induction false} FixedValue(n: nat, width: nat)
    requires n < Pow10(width)
    ensures Value(Fixed(n, width)) == n
  {
    if width > 0 {
      FixedValue(n / 10, width - 1);
      var s := Fixed(n, width);
      assert s[..width - 1] == Fixed(n / 10, width - 1);
    }
  }

  lemma {:induction false} ValueFixed(s: string)
    requires Digits(s)
    ensures Value(s) < Pow10(|s|) && Fixed(Value(s), |s|) == s
  {
    if s != "" {
      var init := s[..|s| - 1];
      ValueFixed(init);
      assert s == init + [s[|s| - 1]];
    }
  }

  lemma {:induction false} DecimalValue(n: nat)
    ensures Value(Decimal(n)) == n
  {
    if n >= 10 {
      DecimalValue(n / 10);
      assert Decimal(n)[..|Decimal(n)| - 1] == Decimal(n / 10);
    }
  }

  lemma {:induction false} ZeroPadValue(s: string, width: nat)
    requires Digits(s)
    ensures Digits(ZeroPad(s, width)) && Value(ZeroPad(s, width)) == Value(s)
    ensures |ZeroPad(s, width)| == if |s| < width then width else |s|
    decreases width
  {
    if |s| < width {
      ZeroPadValue(s, width - 1);
      ZeroInFront(ZeroPad(s, width - 1));
    }
  }

  lemma {:induction false} ZeroInFront(s: string)
    requires Digits(s)
    ensures Digits(['0'] + s) && Value(['0'] + s) == Value(s)
  {
    if s != "" {
      ZeroInFront(s[..|s| - 1]);
      assert (['0'] + s)[..|s|] == ['0'] + s[..|s| - 1];
    }
  }

  /**
   * Any number prints as a field of at least its width, sign included, which reads back as the
   * number: years before 0 and after 9999 too.
   */
  lemma PaddedReads(n: int, width: nat)
    requires -0x8000_0000_0000_0000 < n < 0x8000_0000_0000_0000
    ensures ParseInt(Padded(n, width)) == Some(n)
    ensures var digits := |Decimal(if n < 0 then -n else n)| + if n < 0 then 1 else 0;
            |Padded(n, width)| == if digits < width then width else digits
  {
    hide ZeroPad, Value, Decimal;
    if n >= 0 {
      DecimalValue(n);
      ZeroPadValue(Decimal(n), width);
      assert Digit(Padded(n, width)[0]);
    } else {
      var body := ZeroPad(Decimal(-n), if width > 0 then width - 1 else 0);
      DecimalValue(-n);
      ZeroPadValue(Decimal(-n), if width > 0 then width - 1 else 0);
      assert Padded(n, width)[1..] == body && body != "";
    }
  }

  lemma ParseFixed(n: nat, width: nat)
    requires n < Pow10(width) && 0 < width <= 4
    ensures ParseInt(Fixed(n, width)) == Some(n)
  {
    hide Fixed, Value, Pow10;
    FixedValue(n, width);
    PowerBound(width);
    assert Digit(Fixed(n, width)[0]);
  }

  lemma PowerBound(width: nat)
    requires width <= 4
    ensures Pow10(width) <= 10000
  {
    assert Pow10(4) == 10 * Pow10(3) == 100 * Pow10(2) == 1000 * Pow10(1) == 10000;
  }

  // ---- the printer ------------------------------------------------------------

  const DAY: int := 86400

  function Clock(secs: int): string {
    Padded(secs / 3600, 2) + ":" + Padded(secs % 3600 / 60, 2) + ":" + Padded(secs % 60, 2)
  }

  function DayText(date: Date): string {
    Padded(date.year, 4) + "-" + Padded(date.month, 2) + "-" + Padded(date.day, 2)
  }

  /** An instant in UTC, to the second, with its `T` and its `Z`. */
  function Iso(unix: int): string {
    DayText(CivilFromDays(unix / DAY)) + "T" + Clock(unix % DAY) + "Z"
  }

  /** The day an instant falls on in UTC. */
  function DayOf(unix: int): string {
    DayText(CivilFromDays(unix / DAY))
  }

  // ---- the coordinator's reader -----------------------------------------------

  function UnixOf(date: Date, hour: int, minute: int, second: int): int {
    DaysFromCivil(date.year, date.month, date.day) * DAY + hour * 3600 + minute * 60 + second
  }

  predicate EndsInUtc(s: string) {
    (|s| >= 1 && s[|s| - 1] == 'Z') || (|s| >= 6 && s[|s| - 6..] == "+00:00")
  }

  function ParseV1(s: string): Option<int> {
    if |s| < 20 || s[4] != '-' || s[7] != '-' || (s[10] != 'T' && s[10] != ' ') then None
    else if !EndsInUtc(s) then None
    else ReadFields(s[0..4], s[5..7], s[8..10], s[11..13], s[14..16], s[17..19])
  }

  function ReadFields(year: string, month: string, day: string, hour: string, minute: string, second: string)
    : Option<int>
  {
    var y, mo, d := ParseInt(year), ParseInt(month), ParseInt(day);
    var h, mi, sec := ParseInt(hour), ParseInt(minute), ParseInt(second);
    if y.None? || mo.None? || d.None? || h.None? || mi.None? || sec.None? then None
    else if !(1 <= mo.value <= 12) || !(1 <= d.value <= 31) || h.value > 23 || mi.value > 59 || sec.value > 60 then None
    else Some(UnixOf(Date(y.value, mo.value, d.value), h.value, mi.value, sec.value))
  }

  // ---- canonical text ---------------------------------------------------------

  /** The documented subset: fixed digits, fixed separators, a real date and a real time. */
  predicate Canonical(s: string) {
    && |s| == 20 && s[4] == '-' && s[7] == '-' && s[10] == 'T' && s[13] == ':' && s[16] == ':' && s[19] == 'Z'
    && RealFields(s[0..4], s[5..7], s[8..10], s[11..13], s[14..16], s[17..19])
  }

  /** Digits that name a real date and a real time. */
  predicate RealFields(year: string, month: string, day: string, hour: string, minute: string, second: string) {
    && Digits(year) && Digits(month) && Digits(day) && Digits(hour) && Digits(minute) && Digits(second)
    && RealDate(Date(Value(year), Value(month), Value(day)))
    && Value(hour) < 24 && Value(minute) < 60 && Value(second) < 60
  }

  /** The text of given fields. */
  function Stamp(y: string, mo: string, d: string, h: string, mi: string, sec: string): string {
    (y + "-" + mo + "-" + d) + "T" + (h + ":" + mi + ":" + sec) + "Z"
  }

  lemma DayParts(y: string, mo: string, d: string)
    requires |y| == 4 && |mo| == |d| == 2
    ensures var s := y + "-" + mo + "-" + d;
            |s| == 10 && s[4] == '-' && s[7] == '-' && s[0..4] == y && s[5..7] == mo && s[8..10] == d
  {
  }

  lemma ClockParts(h: string, mi: string, sec: string)
    requires |h| == |mi| == |sec| == 2
    ensures var s := h + ":" + mi + ":" + sec;
            |s| == 8 && s[2] == ':' && s[5] == ':' && s[0..2] == h && s[3..5] == mi && s[6..8] == sec
  {
  }

  /** A day, a clock and what stands around them. */
  lemma JoinParts(day: string, clock: string)
    requires |day| == 10 && |clock| == 8
    ensures var s := day + "T" + clock + "Z";
            && |s| == 20 && s[10] == 'T' && s[19] == 'Z' && s[4] == day[4] && s[7] == day[7]
            && s[13] == clock[2] && s[16] == clock[5]
            && s[0..4] == day[0..4] && s[5..7] == day[5..7] && s[8..10] == day[8..10]
            && s[11..13] == clock[0..2] && s[14..16] == clock[3..5] && s[17..19] == clock[6..8]
  {
  }

  lemma StampParts(y: string, mo: string, d: string, h: string, mi: string, sec: string)
    requires |y| == 4 && |mo| == |d| == |h| == |mi| == |sec| == 2
    ensures var s := Stamp(y, mo, d, h, mi, sec);
            && |s| == 20 && s[4] == '-' && s[7] == '-' && s[10] == 'T' && s[13] == ':' && s[16] == ':' && s[19] == 'Z'
            && s[0..4] == y && s[5..7] == mo && s[8..10] == d && s[11..13] == h && s[14..16] == mi && s[17..19] == sec
  {
    DayParts(y, mo, d);
    ClockParts(h, mi, sec);
    JoinParts(y + "-" + mo + "-" + d, h + ":" + mi + ":" + sec);
  }

  /** Reading and judging such text is reading and judging its fields. */
  lemma StampReads(y: string, mo: string, d: string, h: string, mi: string, sec: string)
    requires |y| == 4 && |mo| == |d| == |h| == |mi| == |sec| == 2
    ensures ParseV1(Stamp(y, mo, d, h, mi, sec)) == ReadFields(y, mo, d, h, mi, sec)
    ensures Canonical(Stamp(y, mo, d, h, mi, sec)) <==> RealFields(y, mo, d, h, mi, sec)
  {
    hide Stamp, ReadFields, RealFields;
    StampParts(y, mo, d, h, mi, sec);
  }

  lemma StampBack(s: string)
    requires |s| == 20 && s[4] == '-' && s[7] == '-' && s[10] == 'T' && s[13] == ':' && s[16] == ':' && s[19] == 'Z'
    ensures s == Stamp(s[0..4], s[5..7], s[8..10], s[11..13], s[14..16], s[17..19])
  {
  }

  lemma SmallPowers()
    ensures Pow10(2) == 100 && Pow10(4) == 10000
  {
    assert Pow10(4) == 10 * Pow10(3) == 100 * Pow10(2) == 1000 * Pow10(1) == 10000;
  }

  /** An instant of the years 0000 to 9999. */
  predicate FourDigitYear(unix: int) {
    0 <= CivilFromDays(unix / DAY).year <= 9999
  }

  /** The text of an instant with a four-digit year. */
  function StampOf(date: Date, secs: int): string
    requires RealDate(date) && 0 <= date.year <= 9999 && 0 <= secs < DAY
  {
    Stamp(Fixed(date.year, 4), Fixed(date.month, 2), Fixed(date.day, 2),
          Fixed(secs / 3600, 2), Fixed(secs % 3600 / 60, 2), Fixed(secs % 60, 2))
  }

  lemma IsoIsStamp(unix: int)
    requires FourDigitYear(unix)
    ensures RealDate(CivilFromDays(unix / DAY))
    ensures Iso(unix) == StampOf(CivilFromDays(unix / DAY), unix % DAY)
  {
    hide CivilFromDays, Padded, Fixed, RealDate;
    DayRoundTrip(unix / DAY);
    var date, secs := CivilFromDays(unix / DAY), unix % DAY;
    SmallPowers();
    assert 1 <= date.month <= 12 && 1 <= date.day <= 31 by { MonthAndDay(date); }
    PaddedFits(date.year, 4);
    PaddedFits(date.month, 2);
    PaddedFits(date.day, 2);
    PaddedFits(secs / 3600, 2);
    PaddedFits(secs % 3600 / 60, 2);
    PaddedFits(secs % 60, 2);
  }

  lemma MonthAndDay(date: Date)
    requires RealDate(date)
    ensures 1 <= date.month <= 12 && 1 <= date.day <= 31
  {
  }

  lemma SecondsParts(secs: int)
    requires 0 <= secs < DAY
    ensures 0 <= secs / 3600 < 24 && 0 <= secs % 3600 / 60 < 60 && 0 <= secs % 60 < 60
    ensures secs / 3600 * 3600 + secs % 3600 / 60 * 60 + secs % 60 == secs
  {
  }

  /** Reading the text of fields gives the instant they name. */
  lemma StampParses(date: Date, secs: int)
    requires RealDate(date) && 0 <= date.year <= 9999 && 0 <= secs < DAY
    ensures ParseV1(StampOf(date, secs)) == Some(DaysFromCivil(date.year, date.month, date.day) * DAY + secs)
    ensures Canonical(StampOf(date, secs))
  {
    hide RealDate, DaysFromCivil, Fixed, Stamp, ParseInt, Value, ParseV1, Canonical;
    MonthAndDay(date);
    SecondsParts(secs);
    SmallPowers();
    var h, mi, sec := secs / 3600, secs % 3600 / 60, secs % 60;
    StampReads(Fixed(date.year, 4), Fixed(date.month, 2), Fixed(date.day, 2), Fixed(h, 2), Fixed(mi, 2), Fixed(sec, 2));
    AllSpelled(date.year, date.month, date.day, h, mi, sec);
  }

  lemma AllSpelled(year: nat, month: nat, day: nat, h: nat, mi: nat, sec: nat)
    requires year <= 9999 && month < 100 && day < 100 && h < 100 && mi < 100 && sec < 100
    ensures ParseInt(Fixed(year, 4)) == Some(year) && Value(Fixed(year, 4)) == year
    ensures forall n | n in {month, day, h, mi, sec} :: ParseInt(Fixed(n, 2)) == Some(n) && Value(Fixed(n, 2)) == n
  {
    hide ParseInt, Value, Fixed;
    SmallPowers();
    Spelled(year, 4);
    Spelled(month, 2);
    Spelled(day, 2);
    Spelled(h, 2);
    Spelled(mi, 2);
    Spelled(sec, 2);
  }

  lemma Spelled(n: nat, width: nat)
    requires n < Pow10(width) && 0 < width <= 4
    ensures ParseInt(Fixed(n, width)) == Some(n) && Value(Fixed(n, width)) == n
  {
    ParseFixed(n, width);
    FixedValue(n, width);
  }

  /** Print, then read: every instant of the years 0000 to 9999 comes back. */
  lemma PrintRead(unix: int)
    requires FourDigitYear(unix)
    ensures Canonical(Iso(unix)) && ParseV1(Iso(unix)) == Some(unix)
  {
    hide Iso, Canonical, ParseV1, StampOf, CivilFromDays, DaysFromCivil;
    IsoIsStamp(unix);
    StampParses(CivilFromDays(unix / DAY), unix % DAY);
    DayRoundTrip(unix / DAY);
  }

  /** Read, then print: every canonical text comes back. */
  lemma ReadPrint(s: string)
    requires Canonical(s)
    ensures ParseV1(s).Some? && FourDigitYear(ParseV1(s).value) && Iso(ParseV1(s).value) == s
  {
    hide Iso, ParseV1, CivilFromDays, DaysFromCivil, Stamp, RealDate, Fixed, Value;
    var date := Date(Value(s[0..4]), Value(s[5..7]), Value(s[8..10]));
    var h, mi, sec := Value(s[11..13]), Value(s[14..16]), Value(s[17..19]);
    var secs := h * 3600 + mi * 60 + sec;
    SmallPowers();
    SecondsBack(h, mi, sec);
    StampBack(s);
    ValueFixed(s[0..4]);
    ValueFixed(s[5..7]);
    ValueFixed(s[8..10]);
    ValueFixed(s[11..13]);
    ValueFixed(s[14..16]);
    ValueFixed(s[17..19]);
    assert s == StampOf(date, secs);
    StampParses(date, secs);
    var days := DaysFromCivil(date.year, date.month, date.day);
    var unix := days * DAY + secs;
    DateRoundTrip(date);
    Quotient(unix, DAY, days, secs);
    assert unix % DAY == secs;
    IsoIsStamp(unix);
  }

  lemma SecondsBack(h: nat, mi: nat, sec: nat)
    requires h < 24 && mi < 60 && sec < 60
    ensures var secs := h * 3600 + mi * 60 + sec;
            0 <= secs < DAY && secs / 3600 == h && secs % 3600 / 60 == mi && secs % 60 == sec
  {
  }

  /** The day text is the front of the instant's text. */
  lemma DayOfIsPrefix(unix: int)
    ensures DayOf(unix) <= Iso(unix)
    ensures FourDigitYear(unix) ==> |DayOf(unix)| == 10
  {
    hide CivilFromDays, DayText, Clock;
    if FourDigitYear(unix) {
      IsoIsStamp(unix);
      DayTextLength(CivilFromDays(unix / DAY));
    }
  }

  lemma DayTextLength(date: Date)
    requires RealDate(date) && 0 <= date.year <= 9999
    ensures |DayText(date)| == 10
  {
    hide Padded, Fixed;
    SmallPowers();
    PaddedFits(date.year, 4);
    PaddedFits(date.month, 2);
    PaddedFits(date.day, 2);
  }

  /** Text accepted for an instant of the years 0000 to 9999 is canonical exactly when it prints back. */
  lemma CanonicalPrintsBack(s: string)
    requires ParseV1(s).Some? && FourDigitYear(ParseV1(s).value)
    ensures Canonical(s) <==> Iso(ParseV1(s).value) == s
  {
    hide Canonical, ParseV1, Iso, FourDigitYear;
    PrintRead(ParseV1(s).value);
    if Canonical(s) {
      ReadPrint(s);
    }
  }

  // ---- where the reader is laxer than its subset ------------------------------

  /**
   * The reader takes text outside the documented subset. What it takes is in the subset exactly
   * when nothing stands behind the nineteen bytes but one `Z`, the bytes it never looks at are
   * right, all fields are digits, the day is one of the month, and the second is below 60.
   */
  lemma CanonicalIff(s: string)
    requires ParseV1(s).Some?
    ensures Canonical(s) <==>
              && |s| == 20 && s[10] == 'T' && s[13] == ':' && s[16] == ':'
              && Digits(s[0..4]) && Digits(s[5..7]) && Digits(s[8..10])
              && Digits(s[11..13]) && Digits(s[14..16]) && Digits(s[17..19])
              && RealDate(Date(Value(s[0..4]), Value(s[5..7]), Value(s[8..10]))) && Value(s[17..19]) < 60
  {
    hide ParseInt, Value, RealDate;
    if |s| == 20 && s[16] == ':' && Digits(s[11..13]) && Digits(s[14..16]) {
      ParseDigits(s[11..13]);
      ParseDigits(s[14..16]);
      assert s[14..20][2] == s[16];
    }
  }

  lemma ParseDigits(s: string)
    requires Digits(s) && 0 < |s| <= 4
    ensures ParseInt(s) == Some(Value(s))
  {
    hide Fixed, Value, Pow10;
    ValueFixed(s);
    ParseFixed(Value(s), |s|);
  }

  /**
   * Neither the separators of the clock nor anything between the seconds and the end is read:
   * whatever stands there, the text names the instant of its six fields.
   */
  lemma IgnoredBytes(day: string, sep: char, h: string, a: char, mi: string, b: char, sec: string, tail: string,
      zone: string)
    requires |day| == 10 && day[4] == '-' && day[7] == '-' && |h| == |mi| == |sec| == 2
    requires sep in {'T', ' '} && zone in {"Z", "+00:00"}
    ensures var s := day + [sep] + h + [a] + mi + [b] + sec + tail + zone;
            && ParseV1(s) == ReadFields(day[0..4], day[5..7], day[8..10], h, mi, sec)
            && (Canonical(s) ==> sep == 'T' && a == ':' && b == ':' && tail == "" && zone == "Z")
  {
    hide ReadFields, RealFields;
    var s := day + [sep] + h + [a] + mi + [b] + sec + tail + zone;
    assert s[|s| - |zone|..] == zone;
    assert s[0..4] == day[0..4] && s[5..7] == day[5..7] && s[8..10] == day[8..10];
    assert s[11..13] == h && s[14..16] == mi && s[17..19] == sec;
    assert s[10] == sep && s[13] == a && s[16] == b;
  }

  /** An offset before the final `Z` changes nothing: any zone's clock is read as that of UTC. */
  lemma OffsetIgnored(y: string, mo: string, d: string, h: string, mi: string, sec: string, offset: string)
    requires |y| == 4 && |mo| == |d| == |h| == |mi| == |sec| == 2 && offset != ""
    ensures var s := (y + "-" + mo + "-" + d) + "T" + (h + ":" + mi + ":" + sec) + offset + "Z";
            ParseV1(s) == ParseV1(Stamp(y, mo, d, h, mi, sec)) && !Canonical(s)
  {
    hide ParseV1, Canonical, ReadFields, Stamp;
    DayParts(y, mo, d);
    StampReads(y, mo, d, h, mi, sec);
    IgnoredBytes(y + "-" + mo + "-" + d, 'T', h, ':', mi, ':', sec, offset, "Z");
    assert (y + "-" + mo + "-" + d) + "T" + (h + ":" + mi + ":" + sec) + offset + "Z"
        == (y + "-" + mo + "-" + d) + ['T'] + h + [':'] + mi + [':'] + sec + offset + "Z";
  }

  /** `n` is what a field says: digits, with a sign in front or not, within 64 bits. */
  ghost predicate Says(field: string, n: int) {
    && -0x8000_0000_0000_0000 <= n < 0x8000_0000_0000_0000
    && exists digits | digits != "" && Digits(digits) ::
         (field in {digits, "+" + digits} && n == Value(digits)) || (field == "-" + digits && n == 0 - Value(digits))
  }

  lemma FieldSays(field: string, n: int)
    ensures ParseInt(field) == Some(n) <==> Says(field, n)
  {
    hide Value;
    if ParseInt(field) == Some(n) {
      var digits := if field[0] == '-' || field[0] == '+' then field[1..] else field;
      assert field == [field[0]] + field[1..];
      assert digits != "" && Digits(digits);
    }
    if Says(field, n) {
      var digits :| digits != "" && Digits(digits)
        && ((field in {digits, "+" + digits} && n == Value(digits))
            || (field == "-" + digits && n == 0 - Value(digits)));
      assert Digit(digits[0]) && ("+" + digits)[1..] == digits && ("-" + digits)[1..] == digits;
    }
  }

  /** Six fields of a text name an instant, whatever stands between them. */
  ghost predicate Names(s: string, unix: int)
    requires |s| >= 20
  {
    exists y, mo, d, h, mi, sec ::
      && Says(s[0..4], y) && Says(s[5..7], mo) && Says(s[8..10], d)
      && Says(s[11..13], h) && Says(s[14..16], mi) && Says(s[17..19], sec)
      && 1 <= mo <= 12 && 1 <= d <= 31 && h <= 23 && mi <= 59 && sec <= 60
      && unix == DaysFromCivil(y, mo, d) * 86400 + h * 3600 + mi * 60 + sec
  }

  /**
   * What the reader takes, and as which instant: exactly text with the date's separators whose six
   * fields are in range, and that ends in `Z` or `+00:00`.
   */
  lemma TakenIff(s: string, unix: int)
    ensures ParseV1(s) == Some(unix)
            <==> && |s| >= 20 && s[4] == '-' && s[7] == '-' && s[10] in {'T', ' '}
                 && (s[|s| - 1] == 'Z' || s[|s| - 6..] == "+00:00")
                 && Names(s, unix)
  {
    hide ParseInt, Says, DaysFromCivil;
    if |s| >= 20 {
      FieldsSay(s[0..4], s[5..7], s[8..10], s[11..13], s[14..16], s[17..19], unix);
    }
  }

  lemma FieldsSay(year: string, month: string, day: string, hour: string, minute: string, second: string, unix: int)
    ensures ReadFields(year, month, day, hour, minute, second) == Some(unix)
            <==> exists y, mo, d, h, mi, sec ::
                   && Says(year, y) && Says(month, mo) && Says(day, d) && Says(hour, h) && Says(minute, mi)
                   && Says(second, sec) && 1 <= mo <= 12 && 1 <= d <= 31 && h <= 23 && mi <= 59 && sec <= 60
                   && unix == DaysFromCivil(y, mo, d) * 86400 + h * 3600 + mi * 60 + sec
  {
    hide ParseInt, Says, DaysFromCivil;
    if ReadFields(year, month, day, hour, minute, second) == Some(unix) {
      FieldSays(year, ParseInt(year).value);
      FieldSays(month, ParseInt(month).value);
      FieldSays(day, ParseInt(day).value);
      FieldSays(hour, ParseInt(hour).value);
      FieldSays(minute, ParseInt(minute).value);
      FieldSays(second, ParseInt(second).value);
    }
    if y, mo, d, h, mi, sec :|
      && Says(year, y) && Says(month, mo) && Says(day, d) && Says(hour, h) && Says(minute, mi) && Says(second, sec)
      && 1 <= mo <= 12 && 1 <= d <= 31 && h <= 23 && mi <= 59 && sec <= 60
      && unix == DaysFromCivil(y, mo, d) * 86400 + h * 3600 + mi * 60 + sec
    {
      FieldSays(year, y);
      FieldSays(month, mo);
      FieldSays(day, d);
      FieldSays(hour, h);
      FieldSays(minute, mi);
      FieldSays(second, sec);
    }
  }

  /**
   * Any day up to 31 is taken for any month, and any second up to 60: such text is canonical
   * exactly when the date is real and the second is below 60.
   */
  lemma LooseDayTaken(year: nat, month: nat, day: nat, h: nat, mi: nat, sec: nat)
    requires year <= 9999 && 1 <= month <= 12 && 1 <= day <= 31 && h < 24 && mi < 60 && sec <= 60
    ensures var s := Stamp(Fixed(year, 4), Fixed(month, 2), Fixed(day, 2), Fixed(h, 2), Fixed(mi, 2), Fixed(sec, 2));
            && ParseV1(s) == Some(UnixOf(Date(year, month, day), h, mi, sec))
            && (Canonical(s) <==> RealDate(Date(year, month, day)) && sec < 60)
  {
    hide RealDate, UnixOf, Fixed, Stamp, ParseInt, Value, ParseV1, Canonical;
    StampReads(Fixed(year, 4), Fixed(month, 2), Fixed(day, 2), Fixed(h, 2), Fixed(mi, 2), Fixed(sec, 2));
    AllSpelled(year, month, day, h, mi, sec);
  }

  /** A signed hour is taken, though it names an hour of the day before. */
  lemma SignedHourTaken(year: nat, month: nat, day: nat, k: nat, mi: nat, sec: nat)
    requires year <= 9999 && 1 <= month <= 12 && 1 <= day <= 31 && 0 < k < 10 && mi < 60 && sec <= 60
    ensures var s := Stamp(Fixed(year, 4), Fixed(month, 2), Fixed(day, 2), "-" + Fixed(k, 1), Fixed(mi, 2),
              Fixed(sec, 2));
            ParseV1(s) == Some(UnixOf(Date(year, month, day), 0 - k, mi, sec)) && !Canonical(s)
  {
    hide *;
    SmallPowers();
    Spelled(year, 4);
    Spelled(month, 2);
    Spelled(day, 2);
    Spelled(mi, 2);
    Spelled(sec, 2);
    SignedField(k);
    OddHour(Fixed(year, 4), Fixed(month, 2), Fixed(day, 2), "-" + Fixed(k, 1), Fixed(mi, 2), Fixed(sec, 2),
            year, month, day, 0 - k, mi, sec);
  }

  lemma OddHour(y: string, mo: string, d: string, h: string, mi: string, sec: string,
      year: int, month: int, day: int, hour: int, minute: int, second: int)
    requires |y| == 4 && |mo| == |d| == |h| == |mi| == |sec| == 2 && !Digits(h)
    requires ParseInt(y) == Some(year) && ParseInt(mo) == Some(month) && ParseInt(d) == Some(day)
    requires ParseInt(h) == Some(hour) && ParseInt(mi) == Some(minute) && ParseInt(sec) == Some(second)
    requires 1 <= month <= 12 && 1 <= day <= 31 && hour <= 23 && minute <= 59 && second <= 60
    ensures ParseV1(Stamp(y, mo, d, h, mi, sec)) == Some(UnixOf(Date(year, month, day), hour, minute, second))
    ensures !Canonical(Stamp(y, mo, d, h, mi, sec))
  {
    hide UnixOf, Stamp, ParseInt, ParseV1, Canonical, Digits;
    StampReads(y, mo, d, h, mi, sec);
  }

  lemma SignedField(k: nat)
    requires k < 10
    ensures ParseInt("-" + Fixed(k, 1)) == Some(0 - k) && !Digits("-" + Fixed(k, 1))
  {
    assert Pow10(1) == 10 * Pow10(0);
    FixedValue(k, 1);
    assert ("-" + Fixed(k, 1))[1..] == Fixed(k, 1);
    assert !Digit(("-" + Fixed(k, 1))[0]);
  }

  // ---- the sign-in reader -----------------------------------------------------

  /** Without the trailing `Z`s. */
  function TrimZ(s: string): string {
    if s != "" && s[|s| - 1] == 'Z' then TrimZ(s[..|s| - 1]) else s
  }

  /** The text before the first `sep`, and the text after it if there is one. */
  function SplitOnce(s: string, sep: char): (string, Option<string>) {
    if s == "" then ("", None)
    else if s[0] == sep then ("", Some(s[1..]))
    else
      var (front, back) := SplitOnce(s[1..], sep);
      ([s[0]] + front, back)
  }

  /** The first three fields; more are not looked at. */
  function ThreeFields(s: string, sep: char): Option<(int, int, int)> {
    var (first, rest1) := SplitOnce(s, sep);
    if ParseInt(first).None? || rest1.None? then None
    else
      var (second, rest2) := SplitOnce(rest1.value, sep);
      if ParseInt(second).None? || rest2.None? then None
      else
        var third := SplitOnce(rest2.value, sep).0;
        if ParseInt(third).None? then None
        else Some((ParseInt(first).value, ParseInt(second).value, ParseInt(third).value))
  }

  function ParseAuth(s: string): Option<nat> {
    var (date, time) := SplitOnce(TrimZ(s), 'T');
    if time.None? then None
    else
      var ymd, hms := ThreeFields(date, '-'), ThreeFields(SplitOnce(time.value, '.').0, ':');
      if ymd.None? || hms.None? then None
      else
        var unix := UnixOf(Date(ymd.value.0, ymd.value.1, ymd.value.2), hms.value.0, hms.value.1, hms.value.2);
        if 0 <= unix < 0x1_0000_0000_0000_0000 then Some(unix) else None
  }

  lemma {:induction false} SplitAt(a: string, sep: char, b: string)
    requires sep !in a
    ensures SplitOnce(a + [sep] + b, sep) == (a, Some(b))
  {
    var s := a + [sep] + b;
    if a == "" {
      assert s[1..] == b;
    } else {
      assert a == [a[0]] + a[1..] && a[0] in a;
      assert s[0] == a[0] && s[1..] == a[1..] + [sep] + b;
      SplitAt(a[1..], sep, b);
    }
  }

  lemma {:induction false} SplitNone(a: string, sep: char)
    requires sep !in a
    ensures SplitOnce(a, sep) == (a, None)
  {
    if a != "" {
      assert a == [a[0]] + a[1..] && a[0] in a;
      SplitNone(a[1..], sep);
    }
  }

  lemma ThreeOf(a: string, b: string, c: string, sep: char)
    requires sep !in a && sep !in b && sep !in c
    ensures ParseInt(a).Some? && ParseInt(b).Some? && ParseInt(c).Some? ==>
              ThreeFields(a + [sep] + b + [sep] + c, sep)
              == Some((ParseInt(a).value, ParseInt(b).value, ParseInt(c).value))
  {
    hide SplitOnce, ParseInt;
    assert a + [sep] + b + [sep] + c == a + [sep] + (b + [sep] + c);
    SplitAt(a, sep, b + [sep] + c);
    SplitAt(b, sep, c);
    SplitNone(c, sep);
  }

  lemma DigitsFree(s: string, c: char)
    requires Digits(s) && !Digit(c)
    ensures c !in s
  {
  }

  lemma TrimOne(s: string)
    requires s != "" && s[|s| - 1] != 'Z'
    ensures TrimZ(s + "Z") == s
  {
    assert (s + "Z")[..|s|] == s;
  }

  /** Fields joined by a separator hold no other separator. */
  lemma Apart(a: string, b: string, c: string, sep: char)
    requires Digits(a) && Digits(b) && Digits(c) && sep in {'-', ':'}
    ensures sep !in a && sep !in b && sep !in c
    ensures var s := a + [sep] + b + [sep] + c; 'T' !in s && '.' !in s && 'Z' !in s
  {
    DigitsFree(a, sep);
    DigitsFree(b, sep);
    DigitsFree(c, sep);
  }

  /**
   * The sign-in reader checks no ranges: two digits are taken for any month, day, hour, minute
   * and second, and the arithmetic carries them over.
   */
  lemma AuthChecksNoRange(year: nat, month: nat, day: nat, h: nat, mi: nat, sec: nat)
    requires year <= 9999 && month < 100 && day < 100 && h < 100 && mi < 100 && sec < 100
    ensures ParseAuth(Stamp(Fixed(year, 4), Fixed(month, 2), Fixed(day, 2), Fixed(h, 2), Fixed(mi, 2), Fixed(sec, 2)))
            == var unix := UnixOf(Date(year, month, day), h, mi, sec);
               if 0 <= unix < 0x1_0000_0000_0000_0000 then Some(unix) else None
  {
    hide UnixOf, Fixed, ParseInt, ThreeFields, SplitOnce, Digits;
    var y, m, d := Fixed(year, 4), Fixed(month, 2), Fixed(day, 2);
    var hh, mm, ss := Fixed(h, 2), Fixed(mi, 2), Fixed(sec, 2);
    var date, time := y + "-" + m + "-" + d, hh + ":" + mm + ":" + ss;
    Apart(y, m, d, '-');
    Apart(hh, mm, ss, ':');
    assert TrimZ(Stamp(y, m, d, hh, mm, ss)) == date + "T" + time by { TrimOne(date + "T" + time); }
    SplitAt(date, 'T', time);
    SplitNone(time, '.');
    ThreeOf(y, m, d, '-');
    ThreeOf(hh, mm, ss, ':');
    AllSpelled(year, month, day, h, mi, sec);
  }

  /** The sign-in reader takes the text of any instant too, from 1970 on. */
  lemma AuthReads(unix: int)
    requires FourDigitYear(unix)
    ensures ParseAuth(Iso(unix)) == if unix >= 0 then Some(unix) else None
  {
    hide CivilFromDays, DaysFromCivil, Stamp, RealDate, ParseAuth, Iso, Fixed;
    IsoIsStamp(unix);
    DayRoundTrip(unix / DAY);
    var date, secs := CivilFromDays(unix / DAY), unix % DAY;
    SecondsParts(secs);
    MonthAndDay(date);
    AuthChecksNoRange(date.year, date.month, date.day, secs / 3600, secs % 3600 / 60, secs % 60);
    FarEnough(date);
  }

  /** No day of a four-digit year is near the 64-bit limit. */
  lemma FarEnough(date: Date)
    requires RealDate(date) && 0 <= date.year <= 9999
    ensures DaysFromCivil(date.year, date.month, date.day) < 10_000_000
  {
    hide DaysFromCivil, MarchDay;
    DaysParts(date.year, date.month, date.day);
    DayOfMarchYear(date.month, date.day);
  }
}
