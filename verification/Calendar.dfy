/** The civil calendar of the C runtime: days since 1970-01-01 and back, and the
    broken-down time built on them. */
module Calendar {
  /** C division, which truncates towards zero; the divisor is positive. */
  function CDiv(a: int, b: int): int
    requires b > 0
  {
    if a >= 0 then a / b else -((-a) / b)
  }

  function CMod(a: int, b: int): int
    requires b > 0
  {
    a - b * CDiv(a, b)
  }

  datatype Date = Date(year: int, month: int, day: int)

  // ----- the code ------------------------------------------------------------------

  function DaysFromCivil(date: Date): int {
    var y := if date.month <= 2 then date.year - 1 else date.year;
    var era := CDiv(if y >= 0 then y else y - 399, 400);
    var yoe := y - era * 400;
    var doy := CDiv(153 * (date.month + (if date.month > 2 then -3 else 9)) + 2, 5) + date.day - 1;
    var doe := yoe * 365 + yoe / 4 - yoe / 100 + doy;
    era * 146097 + doe - 719468
  }

  function YearOfEra(doe: nat): nat
    requires doe < 146097
  {
    (doe - doe / 1460 + doe / 36524 - doe / 146096) / 365
  }

  function CivilFromDays(days: int): Date {
    var z := days + 719468;
    var era := CDiv(if z >= 0 then z else z - 146096, 146097);
    EraIsFloor(z);
    var doe := z - era * 146097;
    var yoe := YearOfEra(doe);
    var y := yoe + era * 400;
    var doy := doe - (365 * yoe + yoe / 4 - yoe / 100);
    var mp := (5 * doy + 2) / 153;
    var day := doy - (153 * mp + 2) / 5 + 1;
    var month := if mp < 10 then mp + 3 else mp - 9;
    Date(if month <= 2 then y + 1 else y, month, day)
  }

  /** The compensated truncating division is a floor. */
  lemma {:induction false} EraIsFloor(z: int)
    ensures CDiv(if z >= 0 then z else z - 146096, 146097) == z / 146097
  {
  }

  lemma {:induction false} EraOfYear(y: int)
    ensures CDiv(if y >= 0 then y else y - 399, 400) == y / 400
  {
  }

  // ----- the Gregorian calendar, by its rules -----------------------------------------

  predicate Leap(y: int) {
    y % 4 == 0 && (y % 100 != 0 || y % 400 == 0)
  }

  function DaysInMonth(y: int, m: int): int {
    if m == 2 then (if Leap(y) then 29 else 28)
    else if m == 4 || m == 6 || m == 9 || m == 11 then 30
    else 31
  }

  predicate Valid(date: Date) {
    1 <= date.month <= 12 && 1 <= date.day <= DaysInMonth(date.year, date.month)
  }

  function Tomorrow(date: Date): Date {
    if date.day < DaysInMonth(date.year, date.month) then date.(day := date.day + 1)
    else if date.month < 12 then Date(date.year, date.month + 1, 1)
    else Date(date.year + 1, 1, 1)
  }

  /** Days of the year before a month, month by month. */
  function DaysBefore(y: int, m: int): int
    requires 1 <= m <= 12
  {
    if m == 1 then 0 else DaysBefore(y, m - 1) + DaysInMonth(y, m - 1)
  }

  // ----- counting days forward ----------------------------------------------------------

  /** Days before the first of March of a year, counted from the first of March 0. */
  function MarchFirst(y: int): int {
    365 * y + y / 4 - y / 100 + y / 400
  }

  /** Days from the first of March to the first of a month. */
  function MonthStart(m: int): int {
    (153 * (m + (if m > 2 then -3 else 9)) + 2) / 5
  }

  lemma {:induction false} YearSplits(y: int)
    ensures var yoe := y - y / 400 * 400;
      0 <= yoe < 400 && y / 400 * 146097 + yoe * 365 + yoe / 4 - yoe / 100 == MarchFirst(y)
  {
    var era := y / 400;
    var yoe := y - era * 400;
    assert y / 4 == era * 100 + yoe / 4;
    assert y / 100 == era * 4 + yoe / 100;
  }

  lemma {:induction false} DaysAre(date: Date)
    requires 1 <= date.month <= 12
    ensures DaysFromCivil(date) ==
              MarchFirst(if date.month <= 2 then date.year - 1 else date.year) + MonthStart(date.month) + date.day - 1 - 719468
  {
    var y := if date.month <= 2 then date.year - 1 else date.year;
    EraOfYear(y);
    YearSplits(y);
  }

  lemma {:induction false} NextMarch(y: int)
    ensures MarchFirst(y + 1) == MarchFirst(y) + if Leap(y + 1) then 366 else 365
  {
    Carry(y, 4);
    Carry(y, 100);
    Carry(y, 400);
    HundredsAreFours(y + 1);
  }

  lemma {:induction false} Carry(y: int, k: int)
    requires k > 1
    ensures (y + 1) / k == y / k + if (y + 1) % k == 0 then 1 else 0
  {
    var q, r := y / k, y % k;
    assert y == q * k + r;
    if r + 1 < k {
      Quotient(y + 1, k, q, r + 1);
    } else {
      Quotient(y + 1, k, q + 1, 0);
    }
  }

  lemma {:induction false} Quotient(a: int, k: int, q: int, r: int)
    requires k > 0 && 0 <= r < k && a == q * k + r
    ensures a / k == q && a % k == r
  {
    var q', r' := a / k, a % k;
    assert a == q' * k + r';
    Apart(q', q, k, r', r);
  }

  lemma {:induction false} Apart(x: int, y: int, k: int, r: int, s: int)
    requires k > 0 && 0 <= r < k && 0 <= s < k && x * k + r == y * k + s
    ensures x == y && r == s
  {
    assert (y - x) * k == y * k - x * k == r - s;
    if x < y {
      Multiple(y - x, k);
    }
    if y < x {
      Multiple(x - y, k);
    }
  }

  lemma {:induction false} Multiple(x: int, k: int)
    requires x >= 1 && k > 0
    ensures x * k >= k
  {
  }

  lemma {:induction false} HundredsAreFours(y: int)
    ensures y % 100 == 0 ==> y % 4 == 0
    ensures y % 400 == 0 ==> y % 100 == 0
  {
  }

  /** The count is one larger for the day after. */
  lemma {:induction false} TomorrowCountsOne(date: Date)
    requires Valid(date)
    ensures Valid(Tomorrow(date)) && DaysFromCivil(Tomorrow(date)) == DaysFromCivil(date) + 1
  {
    hide DaysFromCivil, MarchFirst;
    DaysAre(date);
    NextMarch(date.year - 1);
    MonthAfter(date);
    DaysAre(Tomorrow(date));
  }

  /** The first of a month is its length after the first of the month before. */
  lemma {:induction false} MonthAfter(date: Date)
    requires 1 <= date.month <= 12
    ensures date.month == 2 || MonthStart(if date.month == 12 then 1 else date.month + 1) == MonthStart(date.month) + DaysInMonth(date.year, date.month)
    ensures MonthStart(2) == 337 && MonthStart(3) == 0
  {
  }

  /** Day of the year. */
  lemma {:induction false} OrdinalDay(date: Date)
    requires Valid(date)
    ensures DaysFromCivil(date) - DaysFromCivil(Date(date.year, 1, 1)) == DaysBefore(date.year, date.month) + date.day - 1
    ensures 0 <= DaysFromCivil(date) - DaysFromCivil(Date(date.year, 1, 1)) <= 365
  {
    DaysAre(date);
    DaysAre(Date(date.year, 1, 1));
    NextMarch(date.year - 1);
    MonthsBefore(date.year, date.month);
  }

  lemma {:induction false} MonthsBefore(y: int, m: int)
    requires 1 <= m <= 12
    ensures DaysBefore(y, m) == if m <= 2 then MonthStart(m) - 306 else MonthStart(m) + 59 + if Leap(y) then 1 else 0
    decreases m
  {
    if m > 1 {
      MonthsBefore(y, m - 1);
    }
  }

  // ----- finding the year back ------------------------------------------------------------

  /** Days before year `y` of an era. */
  function EraDays(y: nat): nat {
    365 * y + y / 4 - y / 100
  }

  /** What is divided by 365 to get the year. */
  function Evened(doe: nat): int {
    doe - doe / 1460 + doe / 36524 - doe / 146096
  }

  lemma {:induction false} EvenedGrows(a: nat, b: nat)
    requires a <= b < 146097
    ensures Evened(a) <= Evened(b)
    decreases b
  {
    if a < b {
      EvenedGrows(a, b - 1);
    }
  }

  lemma {:induction false} EraDaysParts(y: nat)
    requires y <= 400
    ensures EraDays(y) == 1460 * (y / 4) + 365 * (y % 4) + y / 4 - y / 100
    ensures EraDays(y) == 36524 * (y / 100) + 365 * (y % 100) + (y % 100) / 4
  {
    assert y == 4 * (y / 4) + y % 4;
    var c, g := y / 100, y % 100;
    assert y == 100 * c + g;
    assert y / 4 == 25 * c + g / 4;
  }

  lemma {:induction false} EvenedAtStart(y: nat)
    requires y < 400
    ensures Evened(EraDays(y)) == 365 * y
  {
    EraDaysParts(y);
    var s := EraDays(y);
    Quotient(s, 1460, y / 4, 365 * (y % 4) + y / 4 - y / 100);
    Quotient(s, 36524, y / 100, 365 * (y % 100) + (y % 100) / 4);
  }

  lemma {:induction false} EvenedAtEnd(y: nat)
    requires 0 < y < 400
    ensures Evened(EraDays(y) - 1) <= 365 * y - 1
  {
    EraDaysParts(y);
    var s := EraDays(y);
    Quotient(s - 1, 1460, y / 4, 365 * (y % 4) + y / 4 - y / 100 - 1);
    if y % 100 > 0 {
      Quotient(s - 1, 36524, y / 100, 365 * (y % 100) + (y % 100) / 4 - 1);
    } else {
      Quotient(s - 1, 36524, y / 100 - 1, 36523);
    }
  }

  /** The year formula is exact on every day of every year of the era. */
  lemma {:induction false} YearFound(y: nat, doe: nat)
    requires y < 400 && EraDays(y) <= doe < (if y == 399 then 146097 else EraDays(y + 1))
    ensures doe < 146097 && YearOfEra(doe) == y
  {
    EraDaysParts(y + 1);
    EvenedAtStart(y);
    EvenedGrows(EraDays(y), doe);
    if y < 399 {
      EvenedAtEnd(y + 1);
      EvenedGrows(doe, EraDays(y + 1) - 1);
    } else {
      EvenedGrows(doe, 146096);
      assert Evened(146096) == 365 * 399 + 364;
    }
    Quotient(Evened(doe), 365, y, Evened(doe) - 365 * y);
  }

  lemma {:induction false} YearExists(doe: nat, y: nat) returns (r: nat)
    requires y < 400 && doe < (if y == 399 then 146097 else EraDays(y + 1))
    ensures r < 400 && EraDays(r) <= doe < (if r == 399 then 146097 else EraDays(r + 1))
    decreases y
  {
    if EraDays(y) <= doe {
      r := y;
    } else {
      r := YearExists(doe, y - 1);
    }
  }

  /** Month and day back from the day of the March year. */
  lemma {:induction false} MonthFound(doy: int)
    requires 0 <= doy <= 365
    ensures var mp := (5 * doy + 2) / 153;
      && 0 <= mp <= 11
      && var m := if mp < 10 then mp + 3 else mp - 9;
        var d := doy - (153 * mp + 2) / 5 + 1;
        && MonthStart(m) + d - 1 == doy && 1 <= d
        && (m != 2 ==> d <= DaysInMonth(0, m)) && (m == 2 ==> d <= 29 && (doy <= 364 ==> d <= 28))
  {
  }

  lemma {:induction false} MonthBack(m: int, d: int)
    requires 1 <= m <= 12 && 1 <= d <= (if m == 2 then 29 else DaysInMonth(0, m))
    ensures var doy := MonthStart(m) + d - 1;
      && 0 <= doy <= 365
      && (5 * doy + 2) / 153 == (if m > 2 then m - 3 else m + 9)
  {
  }

  /** The date in year `yoe` of an era, `doy` days after the first of March. */
  function Placed(era: int, yoe: int, doy: int): Date {
    var mp := (5 * doy + 2) / 153;
    var month := if mp < 10 then mp + 3 else mp - 9;
    var y := yoe + era * 400;
    Date(if month <= 2 then y + 1 else y, month, doy - (153 * mp + 2) / 5 + 1)
  }

  lemma {:induction false} CivilIs(days: int, era: int, yoe: nat, doy: nat)
    requires yoe < 400 && EraDays(yoe) + doy < (if yoe == 399 then 146097 else EraDays(yoe + 1))
    requires days + 719468 == era * 146097 + EraDays(yoe) + doy
    ensures CivilFromDays(days) == Placed(era, yoe, doy)
  {
    hide YearOfEra, CDiv;
    var doe := EraDays(yoe) + doy;
    YearFound(yoe, doe);
    EraIsFloor(days + 719468);
    Quotient(days + 719468, 146097, era, doe);
  }

  lemma {:induction false} PlacedCounts(era: int, yoe: nat, doy: nat)
    requires yoe < 400 && doy <= 365 && (doy == 365 ==> Leap(yoe + era * 400 + 1))
    ensures Valid(Placed(era, yoe, doy))
    ensures DaysFromCivil(Placed(era, yoe, doy)) == era * 146097 + EraDays(yoe) + doy - 719468
  {
    var y := yoe + era * 400;
    MonthFound(doy);
    DaysAre(Placed(era, yoe, doy));
    YearSplits(y);
    Quotient(y, 400, era, yoe);
  }

  /** The date for a day count is a real date, and counting to it gives the count. */
  lemma {:induction false} DaysOfCivil(days: int)
    ensures Valid(CivilFromDays(days)) && DaysFromCivil(CivilFromDays(days)) == days
  {
    var z := days + 719468;
    var era, doe := z / 146097, z % 146097;
    var yoe := YearExists(doe, 399);
    DayInYear(yoe, yoe + era * 400, doe, era);
    CivilIs(days, era, yoe, doe - EraDays(yoe));
    PlacedCounts(era, yoe, doe - EraDays(yoe));
  }

  lemma {:induction false} DayInYear(yoe: nat, y: int, doe: nat, era: int)
    requires yoe < 400 && y == yoe + era * 400 && EraDays(yoe) <= doe < (if yoe == 399 then 146097 else EraDays(yoe + 1))
    ensures 0 <= doe - EraDays(yoe) <= 365
    ensures doe - EraDays(yoe) == 365 ==> Leap(y + 1)
  {
    Quotient(y + 1, 400, if yoe == 399 then era + 1 else era, if yoe == 399 then 0 else yoe + 1);
    Carry(yoe, 4);
    Carry(yoe, 100);
    assert (y + 1) % 4 == (yoe + 1) % 4 by {
      Quotient(y + 1, 4, era * 100 + (yoe + 1) / 4, (yoe + 1) % 4);
    }
    assert (y + 1) % 100 == (yoe + 1) % 100 by {
      Quotient(y + 1, 100, era * 4 + (yoe + 1) / 100, (yoe + 1) % 100);
    }
  }

  /** And back: every real date comes out of its own count. */
  lemma {:induction false} CivilOfDays(date: Date)
    requires Valid(date)
    ensures CivilFromDays(DaysFromCivil(date)) == date
  {
    hide DaysFromCivil, CivilFromDays, EraDays;
    var y := if date.month <= 2 then date.year - 1 else date.year;
    var era, yoe := y / 400, y % 400;
    var doy := MonthStart(date.month) + date.day - 1;
    DaysAre(date);
    YearSplits(y);
    MonthBack(date.month, date.day);
    DoeInYear(date, y, yoe, era, doy);
    EraDaysAre(yoe);
    CivilIs(DaysFromCivil(date), era, yoe, doy);
  }

  lemma {:induction false} EraDaysAre(y: nat)
    ensures EraDays(y) == y * 365 + y / 4 - y / 100
  {
  }

  lemma {:induction false} DoeInYear(date: Date, y: int, yoe: nat, era: int, doy: int)
    requires Valid(date) && y == (if date.month <= 2 then date.year - 1 else date.year)
    requires yoe < 400 && y == yoe + era * 400 && doy == MonthStart(date.month) + date.day - 1 && 0 <= doy <= 365
    ensures EraDays(yoe) + doy < (if yoe == 399 then 146097 else EraDays(yoe + 1))
  {
    Carry(yoe, 4);
    Carry(yoe, 100);
    if doy == 365 {
      assert date.month == 2 && date.day == 29 && Leap(y + 1);
      Quotient(y + 1, 400, if yoe == 399 then era + 1 else era, if yoe == 399 then 0 else yoe + 1);
      Quotient(y + 1, 4, era * 100 + (yoe + 1) / 4, (yoe + 1) % 4);
      Quotient(y + 1, 100, era * 4 + (yoe + 1) / 100, (yoe + 1) % 100);
    }
  }

  /** The date for the next day count is the next day of the calendar, from the first
      of January 1970 on and back. */
  lemma {:induction false} CivilSteps(days: int)
    ensures CivilFromDays(days + 1) == Tomorrow(CivilFromDays(days))
    ensures CivilFromDays(0) == Date(1970, 1, 1)
  {
    hide DaysFromCivil, CivilFromDays;
    var date := CivilFromDays(days);
    DaysOfCivil(days);
    TomorrowCountsOne(date);
    CivilOfDays(Tomorrow(date));
    DaysAre(Date(1970, 1, 1));
    assert MarchFirst(1969) == 719162;
    CivilOfDays(Date(1970, 1, 1));
  }

  // ----- broken-down time -------------------------------------------------------------------

  /** `struct tm`, as a value. */
  datatype Broken = Broken(sec: int, min: int, hour: int, mday: int, mon: int, year: int, wday: int, yday: int, isdst: int)

  predicate I32(x: int) {
    -0x8000_0000 <= x < 0x8000_0000
  }

  /** What the fields say, in the calendar's own terms: the date `days` after the
      epoch and the time of day. */
  ghost predicate Says(b: Broken, days: int, rem: int) {
    var date := CivilFromDays(days);
    && b.hour * 3600 + b.min * 60 + b.sec == rem
    && 0 <= b.hour < 24 && 0 <= b.min < 60 && 0 <= b.sec < 60
    && Date(b.year + 1900, b.mon + 1, b.mday) == date
    && b.wday == (days + 4) % 7
    && b.yday == DaysBefore(date.year, date.month) + date.day - 1
    && b.isdst == 0
  }

  class Tm {
    var tm: Broken

    constructor ()
      ensures tm == Broken(0, 0, 0, 0, 0, 0, 0, 0, 0)
    {
      tm := Broken(0, 0, 0, 0, 0, 0, 0, 0, 0);
    }

    method FillTm(secs: int)
      modifies this
      ensures Says(tm, secs / 86400, secs % 86400)
    {
      hide CivilFromDays, DaysFromCivil, CDiv, CMod, DaysBefore;
      var days, rem := CDiv(secs, 86400), CMod(secs, 86400);
      if rem < 0 {
        rem := rem + 86400;
        days := days - 1;
      }
      Split(secs);
      Clock(rem);
      var date := CivilFromDays(days);
      Civil(days);
      Weekday(days);
      tm := Broken(rem % 60, rem % 3600 / 60, rem / 3600,
                   date.day, date.month - 1, date.year - 1900,
                   CMod(CMod(days, 7) + 11, 7),
                   days - DaysFromCivil(Date(date.year, 1, 1)), 0);
    }

    /** Seconds and zone offset to local fields; the offset is in minutes. */
    method Localtime(t: int, offset: int)
      requires I32(t) && I32(offset * 60) && I32(t + offset * 60)
      modifies this
      ensures Says(tm, (t + offset * 60) / 86400, (t + offset * 60) % 86400)
    {
      FillTm(t + offset * 60);
    }

    /** Local fields to seconds; the fields come back normalised. */
    method Mktime(offset: int) returns (secs: int)
      requires MktimeFits(tm, offset)
      modifies this
      ensures secs == Counted(old(tm)) - offset * 60
      ensures Says(tm, Counted(old(tm)) / 86400, Counted(old(tm)) % 86400)
    {
      hide DaysFromCivil;
      var days := DaysFromCivil(Date(tm.year + 1900, tm.mon + 1, tm.mday));
      secs := days * 86400 + tm.hour * 3600 + tm.min * 60 + tm.sec;
      secs := secs - offset * 60;
      FillTm(secs + offset * 60);
    }

    lemma {:induction false} Split(secs: int)
      ensures var days, rem := CDiv(secs, 86400), CMod(secs, 86400);
        if rem < 0 then days - 1 == secs / 86400 && rem + 86400 == secs % 86400 else days == secs / 86400 && rem == secs % 86400
    {
    }

    lemma {:induction false} Clock(rem: int)
      requires 0 <= rem < 86400
      ensures rem / 3600 * 3600 + rem % 3600 / 60 * 60 + rem % 60 == rem
      ensures 0 <= rem / 3600 < 24 && 0 <= rem % 3600 / 60 < 60
    {
    }

    lemma {:induction false} Civil(days: int)
      ensures var date := CivilFromDays(days);
        days - DaysFromCivil(Date(date.year, 1, 1)) == DaysBefore(date.year, date.month) + date.day - 1
    {
      DaysOfCivil(days);
      OrdinalDay(CivilFromDays(days));
    }

    lemma {:induction false} Weekday(days: int)
      ensures CMod(CMod(days, 7) + 11, 7) == (days + 4) % 7
    {
    }
  }

  /** Seconds since the epoch that local fields name. */
  function Counted(b: Broken): int {
    DaysFromCivil(Date(b.year + 1900, b.mon + 1, b.mday)) * 86400 + b.hour * 3600 + b.min * 60 + b.sec
  }

  /** Every intermediate sum of `mktime` is a 32-bit number. */
  predicate MktimeFits(b: Broken, offset: int) {
    var days := DaysFromCivil(Date(b.year + 1900, b.mon + 1, b.mday));
    && I32(days * 86400) && I32(days * 86400 + b.hour * 3600) && I32(days * 86400 + b.hour * 3600 + b.min * 60)
    && I32(Counted(b)) && I32(offset * 60) && I32(Counted(b) - offset * 60)
  }

  /** The fields of a time count back to exactly that time, and nothing on the way
      overflows unless the day's own start does. */
  lemma {:induction false} CountedBack(b: Broken, t: int, offset: int)
    requires I32(t) && I32(offset * 60) && I32(t + offset * 60)
    requires Says(b, (t + offset * 60) / 86400, (t + offset * 60) % 86400)
    ensures Counted(b) - offset * 60 == t
    ensures MktimeFits(b, offset) <==> (t + offset * 60) / 86400 * 86400 >= -0x8000_0000
  {
    DaysOfCivil((t + offset * 60) / 86400);
  }

  /** The calendar's promise: local time and back is the identity, whenever the start
      of the local day is a 32-bit number of seconds. */
  method RoundTrip(t: int, offset: int) returns (back: int)
    requires I32(t) && I32(offset * 60) && I32(t + offset * 60) && (t + offset * 60) / 86400 * 86400 >= -0x8000_0000
    ensures back == t
  {
    var shared := new Tm();
    shared.Localtime(t, offset);
    CountedBack(shared.tm, t, offset);
    hide Counted, CivilFromDays;
    DaysOfCivil((t + offset * 60) / 86400);
    back := shared.Mktime(offset);
  }
}
