/**
 * `formatDate(timestamp | Date)` (`src/utils/formateDate`): the calendar date of
 * a time value as `DD.MM.YYYY`, day and month zero-padded to two digits.
 *
 * A JavaScript `Date` is a time value in milliseconds since 1 January 1970, so
 * both kinds of input are a time value here; `MakeDate` builds the value of
 * `new Date(year, monthIndex, day)`. Calendar fields are read in UTC.
 */
module FormatDate {
  import opened Outcomes
  import Decimal

  const MsPerDay: int := 86400000

  /** A proleptic Gregorian calendar date; `month` counts from 1. */
  datatype Civil = Civil(year: int, month: int, day: int)

  predicate IsLeapYear(y: int)
  {
    y % 4 == 0 && (y % 100 != 0 || y % 400 == 0)
  }

  /** The number of days of month `m` (1 is January) of year `y`. */
  function DaysInMonth(y: int, m: int): (n: int)
    requires 1 <= m <= 12
    ensures 28 <= n <= 31
  {
    if m == 2 then (if IsLeapYear(y) then 29 else 28)
    else if m == 4 || m == 6 || m == 9 || m == 11 then 30
    else 31
  }

  /** Days in the years of an era before year `yoe`, for `yoe` up to 400 (years start on 1 March). */
  function DaysBeforeYear(yoe: int): int
  {
    365 * yoe + yoe / 4 - yoe / 100 + yoe / 400
  }

  /** The position of civil month `m` in a year that starts on 1 March: 0 is March, 11 is February. */
  function MarchIndex(m: int): (mp: int)
    requires 1 <= m <= 12
    ensures 0 <= mp <= 11 && (m == 2 <==> mp == 11)
  {
    if m > 2 then m - 3 else m + 9
  }

  /** Days in a March-based year before month `mp` (0 is March, 11 is February). */
  function DaysBeforeMonth(mp: int): int
  {
    (153 * mp + 2) / 5
  }

  /**
   * The year of a day within its 400-year era: whole centuries (the last one
   * a day longer), then four-year cycles, then years (the last one a day longer).
   */
  function YearOfEra(doe: int): (yoe: int)
    requires 0 <= doe < 146097
    ensures 0 <= yoe < 400
    ensures DaysBeforeYear(yoe) <= doe < DaysBeforeYear(yoe + 1)
    ensures doe - DaysBeforeYear(yoe) <= 365
  {
    var c := if doe / 36524 < 3 then doe / 36524 else 3;
    var r1 := doe - 36524 * c;
    var q := r1 / 1461;
    var r2 := r1 - 1461 * q;
    var y := if r2 / 365 < 3 then r2 / 365 else 3;
    assert 0 <= r1 < 36525 && (c < 3 ==> r1 < 36524);
    assert 0 <= q <= 24 && 0 <= r2 < 1461 && (q == 24 && c < 3 ==> r2 < 1460);
    assert 0 <= r2 - 365 * y && (y < 3 ==> r2 - 365 * y < 365);
    YearSpan(doe, c, q, y);
    100 * c + 4 * q + y
  }

  /** A day past the start of year `100 * c + 4 * q + y` by less than that year's length lies in that year. */
  lemma YearSpan(doe: int, c: int, q: int, y: int)
    requires 0 <= c <= 3 && 0 <= q <= 24 && 0 <= y <= 3
    requires 0 <= doe - 36524 * c - 1461 * q - 365 * y
    requires y < 3 ==> doe - 36524 * c - 1461 * q - 365 * y < 365
    requires doe - 36524 * c - 1461 * q - 365 * y < 366
    requires y == 3 && q == 24 && c < 3 ==> doe - 36524 * c - 1461 * q - 365 * y < 365
    ensures DaysBeforeYear(100 * c + 4 * q + y) <= doe < DaysBeforeYear(100 * c + 4 * q + y + 1)
    ensures doe - DaysBeforeYear(100 * c + 4 * q + y) <= 365
  {
    YearCounts(c, q, y);
  }

  /** `DaysBeforeYear` of a year given by its century, four-year cycle and year, and of the next year. */
  lemma YearCounts(c: int, q: int, y: int)
    requires 0 <= c <= 3 && 0 <= q <= 24 && 0 <= y <= 3
    ensures DaysBeforeYear(100 * c + 4 * q + y) == 36524 * c + 1461 * q + 365 * y
    ensures DaysBeforeYear(100 * c + 4 * q + y + 1) == 36524 * c + 1461 * q + 365 * y + 365
      + (if y == 3 then 1 else 0) - (if y == 3 && q == 24 then 1 else 0) + (if y == 3 && q == 24 && c == 3 then 1 else 0)
  {
    var yoe := 100 * c + 4 * q + y;
    assert yoe / 4 == 25 * c + q && yoe / 100 == c && yoe / 400 == 0;
    assert (yoe + 1) / 4 == 25 * c + q + (if y == 3 then 1 else 0);
    assert (yoe + 1) / 100 == c + (if y == 3 && q == 24 then 1 else 0);
    assert (yoe + 1) / 400 == (if y == 3 && q == 24 && c == 3 then 1 else 0);
  }

  /** The day within its March-based year, from 0 (1 March) to 365. */
  function DayOfYear(doe: int): (doy: int)
    requires 0 <= doe < 146097
    ensures 0 <= doy <= 365
  {
    doe - DaysBeforeYear(YearOfEra(doe))
  }

  /** The month of a March-based day of year, from 0 (March) to 11 (February). */
  function MarchMonth(doy: int): (mp: int)
    requires 0 <= doy <= 365
    ensures 0 <= mp <= 11
  {
    (5 * doy + 2) / 153
  }

  function DayOfMonth(doy: int): (d: int)
    requires 0 <= doy <= 365
    ensures 1 <= d <= 31
  {
    doy - DaysBeforeMonth(MarchMonth(doy)) + 1
  }

  /** The 400-year era of day `z`; era 0 starts on 1 March of year 0. */
  function EraOf(z: int): int
  {
    (z + 719468) / 146097
  }

  /** The day of `z` within its era. */
  function DayOfEra(z: int): (doe: int)
    ensures 0 <= doe < 146097
    ensures z + 719468 == EraOf(z) * 146097 + doe
  {
    z + 719468 - EraOf(z) * 146097
  }

  /**
   * The civil date of day `z` counted from 1970-01-01, in integer arithmetic:
   * years are counted from March in 400-year eras of 146097 days.
   */
  function CivilFromDays(z: int): (c: Civil)
    ensures 1 <= c.month <= 12 && 1 <= c.day <= DaysInMonth(c.year, c.month)
  {
    var era := EraOf(z);
    var doe := DayOfEra(z);
    var doy := DayOfYear(doe);
    var mp := MarchMonth(doy);
    var m := if mp < 10 then mp + 3 else mp - 9;
    var y := YearOfEra(doe) + era * 400;
    var c := Civil(if m <= 2 then y + 1 else y, m, DayOfMonth(doy));
    MarchMonthBounds(doy);
    YearLength(era, YearOfEra(doe));
    MonthLength(c.year, m);
    c
  }

  /** The day number, counted from 1970-01-01, of a civil date. */
  function DaysFromCivil(y: int, m: int, d: int): int
    requires 1 <= m <= 12
  {
    var y0 := if m <= 2 then y - 1 else y;
    var mp := MarchIndex(m);
    EraOfYear(y0) * 146097 + DaysBeforeYear(YearInEra(y0)) + DaysBeforeMonth(mp) + d - 1 - 719468
  }

  /** The era of a March-based year. */
  function EraOfYear(y0: int): int
  {
    y0 / 400
  }

  /** The position of a March-based year within its era. */
  function YearInEra(y0: int): (yoe: int)
    ensures 0 <= yoe < 400 && y0 == EraOfYear(y0) * 400 + yoe
  {
    y0 - EraOfYear(y0) * 400
  }

  /** The year `new Date` takes from its first argument: 0 to 99 stand for 1900 to 1999. */
  function FullYear(year: int): int
  {
    if 0 <= year <= 99 then 1900 + year else year
  }

  /**
   * The time value of `new Date(year, monthIndex, day)` at midnight: the month
   * index may overflow into the year and the day into the following months.
   */
  function MakeDate(year: int, monthIndex: int, day: int): (t: int)
    ensures t % MsPerDay == 0
  {
    var y := FullYear(year) + monthIndex / 12;
    var m := monthIndex % 12;
    (DaysFromCivil(y, m + 1, 1) + day - 1) * MsPerDay
  }

  /** `getDate()`, `getMonth() + 1` and `getFullYear()` of a time value: always a date that exists. */
  function DateOf(t: int): (c: Civil)
    ensures 1 <= c.month <= 12 && 1 <= c.day <= DaysInMonth(c.year, c.month)
  {
    CivilFromDays(t / MsPerDay)
  }

  /** Two decimal digits, with a leading zero below ten. */
  function Pad2(n: nat): (s: string)
    requires n < 100
    ensures |s| == 2 && Decimal.ParseNat(s) == Some(n)
  {
    var s := [Decimal.DigitChar(n / 10), Decimal.DigitChar(n % 10)];
    assert s[..1] == [s[0]] && [s[0]][..0] == [];
    assert Decimal.DigitsValue(s[..1]) == n / 10;
    s
  }

  /** `${day}.${month}.${year}` with day and month padded to two digits. */
  function FormatCivil(c: Civil): (s: string)
    requires 1 <= c.month <= 12 && 1 <= c.day <= 31
    ensures |s| >= 7 && s[2] == '.' && s[5] == '.'
    ensures s[..2] == Pad2(c.day) && s[3..5] == Pad2(c.month) && s[6..] == Decimal.IntToString(c.year)
  {
    Pad2(c.day) + "." + Pad2(c.month) + "." + Decimal.IntToString(c.year)
  }

  /** `formatDate(t)`: the text reads back as the calendar date of `t`. */
  function FormatDate(t: int): (s: string)
    ensures |s| >= 7 && s[2] == '.' && s[5] == '.'
    ensures ParseDotted(s) == Some(DateOf(t))
    ensures s[6..] == Decimal.IntToString(DateOf(t).year)
  {
    FormatCivilRoundTrip(DateOf(t));
    FormatCivil(DateOf(t))
  }

  /** Reads `DD.MM.Y…` back into its three numbers. */
  function ParseDotted(s: string): Option<Civil>
  {
    if |s| >= 7 && s[2] == '.' && s[5] == '.' then
      match (Decimal.ParseNat(s[..2]), Decimal.ParseNat(s[3..5]), Decimal.ParseInt(s[6..]))
      case (Some(d), Some(m), Some(y)) => Some(Civil(y, m, d))
      case _ => None
    else
      None
  }

  // ---------------------------------------------------------------------
  // Calendar arithmetic

  /** A March-based day of year lies in the month `MarchMonth` gives it. */
  lemma MarchMonthBounds(doy: int)
    requires 0 <= doy <= 365
    ensures DaysBeforeMonth(MarchMonth(doy)) <= doy < DaysBeforeMonth(MarchMonth(doy) + 1)
  {
  }

  /** Conversely, a day inside March-based month `mp` is given that month. */
  lemma MarchMonthOf(mp: int, doy: int)
    requires 0 <= mp <= 11 && 0 <= doy <= 365
    requires DaysBeforeMonth(mp) <= doy < DaysBeforeMonth(mp + 1)
    ensures MarchMonth(doy) == mp
  {
    MarchMonthBounds(doy);
  }

  /** Outside February a month's length is the gap between consecutive March-based month starts. */
  lemma MonthLength(y: int, m: int)
    requires 1 <= m <= 12
    ensures m != 2 ==> DaysInMonth(y, m) == DaysBeforeMonth(MarchIndex(m) + 1) - DaysBeforeMonth(MarchIndex(m))
    ensures m == 2 ==> DaysBeforeMonth(11) == 337
  {
  }

  /** March-based year `yoe` of era `era` has 366 days exactly when the February that ends it has a leap day. */
  lemma YearLength(era: int, yoe: int)
    requires 0 <= yoe < 400
    ensures DaysBeforeYear(yoe + 1) - DaysBeforeYear(yoe) == if IsLeapYear(era * 400 + yoe + 1) then 366 else 365
  {
    var k := yoe + 1;
    CountStep(k);
    LeapPeriod(era, k);
  }

  /** The counts of multiples of 4, 100 and 400 grow by one exactly at those multiples. */
  lemma CountStep(k: int)
    ensures k / 4 - (k - 1) / 4 == if k % 4 == 0 then 1 else 0
    ensures k / 100 - (k - 1) / 100 == if k % 100 == 0 then 1 else 0
    ensures k / 400 - (k - 1) / 400 == if k % 400 == 0 then 1 else 0
  {
  }

  /** Leap years repeat every 400 years. */
  lemma LeapPeriod(era: int, k: int)
    ensures IsLeapYear(era * 400 + k) == IsLeapYear(k)
  {
    var d := k / 400;
    var r := k % 400;
    var y := era * 400 + k;
    assert k == 400 * d + r;
    assert y == 400 * (era + d) + r;
    ModOfCycle(d, r);
    ModOfCycle(era + d, r);
  }

  /** The remainders that decide leap years depend only on the position within a 400-year cycle. */
  lemma ModOfCycle(q: int, r: int)
    requires 0 <= r < 400
    ensures (400 * q + r) % 400 == r
    ensures (400 * q + r) % 100 == r % 100
    ensures (400 * q + r) % 4 == r % 4
  {
    ShiftMod400(q, r);
    ShiftMod100(q, r);
    ShiftMod4(q, r);
  }

  lemma ShiftMod400(q: int, r: int)
    ensures (400 * q + r) % 400 == r % 400
  {
  }

  lemma ShiftMod100(q: int, r: int)
    ensures (400 * q + r) % 100 == r % 100
  {
    assert 400 * q + r == 100 * (4 * q) + r;
  }

  lemma ShiftMod4(q: int, r: int)
    ensures (400 * q + r) % 4 == r % 4
  {
    assert 400 * q + r == 4 * (100 * q) + r;
  }

  lemma DaysBeforeYearMono(a: int, b: int)
    requires 0 <= a <= b
    ensures DaysBeforeYear(a) <= DaysBeforeYear(b)
  {
    assert b / 100 - a / 100 <= b - a;
  }

  /** Only one year of an era holds a given day of the era. */
  lemma YearOfEraUnique(doe: int, yoe: int)
    requires 0 <= yoe < 400 && 0 <= doe < 146097
    requires DaysBeforeYear(yoe) <= doe < DaysBeforeYear(yoe + 1)
    ensures YearOfEra(doe) == yoe
  {
    var k := YearOfEra(doe);
    if k < yoe {
      DaysBeforeYearMono(k + 1, yoe);
    } else if k > yoe {
      DaysBeforeYearMono(yoe + 1, k);
    }
  }

  // ---------------------------------------------------------------------
  // Properties

  /** Every date that exists is the civil date of the day number `DaysFromCivil` counts for it. */
  lemma CivilFromDaysInverse(y: int, m: int, d: int)
    requires 1 <= m <= 12 && 1 <= d <= DaysInMonth(y, m)
    ensures CivilFromDays(DaysFromCivil(y, m, d)) == Civil(y, m, d)
  {
    var y0 := if m <= 2 then y - 1 else y;
    var mp := MarchIndex(m);
    var era := EraOfYear(y0);
    var yoe := YearInEra(y0);
    var doy := DaysBeforeMonth(mp) + d - 1;
    var doe := DaysBeforeYear(yoe) + doy;
    var z := DaysFromCivil(y, m, d);
    assert z + 719468 == era * 146097 + doe;
    YearLength(era, yoe);
    MonthLength(y, m);
    assert doy < DaysBeforeYear(yoe + 1) - DaysBeforeYear(yoe);
    DaysBeforeYearMono(yoe + 1, 400);
    assert 0 <= doe < 146097;
    assert EraOf(z) == era;
    assert DayOfEra(z) == doe;
    YearOfEraUnique(doe, yoe);
    assert DayOfYear(doe) == doy;
    MarchMonthOf(mp, doy);
  }

  /** `new Date(year, monthIndex, day)` is the midnight that starts the normalised date. */
  lemma MakeDateIsDayStart(year: int, monthIndex: int, day: int)
    ensures MakeDate(year, monthIndex, day)
         == DaysFromCivil(FullYear(year) + monthIndex / 12, monthIndex % 12 + 1, day) * MsPerDay
  {
  }

  /**
   * `new Date(year, monthIndex, day)` reads back, through `getFullYear()`,
   * `getMonth()` and `getDate()`, as the normalised year and month and the day,
   * whenever that day exists in that month; `formatDate` prints those fields.
   */
  lemma MakeDateReadsBack(year: int, monthIndex: int, day: int)
    requires 1 <= day <= DaysInMonth(FullYear(year) + monthIndex / 12, monthIndex % 12 + 1)
    ensures DateOf(MakeDate(year, monthIndex, day)) == Civil(FullYear(year) + monthIndex / 12, monthIndex % 12 + 1, day)
    ensures FormatDate(MakeDate(year, monthIndex, day)) == FormatCivil(Civil(FullYear(year) + monthIndex / 12, monthIndex % 12 + 1, day))
  {
    MakeDateIsDayStart(year, monthIndex, day);
    DayStartPrints(MakeDate(year, monthIndex, day), FullYear(year) + monthIndex / 12, monthIndex % 12 + 1, day);
  }

  /** The midnight that starts a date that exists reads back and prints as that date. */
  lemma DayStartPrints(t: int, y: int, m: int, d: int)
    requires 1 <= m <= 12 && 1 <= d <= DaysInMonth(y, m)
    requires t == DaysFromCivil(y, m, d) * MsPerDay
    ensures DateOf(t) == Civil(y, m, d)
    ensures FormatDate(t) == FormatCivil(Civil(y, m, d))
  {
    DayStartReadsBack(y, m, d);
  }


  /** The formatted text reads back as the day, the month and the year. */
  lemma FormatCivilRoundTrip(c: Civil)
    requires 1 <= c.month <= 12 && 1 <= c.day <= 31
    ensures ParseDotted(FormatCivil(c)) == Some(c)
  {
    var s := FormatCivil(c);
    var year := Decimal.IntToString(c.year);
    Decimal.IntRoundTrip(c.year);
    assert s[..2] == Pad2(c.day);
    assert s[3..5] == Pad2(c.month);
    assert s[6..] == year;
  }

  lemma EraOfYearOf(era: int, yoe: int)
    requires 0 <= yoe < 400
    ensures EraOfYear(yoe + era * 400) == era && YearInEra(yoe + era * 400) == yoe
  {
    var y := yoe + era * 400;
    assert y == era * 400 + yoe;
  }

  /** Counting the days of the civil date of day `z` gives back `z`: no two days share a date. */
  lemma DaysFromCivilInverse(z: int)
    ensures var c := CivilFromDays(z); DaysFromCivil(c.year, c.month, c.day) == z
  {
    var era := EraOf(z);
    var doe := DayOfEra(z);
    var yoe := YearOfEra(doe);
    var doy := DayOfYear(doe);
    var mp := MarchMonth(doy);
    var c := CivilFromDays(z);
    EraOfYearOf(era, yoe);
    var y0 := if c.month <= 2 then c.year - 1 else c.year;
    assert y0 == yoe + era * 400;
    assert (if c.month > 2 then c.month - 3 else c.month + 9) == mp;
  }

  /** Day and month below ten get a leading zero. */
  lemma PadsWithZero(n: nat)
    requires n < 10
    ensures Pad2(n) == ['0', Decimal.DigitChar(n)]
  {
  }

  /** The time value of the midnight that starts a date that exists reads back as that date. */
  lemma DayStartReadsBack(y: int, m: int, d: int)
    requires 1 <= m <= 12 && 1 <= d <= DaysInMonth(y, m)
    ensures DateOf(DaysFromCivil(y, m, d) * MsPerDay) == Civil(y, m, d)
  {
    var z := DaysFromCivil(y, m, d);
    assert z * MsPerDay / MsPerDay == z;
    CivilFromDaysInverse(y, m, d);
  }

  lemma NewYear2023()
    ensures DaysFromCivil(2023, 1, 1) == 19358
  {
    assert EraOfYear(2022) == 5 && YearInEra(2022) == 22;
    assert DaysBeforeYear(22) == 8035 && DaysBeforeMonth(10) == 306;
  }

  lemma NewYear1970()
    ensures DaysFromCivil(1970, 1, 1) == 0
  {
    assert EraOfYear(1969) == 4 && YearInEra(1969) == 369;
    assert DaysBeforeYear(369) == 134774 && DaysBeforeMonth(10) == 306;
  }

  /** The time value 1672531200000 (1 January 2023, 00:00 UTC). */
  lemma FromTimestampExample()
    ensures FormatDate(1672531200000) == "01.01.2023"
  {
    NewYear2023();
    DayStartReadsBack(2023, 1, 1);
    assert DateOf(1672531200000) == Civil(2023, 1, 1);
    NewYear2023Text();
  }

  /** The time value 0, the start of the Unix epoch. */
  lemma EpochExample()
    ensures FormatDate(0) == "01.01.1970"
  {
    NewYear1970();
    DayStartReadsBack(1970, 1, 1);
    assert DateOf(0) == Civil(1970, 1, 1);
    EpochText();
  }

  /** A date built by `new Date` prints as the text of the date it normalises to. */
  lemma MakeDatePrints(year: int, monthIndex: int, day: int, c: Civil, text: string)
    requires c == Civil(FullYear(year) + monthIndex / 12, monthIndex % 12 + 1, day)
    requires 1 <= day <= DaysInMonth(c.year, c.month)
    requires FormatCivil(c) == text
    ensures FormatDate(MakeDate(year, monthIndex, day)) == text
  {
    MakeDateReadsBack(year, monthIndex, day);
  }

  /** `new Date(2023, 11, 31)`: month index 11 prints as `12`. */
  lemma MonthIndexExample()
    ensures FormatDate(MakeDate(2023, 11, 31)) == "31.12.2023"
  {
    NewYearsEve2023Text();
    MakeDatePrints(2023, 11, 31, Civil(2023, 12, 31), "31.12.2023");
  }

  /** `new Date(2023, 0, 5)`: day and month get a leading zero. */
  lemma LeadingZeroExample()
    ensures FormatDate(MakeDate(2023, 0, 5)) == "05.01.2023"
  {
    FifthOfJanuary2023Text();
    MakeDatePrints(2023, 0, 5, Civil(2023, 1, 5), "05.01.2023");
  }

  /** `new Date(2020, 1, 29)`: the leap day. */
  lemma LeapDayExample()
    ensures FormatDate(MakeDate(2020, 1, 29)) == "29.02.2020"
  {
    LeapDayText();
    assert IsLeapYear(2020);
    MakeDatePrints(2020, 1, 29, Civil(2020, 2, 29), "29.02.2020");
  }

  lemma LeapDayText()
    ensures FormatCivil(Civil(2020, 2, 29)) == "29.02.2020"
  {
    assert Pad2(29) == "29" && Pad2(2) == "02";
    assert Decimal.IntToString(2020) == "2020";
  }

  lemma NewYear2023Text()
    ensures FormatCivil(Civil(2023, 1, 1)) == "01.01.2023"
  {
    assert Pad2(1) == "01";
    assert Decimal.IntToString(2023) == "2023";
  }

  lemma EpochText()
    ensures FormatCivil(Civil(1970, 1, 1)) == "01.01.1970"
  {
    assert Pad2(1) == "01";
    assert Decimal.IntToString(1970) == "1970";
  }

  lemma NewYearsEve2023Text()
    ensures FormatCivil(Civil(2023, 12, 31)) == "31.12.2023"
  {
    assert Pad2(31) == "31" && Pad2(12) == "12";
    assert Decimal.IntToString(2023) == "2023";
  }

  lemma FifthOfJanuary2023Text()
    ensures FormatCivil(Civil(2023, 1, 5)) == "05.01.2023"
  {
    assert Pad2(5) == "05" && Pad2(1) == "01";
    assert Decimal.IntToString(2023) == "2023";
  }
}
