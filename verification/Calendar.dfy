/** The proleptic Gregorian calendar as day numbers, and instants in nanoseconds. */
module Calendar {
  import opened Bytes

  const NANOS_PER_SEC := 1_000_000_000
  const DAY_SECS := 86_400

  datatype Date = Date(year: int, month: int, day: int)

  predicate IsLeap(y: int) {
    y % 4 == 0 && (y % 100 != 0 || y % 400 == 0)
  }

  function DaysInMonth(y: int, m: int): int {
    if m in {1, 3, 5, 7, 8, 10, 12} then 31
    else if m in {4, 6, 9, 11} then 30
    else if m == 2 then 28 + (if IsLeap(y) then 1 else 0)
    else 0
  }

  predicate IsDate(t: Date) {
    1 <= t.month <= 12 && 1 <= t.day <= DaysInMonth(t.year, t.month)
  }

  // ----- Eras of 400 years that start in March

  /** Days of an era before its year `yoe`. */
  function YearStart(yoe: int): int {
    yoe * 365 + yoe / 4 - yoe / 100
  }

  /** Days of a March year before its month `mp`. */
  function MonthStart(mp: int): int {
    (153 * mp + 2) / 5
  }

  function YearOf(t: Date): int {
    if t.month <= 2 then t.year - 1 else t.year
  }

  function MonthOf(t: Date): int {
    (t.month + 9) % 12
  }

  function DaysFromCivil(t: Date): int {
    var y := YearOf(t);
    var era := y / 400;
    var yoe := y - era * 400;
    era * 146_097 + YearStart(yoe) + MonthStart(MonthOf(t)) + t.day - 1 - 719_468
  }

  function CivilFromDays(z: int): Date {
    var z' := z + 719_468;
    var era := z' / 146_097;
    var doe := z' - era * 146_097;
    var yoe := (doe - doe / 1460 + doe / 36_524 - doe / 146_096) / 365;
    var doy := doe - YearStart(yoe);
    var mp := (5 * doy + 2) / 153;
    var m := if mp < 10 then mp + 3 else mp - 9;
    Date(yoe + era * 400 + (if m <= 2 then 1 else 0), m, doy - MonthStart(mp) + 1)
  }

  /** A March year has 366 days when the February at its end is a leap one. */
  function YearDays(yoe: int): int {
    if IsLeap(yoe + 1) then 366 else 365
  }

  /** A century, a leap cycle, a year and a day of an era of 400 years. */
  predicate InEra(c: int, q: int, r: int, doy: int) {
    && 0 <= c <= 3 && 0 <= q <= 24 && 0 <= r <= 3
    && 0 <= doy <= 365 && (doy == 365 ==> r == 3 && (q == 24 ==> c == 3))
  }

  function DayOfEra(c: int, q: int, r: int, doy: int): int {
    36_524 * c + 1461 * q + 365 * r + doy
  }

  lemma YearStartIs(c: int, q: int, r: int)
    requires 0 <= q <= 24 && 0 <= r <= 3
    ensures YearStart(100 * c + 4 * q + r) == DayOfEra(c, q, r, 0)
  {
    var yoe := 100 * c + 4 * q + r;
    assert yoe / 4 == 25 * c + q && yoe / 100 == c;
  }

  lemma By1460(c: int, q: int, r: int, doy: int)
    requires InEra(c, q, r, doy)
    ensures DayOfEra(c, q, r, doy) / 1460 == 25 * c + q + (if 24 * c + q + 365 * r + doy >= 1460 then 1 else 0)
  {
    assert DayOfEra(c, q, r, doy) == 1460 * (25 * c + q) + (24 * c + q + 365 * r + doy);
  }

  lemma By36524(c: int, q: int, r: int, doy: int)
    requires InEra(c, q, r, doy)
    ensures DayOfEra(c, q, r, doy) / 36_524 == c + (if 1461 * q + 365 * r + doy == 36_524 then 1 else 0)
    ensures DayOfEra(c, q, r, doy) / 146_096 == if 1461 * q + 365 * r + doy == 36_524 then 1 else 0
    ensures 0 <= DayOfEra(c, q, r, doy) < 146_097
  {
  }

  lemma By365(yoe: int, x: int)
    requires 0 <= x < 365
    ensures (365 * yoe + x) / 365 == yoe
  {
  }

  /** The year of an era from the day, by centuries, leap cycles and years. */
  lemma YearOfEra(c: int, q: int, r: int, doy: int)
    requires InEra(c, q, r, doy)
    ensures var yoe := 100 * c + 4 * q + r;
      var doe := YearStart(yoe) + doy;
      && 0 <= doe < 146_097
      && (doe - doe / 1460 + doe / 36_524 - doe / 146_096) / 365 == yoe
  {
    hide YearStart;
    YearStartIs(c, q, r);
    By1460(c, q, r, doy);
    By36524(c, q, r, doy);
    var e1 := if 24 * c + q + 365 * r + doy >= 1460 then 1 else 0;
    By365(100 * c + 4 * q + r, doy - e1);
  }

  /** Every day of an era has a year in it, and no year runs over. */
  lemma EraSplits(doe: int) returns (c: int, q: int, r: int, doy: int)
    requires 0 <= doe < 146_097
    ensures InEra(c, q, r, doy) && doe == YearStart(100 * c + 4 * q + r) + doy
  {
    c := if doe == 146_096 then 3 else doe / 36_524;
    var rest := doe - 36_524 * c;
    q := if rest == 36_524 then 24 else rest / 1461;
    var tail := rest - 1461 * q;
    r := if tail >= 1460 then 3 else tail / 365;
    doy := tail - 365 * r;
    assert (100 * c + 4 * q + r) / 4 == 25 * c + q && (100 * c + 4 * q + r) / 100 == c;
  }

  lemma YearSplits(yoe: int) returns (c: int, q: int, r: int)
    requires 0 <= yoe < 400
    ensures 0 <= c <= 3 && 0 <= q <= 24 && 0 <= r <= 3 && yoe == 100 * c + 4 * q + r
    ensures YearDays(yoe) == 366 <==> r == 3 && (q == 24 ==> c == 3)
  {
    c := yoe / 100;
    q := yoe % 100 / 4;
    r := yoe % 4;
    assert yoe == 100 * c + 4 * q + r;
  }

  lemma Mod4Shift(era: int, x: int)
    ensures (era * 400 + x) % 4 == x % 4
  {
    assert (era * 400 + x) / 4 == era * 100 + x / 4;
  }

  lemma Mod100Shift(era: int, x: int)
    ensures (era * 400 + x) % 100 == x % 100
  {
    assert (era * 400 + x) / 100 == era * 4 + x / 100;
  }

  lemma Mod400Shift(era: int, x: int)
    ensures (era * 400 + x) % 400 == x % 400
  {
    assert (era * 400 + x) / 400 == era + x / 400;
  }

  lemma LeapShift(era: int, x: int)
    ensures IsLeap(era * 400 + x) == IsLeap(x)
  {
    Mod4Shift(era, x);
    Mod100Shift(era, x);
    Mod400Shift(era, x);
  }

  lemma MonthStarts()
    ensures MonthStart(0) == 0 && MonthStart(1) == 31 && MonthStart(2) == 61 && MonthStart(3) == 92
    ensures MonthStart(4) == 122 && MonthStart(5) == 153 && MonthStart(6) == 184 && MonthStart(7) == 214
    ensures MonthStart(8) == 245 && MonthStart(9) == 275 && MonthStart(10) == 306 && MonthStart(11) == 337
  {
  }

  /** The month from the day of a March year. */
  lemma MonthOfYear(mp: int, doy: int)
    requires 0 <= mp <= 11 && MonthStart(mp) <= doy <= 365 && (mp < 11 ==> doy < MonthStart(mp + 1))
    ensures (5 * doy + 2) / 153 == mp
  {
    MonthStarts();
  }

  lemma MonthSplits(doy: int) returns (mp: int)
    requires 0 <= doy <= 365
    ensures mp == (5 * doy + 2) / 153
    ensures 0 <= mp <= 11 && MonthStart(mp) <= doy && (mp < 11 ==> doy < MonthStart(mp + 1))
  {
    MonthStarts();
    mp := (5 * doy + 2) / 153;
  }

  // ----- The bijection

  /** A date as an era, a year of it, a month and a day. */
  lemma DateParts(t: Date) returns (era: int, yoe: int, mp: int, doy: int)
    requires IsDate(t)
    ensures 0 <= yoe < 400 && YearOf(t) == era * 400 + yoe && mp == MonthOf(t) && 0 <= mp <= 11
    ensures doy == MonthStart(mp) + t.day - 1 && MonthStart(mp) <= doy && 0 <= doy < YearDays(yoe)
    ensures mp < 11 ==> doy < MonthStart(mp + 1)
    ensures DaysFromCivil(t) == era * 146_097 + YearStart(yoe) + doy - 719_468
  {
    MonthStarts();
    var y := YearOf(t);
    era := y / 400;
    yoe := y - era * 400;
    mp := MonthOf(t);
    doy := MonthStart(mp) + t.day - 1;
    LeapShift(era, yoe + 1);
    assert mp == if t.month <= 2 then t.month + 9 else t.month - 3;
    assert t.month == 2 ==> t.year == era * 400 + (yoe + 1);
  }

  /** A date comes back from its day number. */
  lemma DateRoundTrip(t: Date)
    requires IsDate(t)
    ensures CivilFromDays(DaysFromCivil(t)) == t
  {
    hide DaysFromCivil, MonthStart, YearStart, IsDate, IsLeap;
    var era, yoe, mp, doy := DateParts(t);
    var c, q, r := YearSplits(yoe);
    YearOfEra(c, q, r, doy);
    MonthOfYear(mp, doy);
    Decoded(DaysFromCivil(t), era, yoe, mp, doy);
    DateIs(t, mp);
  }

  lemma DateIs(t: Date, mp: int)
    requires IsDate(t) && mp == MonthOf(t)
    ensures t == Date(YearOf(t) + (if (if mp < 10 then mp + 3 else mp - 9) <= 2 then 1 else 0), if mp < 10 then mp + 3 else mp - 9, t.day)
  {
    assert mp == if t.month <= 2 then t.month + 9 else t.month - 3;
  }

  /** What `CivilFromDays` computes from the parts of a day number. */
  lemma Decoded(z: int, era: int, yoe: int, mp: int, doy: int)
    requires z == era * 146_097 + YearStart(yoe) + doy - 719_468
    requires 0 <= YearStart(yoe) + doy < 146_097
    requires var doe := YearStart(yoe) + doy; (doe - doe / 1460 + doe / 36_524 - doe / 146_096) / 365 == yoe
    requires (5 * doy + 2) / 153 == mp
    ensures var m := if mp < 10 then mp + 3 else mp - 9;
      CivilFromDays(z) == Date(era * 400 + yoe + (if m <= 2 then 1 else 0), m, doy - MonthStart(mp) + 1)
  {
    hide YearStart, MonthStart;
    assert (z + 719_468) / 146_097 == era;
  }

  /** Every day number is the number of a date. */
  lemma DayRoundTrip(z: int)
    ensures IsDate(CivilFromDays(z)) && DaysFromCivil(CivilFromDays(z)) == z
  {
    hide DaysFromCivil, CivilFromDays, MonthStart, YearStart;
    var era := (z + 719_468) / 146_097;
    var c, q, r, doy := EraSplits(z + 719_468 - era * 146_097);
    var yoe := 100 * c + 4 * q + r;
    YearOfEra(c, q, r, doy);
    var mp := MonthSplits(doy);
    Decoded(z, era, yoe, mp, doy);
    MonthFits(yoe, mp, doy, era, c, q, r);
    Encoded(CivilFromDays(z), era, yoe, mp, doy);
  }

  /** The day of the month is one the month has. */
  lemma MonthFits(yoe: int, mp: int, doy: int, era: int, c: int, q: int, r: int)
    requires InEra(c, q, r, doy) && yoe == 100 * c + 4 * q + r
    requires 0 <= mp <= 11 && MonthStart(mp) <= doy && (mp < 11 ==> doy < MonthStart(mp + 1))
    ensures var m := if mp < 10 then mp + 3 else mp - 9;
      IsDate(Date(era * 400 + yoe + (if m <= 2 then 1 else 0), m, doy - MonthStart(mp) + 1))
  {
    MonthStarts();
    if mp == 11 {
      LeapShift(era, yoe + 1);
      if doy == 365 {
        LeapYear(c, q, r);
      }
    }
  }

  lemma LeapYear(c: int, q: int, r: int)
    requires 0 <= c <= 3 && 0 <= q <= 24 && r == 3 && (q == 24 ==> c == 3)
    ensures IsLeap(100 * c + 4 * q + r + 1)
  {
    assert (100 * c + 4 * q + 4) % 4 == 0;
    if q == 24 {
      assert 100 * c + 4 * q + 4 == 400;
    } else {
      assert (100 * c + 4 * q + 4) / 100 == c;
    }
  }

  lemma Encoded(t: Date, era: int, yoe: int, mp: int, doy: int)
    requires 0 <= yoe < 400 && 0 <= mp <= 11
    requires var m := if mp < 10 then mp + 3 else mp - 9;
      t == Date(era * 400 + yoe + (if m <= 2 then 1 else 0), m, doy - MonthStart(mp) + 1)
    ensures DaysFromCivil(t) == era * 146_097 + YearStart(yoe) + doy - 719_468
  {
    hide YearStart, MonthStart;
    assert YearOf(t) == era * 400 + yoe;
    assert YearOf(t) / 400 == era;
    assert MonthOf(t) == mp;
  }

  /** The date after a date. */
  function Next(t: Date): Date {
    if t.day < DaysInMonth(t.year, t.month) then t.(day := t.day + 1)
    else if t.month < 12 then Date(t.year, t.month + 1, 1)
    else Date(t.year + 1, 1, 1)
  }

  /** Day numbers count dates one by one. */
  lemma Successor(t: Date)
    requires IsDate(t)
    ensures IsDate(Next(t)) && DaysFromCivil(Next(t)) == DaysFromCivil(t) + 1
  {
    hide YearStart, MonthStart, IsLeap;
    MonthStarts();
    if t.day < DaysInMonth(t.year, t.month) || t.month != 2 {
      assert YearOf(Next(t)) == YearOf(t);
      SameMarchYear(t, Next(t));
    } else {
      FebruaryEnds(t);
    }
  }

  lemma FebruaryEnds(t: Date)
    requires IsDate(t) && t.month == 2 && t.day == DaysInMonth(t.year, 2)
    ensures DaysFromCivil(Date(t.year, 3, 1)) == DaysFromCivil(t) + 1
  {
    hide YearStart, MonthStart, IsLeap;
    MonthStarts();
    var era, yoe, mp, doy := DateParts(t);
    LeapShift(era, yoe + 1);
    YearGrows(yoe);
    NextMarchYear(t, era, yoe);
  }

  lemma NextMarchYear(t: Date, era: int, yoe: int)
    requires t.month == 2 && t.year - 1 == era * 400 + yoe && 0 <= yoe < 400
    ensures DaysFromCivil(Date(t.year, 3, 1)) ==
      (if yoe == 399 then (era + 1) * 146_097 else era * 146_097 + YearStart(yoe + 1)) - 719_468
  {
    MonthStarts();
    if yoe == 399 {
      assert t.year / 400 == era + 1;
    } else {
      assert t.year / 400 == era;
    }
  }

  lemma YearGrows(yoe: int)
    requires 0 <= yoe < 400
    ensures YearStart(yoe) + YearDays(yoe) == if yoe == 399 then 146_097 else YearStart(yoe + 1)
  {
    var c, q, r := YearSplits(yoe);
    assert yoe / 4 == 25 * c + q && yoe / 100 == c;
    assert (yoe + 1) / 4 == 25 * c + q + (if r == 3 then 1 else 0);
    assert (yoe + 1) / 100 == c + (if r == 3 && q == 24 then 1 else 0);
  }

  // ----- Years

  function NewYear(y: int): int {
    DaysFromCivil(Date(y, 1, 1))
  }

  function DaysInYear(y: int): int {
    if IsLeap(y) then 366 else 365
  }

  lemma YearGrowsBy(y: int)
    ensures NewYear(y + 1) == NewYear(y) + DaysInYear(y)
  {
    MonthStarts();
    var era, yoe, mp, doy := DateParts(Date(y, 1, 1));
    YearGrows(yoe);
    LeapShift(era, yoe + 1);
    if yoe == 399 {
      assert y / 400 == era + 1;
    } else {
      assert y / 400 == era;
    }
  }

  /** A date lies in its year. */
  lemma YearBounds(t: Date)
    requires IsDate(t)
    ensures NewYear(t.year) <= DaysFromCivil(t) < NewYear(t.year + 1)
  {
    hide IsLeap, MonthStart, YearStart;
    MonthStarts();
    if t.month <= 2 {
      SameMarchYear(t, Date(t.year, 1, 1));
      YearGrowsBy(t.year);
    } else {
      SameMarchYear(t, Date(t.year + 1, 1, 1));
      YearGrowsBy(t.year);
      YearLengths(t.year);
    }
  }

  lemma YearLengths(y: int)
    ensures 365 <= DaysInYear(y) <= 366
  {
  }

  lemma SameMarchYear(t: Date, u: Date)
    requires YearOf(t) == YearOf(u)
    ensures DaysFromCivil(u) - DaysFromCivil(t) == MonthStart(MonthOf(u)) + u.day - MonthStart(MonthOf(t)) - t.day
  {
  }

  lemma {:induction false} YearsGrow(y: int, y': int)
    requires y <= y'
    ensures NewYear(y) + 365 * (y' - y) <= NewYear(y')
    decreases y' - y
  {
    hide DaysFromCivil;
    if y < y' {
      YearsGrow(y, y' - 1);
      YearGrowsBy(y' - 1);
    }
  }

  /** Only the dates of a year lie in it. */
  lemma YearOfDay(z: int, y: int)
    requires NewYear(y) <= z < NewYear(y + 1)
    ensures CivilFromDays(z).year == y
  {
    hide DaysFromCivil, CivilFromDays, IsDate;
    var t := CivilFromDays(z);
    DayRoundTrip(z);
    YearBounds(t);
    if t.year < y {
      YearsGrow(t.year + 1, y);
    } else if t.year > y {
      YearsGrow(y + 1, t.year);
    }
  }

  // ----- Instants

  datatype Civil = Civil(date: Date, hour: int, minute: int, second: int, nanos: int)

  function CivilFromEpoch(nanos: int): Civil {
    var secs := nanos / NANOS_PER_SEC;
    var sod := secs % DAY_SECS;
    Civil(CivilFromDays(secs / DAY_SECS), sod / 3600, sod % 3600 / 60, sod % 60, nanos % NANOS_PER_SEC)
  }

  predicate Fields(c: Civil) {
    && 1970 <= c.date.year <= 9999 && IsDate(c.date)
    && 0 <= c.hour < 24 && 0 <= c.minute < 60 && 0 <= c.second <= 60 && 0 <= c.nanos < NANOS_PER_SEC
  }

  predicate InI64(n: int) {
    -0x8000_0000_0000_0000 <= n < 0x8000_0000_0000_0000
  }

  /** Seconds of a civil time at an offset. */
  function Seconds(c: Civil, offset: int): int {
    DaysFromCivil(c.date) * DAY_SECS + c.hour * 3600 + c.minute * 60 + c.second - offset
  }

  /** None for fields out of range, and for instants that 64 bits of nanoseconds lack. */
  function EpochFromCivil(c: Civil, offset: int): Option<int> {
    if !Fields(c) then None
    else
      var whole := Seconds(c, offset) * NANOS_PER_SEC;
      if InI64(whole) && InI64(whole + c.nanos) then Some(whole + c.nanos) else None
  }

  predicate IsTimeOfDay(c: Civil) {
    IsDate(c.date) && 0 <= c.hour < 24 && 0 <= c.minute < 60 && 0 <= c.second < 60 && 0 <= c.nanos < NANOS_PER_SEC
  }

  /** Every instant has a civil time, and is the instant of it. */
  lemma CivilOfEpoch(nanos: int)
    ensures IsTimeOfDay(CivilFromEpoch(nanos))
    ensures Seconds(CivilFromEpoch(nanos), 0) * NANOS_PER_SEC + CivilFromEpoch(nanos).nanos == nanos
  {
    hide DaysFromCivil, CivilFromDays, IsDate;
    var secs := nanos / NANOS_PER_SEC;
    DayRoundTrip(secs / DAY_SECS);
    TimeOfDay(secs % DAY_SECS);
  }

  lemma TimeOfDay(sod: int)
    requires 0 <= sod < DAY_SECS
    ensures 0 <= sod / 3600 < 24 && 0 <= sod % 3600 / 60 < 60
    ensures sod / 3600 * 3600 + sod % 3600 / 60 * 60 + sod % 60 == sod
  {
    assert sod % 3600 % 60 == sod % 60;
  }

  /** From 1970 to the last instant 64 bits hold, an instant comes back from its civil time. */
  lemma EpochRoundTrip(nanos: int)
    requires 0 <= nanos && InI64(nanos)
    ensures EpochFromCivil(CivilFromEpoch(nanos), 0) == Some(nanos)
  {
    hide DaysFromCivil, CivilFromDays, IsDate;
    CivilOfEpoch(nanos);
    YearsOfEpoch(nanos);
    var c := CivilFromEpoch(nanos);
    assert Seconds(c, 0) * NANOS_PER_SEC <= nanos;
  }

  /** The years that 64 bits of nanoseconds reach. */
  lemma YearsOfEpoch(nanos: int)
    requires InI64(nanos)
    ensures 1677 <= CivilFromEpoch(nanos).date.year <= 2262
    ensures nanos >= 0 ==> CivilFromEpoch(nanos).date.year >= 1970
  {
    hide CivilFromDays, IsDate;
    var z := nanos / NANOS_PER_SEC / DAY_SECS;
    DayRoundTrip(z);
    YearBounds(CivilFromDays(z));
    var y := CivilFromDays(z).year;
    NewYears();
    hide DaysFromCivil;
    if y < 1677 {
      YearsGrow(y + 1, 1677);
    }
    if y > 2262 {
      YearsGrow(2263, y);
    }
    if nanos >= 0 && y < 1970 {
      YearsGrow(y + 1, 1970);
    }
  }

  lemma NewYears()
    ensures NewYear(1677) == -107_015 && NewYear(1970) == 0 && NewYear(2263) == 107_016
  {
    hide MonthStart, YearStart;
    MonthStarts();
    assert YearStart(76) == 27_759 && YearStart(369) == 134_774 && YearStart(262) == 95_693 by {
      YearStarts();
    }
  }

  lemma YearStarts()
    ensures YearStart(76) == 27_759 && YearStart(369) == 134_774 && YearStart(262) == 95_693
  {
  }

  /** A civil time comes back from its instant exactly if it is no leap second. */
  lemma CivilRoundTrip(c: Civil, offset: int)
    requires EpochFromCivil(c, offset).Some?
    ensures CivilFromEpoch(EpochFromCivil(c, offset).value + offset * NANOS_PER_SEC) == c <==> c.second < 60
  {
    hide DaysFromCivil, CivilFromDays, IsDate;
    var n := EpochFromCivil(c, offset).value + offset * NANOS_PER_SEC;
    if c.second < 60 {
      var days := DaysFromCivil(c.date);
      var sod := c.hour * 3600 + c.minute * 60 + c.second;
      assert n == (days * DAY_SECS + sod) * NANOS_PER_SEC + c.nanos;
      assert n / NANOS_PER_SEC == days * DAY_SECS + sod;
      assert (days * DAY_SECS + sod) / DAY_SECS == days;
      DateRoundTrip(c.date);
      assert sod / 3600 == c.hour && sod % 3600 == c.minute * 60 + c.second;
    } else {
      CivilOfEpoch(n);
    }
  }
}
