/** From broken-down time to an instant: zones, am and pm, days of the year, and the year of
    a timestamp that has none. */
module TimePolicy {
  import opened Bytes
  import opened Calendar

  type I32 = n: int | -0x8000_0000 <= n < 0x8000_0000

  /** More than this after receipt, a timestamp without a year is of the year before. */
  const YEAR_ROLLOVER_SLACK := 7 * DAY_SECS * NANOS_PER_SEC
  const DAY := DAY_SECS * NANOS_PER_SEC

  /** `Named` holds what the zone table has: an offset, and whether the name is ambiguous. */
  datatype Zone = NoZone | Offset(secs: I32) | Named(found: Option<(I32, bool)>)

  datatype Parts = Parts(year: Option<int>, month: nat, day: nat, yday: Option<nat>,
    hour: nat, minute: nat, second: nat, nanos: int, pm: Option<bool>, zone: Zone, epoch: Option<I64>)

  datatype Policies = Policies(yearAssumed: bool, tzAssumed: bool, zoneNameUnknown: bool, zoneNameAmbiguous: bool)

  const NONE := Policies(false, false, false, false)

  datatype Context = Context(receipt: I64, defaultOffset: I32)

  datatype Resolved = OutOfRange | Ok(epochNanos: int, policies: Policies)

  function Saturate(n: int): I64 {
    if n < -0x8000_0000_0000_0000 then -0x8000_0000_0000_0000
    else if n >= 0x8000_0000_0000_0000 then 0x7FFF_FFFF_FFFF_FFFF
    else n
  }

  function OffsetOf(p: Parts, ctx: Context): I32 {
    match p.zone
    case NoZone => ctx.defaultOffset
    case Offset(o) => o
    case Named(Some(z)) => z.0
    case Named(None) => ctx.defaultOffset
  }

  function ZonePolicies(p: Parts): Policies {
    match p.zone
    case NoZone => NONE.(tzAssumed := true)
    case Offset(_) => NONE
    case Named(Some(z)) => NONE.(zoneNameAmbiguous := z.1)
    case Named(None) => NONE.(zoneNameUnknown := true)
  }

  function HourOf(p: Parts): nat {
    match p.pm
    case Some(pm) => p.hour % 12 + (if pm then 12 else 0)
    case None => p.hour
  }

  /** The civil time in a year; a day of the year the year lacks has none. */
  function CivilIn(p: Parts, year: int): Option<Civil> {
    match p.yday
    case Some(yd) =>
      if yd == 0 || yd > DaysInYear(year) then None
      else
        var t := CivilFromDays(NewYear(year) + yd - 1);
        Some(Civil(Date(year, t.month, t.day), HourOf(p), p.minute, p.second, p.nanos))
    case None => Some(Civil(Date(year, p.month, p.day), HourOf(p), p.minute, p.second, p.nanos))
  }

  function Build(p: Parts, offset: I32, year: int): Option<int> {
    match CivilIn(p, year)
    case None => None
    case Some(c) => EpochFromCivil(c, offset)
  }

  /** The year at receipt, where the timestamp was written. */
  function LocalYear(p: Parts, ctx: Context): int {
    CivilFromEpoch(Saturate(ctx.receipt + OffsetOf(p, ctx) * NANOS_PER_SEC)).date.year
  }

  function Chosen(p: Parts, ctx: Context): Option<int> {
    var offset := OffsetOf(p, ctx);
    var y := LocalYear(p, ctx);
    match Build(p, offset, y)
    case Some(e) =>
      if e <= Saturate(ctx.receipt + YEAR_ROLLOVER_SLACK) then Some(e) else Build(p, offset, y - 1)
    case None => Build(p, offset, y - 1)
  }

  function Resolve(p: Parts, ctx: Context): Resolved {
    match p.epoch
    case Some(e) => if InI64(e + p.nanos) then Ok(e + p.nanos, NONE) else OutOfRange
    case None =>
      var built := match p.year case Some(y) => Build(p, OffsetOf(p, ctx), y) case None => Chosen(p, ctx);
      var policies := if p.year.None? then ZonePolicies(p).(yearAssumed := true) else ZonePolicies(p);
      match built
      case Some(e) => Ok(e, policies)
      case None => OutOfRange
  }

  // ----- The bounds

  /** The date and time exist in the year, whether or not 64 bits reach them. */
  predicate Exists(p: Parts, year: int) {
    CivilIn(p, year).Some? && Fields(CivilIn(p, year).value)
  }

  /** The instant, unbounded. */
  function Instant(p: Parts, offset: I32, year: int): int
    requires CivilIn(p, year).Some?
  {
    var c := CivilIn(p, year).value;
    Seconds(c, offset) * NANOS_PER_SEC + c.nanos
  }

  /** The day of a civil time, and that it lies in the year it was made for. */
  lemma CivilDay(p: Parts, year: int) returns (day: int)
    requires Exists(p, year)
    ensures day == DaysFromCivil(CivilIn(p, year).value.date)
    ensures NewYear(year) <= day < NewYear(year + 1)
    ensures p.yday.Some? ==> day == NewYear(year) + p.yday.value - 1
    ensures CivilIn(p, year).value.date.year == year
  {
    hide DaysFromCivil, CivilFromDays, IsDate, IsLeap;
    var t := CivilIn(p, year).value.date;
    day := DaysFromCivil(t);
    YearGrowsBy(year);
    if p.yday.Some? {
      var z := NewYear(year) + p.yday.value - 1;
      YearOfDay(z, year);
      DayRoundTrip(z);
      assert CivilFromDays(z) == t;
    } else {
      assert IsDate(t);
      YearBounds(t);
    }
  }

  /** The same date is 365 or 366 days apart in consecutive years. */
  lemma YearApart(p: Parts, year: int)
    requires Exists(p, year) && Exists(p, year - 1)
    ensures 365 <= DaysFromCivil(CivilIn(p, year).value.date) - DaysFromCivil(CivilIn(p, year - 1).value.date) <= 366
  {
    hide DaysFromCivil, CivilFromDays, IsDate, IsLeap, MonthStart;
    var later := CivilDay(p, year);
    var before := CivilDay(p, year - 1);
    YearGrowsBy(year - 1);
    YearGrowsBy(year);
    YearLengths(year - 1);
    YearLengths(year);
    if p.yday.None? {
      var u, t := CivilIn(p, year).value.date, CivilIn(p, year - 1).value.date;
      if p.month <= 2 {
        SameMarchYear(Date(year, 1, 1), u);
        SameMarchYear(Date(year - 1, 1, 1), t);
      } else {
        SameMarchYear(Date(year + 1, 1, 1), u);
        SameMarchYear(Date(year, 1, 1), t);
      }
    }
  }

  /** An instant of a year lies between its new year and the next, a leap second apart. */
  lemma InstantBounds(p: Parts, offset: I32, year: int)
    requires Exists(p, year)
    ensures var local := Instant(p, offset, year) + offset * NANOS_PER_SEC;
      NewYear(year) * DAY <= local < NewYear(year + 1) * DAY + NANOS_PER_SEC
  {
    hide DaysFromCivil, CivilFromDays, IsDate, IsLeap, DaysInYear;
    var day := CivilDay(p, year);
    var c := CivilIn(p, year).value;
    assert 0 <= c.hour * 3600 + c.minute * 60 + c.second <= DAY_SECS;
  }

  /** What `Build` has, if the date exists. */
  lemma BuildIs(p: Parts, offset: I32, year: int)
    ensures Build(p, offset, year).Some? ==>
      Exists(p, year) && Build(p, offset, year).value == Instant(p, offset, year) && InI64(Instant(p, offset, year))
    ensures Exists(p, year) && Build(p, offset, year).None? ==> Instant(p, offset, year) >= 0x8000_0000_0000_0000
  {
    hide DaysFromCivil, CivilFromDays, IsDate, IsLeap, DaysInYear;
    if Exists(p, year) {
      InstantBounds(p, offset, year);
      YearsGrow(1970, year);
      NewYears();
    }
  }

  /** The receipt lies in its local year, unless the sum left 64 bits. */
  lemma ReceiptBounds(p: Parts, ctx: Context)
    ensures var local := Saturate(ctx.receipt + OffsetOf(p, ctx) * NANOS_PER_SEC);
      NewYear(LocalYear(p, ctx)) * DAY <= local < NewYear(LocalYear(p, ctx) + 1) * DAY
  {
    hide DaysFromCivil, CivilFromDays, IsDate, IsLeap;
    var local := Saturate(ctx.receipt + OffsetOf(p, ctx) * NANOS_PER_SEC);
    var z := local / NANOS_PER_SEC / DAY_SECS;
    DayRoundTrip(z);
    YearBounds(CivilFromDays(z));
    assert z * DAY <= local < (z + 1) * DAY;
  }

  /** Where a timestamp without a year lands: in the receipt's local year, or the one
      before; never more than 7 days after receipt; and of the receipt's year whenever
      that instant is within the slack. If 64 bits hold the local time of receipt and the
      date exists in that year, it lands less than 367 days before receipt. */
  lemma NoYearPolicy(p: Parts, ctx: Context)
    requires p.epoch.None? && p.year.None?
    ensures var r, offset, y := Resolve(p, ctx), OffsetOf(p, ctx), LocalYear(p, ctx);
      && (Build(p, offset, y).Some? && Build(p, offset, y).value <= ctx.receipt + YEAR_ROLLOVER_SLACK ==>
        r.Ok? && r.epochNanos == Build(p, offset, y).value)
      && (r.Ok? ==>
        && r.policies.yearAssumed
        && (Build(p, offset, y) == Some(r.epochNanos) || Build(p, offset, y - 1) == Some(r.epochNanos))
        && r.epochNanos <= ctx.receipt + YEAR_ROLLOVER_SLACK)
      && (r.Ok? && Exists(p, y) && InI64(ctx.receipt + offset * NANOS_PER_SEC) ==> ctx.receipt - r.epochNanos < 367 * DAY)
  {
    hide DaysFromCivil, CivilFromDays, CivilFromEpoch, EpochFromCivil, CivilIn, Build, Exists, LocalYear, Fields, Instant;
    var offset, y := OffsetOf(p, ctx), LocalYear(p, ctx);
    ReceiptBounds(p, ctx);
    BuildIs(p, offset, y);
    BuildIs(p, offset, y - 1);
    hide DaysInYear;
    if Exists(p, y) {
      InstantBounds(p, offset, y);
      YearGrowsBy(y);
      YearLengths(y);
    }
    if Exists(p, y - 1) {
      InstantBounds(p, offset, y - 1);
      FirstYear(p, y - 1);
      YearsGrow(1970, y);
      NewYears();
      if Exists(p, y) {
        InstantsApart(p, offset, y);
      }
    }
  }

  lemma FirstYear(p: Parts, year: int)
    requires Exists(p, year)
    ensures year >= 1970
  {
    var day := CivilDay(p, year);
  }

  lemma InstantsApart(p: Parts, offset: I32, year: int)
    requires Exists(p, year) && Exists(p, year - 1)
    ensures CivilIn(p, year).Some? && CivilIn(p, year - 1).Some?
    ensures Instant(p, offset, year) - Instant(p, offset, year - 1) <= 366 * DAY
  {
    hide DaysFromCivil, CivilFromDays, IsDate;
    YearApart(p, year);
  }

  /** The leap second 60 is counted one second past 59. */
  function LeapNanos(second: int): int {
    if second == 60 then NANOS_PER_SEC else 0
  }

  /** A civil time lies on its date, a leap second right behind it. */
  lemma OnItsDate(c: Civil, offset: I32)
    requires EpochFromCivil(c, offset).Some?
    ensures CivilFromEpoch(EpochFromCivil(c, offset).value + offset * NANOS_PER_SEC - LeapNanos(c.second)).date == c.date
  {
    hide DaysFromCivil, CivilFromDays, IsDate;
    var n := EpochFromCivil(c, offset).value + offset * NANOS_PER_SEC - LeapNanos(c.second);
    var days := DaysFromCivil(c.date);
    var sod := c.hour * 3600 + c.minute * 60 + if c.second == 60 then 59 else c.second;
    assert n == (days * DAY_SECS + sod) * NANOS_PER_SEC + c.nanos;
    assert n / NANOS_PER_SEC == days * DAY_SECS + sod;
    assert (days * DAY_SECS + sod) / DAY_SECS == days;
    DateRoundTrip(c.date);
  }

  lemma BuiltYear(p: Parts, offset: I32, year: int)
    requires Build(p, offset, year).Some?
    ensures CivilFromEpoch(Build(p, offset, year).value + offset * NANOS_PER_SEC - LeapNanos(p.second)).date.year == year
  {
    hide DaysFromCivil, CivilFromDays, IsDate, CivilFromEpoch;
    OnItsDate(CivilIn(p, year).value, offset);
    var day := CivilDay(p, year);
  }

  /** Read back where it was written, it is of the receipt's local year or the one before;
      a leap second is of the year of the second it follows. */
  lemma NoYearLands(p: Parts, ctx: Context)
    requires p.epoch.None? && p.year.None?
    ensures var r, offset, y := Resolve(p, ctx), OffsetOf(p, ctx), LocalYear(p, ctx);
      r.Ok? ==> y - 1 <= CivilFromEpoch(r.epochNanos + offset * NANOS_PER_SEC - LeapNanos(p.second)).date.year <= y
  {
    hide CivilFromEpoch, Build, LocalYear;
    var r, offset, y := Resolve(p, ctx), OffsetOf(p, ctx), LocalYear(p, ctx);
    if r.Ok? {
      if Build(p, offset, y) == Some(r.epochNanos) {
        BuiltYear(p, offset, y);
      } else {
        BuiltYear(p, offset, y - 1);
      }
    }
  }

  // ----- What the other parts mean

  /** The hour on a twelve-hour clock. */
  function Twelve(hour: nat): nat {
    if hour % 12 == 0 then 12 else hour % 12
  }

  /** Every hour of the day comes back from how a twelve-hour clock shows it, midnight as
      12 am and noon as 12 pm; without am or pm the hour stands as it is. */
  lemma HourRoundTrip(p: Parts, hour: nat)
    requires hour < 24
    ensures HourOf(p.(hour := Twelve(hour), pm := Some(hour >= 12))) == hour
    ensures HourOf(p.(hour := hour, pm := None)) == hour
  {
  }

  /** The instant a whole date gives is the one whose civil time, where it was written, is
      that date and time; a leap second is the second behind the one before it. */
  lemma GivenYear(p: Parts, ctx: Context)
    requires p.epoch.None? && p.year.Some? && p.yday.None? && p.second < 60
    ensures var r, offset := Resolve(p, ctx), OffsetOf(p, ctx);
      var c := Civil(Date(p.year.value, p.month, p.day), HourOf(p), p.minute, p.second, p.nanos);
      r.Ok? ==> CivilFromEpoch(r.epochNanos + offset * NANOS_PER_SEC) == c
  {
    hide CivilFromEpoch, EpochFromCivil;
    if Resolve(p, ctx).Ok? {
      CivilRoundTrip(CivilIn(p, p.year.value).value, OffsetOf(p, ctx));
    }
  }

  /** A zone of the text counts before the context's, which stands in when there is none or
      its name is unknown; what had to be assumed is said, each thing by its own flag. */
  lemma ZonesAndFlags(p: Parts, ctx: Context, o: I32, ambiguous: bool)
    requires p.epoch.None?
    ensures OffsetOf(p.(zone := Offset(o)), ctx) == OffsetOf(p.(zone := Named(Some((o, ambiguous)))), ctx) == o
    ensures OffsetOf(p.(zone := NoZone), ctx) == OffsetOf(p.(zone := Named(None)), ctx) == ctx.defaultOffset
    ensures var r := Resolve(p, ctx);
      r.Ok? ==>
        && (r.policies.yearAssumed <==> p.year.None?) && (r.policies.tzAssumed <==> p.zone.NoZone?)
        && (r.policies.zoneNameUnknown <==> p.zone == Named(None))
        && (r.policies.zoneNameAmbiguous <==> exists z :: p.zone == Named(Some((z, true))))
  {
    hide Build, Chosen;
    if p.zone.Named? && p.zone.found.Some? {
      assert p.zone == Named(Some((p.zone.found.value.0, p.zone.found.value.1)));
    }
  }

  /** An instant given as such is taken as it is, whatever the other parts say. */
  lemma EpochWins(p: Parts, ctx: Context)
    requires p.epoch.Some?
    ensures Resolve(p, ctx) == if InI64(p.epoch.value + p.nanos) then Ok(p.epoch.value + p.nanos, NONE) else OutOfRange
  {
  }
}
