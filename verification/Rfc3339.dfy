/** The cursor over a timestamp, the RFC 3339 reader and printer, and that they agree. */
module Rfc3339 {
  import opened Bytes
  import opened Calendar
  import opened TimePolicy

  type Text = seq<Byte>

  /** `is_ascii_whitespace`. */
  predicate IsWhite(b: Byte) {
    b in [32, 9, 10, 12, 13]
  }

  /** Space, tab, line feed, form feed and carriage return. */
  lemma Whites(b: Byte)
    ensures IsWhite(b) <==> b as char in {' ', '\t', '\n', '\r'} || b == 0x0C
  {
  }

  // ----- What the cursor's methods read

  /** Up to `most` digits from `i` on: the number gathered after `v`, and where they end. */
  function DigitsFrom(s: Text, i: nat, most: nat, v: nat): (nat, nat)
    requires i <= |s|
    decreases most
  {
    if most > 0 && i < |s| && IsDigit(s[i]) then DigitsFrom(s, i + 1, most - 1, v * 10 + (s[i] as int - 48)) else (v, i)
  }

  lemma {:induction false} DigitsBound(s: Text, i: nat, most: nat, v: nat)
    requires i <= |s|
    ensures i <= DigitsFrom(s, i, most, v).1 <= |s|
    decreases most
  {
    if most > 0 && i < |s| && IsDigit(s[i]) {
      DigitsBound(s, i + 1, most - 1, v * 10 + (s[i] as int - 48));
    }
  }

  /** The cursor moves over the digits even when they are too few. */
  function DigitsAt(s: Text, i: nat, least: nat, most: nat): (r: (Option<nat>, nat))
    requires i <= |s|
    ensures i <= r.1 <= |s|
  {
    DigitsBound(s, i, most, 0);
    var (v, end) := DigitsFrom(s, i, most, 0);
    (if end - i >= least then Some(v) else None, end)
  }

  function DigitRun(s: Text, i: nat): (end: nat)
    requires i <= |s|
    ensures i <= end <= |s| && (end < |s| ==> !IsDigit(s[end])) && forall k :: i <= k < end ==> IsDigit(s[k])
    decreases |s| - i
  {
    if i < |s| && IsDigit(s[i]) then DigitRun(s, i + 1) else i
  }

  function WhiteRun(s: Text, i: nat): (end: nat)
    requires i <= |s|
    ensures i <= end <= |s|
    decreases |s| - i
  {
    if i < |s| && IsWhite(s[i]) then WhiteRun(s, i + 1) else i
  }

  function Pow10(n: nat): nat {
    if n == 0 then 1 else 10 * Pow10(n - 1)
  }

  function Number(d: Text): int {
    if d == [] then 0 else Number(d[..|d| - 1]) * 10 + (d[|d| - 1] as int - 48)
  }

  /** Digits after the point as nanoseconds; those beyond nine are dropped. */
  function Scaled(d: Text): int {
    if |d| >= 9 then Number(d[..9]) else Number(d) * Pow10(9 - |d|)
  }

  function FractionAt(s: Text, i: nat): (r: Option<(int, nat)>)
    requires i <= |s|
    ensures r.Some? ==> i <= r.value.1 <= |s|
  {
    var end := DigitRun(s, i);
    if end == i then None else Some((Scaled(s[i..end]), end))
  }

  /** `Z`, or a sign, hours and perhaps minutes; a single minute digit counts for nothing. */
  function OffsetAt(s: Text, i: nat): (r: Option<(int, nat)>)
    requires i <= |s|
    ensures r.Some? ==> i <= r.value.1 <= |s| && -DAY_SECS < r.value.0 < DAY_SECS
  {
    if i == |s| then None
    else if s[i] in [90, 122] then Some((0, i + 1))
    else if s[i] !in [43, 45] then None
    else
      var (h, at) := DigitsAt(s, i + 1, 2, 2);
      if h.None? then None
      else
        var colon := at < |s| && s[at] == 58;
        var (m, end) := DigitsAt(s, if colon then at + 1 else at, 2, 2);
        if colon && m.None? then None
        else
          var minutes := if m.Some? then m.value else 0;
          var v: int := h.value * 3600 + minutes * 60;
          if h.value < 24 && minutes < 60 then Some((if s[i] == 45 then -v else v, end)) else None
  }

  datatype Clock = Clock(hour: nat, minute: nat, second: nat, nanos: int)

  /** `HH:MM:SS`, perhaps with a fraction. */
  function HmsAt(s: Text, i: nat): (r: Option<(Clock, nat)>)
    requires i <= |s|
    ensures r.Some? ==> i <= r.value.1 <= |s|
  {
    var (h, a) := DigitsAt(s, i, 1, 2);
    if h.None? || a == |s| || s[a] != 58 then None
    else
      var (m, b) := DigitsAt(s, a + 1, 2, 2);
      if m.None? || b == |s| || s[b] != 58 then None
      else
        var (sec, c) := DigitsAt(s, b + 1, 2, 2);
        if sec.None? then None
        else if c < |s| && s[c] in [46, 44] then
          match FractionAt(s, c + 1)
          case None => None
          case Some(f) => Some((Clock(h.value, m.value, sec.value, f.0), f.1))
        else Some((Clock(h.value, m.value, sec.value, 0), c))
  }

  datatype Stamp = Stamp(year: nat, month: nat, day: nat, clock: Clock, offset: Option<I32>)

  /** The separator of date and time: a `T`, or blanks. */
  function GapAt(s: Text, i: nat): (r: Option<nat>)
    requires i <= |s|
    ensures r.Some? ==> i <= r.value <= |s|
  {
    if i == |s| then None
    else if s[i] in [84, 116] then Some(i + 1)
    else if IsWhite(s[i]) then Some(WhiteRun(s, i))
    else None
  }

  function DateAt(s: Text): (r: Option<(nat, nat, nat, nat)>)
    ensures r.Some? ==> r.value.3 <= |s|
  {
    var (y, a) := DigitsAt(s, 0, 4, 4);
    if y.None? || a == |s| || s[a] != 45 then None
    else
      var (m, b) := DigitsAt(s, a + 1, 2, 2);
      if m.None? || b == |s| || s[b] != 45 then None
      else
        var (d, c) := DigitsAt(s, b + 1, 2, 2);
        if d.None? then None else Some((y.value, m.value, d.value, c))
  }

  function StampOf(s: Text): Option<Stamp> {
    match DateAt(s)
    case None => None
    case Some(t) =>
      match GapAt(s, t.3)
      case None => None
      case Some(g) =>
        match HmsAt(s, g)
        case None => None
        case Some(c) =>
          var end := WhiteRun(s, c.1);
          if end == |s| then Some(Stamp(t.0, t.1, t.2, c.0, None))
          else match OffsetAt(s, end)
            case None => None
            case Some(o) => if o.1 == |s| then Some(Stamp(t.0, t.1, t.2, c.0, Some(o.0))) else None
  }

  method Scale(d: Text) returns (v: int)
    ensures v == Scaled(d)
  {
    hide Pow10;
    v := 0;
    var n := 0;
    while n < |d| && n < 9
      invariant 0 <= n <= |d| && n <= 9 && v == Number(d[..n])
    {
      assert d[..n + 1][..n] == d[..n];
      v := v * 10 + (d[n] as int - 48);
      n := n + 1;
    }
    assert |d| < 9 ==> d[..n] == d;
    ghost var digits := v;
    ghost var from := n;
    Pow10Steps(digits, 9 - n);
    while n < 9
      invariant from <= n <= 9 && v * Pow10(9 - n) == digits * Pow10(9 - from)
    {
      Pow10Steps(v, 9 - n);
      v := v * 10;
      n := n + 1;
    }
    Pow10Steps(v, 0);
  }

  lemma Pow10Steps(v: int, n: nat)
    ensures Pow10(0) == 1
    ensures n > 0 ==> v * Pow10(n) == v * 10 * Pow10(n - 1)
  {
  }

  // ----- The cursor

  class Cur {
    const s: Text
    var i: nat

    constructor (s: Text)
      ensures this.s == s && i == 0
    {
      this.s := s;
      i := 0;
    }

    function Peek(): Option<Byte>
      reads this
    {
      if i < |s| then Some(s[i]) else None
    }

    predicate Eof()
      reads this
    {
      i >= |s|
    }

    method Lit(b: Byte) returns (ok: bool)
      requires i <= |s|
      modifies this
      ensures ok <==> old(i) < |s| && s[old(i)] == b
      ensures i == (if ok then old(i) + 1 else old(i)) && i <= |s|
    {
      ok := Peek() == Some(b);
      if ok {
        i := i + 1;
      }
    }

    method Digits(least: nat, most: nat) returns (r: Option<nat>)
      requires i <= |s|
      modifies this
      ensures (r, i) == DigitsAt(s, old(i), least, most)
    {
      var start: nat, v: nat := i, 0;
      while i - start < most
        invariant start <= i <= |s| && i - start <= most && start == old(i)
        invariant DigitsFrom(s, i, most - (i - start), v) == DigitsFrom(s, start, most, 0)
        decreases |s| - i
      {
        if i < |s| && IsDigit(s[i]) {
          v := v * 10 + (s[i] as int - 48);
          i := i + 1;
        } else {
          break;
        }
      }
      r := if i - start >= least then Some(v) else None;
    }

    method SkipDigits()
      requires i <= |s|
      modifies this
      ensures i == DigitRun(s, old(i))
    {
      while i < |s| && IsDigit(s[i])
        invariant old(i) <= i <= |s| && DigitRun(s, i) == DigitRun(s, old(i))
      {
        i := i + 1;
      }
    }

    method SkipWhite()
      requires i <= |s|
      modifies this
      ensures i == WhiteRun(s, old(i))
    {
      while i < |s| && IsWhite(s[i])
        invariant old(i) <= i <= |s| && WhiteRun(s, i) == WhiteRun(s, old(i))
      {
        i := i + 1;
      }
    }

    method Fraction() returns (r: Option<int>)
      requires i <= |s|
      modifies this
      ensures i <= |s|
      ensures match FractionAt(s, old(i)) case None => r.None? case Some(f) => r == Some(f.0) && i == f.1
    {
      var start := i;
      SkipDigits();
      var d := s[start..i];
      if d == [] {
        return None;
      }
      var v := Scale(d);
      return Some(v);
    }

    method Offset() returns (r: Option<I32>)
      requires i <= |s|
      modifies this
      ensures i <= |s|
      ensures match OffsetAt(s, old(i)) case None => r.None? case Some(o) => r == Some(o.0) && i == o.1
    {
      if i == |s| {
        return None;
      }
      var sign := s[i];
      if sign == 90 || sign == 122 {
        i := i + 1;
        return Some(0);
      }
      if sign != 43 && sign != 45 {
        return None;
      }
      i := i + 1;
      var h := Digits(2, 2);
      if h.None? {
        return None;
      }
      var colon := Lit(58);
      var m := Digits(2, 2);
      if colon && m.None? {
        return None;
      }
      var minutes := if m.Some? then m.value else 0;
      var v: int := h.value * 3600 + minutes * 60;
      return if h.value < 24 && minutes < 60 then Some(if sign == 45 then -v else v) else None;
    }

    method Hms() returns (r: Option<Clock>)
      requires i <= |s|
      modifies this
      ensures i <= |s|
      ensures match HmsAt(s, old(i)) case None => r.None? case Some(c) => r == Some(c.0) && i == c.1
    {
      hide DigitsAt, FractionAt;
      var h := Digits(1, 2);
      if h.None? {
        return None;
      }
      var ok := Lit(58);
      if !ok {
        return None;
      }
      var m := Digits(2, 2);
      if m.None? {
        return None;
      }
      ok := Lit(58);
      if !ok {
        return None;
      }
      var sec := Digits(2, 2);
      if sec.None? {
        return None;
      }
      if Peek() == Some(46) || Peek() == Some(44) {
        i := i + 1;
        var f := Fraction();
        if f.None? {
          return None;
        }
        return Some(Clock(h.value, m.value, sec.value, f.value));
      }
      return Some(Clock(h.value, m.value, sec.value, 0));
    }
  }

  method ReadDate(c: Cur) returns (r: Option<(nat, nat, nat)>)
    requires c.i == 0
    modifies c
    ensures c.i <= |c.s|
    ensures match DateAt(c.s) case None => r.None? case Some(t) => r == Some((t.0, t.1, t.2)) && c.i == t.3
  {
    hide DigitsAt;
    var year := c.Digits(4, 4);
    if year.None? {
      return None;
    }
    var ok := c.Lit(45);
    if !ok {
      return None;
    }
    var month := c.Digits(2, 2);
    if month.None? {
      return None;
    }
    ok := c.Lit(45);
    if !ok {
      return None;
    }
    var day := c.Digits(2, 2);
    return if day.None? then None else Some((year.value, month.value, day.value));
  }

  /** `YYYY-MM-DD`, a `T` or blanks, the time, and perhaps an offset. */
  method Read(s: Text) returns (r: Option<Stamp>)
    ensures r == StampOf(s)
  {
    hide DateAt, HmsAt, OffsetAt, WhiteRun;
    var c := new Cur(s);
    var date := ReadDate(c);
    if date.None? || c.Eof() {
      return None;
    }
    if c.Peek() == Some(84) || c.Peek() == Some(116) {
      c.i := c.i + 1;
    } else if IsWhite(s[c.i]) {
      c.SkipWhite();
    } else {
      return None;
    }
    var clock := c.Hms();
    if clock.None? {
      return None;
    }
    c.SkipWhite();
    var offset: Option<I32> := None;
    if !c.Eof() {
      offset := c.Offset();
      if offset.None? {
        return None;
      }
    }
    return if c.Eof() then Some(Stamp(date.value.0, date.value.1, date.value.2, clock.value, offset)) else None;
  }

  // ----- The printer

  function Two(v: nat): (s: Text)
    requires v < 100
    ensures |s| == 2
  {
    [48 + v / 10, 48 + v % 10]
  }

  function Three(v: nat): (s: Text)
    requires v < 1000
    ensures |s| == 3
  {
    [48 + v / 100] + Two(v % 100)
  }

  function Four(v: nat): (s: Text)
    requires v < 10_000
    ensures |s| == 4
  {
    Two(v / 100) + Two(v % 100)
  }

  /** The civil time of an instant has the widths the printer gives its fields. */
  lemma Widths(nanos: int)
    requires InI64(nanos)
    ensures var c := CivilFromEpoch(nanos);
      && 0 <= c.date.year < 10_000 && 0 <= c.date.month < 100 && 0 <= c.date.day < 100
      && 0 <= c.hour < 100 && 0 <= c.minute < 100 && 0 <= c.second < 100 && 0 <= c.nanos / 1_000_000 < 1000
  {
    hide CivilFromEpoch;
    CivilOfEpoch(nanos);
    YearsOfEpoch(nanos);
  }

  /** `YYYY-MM-DDTHH:MM:SS.mmmZ`. */
  function Printed(nanos: int): (s: Text)
    requires InI64(nanos)
    ensures |s| == 24
  {
    Widths(nanos);
    var c := CivilFromEpoch(nanos);
    Four(c.date.year) + [45] + Two(c.date.month) + [45] + Two(c.date.day) + [84] +
    Two(c.hour) + [58] + Two(c.minute) + [58] + Two(c.second) + [46] + Three(c.nanos / 1_000_000) + [90]
  }

  // ----- Every way to write a stamp

  datatype Fraction = NoFraction | Fraction(sep: Byte, digits: Text)

  /** `+HH:MM` or `+HHMM`, or `+HH`, which may have one more digit that counts for nothing. */
  datatype ZoneText = Bare | Zulu(z: Byte) | Numeric(sign: Byte, h: nat, m: nat, colon: bool) | HourOnly(sign: Byte, h: nat, stray: Text)

  datatype Form = Form(gap: Text, wide: bool, fraction: Fraction, blanks: Text, zone: ZoneText)

  predicate AllDigits(d: Text) {
    forall k :: 0 <= k < |d| ==> IsDigit(d[k])
  }

  predicate White(t: Text) {
    forall k :: 0 <= k < |t| ==> IsWhite(t[k])
  }

  predicate LegalZone(z: ZoneText) {
    match z
    case Bare => true
    case Zulu(b) => b == 'Z' as int || b == 'z' as int
    case Numeric(sign, h, m, _) => (sign == '+' as int || sign == '-' as int) && h < 24 && m < 60
    case HourOnly(sign, h, stray) => (sign == '+' as int || sign == '-' as int) && h < 24 && |stray| <= 1 && AllDigits(stray)
  }

  function Signed(sign: Byte, v: int): int {
    if sign == '-' as int then -v else v
  }

  /** Seconds east of Greenwich. */
  function ZoneValue(z: ZoneText): Option<int> {
    match z
    case Bare => None
    case Zulu(_) => Some(0)
    case Numeric(sign, h, m, _) => Some(Signed(sign, (h * 60 + m) * 60))
    case HourOnly(sign, h, _) => Some(Signed(sign, h * 3600))
  }

  function ZoneSpelled(z: ZoneText): Text
    requires LegalZone(z)
  {
    match z
    case Bare => []
    case Zulu(b) => [b]
    case Numeric(sign, h, m, colon) => [sign] + Two(h) + (if colon then [58] else []) + Two(m)
    case HourOnly(sign, h, stray) => [sign] + Two(h) + stray
  }

  predicate LegalGap(gap: Text) {
    gap == [84] || gap == [116] || (gap != [] && White(gap))
  }

  predicate LegalFraction(f: Fraction) {
    f.Fraction? ==> f.sep in [46, 44] && f.digits != [] && AllDigits(f.digits)
  }

  /** The numbers have the widths they are written in. */
  predicate Fit(t: Stamp) {
    t.year < 10_000 && t.month < 100 && t.day < 100 && t.clock.hour < 100 && t.clock.minute < 100 && t.clock.second < 100
  }

  predicate Writes(f: Form, t: Stamp) {
    && Fit(t) && LegalGap(f.gap) && (!f.wide ==> t.clock.hour < 10) && LegalFraction(f.fraction)
    && t.clock.nanos == (if f.fraction.Fraction? then Scaled(f.fraction.digits) else 0)
    && White(f.blanks) && LegalZone(f.zone) && t.offset == ZoneValue(f.zone)
  }

  function DateText(y: nat, m: nat, d: nat): (s: Text)
    requires y < 10_000 && m < 100 && d < 100
    ensures |s| == 10
  {
    Four(y) + [45] + Two(m) + [45] + Two(d)
  }

  function HourText(wide: bool, h: nat): (s: Text)
    requires h < 100 && (!wide ==> h < 10)
    ensures |s| == if wide then 2 else 1
  {
    if wide then Two(h) else [48 + h]
  }

  function FractionText(f: Fraction): Text {
    if f.Fraction? then [f.sep] + f.digits else []
  }

  function ClockText(wide: bool, f: Fraction, c: Clock): Text
    requires c.hour < 100 && c.minute < 100 && c.second < 100 && (!wide ==> c.hour < 10)
  {
    HourText(wide, c.hour) + [58] + Two(c.minute) + [58] + Two(c.second) + FractionText(f)
  }

  function Spelled(f: Form, t: Stamp): Text
    requires Writes(f, t)
  {
    DateText(t.year, t.month, t.day) + f.gap + ClockText(f.wide, f.fraction, t.clock) + f.blanks + ZoneSpelled(f.zone)
  }

  /** `part` stands at `i`. */
  predicate At(s: Text, i: nat, part: Text) {
    i + |part| <= |s| && s[i..i + |part|] == part
  }

  lemma AtParts(s: Text, i: nat, a: Text, b: Text)
    ensures At(s, i, a + b) <==> At(s, i, a) && At(s, i + |a|, b)
  {
    if At(s, i, a + b) {
      var t := s[i..i + |a + b|];
      assert s[i..i + |a|] == t[..|a|] == a && s[i + |a|..i + |a| + |b|] == t[|a|..] == b;
    }
    if At(s, i, a) && At(s, i + |a|, b) {
      assert s[i..i + |a + b|] == s[i..i + |a|] + s[i + |a|..i + |a| + |b|];
    }
  }

  lemma AtOne(s: Text, i: nat, b: Byte)
    ensures At(s, i, [b]) <==> i < |s| && s[i] == b
  {
  }

  // ----- Numbers

  lemma TwoIff(s: Text, i: nat, v: nat)
    requires i <= |s| && v < 100
    ensures DigitsAt(s, i, 2, 2).0 == Some(v) <==> At(s, i, Two(v))
    ensures DigitsAt(s, i, 2, 2).0.Some? ==> DigitsAt(s, i, 2, 2).1 == i + 2
  {
    TwoDigits(s, i);
    if i + 2 <= |s| {
      assert s[i..i + 2] == [s[i], s[i + 1]];
    }
  }

  function Digit(b: Byte): int {
    b - 48
  }

  lemma TwoDigits(s: Text, i: nat)
    requires i <= |s|
    ensures DigitsAt(s, i, 2, 2) ==
      if i + 2 <= |s| && IsDigit(s[i]) && IsDigit(s[i + 1]) then (Some(Digit(s[i]) * 10 + Digit(s[i + 1])), i + 2)
      else if i < |s| && IsDigit(s[i]) then (None, i + 1)
      else (None, i)
  {
    assert forall j: nat, v: nat :: j <= |s| ==> DigitsFrom(s, j, 0, v) == (v, j);
  }

  lemma TwoBound(s: Text, i: nat)
    requires i <= |s| && DigitsAt(s, i, 2, 2).0.Some?
    ensures DigitsAt(s, i, 2, 2).0.value < 100
  {
    TwoDigits(s, i);
  }

  lemma FourIff(s: Text, i: nat, v: nat)
    requires i <= |s| && v < 10_000
    ensures DigitsAt(s, i, 4, 4).0 == Some(v) <==> At(s, i, Four(v))
    ensures DigitsAt(s, i, 4, 4).0.Some? ==> DigitsAt(s, i, 4, 4).1 == i + 4 && DigitsAt(s, i, 4, 4).0.value < 10_000
  {
    hide DigitsAt, Four;
    FourDigits(s, i);
    if i + 4 <= |s| {
      var d := s[i..i + 4];
      assert d == [s[i], s[i + 1], s[i + 2], s[i + 3]];
      FourValue(d, v);
    }
  }

  lemma FourValue(d: Text, v: nat)
    requires |d| == 4 && v < 10_000
    ensures d == Four(v) <==> AllDigits(d) && ((Digit(d[0]) * 10 + Digit(d[1])) * 10 + Digit(d[2])) * 10 + Digit(d[3]) == v
  {
    hide Two;
    var a, b := d[..2], d[2..];
    assert d == a + b;
    assert Four(v)[..2] == Two(v / 100) && Four(v)[2..] == Two(v % 100);
    TwoValue(a, v / 100);
    TwoValue(b, v % 100);
    assert AllDigits(d) <==> AllDigits(a) && AllDigits(b);
  }

  lemma TwoValue(d: Text, v: nat)
    requires |d| == 2 && v < 100
    ensures d == Two(v) <==> AllDigits(d) && Digit(d[0]) * 10 + Digit(d[1]) == v
    ensures AllDigits(d) ==> 0 <= Digit(d[0]) * 10 + Digit(d[1]) < 100
  {
  }

  lemma FourDigits(s: Text, i: nat)
    requires i <= |s|
    ensures DigitsAt(s, i, 4, 4).0 ==
      if i + 4 <= |s| && AllDigits(s[i..i + 4]) then
        Some(((Digit(s[i]) * 10 + Digit(s[i + 1])) * 10 + Digit(s[i + 2])) * 10 + Digit(s[i + 3]))
      else None
    ensures i + 4 <= |s| && AllDigits(s[i..i + 4]) ==> DigitsAt(s, i, 4, 4).1 == i + 4
  {
    assert forall j: nat, v: nat :: j <= |s| ==> DigitsFrom(s, j, 0, v) == (v, j);
    if i + 4 <= |s| {
      var d := s[i..i + 4];
      assert d[0] == s[i] && d[1] == s[i + 1] && d[2] == s[i + 2] && d[3] == s[i + 3];
    }
  }

  // ----- Each part, both ways

  lemma DateIff(s: Text, y: nat, m: nat, d: nat)
    requires y < 10_000 && m < 100 && d < 100
    ensures DateAt(s) == Some((y, m, d, 10)) <==> At(s, 0, DateText(y, m, d))
  {
    hide DigitsAt, At, Four, Two;
    AtParts(s, 0, Four(y) + [45] + Two(m) + [45], Two(d));
    AtParts(s, 0, Four(y) + [45] + Two(m), [45]);
    AtParts(s, 0, Four(y) + [45], Two(m));
    AtParts(s, 0, Four(y), [45]);
    AtOne(s, 4, 45);
    AtOne(s, 7, 45);
    FourIff(s, 0, y);
    if 5 <= |s| { TwoIff(s, 5, m); }
    if 8 <= |s| { TwoIff(s, 8, d); }
    AtInside(s, 0, Four(y));
    AtInside(s, 5, Two(m));
    AtInside(s, 8, Two(d));
  }

  lemma AtInside(s: Text, i: nat, part: Text)
    ensures At(s, i, part) ==> i + |part| <= |s|
  {
  }

  lemma AtIs(s: Text, i: nat, part: Text)
    requires At(s, i, part)
    ensures s[i..i + |part|] == part
  {
  }

  lemma DateBounds(s: Text)
    requires DateAt(s).Some?
    ensures var t := DateAt(s).value; t.0 < 10_000 && t.1 < 100 && t.2 < 100 && t.3 == 10
  {
    hide DigitsAt;
    FourIff(s, 0, 0);
    TwoIff(s, 5, 0);
    TwoBound(s, 5);
    TwoIff(s, 8, 0);
    TwoBound(s, 8);
  }

  lemma {:induction false} WhiteRunIs(s: Text, i: nat, w: Text)
    requires At(s, i, w) && White(w) && (i + |w| < |s| ==> !IsWhite(s[i + |w|]))
    ensures WhiteRun(s, i) == i + |w|
    decreases |w|
  {
    if w != [] {
      assert s[i] == s[i..i + |w|][0] == w[0];
      assert s[i + 1..i + 1 + |w[1..]|] == s[i..i + |w|][1..];
      WhiteRunIs(s, i + 1, w[1..]);
    }
  }

  lemma {:induction false} WhiteRunWhite(s: Text, i: nat)
    requires i <= |s|
    ensures White(s[i..WhiteRun(s, i)]) && (WhiteRun(s, i) < |s| ==> !IsWhite(s[WhiteRun(s, i)]))
    decreases |s| - i
  {
    if i < |s| && IsWhite(s[i]) {
      WhiteRunWhite(s, i + 1);
      assert s[i..WhiteRun(s, i)] == [s[i]] + s[i + 1..WhiteRun(s, i)];
    }
  }

  /** A byte that ends what stands before it: a blank or the start of a zone. */
  predicate Ends(s: Text, i: nat) {
    i >= |s| || IsWhite(s[i]) || s[i] in [90, 122, 43, 45]
  }

  lemma {:induction false} DigitRunIs(s: Text, i: nat, d: Text)
    requires At(s, i, d) && AllDigits(d) && (i + |d| < |s| ==> !IsDigit(s[i + |d|]))
    ensures DigitRun(s, i) == i + |d|
    decreases |d|
  {
    if d != [] {
      assert s[i] == s[i..i + |d|][0] == d[0];
      assert s[i + 1..i + 1 + |d[1..]|] == s[i..i + |d|][1..];
      DigitRunIs(s, i + 1, d[1..]);
    }
  }

  /** A time of day, with what may follow it, is read as written. */
  lemma ClockReads(s: Text, i: nat, wide: bool, f: Fraction, c: Clock)
    requires c.hour < 100 && c.minute < 100 && c.second < 100 && (!wide ==> c.hour < 10) && LegalFraction(f)
    requires c.nanos == if f.Fraction? then Scaled(f.digits) else 0
    requires At(s, i, ClockText(wide, f, c)) && Ends(s, i + |ClockText(wide, f, c)|)
    ensures HmsAt(s, i) == Some((c, i + |ClockText(wide, f, c)|))
  {
    hide HmsAt, DigitsAt, At, Two, Scaled, HourText, FractionAt, ClockText;
    var a := i + |HourText(wide, c.hour)|;
    ClockAt(s, i, wide, f, c);
    AtInside(s, i, HourText(wide, c.hour));
    HourReads(s, i, wide, c.hour);
    TwoIff(s, a + 1, c.minute);
    TwoIff(s, a + 4, c.second);
    AtInside(s, a + 1, Two(c.minute));
    AtInside(s, a + 4, Two(c.second));
    FractionReads(s, a + 6, f);
    HmsOf(s, i, a, c, i + |ClockText(wide, f, c)|);
  }

  /** A time of day from its pieces. */
  lemma HmsOf(s: Text, i: nat, a: nat, c: Clock, end: nat)
    requires i <= a && a + 6 <= |s| && DigitsAt(s, i, 1, 2) == (Some(c.hour), a) && s[a] == 58 && s[a + 3] == 58
    requires DigitsAt(s, a + 1, 2, 2) == (Some(c.minute), a + 3) && DigitsAt(s, a + 4, 2, 2) == (Some(c.second), a + 6)
    requires if a + 6 < |s| && s[a + 6] in [46, 44] then FractionAt(s, a + 7) == Some((c.nanos, end)) else c.nanos == 0 && end == a + 6
    ensures HmsAt(s, i) == Some((c, end))
  {
    hide DigitsAt, FractionAt;
  }

  lemma ClockAt(s: Text, i: nat, wide: bool, f: Fraction, c: Clock)
    requires c.hour < 100 && c.minute < 100 && c.second < 100 && (!wide ==> c.hour < 10)
    ensures var a := i + |HourText(wide, c.hour)|;
      && |ClockText(wide, f, c)| == |HourText(wide, c.hour)| + 6 + |FractionText(f)|
      && (At(s, i, ClockText(wide, f, c)) <==>
        && At(s, i, HourText(wide, c.hour)) && a < |s| && s[a] == 58 && At(s, a + 1, Two(c.minute))
        && a + 3 < |s| && s[a + 3] == 58 && At(s, a + 4, Two(c.second)) && At(s, a + 6, FractionText(f)))
  {
    hide At, Two, HourText, FractionText;
    var h := HourText(wide, c.hour);
    var a := i + |h|;
    AtParts(s, i, h + [58] + Two(c.minute) + [58] + Two(c.second), FractionText(f));
    AtParts(s, i, h + [58] + Two(c.minute) + [58], Two(c.second));
    AtParts(s, i, h + [58] + Two(c.minute), [58]);
    AtParts(s, i, h + [58], Two(c.minute));
    AtParts(s, i, h, [58]);
    AtOne(s, a, 58);
    AtOne(s, a + 3, 58);
  }

  lemma HourReads(s: Text, i: nat, wide: bool, h: nat)
    requires h < 100 && (!wide ==> h < 10) && At(s, i, HourText(wide, h))
    requires var a := i + |HourText(wide, h)|; a < |s| && s[a] == 58
    ensures DigitsAt(s, i, 1, 2) == (Some(h), i + |HourText(wide, h)|)
  {
    HourDigits(s, i);
    if wide {
      assert s[i] == s[i..i + 2][0] && s[i + 1] == s[i..i + 2][1];
    } else {
      assert s[i] == s[i..i + 1][0];
    }
  }

  lemma HourDigits(s: Text, i: nat)
    requires i <= |s|
    ensures DigitsAt(s, i, 1, 2) ==
      if i + 2 <= |s| && IsDigit(s[i]) && IsDigit(s[i + 1]) then (Some(Digit(s[i]) * 10 + Digit(s[i + 1])), i + 2)
      else if i < |s| && IsDigit(s[i]) then (Some(Digit(s[i])), i + 1)
      else (None, i)
  {
    assert forall j: nat, v: nat :: j <= |s| ==> DigitsFrom(s, j, 0, v) == (v, j);
  }

  lemma FractionReads(s: Text, i: nat, f: Fraction)
    requires i <= |s| && LegalFraction(f) && At(s, i, FractionText(f)) && Ends(s, i + |FractionText(f)|)
    ensures f.NoFraction? ==> !(i < |s| && s[i] in [46, 44])
    ensures f.Fraction? ==> i < |s| && s[i] in [46, 44] && FractionAt(s, i + 1) == Some((Scaled(f.digits), i + 1 + |f.digits|))
  {
    hide Scaled, At, DigitRun;
    AtInside(s, i, FractionText(f));
    if f.Fraction? {
      AtParts(s, i, [f.sep], f.digits);
      AtOne(s, i, f.sep);
      AtInside(s, i + 1, f.digits);
      DigitRunIs(s, i + 1, f.digits);
      AtIs(s, i + 1, f.digits);
    }
  }

  lemma ZoneReads(s: Text, i: nat, z: ZoneText)
    requires LegalZone(z) && z != Bare && At(s, i, ZoneSpelled(z)) && i + |ZoneSpelled(z)| == |s|
    ensures OffsetAt(s, i) == Some((ZoneValue(z).value, |s|))
  {
    hide DigitsAt, At, Two;
    match z
    case Bare =>
    case Zulu(b) => AtOne(s, i, b);
    case Numeric(sign, h, m, colon) =>
      AtParts(s, i, [sign] + Two(h) + (if colon then [58] else []), Two(m));
      AtParts(s, i, [sign] + Two(h), if colon then [58] else []);
      AtParts(s, i, [sign], Two(h));
      AtOne(s, i, sign);
      TwoIff(s, i + 1, h);
      AtInside(s, i + 1, Two(h));
      AtOne(s, i + 3, 58);
      TwoIff(s, if colon then i + 4 else i + 3, m);
      if !colon { TwoStarts(s, i + 3, m); }
    case HourOnly(sign, h, stray) =>
      AtParts(s, i, [sign] + Two(h), stray);
      AtParts(s, i, [sign], Two(h));
      AtOne(s, i, sign);
      TwoIff(s, i + 1, h);
      AtInside(s, i + 1, Two(h));
      StrayReads(s, i + 3, stray);
  }

  lemma TwoStarts(s: Text, i: nat, v: nat)
    requires v < 100 && At(s, i, Two(v))
    ensures i < |s| && s[i] != 58
  {
    assert s[i] == s[i..i + 2][0];
  }

  lemma StrayReads(s: Text, i: nat, stray: Text)
    requires At(s, i, stray) && |stray| <= 1 && AllDigits(stray) && i + |stray| == |s|
    ensures DigitsAt(s, i, 2, 2) == (None, |s|) && (i < |s| ==> s[i] != 58)
  {
    TwoDigits(s, i);
    if stray != [] {
      assert s[i] == s[i..i + 1][0];
    }
  }

  /** Whatever is written in one of these ways is read as it was meant. */
  lemma SpelledReads(f: Form, t: Stamp)
    requires Writes(f, t)
    ensures StampOf(Spelled(f, t)) == Some(t)
  {
    hide At, DateText, ClockText, ZoneSpelled, LegalGap, HmsAt, DateAt, OffsetAt, GapAt, LegalFraction, Scaled, WhiteRun;
    var s := Spelled(f, t);
    var date, clock, zone := DateText(t.year, t.month, t.day), ClockText(f.wide, f.fraction, t.clock), ZoneSpelled(f.zone);
    var g := 10 + |f.gap|;
    var c := g + |clock|;
    AtWhole(s);
    AtParts(s, 0, date + f.gap + clock + f.blanks, zone);
    AtParts(s, 0, date + f.gap + clock, f.blanks);
    AtParts(s, 0, date + f.gap, clock);
    AtParts(s, 0, date, f.gap);
    DateIff(s, t.year, t.month, t.day);
    ZoneStarts(s, c + |f.blanks|, f.zone);
    BlanksEnd(s, c, f.blanks);
    ClockStarts(s, g, f.wide, f.fraction, t.clock);
    GapReads(s, 10, f.gap);
    ClockReads(s, g, f.wide, f.fraction, t.clock);
    WhiteRunIs(s, c, f.blanks);
    AtInside(s, c, f.blanks);
    if f.zone != Bare {
      ZoneReads(s, c + |f.blanks|, f.zone);
      assert c + |f.blanks| < |s| by { ZoneLength(f.zone); }
    } else {
      assert zone == [] by { ZoneLength(f.zone); }
    }
  }

  lemma ZoneLength(z: ZoneText)
    requires LegalZone(z)
    ensures ZoneSpelled(z) == [] <==> z == Bare
  {
  }

  lemma AtWhole(s: Text)
    ensures At(s, 0, s)
  {
  }

  lemma GapReads(s: Text, i: nat, gap: Text)
    requires LegalGap(gap) && At(s, i, gap) && (i + |gap| < |s| ==> !IsWhite(s[i + |gap|]))
    ensures i <= |s| && GapAt(s, i) == Some(i + |gap|)
  {
    assert s[i] == s[i..i + |gap|][0] == gap[0];
    if White(gap) {
      WhiteRunIs(s, i, gap);
    }
  }

  lemma ZoneStarts(s: Text, i: nat, z: ZoneText)
    requires LegalZone(z) && At(s, i, ZoneSpelled(z)) && i + |ZoneSpelled(z)| == |s|
    ensures Ends(s, i) && (i < |s| ==> !IsWhite(s[i]))
  {
    if z != Bare {
      assert s[i] == s[i..][0] == ZoneSpelled(z)[0];
    }
  }

  lemma BlanksEnd(s: Text, i: nat, blanks: Text)
    requires White(blanks) && At(s, i, blanks) && Ends(s, i + |blanks|)
    ensures Ends(s, i)
  {
    if blanks != [] {
      assert s[i] == s[i..i + |blanks|][0] == blanks[0];
    }
  }

  lemma ClockStarts(s: Text, i: nat, wide: bool, f: Fraction, c: Clock)
    requires c.hour < 100 && c.minute < 100 && c.second < 100 && (!wide ==> c.hour < 10)
    requires At(s, i, ClockText(wide, f, c))
    ensures i < |s| && !IsWhite(s[i])
  {
    hide FractionText;
    var t := ClockText(wide, f, c);
    assert s[i] == s[i..i + |t|][0] == t[0] == HourText(wide, c.hour)[0];
  }

  // ----- And nothing else is read

  lemma HmsSpelled(s: Text, i: nat) returns (wide: bool, f: Fraction)
    requires i <= |s| && HmsAt(s, i).Some?
    ensures var c := HmsAt(s, i).value.0;
      && c.hour < 100 && c.minute < 100 && c.second < 100 && (!wide ==> c.hour < 10) && LegalFraction(f)
      && c.nanos == (if f.Fraction? then Scaled(f.digits) else 0)
      && At(s, i, ClockText(wide, f, c)) && HmsAt(s, i).value.1 == i + |ClockText(wide, f, c)|
  {
    hide HmsAt, DigitsAt, At, Two, Scaled, HourText, ClockText, FractionAt, DigitRun, LegalFraction;
    var c := HmsAt(s, i).value.0;
    HmsParts(s, i);
    var (h, a) := DigitsAt(s, i, 1, 2);
    wide := a == i + 2;
    HourSpelled(s, i);
    TwoIff(s, a + 1, c.minute);
    TwoIff(s, a + 4, c.second);
    f := if a + 6 < |s| && s[a + 6] in [46, 44] then Fraction(s[a + 6], s[a + 7..DigitRun(s, a + 7)]) else NoFraction;
    FractionSpelled(s, a + 6, f);
    ClockAt(s, i, wide, f, c);
  }

  /** The pieces of a time of day that was read. */
  lemma HmsParts(s: Text, i: nat)
    requires i <= |s| && HmsAt(s, i).Some?
    ensures var (h, a) := DigitsAt(s, i, 1, 2);
      var (c, end) := HmsAt(s, i).value;
      && h == Some(c.hour) && a + 6 <= |s| && s[a] == 58 && s[a + 3] == 58
      && DigitsAt(s, a + 1, 2, 2).0 == Some(c.minute) && DigitsAt(s, a + 4, 2, 2).0 == Some(c.second)
      && c.minute < 100 && c.second < 100
      && (if a + 6 < |s| && s[a + 6] in [46, 44] then FractionAt(s, a + 7) == Some((c.nanos, end)) else c.nanos == 0 && end == a + 6)
  {
    hide DigitsAt, Two, At, FractionAt;
    var (_, a) := DigitsAt(s, i, 1, 2);
    TwoIff(s, a + 1, 0);
    TwoBound(s, a + 1);
    TwoIff(s, a + 4, 0);
    TwoBound(s, a + 4);
  }

  lemma HourSpelled(s: Text, i: nat)
    requires i <= |s| && DigitsAt(s, i, 1, 2).0.Some?
    ensures var (h, a) := DigitsAt(s, i, 1, 2);
      var wide := a == i + 2;
      h.value < 100 && (!wide ==> h.value < 10) && a == i + |HourText(wide, h.value)| && At(s, i, HourText(wide, h.value))
  {
    HourDigits(s, i);
    if i + 2 <= |s| {
      assert s[i..i + 2] == [s[i], s[i + 1]];
    }
    assert s[i..i + 1] == [s[i]];
  }

  lemma {:induction false} FractionSpelled(s: Text, i: nat, f: Fraction)
    requires i <= |s|
    requires f == if i < |s| && s[i] in [46, 44] then Fraction(s[i], s[i + 1..DigitRun(s, i + 1)]) else NoFraction
    requires f.Fraction? ==> FractionAt(s, i + 1).Some?
    ensures LegalFraction(f) && At(s, i, FractionText(f))
    ensures f.Fraction? ==> FractionAt(s, i + 1) == Some((Scaled(f.digits), i + |FractionText(f)|))
  {
    hide Scaled;
    if f.Fraction? {
      AtParts(s, i, [f.sep], f.digits);
      AtOne(s, i, f.sep);
    }
  }

  lemma OffsetSpelled(s: Text, i: nat) returns (z: ZoneText)
    requires i <= |s| && OffsetAt(s, i).Some? && OffsetAt(s, i).value.1 == |s|
    ensures LegalZone(z) && z != Bare && ZoneValue(z) == Some(OffsetAt(s, i).value.0)
    ensures At(s, i, ZoneSpelled(z)) && i + |ZoneSpelled(z)| == |s|
  {
    hide DigitsAt, At, Two;
    AtOne(s, i, s[i]);
    if s[i] in [90, 122] {
      z := Zulu(s[i]);
    } else {
      var (h, at) := DigitsAt(s, i + 1, 2, 2);
      TwoBound(s, i + 1);
      TwoIff(s, i + 1, h.value);
      var colon := at < |s| && s[at] == 58;
      var from := if colon then at + 1 else at;
      var (m, end) := DigitsAt(s, from, 2, 2);
      AtParts(s, i, [s[i]], Two(h.value));
      AtOne(s, at, 58);
      if m.Some? {
        TwoBound(s, from);
        TwoIff(s, from, m.value);
        z := Numeric(s[i], h.value, m.value, colon);
        AtNothing(s, at);
        AtParts(s, i, [s[i]] + Two(h.value), if colon then [58] else []);
        AtParts(s, i, [s[i]] + Two(h.value) + (if colon then [58] else []), Two(m.value));
      } else {
        z := HourOnly(s[i], h.value, s[at..]);
        StraySpelled(s, at);
        AtParts(s, i, [s[i]] + Two(h.value), s[at..]);
      }
    }
  }

  lemma AtNothing(s: Text, i: nat)
    requires i <= |s|
    ensures At(s, i, [])
  {
  }

  lemma StraySpelled(s: Text, i: nat)
    requires i <= |s| && DigitsAt(s, i, 2, 2) == (None, |s|)
    ensures At(s, i, s[i..]) && |s[i..]| <= 1 && AllDigits(s[i..])
  {
    TwoDigits(s, i);
  }

  lemma GapSpelled(s: Text, i: nat)
    requires i <= |s| && GapAt(s, i).Some?
    ensures LegalGap(s[i..GapAt(s, i).value]) && At(s, i, s[i..GapAt(s, i).value])
  {
    WhiteRunWhite(s, i);
    assert s[i] !in [84, 116] ==> WhiteRun(s, i) >= i + 1;
    assert s[i..i + 1] == [s[i]];
  }

  /** Whatever is read was written in one of these ways. */
  lemma ReadIsSpelled(s: Text) returns (f: Form)
    requires StampOf(s).Some?
    ensures Writes(f, StampOf(s).value) && s == Spelled(f, StampOf(s).value)
  {
    hide At, DateText, ClockText, ZoneSpelled, LegalGap, HmsAt, DateAt, OffsetAt, GapAt, LegalFraction, Scaled, WhiteRun, LegalZone;
    var t := StampOf(s).value;
    DateBounds(s);
    DateIff(s, t.year, t.month, t.day);
    var g := GapAt(s, 10).value;
    GapSpelled(s, 10);
    var wide, fraction := HmsSpelled(s, g);
    var c := HmsAt(s, g).value.1;
    var end := WhiteRun(s, c);
    WhiteRunWhite(s, c);
    var zone := Bare;
    BareSpells(s);
    if end < |s| {
      zone := OffsetSpelled(s, end);
    }
    f := Form(s[10..g], wide, fraction, s[c..end], zone);
    var date, clock := DateText(t.year, t.month, t.day), ClockText(wide, fraction, t.clock);
    BlanksAt(s, c, end);
    AtParts(s, 0, date, f.gap);
    AtParts(s, 0, date + f.gap, clock);
    AtParts(s, 0, date + f.gap + clock, f.blanks);
    AtParts(s, 0, date + f.gap + clock + f.blanks, ZoneSpelled(zone));
    AtEnd(s, Spelled(f, t));
  }

  lemma BareSpells(s: Text)
    ensures LegalZone(Bare) && ZoneSpelled(Bare) == [] && ZoneValue(Bare) == None && At(s, |s|, [])
  {
  }

  lemma BlanksAt(s: Text, i: nat, j: nat)
    requires i <= j <= |s|
    ensures At(s, i, s[i..j])
  {
  }

  lemma AtEnd(s: Text, t: Text)
    requires At(s, 0, t) && |t| == |s|
    ensures s == t
  {
    assert s[0..|t|] == s;
  }

  /** The reader takes exactly the texts that are written in one of these ways, each as the
      stamp it was written for. */
  lemma StampExactly(s: Text, t: Stamp)
    ensures StampOf(s) == Some(t) <==> exists f :: Writes(f, t) && s == Spelled(f, t)
  {
    hide StampOf, Writes, Spelled;
    if StampOf(s) == Some(t) {
      var f := ReadIsSpelled(s);
    }
    if f :| Writes(f, t) && s == Spelled(f, t) {
      SpelledReads(f, t);
    }
  }

  // ----- Fractions

  /** `n` decimal digits. */
  function Decimal(v: nat, n: nat): (d: Text)
    ensures |d| == n
  {
    if n == 0 then [] else Decimal(v / 10, n - 1) + [48 + v % 10]
  }

  lemma {:induction false} DecimalReads(v: nat, n: nat)
    requires v < Pow10(n)
    ensures AllDigits(Decimal(v, n)) && Number(Decimal(v, n)) == v
  {
    if n > 0 {
      DecimalReads(v / 10, n - 1);
      assert Decimal(v, n)[..n - 1] == Decimal(v / 10, n - 1);
    }
  }

  /** The fraction as nanoseconds, rounded down. */
  lemma {:induction false} ScaledIsFloor(d: Text)
    requires AllDigits(d)
    ensures Scaled(d) * Pow10(|d|) <= Number(d) * Pow10(9) < (Scaled(d) + 1) * Pow10(|d|)
  {
    hide Number, Pow10;
    if |d| >= 9 {
      var n := |d| - 9;
      NumberSplits(d, 9);
      PowersAdd(9, n);
      PowerPositive(9);
      var head, tail := Number(d[..9]), Number(d[9..]);
      Scales(head, tail, Pow10(n), Pow10(9));
    } else {
      PowersAdd(|d|, 9 - |d|);
      PowerPositive(|d|);
      assert Number(d) * Pow10(9) == Number(d) * Pow10(9 - |d|) * Pow10(|d|);
    }
  }

  lemma Scales(head: int, tail: int, p: int, q: int)
    requires 0 <= tail < p && q > 0
    ensures head * (q * p) <= (head * p + tail) * q < (head + 1) * (q * p)
  {
    assert (head * p + tail) * q == head * (q * p) + tail * q;
    assert 0 <= tail * q < p * q;
  }

  lemma {:induction false} PowerPositive(n: nat)
    ensures Pow10(n) > 0
  {
    if n > 0 {
      PowerPositive(n - 1);
    }
  }

  lemma {:induction false} PowersAdd(a: nat, b: nat)
    ensures Pow10(a + b) == Pow10(a) * Pow10(b)
  {
    if a > 0 {
      PowersAdd(a - 1, b);
    }
  }

  lemma {:induction false} NumberSplits(d: Text, k: nat)
    requires k <= |d| && AllDigits(d)
    ensures Number(d) == Number(d[..k]) * Pow10(|d| - k) + Number(d[k..]) && 0 <= Number(d[k..]) < Pow10(|d| - k)
    decreases |d| - k
  {
    if k == |d| {
      assert d[..k] == d;
    } else {
      hide Number, AllDigits;
      var front := d[..|d| - 1];
      DigitsSplit(d, |d| - 1);
      NumberSplits(front, k);
      assert front[..k] == d[..k] && d[k..][..|d| - k - 1] == front[k..];
      NumberStep(d);
      DigitsSplit(d, k);
      NumberStep(d[k..]);
      Regroup(Number(d[..k]), Pow10(|d| - 1 - k), Number(front[k..]), Digit(d[|d| - 1]));
    }
  }

  lemma DigitsSplit(d: Text, k: nat)
    requires k <= |d|
    ensures AllDigits(d) <==> AllDigits(d[..k]) && AllDigits(d[k..])
  {
    assert d == d[..k] + d[k..];
  }

  lemma {:induction false} NumberStep(d: Text)
    requires d != []
    ensures Number(d) == Number(d[..|d| - 1]) * 10 + Digit(d[|d| - 1])
    ensures AllDigits(d) ==> 0 <= Digit(d[|d| - 1]) < 10
  {
  }

  lemma Regroup(a: int, p: int, b: int, d: int)
    ensures (a * p + b) * 10 + d == a * (10 * p) + (b * 10 + d)
  {
    assert a * p * 10 == a * (10 * p);
  }

  function PartsOf(t: Stamp): Parts {
    Parts(Some(t.year), t.month, t.day, None, t.clock.hour, t.clock.minute, t.clock.second, t.clock.nanos, None,
          if t.offset.Some? then Offset(t.offset.value) else NoZone, None)
  }

  lemma {:induction false} MillisIs(v: nat)
    requires v < 1000
    ensures Three(v) == Decimal(v, 3) && Pow10(3) == 1000 && Pow10(6) == 1_000_000
    ensures AllDigits(Three(v)) && Scaled(Three(v)) == v * 1_000_000
  {
    assert Pow10(2) == 100 && Pow10(1) == 10;
    assert Decimal(v / 100, 1) == [48 + v / 100] by { assert Decimal(v / 100 / 10, 0) == []; }
    assert Decimal(v / 10, 2) == Decimal(v / 100, 1) + [48 + v / 10 % 10];
    assert v % 100 / 10 == v / 10 % 10;
    DecimalReads(v, 3);
  }

  /** A civil time in the printer's style, with a zone of any spelling. */
  function Zoned(local: int, z: ZoneText): Text
    requires InI64(local) && LegalZone(z)
  {
    Widths(local);
    var c := CivilFromEpoch(local);
    DateText(c.date.year, c.date.month, c.date.day) + [84] +
    ClockText(true, Fraction(46, Three(c.nanos / 1_000_000)), Clock(c.hour, c.minute, c.second, 0)) + [] + ZoneSpelled(z)
  }

  lemma ZonedReads(local: int, z: ZoneText)
    requires InI64(local) && LegalZone(z)
    ensures var c := CivilFromEpoch(local);
      && 0 <= c.date.year && 0 <= c.date.month && 0 <= c.date.day && 0 <= c.hour && 0 <= c.minute && 0 <= c.second
      && StampOf(Zoned(local, z)) == Some(Stamp(c.date.year, c.date.month, c.date.day,
        Clock(c.hour, c.minute, c.second, c.nanos / 1_000_000 * 1_000_000), ZoneValue(z)))
  {
    hide CivilFromEpoch, StampOf, Three, Scaled, ZoneSpelled;
    Widths(local);
    var c := CivilFromEpoch(local);
    var ms := c.nanos / 1_000_000;
    MillisIs(ms);
    var f := Form([84], true, Fraction(46, Three(ms)), [], z);
    var t := Stamp(c.date.year, c.date.month, c.date.day, Clock(c.hour, c.minute, c.second, ms * 1_000_000), ZoneValue(z));
    assert Writes(f, t);
    assert ClockText(true, f.fraction, t.clock) == ClockText(true, f.fraction, t.clock.(nanos := 0));
    SpelledReads(f, t);
  }

  /** Every field of a printed instant is read back. */
  lemma PrintedReads(nanos: int)
    requires InI64(nanos)
    ensures var c := CivilFromEpoch(nanos);
      && 0 <= c.date.year && 0 <= c.date.month && 0 <= c.date.day && 0 <= c.hour && 0 <= c.minute && 0 <= c.second
      && StampOf(Printed(nanos)) == Some(Stamp(c.date.year, c.date.month, c.date.day,
        Clock(c.hour, c.minute, c.second, c.nanos / 1_000_000 * 1_000_000), Some(0)))
  {
    hide CivilFromEpoch, StampOf, Zoned;
    ZonedReads(nanos, Zulu(90));
    PrintedIsZoned(nanos);
  }

  lemma PrintedIsZoned(nanos: int)
    requires InI64(nanos)
    ensures Printed(nanos) == Zoned(nanos, Zulu(90))
  {
    hide CivilFromEpoch, Two, Three, Four;
    Widths(nanos);
    var c := CivilFromEpoch(nanos);
    Flat(Four(c.date.year) + [45] + Two(c.date.month) + [45] + Two(c.date.day), Two(c.hour) + [58] + Two(c.minute) + [58] + Two(c.second),
         Three(c.nanos / 1_000_000));
    Grouped(Four(c.date.year) + [45] + Two(c.date.month) + [45] + Two(c.date.day) + [84], Two(c.hour), Two(c.minute), Two(c.second));
  }

  lemma Flat(date: Text, clock: Text, millis: Text)
    ensures date + [84] + (clock + ([46] + millis)) + [] + [90] == date + [84] + clock + [46] + millis + [90]
  {
  }

  lemma Grouped(front: Text, h: Text, m: Text, s: Text)
    ensures front + (h + [58] + m + [58] + s) == front + h + [58] + m + [58] + s
  {
  }

  /** The formats that read RFC 3339 text: the blanks around it are cut off, and `Auto` also
      takes brackets off and leaves bare numbers to the epoch reader; what neither knows
      goes to the other readers. */
  function Trimmed(s: Text): Text {
    if s != [] && IsWhite(s[0]) then Trimmed(s[1..])
    else if s != [] && IsWhite(s[|s| - 1]) then Trimmed(s[..|s| - 1])
    else s
  }

  predicate BareNumber(s: Text) {
    |s| >= 9 && IsDigit(s[0]) && forall k :: 0 <= k < |s| ==> IsDigit(s[k]) || s[k] == 46
  }

  function Auto(s: Text, epoch: Text -> Option<Parts>, others: Text -> Option<Parts>): Option<Parts> {
    var t := if |s| >= 2 && s[0] == 91 && s[|s| - 1] == 93 then s[1..|s| - 1] else s;
    if BareNumber(t) then epoch(t)
    else match StampOf(t)
      case Some(stamp) => Some(PartsOf(stamp))
      case None => others(t)
  }

  /** Just the blanks around a text are cut off. */
  lemma {:induction false} TrimmedIs(before: Text, s: Text, after: Text)
    requires White(before) && White(after) && (s == [] || (!IsWhite(s[0]) && !IsWhite(s[|s| - 1])))
    ensures Trimmed(before + s + after) == s
    decreases |before| + |after|
  {
    var t := before + s + after;
    if before != [] {
      hide Trimmed, IsWhite;
      assert t[0] == before[0] && t[1..] == before[1..] + s + after;
      TrimmedIs(before[1..], s, after);
      TrimmedOnce(t);
    } else if s == [] && after != [] {
      hide Trimmed, IsWhite;
      assert t == after && t[1..] == before + s + after[1..];
      TrimmedIs(before, s, after[1..]);
      TrimmedOnce(t);
    } else if after != [] {
      hide Trimmed, IsWhite;
      assert t[0] == s[0] && t[|t| - 1] == after[|after| - 1] && t[..|t| - 1] == before + s + after[..|after| - 1];
      TrimmedIs(before, s, after[..|after| - 1]);
      TrimmedOnce(t);
    } else {
      assert t == s;
    }
  }

  /** One turn of the trimming. */
  lemma {:induction false} TrimmedOnce(t: Text)
    requires t != [] && (IsWhite(t[0]) || IsWhite(t[|t| - 1]))
    ensures Trimmed(t) == if IsWhite(t[0]) then Trimmed(t[1..]) else Trimmed(t[..|t| - 1])
  {
  }

  /** Guessing the format: a stamp is taken as such, with square brackets around it or not;
      nine digits or more are a number of seconds, fewer are not. */
  lemma {:induction false} GuessesRight(s: Text, epoch: Text -> Option<Parts>, others: Text -> Option<Parts>)
    ensures StampOf(s).Some? ==>
      Auto(s, epoch, others) == Auto([91] + s + [93], epoch, others) == Some(PartsOf(StampOf(s).value))
    ensures |s| >= 9 && AllDigits(s) ==> Auto(s, epoch, others) == Auto([91] + s + [93], epoch, others) == epoch(s)
    ensures 0 < |s| < 9 && AllDigits(s) ==> Auto(s, epoch, others) == Auto([91] + s + [93], epoch, others) == others(s)
  {
    hide StampOf, AllDigits;
    var t: Text := [91] + s + [93];
    assert t[1..|t| - 1] == s;
    if StampOf(s).Some? {
      StampStarts(s);
    }
    if |s| >= 9 && AllDigits(s) {
      DigitsAll(s);
    }
    if 0 < |s| < 9 && AllDigits(s) {
      FewDigits(s);
    }
  }

  lemma FewDigits(s: Text)
    requires 0 < |s| < 9 && AllDigits(s)
    ensures !BareNumber(s) && s[0] != 91 && StampOf(s) == None
  {
    hide StampOf;
    if StampOf(s).Some? {
      StampStarts(s);
    }
  }

  lemma DigitsAll(s: Text)
    requires |s| >= 9 && AllDigits(s)
    ensures BareNumber(s) && s[0] != 91
  {
  }

  lemma StampStarts(s: Text)
    requires StampOf(s).Some?
    ensures |s| > 4 && IsDigit(s[0]) && s[4] == 45
  {
    hide GapAt, HmsAt, OffsetAt, WhiteRun, DigitsAt;
    FourDigits(s, 0);
    assert s[0..4][0] == s[0];
  }

  /** From 1970 on, a printed instant reads back, as RFC 3339 or by guessing the format, as
      the instant rounded down to the millisecond, and nothing had to be assumed. */
  lemma RoundTrip(nanos: int, ctx: Context, epoch: Text -> Option<Parts>, others: Text -> Option<Parts>)
    requires 0 <= nanos && InI64(nanos)
    ensures var s := Trimmed(Printed(nanos));
      && StampOf(s).Some?
      && Auto(s, epoch, others) == Some(PartsOf(StampOf(s).value))
      && Resolve(PartsOf(StampOf(s).value), ctx) == Ok(nanos - nanos % 1_000_000, NONE)
  {
    hide CivilFromEpoch, EpochFromCivil, StampOf, Printed;
    PrintedReads(nanos);
    EpochRoundTrip(nanos);
    PrintedIsBare(nanos);
    MillisecondsDown(CivilFromEpoch(nanos), nanos);
  }

  /** Written with any offset of whole minutes, in any of the spellings, the local time of an
      instant reads back as the instant, rounded down to the millisecond. */
  lemma ZonedRoundTrip(nanos: int, z: ZoneText, ctx: Context)
    requires LegalZone(z) && z != Bare
    requires var local := nanos + ZoneValue(z).value * NANOS_PER_SEC; InI64(nanos) && InI64(local) && 0 <= local
    ensures var s := Zoned(nanos + ZoneValue(z).value * NANOS_PER_SEC, z);
      StampOf(s).Some? && StampOf(s).value.offset == ZoneValue(z)
      && Resolve(PartsOf(StampOf(s).value), ctx) == Ok(nanos - nanos % 1_000_000, NONE)
  {
    hide CivilFromEpoch, EpochFromCivil, StampOf, Zoned;
    var o := ZoneValue(z).value;
    var local := nanos + o * NANOS_PER_SEC;
    ZonedReads(local, z);
    EpochRoundTrip(local);
    var c := CivilFromEpoch(local);
    MillisecondsDown(c, local);
    ZoneBound(z);
    Shifted(c.(nanos := c.nanos / 1_000_000 * 1_000_000), o, local - local % 1_000_000);
    assert local % 1_000_000 == nanos % 1_000_000;
  }

  lemma ZoneBound(z: ZoneText)
    requires LegalZone(z) && z != Bare
    ensures -DAY_SECS < ZoneValue(z).value < DAY_SECS
  {
  }

  /** The same civil time so many seconds further east is so much earlier. */
  lemma Shifted(c: Civil, o: I32, nanos: int)
    requires EpochFromCivil(c, 0) == Some(nanos) && nanos >= 0 && -DAY_SECS < o < DAY_SECS && InI64(nanos - o * NANOS_PER_SEC)
    ensures EpochFromCivil(c, o) == Some(nanos - o * NANOS_PER_SEC)
  {
    hide DaysFromCivil, IsDate;
    assert Seconds(c, o) == Seconds(c, 0) - o;
    assert Seconds(c, 0) >= 0;
  }

  lemma PrintedIsBare(nanos: int)
    requires InI64(nanos)
    ensures var s := Printed(nanos);
      Trimmed(s) == s && !BareNumber(s) && s[0] != 91
  {
    Widths(nanos);
    var c := CivilFromEpoch(nanos);
    hide CivilFromEpoch;
    var s := Printed(nanos);
    assert s[0] == Four(c.date.year)[0] && s[4] == 45 && s[23] == 90;
    assert s[0] == 48 + c.date.year / 100 / 10;
  }

  /** Dropping the nanoseconds below a millisecond moves the instant down by as much. */
  lemma MillisecondsDown(c: Civil, nanos: int)
    requires EpochFromCivil(c, 0) == Some(nanos) && nanos >= 0
    ensures EpochFromCivil(c.(nanos := c.nanos / 1_000_000 * 1_000_000), 0) == Some(nanos - nanos % 1_000_000)
  {
    hide DaysFromCivil, IsDate;
    var seconds := Seconds(c, 0);
    assert nanos == seconds * 1000 * 1_000_000 + c.nanos;
    assert nanos % 1_000_000 == c.nanos % 1_000_000;
  }
}
