/** The part of Go's `time` package the program relies on: `time.Parse` for
    the fixed layouts it tries, Go's truncating integer division, and the
    `-07:00` zone text of `Time.Format`.

    A parsed time keeps the wall-clock digits as written and the zone offset
    in seconds east of UTC; no conversion between zones ever happens, so
    `t.Hour()`, `t.Minute()`, `t.Day()`, `t.Month()` and `t.Year()` are the
    digits of the input. Fractions of a second are accepted where Go accepts
    them and then dropped, as nothing the program prints depends on them. */
module GoTime {
  import opened Common
  import opened Text

  /** How a layout ends. */
  datatype Zone =
    /** `-07:00`: a sign, two digits, a colon and two digits */
    | NumericOffset
    /** `Z07:00`: a `Z` for UTC, or a numeric offset */
    | ZuluOrOffset
    /** a literal `Z` and nothing else */
    | LiteralZ

  /** `2006-01-02` alone, or `2006-01-02T15:04` with optional `:05`
      seconds and a zone. */
  datatype Layout = DateOnly | DateTime(seconds: bool, zone: Zone)

  /** The result of `time.Parse`, as far as the program reads it. */
  datatype Time = Time(year: nat, month: nat, day: nat, hour: nat, minute: nat, second: nat, offset: int)

  /** A value read off the front of the text, and the text after it. */
  datatype Step<T> = Step(value: T, rest: string)

  // ---------------------------------------------------------------------
  // Calendar
  // ---------------------------------------------------------------------

  predicate IsLeap(year: nat) {
    year % 4 == 0 && (year % 100 != 0 || year % 400 == 0)
  }

  function DaysIn(month: nat, year: nat): nat
    requires 1 <= month <= 12
  {
    if month == 2 then (if IsLeap(year) then 29 else 28)
    else if month == 4 || month == 6 || month == 9 || month == 11 then 30
    else 31
  }

  /** The largest offset, in seconds, a numeric zone can spell: Go allows
      hour 24 and minute 60. */
  const MaxOffset: int := (24 * 60 + 60) * 60

  /** Every value `time.Parse` can return for these layouts. */
  predicate ValidTime(t: Time) {
    && t.year <= 9999
    && 1 <= t.month <= 12
    && 1 <= t.day <= DaysIn(t.month, t.year)
    && t.hour < 24 && t.minute < 60 && t.second < 60
    && t.offset % 60 == 0 && -MaxOffset <= t.offset <= MaxOffset
  }

  // ---------------------------------------------------------------------
  // Go's integer division
  // ---------------------------------------------------------------------

  /** Go's `a / b`: the quotient is truncated toward zero. */
  function Quot(a: int, b: nat): (q: int)
    requires b > 0
    ensures a >= 0 ==> q == a / b
    ensures a < 0 ==> -q == (-a) / b
  {
    if a >= 0 then a / b else -((-a) / b)
  }

  /** Go's `a % b`: the remainder takes the sign of `a`. */
  function Rem(a: int, b: nat): (r: int)
    requires b > 0
    ensures a >= 0 ==> r == a % b
    ensures a < 0 ==> -r == (-a) % b
  {
    a - b * Quot(a, b)
  }

  // ---------------------------------------------------------------------
  // Reading fields
  // ---------------------------------------------------------------------

  /** Exactly `n` digits. */
  function Digits(s: string, n: nat): (r: Option<Step<nat>>)
    ensures r.Some? <==> |s| >= n && AllDigits(s[..n])
    ensures r.Some? ==> r.value.rest == s[n..] && r.value.value < Pow10(n)
  {
    if |s| >= n && AllDigits(s[..n]) then
      NumberBelow(s[..n]);
      Some(Step(Number(s[..n]), s[n..]))
    else None
  }

  /** Go's `getnum(s, false)`: two digits when there are two, else one. */
  function HourDigits(s: string): Option<Step<nat>> {
    if |s| >= 2 && IsDigit(s[0]) && IsDigit(s[1]) then Digits(s, 2) else Digits(s, 1)
  }

  /** A literal character of the layout. */
  function Expect(s: string, c: char): (r: Option<string>)
    ensures r.Some? <==> |s| > 0 && s[0] == c
    ensures r.Some? ==> r.value == s[1..]
  {
    if |s| > 0 && s[0] == c then Some(s[1..]) else None
  }

  /** The length of the run of digits that starts `s`. */
  function DigitRun(s: string): (n: nat)
    ensures n <= |s| && AllDigits(s[..n])
    ensures n < |s| ==> !IsDigit(s[n])
  {
    if |s| > 0 && IsDigit(s[0]) then
      var n := 1 + DigitRun(s[1..]);
      assert s[..n] == [s[0]] + s[1..][..n - 1];
      n
    else 0
  }

  /** After the seconds Go skips a fraction: a `.` or `,` and one or more
      digits. */
  function SkipFraction(s: string): (r: string)
    ensures |r| <= |s| && r == s[|s| - |r|..]
  {
    if |s| >= 2 && (s[0] == '.' || s[0] == ',') && IsDigit(s[1]) then
      s[2 + DigitRun(s[2..])..]
    else s
  }

  /** A `-` and a two-digit field. */
  function DashField(s: string): Option<Step<nat>> {
    var s0 := Expect(s, '-');
    if s0.None? then None else Digits(s0.value, 2)
  }

  /** `2006-01-02`: year, month and day, the month in 1..12 and the day in
      the month's range. */
  function ParseDatePart(s: string): (r: Option<Step<(nat, nat, nat)>>)
    ensures r.Some? ==>
              var (y, m, d) := r.value.value;
              y <= 9999 && 1 <= m <= 12 && 1 <= d <= DaysIn(m, y)
  {
    var y := Digits(s, 4);
    if y.None? then None else
    var m := DashField(y.value.rest);
    if m.None? || !(1 <= m.value.value <= 12) then None else
    var d := DashField(m.value.rest);
    if d.None? || !(1 <= d.value.value <= DaysIn(m.value.value, y.value.value)) then None
    else Some(Step((y.value.value, m.value.value, d.value.value), d.value.rest))
  }

  /** A four-digit number is below 10000. */
  lemma {:induction false} NumberBelow(s: string)
    requires AllDigits(s)
    ensures Number(s) < Pow10(|s|)
  {
    if |s| > 0 {
      NumberBelow(s[..|s| - 1]);
    }
  }

  function Pow10(n: nat): nat {
    if n == 0 then 1 else 10 * Pow10(n - 1)
  }

  /** `T15:04`: hour 0..23 with one or two digits, minute 0..59 with two. */
  function ParseHourMinute(s: string): (r: Option<Step<(nat, nat)>>)
    ensures r.Some? ==> r.value.value.0 < 24 && r.value.value.1 < 60
  {
    var s0 := Expect(s, 'T');
    if s0.None? then None else
    var h := HourDigits(s0.value);
    if h.None? || h.value.value >= 24 then None else
    var s1 := Expect(h.value.rest, ':');
    if s1.None? then None else
    var m := Digits(s1.value, 2);
    if m.None? || m.value.value >= 60 then None
    else Some(Step((h.value.value, m.value.value), m.value.rest))
  }

  /** `:05`: second 0..59, then an optional fraction. */
  function ParseSecond(s: string): (r: Option<Step<nat>>)
    ensures r.Some? ==> r.value.value < 60
  {
    var s0 := Expect(s, ':');
    if s0.None? then None else
    var sec := Digits(s0.value, 2);
    if sec.None? || sec.value.value >= 60 then None
    else Some(Step(sec.value.value, SkipFraction(sec.value.rest)))
  }

  /** `T15:04` and, when `seconds`, `:05` with an optional fraction. */
  function ParseClockPart(s: string, seconds: bool): (r: Option<Step<(nat, nat, nat)>>)
    ensures r.Some? ==>
              var (h, m, sec) := r.value.value;
              h < 24 && m < 60 && sec < 60 && (!seconds ==> sec == 0)
  {
    var hm := ParseHourMinute(s);
    if hm.None? then None
    else if !seconds then Some(Step((hm.value.value.0, hm.value.value.1, 0), hm.value.rest))
    else
      var sec := ParseSecond(hm.value.rest);
      if sec.None? then None
      else Some(Step((hm.value.value.0, hm.value.value.1, sec.value.value), sec.value.rest))
  }

  /** A numeric zone `±hh:mm` with hh up to 24 and mm up to 60, as seconds
      east of UTC. */
  function ParseNumericZone(s: string): (r: Option<Step<int>>)
    ensures r.Some? ==> r.value.value % 60 == 0 && -MaxOffset <= r.value.value <= MaxOffset
    ensures r.Some? ==> |s| >= 6 && r.value.rest == s[6..]
  {
    if |s| < 6 || s[3] != ':' || !(s[0] == '+' || s[0] == '-') then None
    else
      var hh := Digits(s[1..3], 2);
      var mm := Digits(s[4..6], 2);
      if hh.None? || mm.None? || hh.value.value > 24 || mm.value.value > 60 then None
      else
        var secs := (hh.value.value * 60 + mm.value.value) * 60;
        Some(Step(if s[0] == '-' then -secs else secs, s[6..]))
  }

  /** The zone at the end of a layout. */
  function ParseZonePart(s: string, zone: Zone): (r: Option<Step<int>>)
    ensures r.Some? ==> r.value.value % 60 == 0 && -MaxOffset <= r.value.value <= MaxOffset
    ensures r.Some? && zone == LiteralZ ==> r.value.value == 0
  {
    match zone
    case LiteralZ => if |s| > 0 && s[0] == 'Z' then Some(Step(0, s[1..])) else None
    case ZuluOrOffset => if |s| > 0 && s[0] == 'Z' then Some(Step(0, s[1..])) else ParseNumericZone(s)
    case NumericOffset => ParseNumericZone(s)
  }

  /** `time.Parse(layout, s)`: the whole of `s` must be read. */
  function Parse(layout: Layout, s: string): (r: Option<Time>)
    ensures r.Some? ==> ValidTime(r.value)
    ensures r.Some? && layout.DateOnly? ==>
              r.value.hour == 0 && r.value.minute == 0 && r.value.second == 0 && r.value.offset == 0
    ensures r.Some? && layout.DateTime? && !layout.seconds ==> r.value.second == 0
    ensures r.Some? && layout.DateTime? && layout.zone == LiteralZ ==> r.value.offset == 0
  {
    var date := ParseDatePart(s);
    if date.None? then None else
    var (y, mo, d) := date.value.value;
    match layout
    case DateOnly =>
      if date.value.rest == [] then Some(Time(y, mo, d, 0, 0, 0, 0)) else None
    case DateTime(seconds, zone) =>
      var clock := ParseClockPart(date.value.rest, seconds);
      if clock.None? then None else
      var (h, mi, sec) := clock.value.value;
      var z := ParseZonePart(clock.value.rest, zone);
      if z.None? || z.value.rest != [] then None
      else Some(Time(y, mo, d, h, mi, sec, z.value.value))
  }

  /** The first layout of the list that parses `s`. */
  function TryLayouts(layouts: seq<Layout>, s: string): (r: Option<Time>)
    ensures r.Some? ==> exists i :: && 0 <= i < |layouts| && Parse(layouts[i], s) == r
                                    && forall j :: 0 <= j < i ==> Parse(layouts[j], s).None?
    ensures r.None? ==> forall i :: 0 <= i < |layouts| ==> Parse(layouts[i], s).None?
  {
    if |layouts| == 0 then None
    else
      var t := Parse(layouts[0], s);
      if t.Some? then t
      else
        var r := TryLayouts(layouts[1..], s);
        assert forall i :: 0 < i < |layouts| ==> layouts[i] == layouts[1..][i - 1];
        if r.Some? then
          var i :| && 0 <= i < |layouts| - 1 && Parse(layouts[1..][i], s) == r
                   && forall j :: 0 <= j < i ==> Parse(layouts[1..][j], s).None?;
          assert forall j :: 0 <= j < i + 1 ==> Parse(layouts[j], s).None?;
          r
        else r
  }

  // ---------------------------------------------------------------------
  // Writing times back
  // ---------------------------------------------------------------------

  /** `t.Format("-07:00")`: the sign, then hours and minutes of the offset,
      two digits each; a zero offset is `+00:00`. */
  function NumericZoneText(offset: int): (r: string)
    ensures -100 * 3600 < offset < 100 * 3600 ==> |r| == 6
    ensures |r| > 0 && (r[0] == '-' <==> offset <= -60) && (r[0] == '+' <==> offset > -60)
  {
    var zone := Quot(offset, 60);
    var sign := if zone < 0 then "-" else "+";
    var abs: nat := if zone < 0 then -zone else zone;
    PadNat2Length(abs / 60);
    PadNat2Length(abs % 60);
    sign + PadNat(abs / 60, 2) + ":" + PadNat(abs % 60, 2)
  }

  lemma PadNat2Length(n: nat)
    ensures n < 100 ==> |PadNat(n, 2)| == 2
  {
    NatToStringLength(n);
  }

  /** `2006-01-02` written out: four-digit year, two-digit month and day. */
  function RenderDate(t: Time): string {
    PadNat(t.year, 4) + "-" + PadNat(t.month, 2) + "-" + PadNat(t.day, 2)
  }

  /** `T15:04`, and `:05` when the layout has seconds. */
  function RenderClock(t: Time, seconds: bool): string {
    "T" + PadNat(t.hour, 2) + ":" + PadNat(t.minute, 2)
    + (if seconds then ":" + PadNat(t.second, 2) else "")
  }

  /** The zone: `Z` for the literal-Z layouts, a numeric offset otherwise. */
  function RenderZone(zone: Zone, offset: int): string {
    if zone == LiteralZ then "Z" else NumericZoneText(offset)
  }

  /** A canonical text for `t` in `layout`. */
  function Render(layout: Layout, t: Time): string {
    match layout
    case DateOnly => RenderDate(t)
    case DateTime(seconds, zone) => RenderDate(t) + (RenderClock(t, seconds) + RenderZone(zone, t.offset))
  }

  /** The times `Render` can write for `layout`: the fields the layout
      does not carry are zero, and the offset is below 25 hours. */
  predicate Renderable(layout: Layout, t: Time) {
    && ValidTime(t)
    && -(24 * 60 + 59) * 60 <= t.offset <= (24 * 60 + 59) * 60
    && (layout.DateOnly? ==> t.hour == 0 && t.minute == 0 && t.second == 0 && t.offset == 0)
    && (layout.DateTime? && !layout.seconds ==> t.second == 0)
    && (layout.DateTime? && layout.zone == LiteralZ ==> t.offset == 0)
  }

  // ---------------------------------------------------------------------
  // Parsing what was rendered
  // ---------------------------------------------------------------------

  /** Two zero-padded digits read back. */
  lemma DigitsOfPad(n: nat, width: nat, rest: string)
    requires width >= 1 && n < Pow10(width)
    ensures Digits(PadNat(n, width) + rest, width) == Some(Step(n, rest))
  {
    PadNatLength(n, width);
    var s := PadNat(n, width) + rest;
    assert s[..width] == PadNat(n, width);
    assert s[width..] == rest;
    NumberOfPadNat(n, width);
  }

  /** A number below 10^width pads to exactly `width` digits. */
  lemma {:induction false} PadNatLength(n: nat, width: nat)
    requires width >= 1 && n < Pow10(width)
    ensures |PadNat(n, width)| == width
  {
    NatToStringBound(n, width);
  }

  lemma {:induction false} NatToStringBound(n: nat, width: nat)
    requires width >= 1 && n < Pow10(width)
    ensures |NatToString(n)| <= width
    decreases n
  {
    if n >= 10 {
      assert width >= 2;
      NatToStringBound(n / 10, width - 1);
    }
  }

  lemma DashFieldOfRender(n: nat, rest: string)
    requires n < 100
    ensures DashField("-" + PadNat(n, 2) + rest) == Some(Step(n, rest))
  {
    var nn := PadNat(n, 2);
    assert "-" + nn + rest == "-" + (nn + rest);
    assert ("-" + (nn + rest))[1..] == nn + rest;
    DigitsOfPad(n, 2, rest);
  }

  lemma ParseDateOfRender(t: Time, rest: string)
    requires ValidTime(t)
    ensures ParseDatePart(RenderDate(t) + rest) == Some(Step((t.year, t.month, t.day), rest))
  {
    var yy, mm, dd := PadNat(t.year, 4), PadNat(t.month, 2), PadNat(t.day, 2);
    var afterMonth := "-" + dd + rest;
    var afterYear := "-" + mm + afterMonth;
    assert yy + "-" + mm + "-" + dd + rest == yy + afterYear;
    DigitsOfPad(t.year, 4, afterYear);
    DashFieldOfRender(t.month, afterMonth);
    DashFieldOfRender(t.day, rest);
  }

  lemma ParseHourMinuteOfRender(hour: nat, minute: nat, rest: string)
    requires hour < 24 && minute < 60
    ensures ParseHourMinute("T" + PadNat(hour, 2) + ":" + PadNat(minute, 2) + rest)
            == Some(Step((hour, minute), rest))
  {
    var hh, mm := PadNat(hour, 2), PadNat(minute, 2);
    var afterHour := ":" + (mm + rest);
    assert "T" + hh + ":" + mm + rest == "T" + (hh + afterHour);
    ExpectHead('T', hh + afterHour);
    HourDigitsOfPad(hour, afterHour);
    ExpectHead(':', mm + rest);
    DigitsOfPad(minute, 2, rest);
    HourMinuteSteps("T" + (hh + afterHour), hh + afterHour, hour, afterHour, mm + rest, minute, rest);
  }

  lemma ExpectHead(c: char, tail: string)
    ensures Expect([c] + tail, c) == Some(tail)
  {
    assert ([c] + tail)[1..] == tail;
  }

  /** Go's two-digit hour reads a zero-padded hour back. */
  lemma HourDigitsOfPad(n: nat, rest: string)
    requires n < 100
    ensures HourDigits(PadNat(n, 2) + rest) == Some(Step(n, rest))
  {
    var p := PadNat(n, 2);
    PadNatLength(n, 2);
    assert (p + rest)[0] == p[0] && (p + rest)[1] == p[1];
    DigitsOfPad(n, 2, rest);
  }

  /** `T15:04` read field by field. */
  lemma HourMinuteSteps(s: string, s0: string, hour: nat, afterHour: string, s1: string, minute: nat, rest: string)
    requires Expect(s, 'T') == Some(s0) && HourDigits(s0) == Some(Step(hour, afterHour)) && hour < 24
    requires Expect(afterHour, ':') == Some(s1) && Digits(s1, 2) == Some(Step(minute, rest)) && minute < 60
    ensures ParseHourMinute(s) == Some(Step((hour, minute), rest))
  {
  }

  lemma ParseSecondOfRender(second: nat, rest: string)
    requires second < 60
    requires rest == [] || !(rest[0] == '.' || rest[0] == ',')
    ensures ParseSecond(":" + PadNat(second, 2) + rest) == Some(Step(second, rest))
  {
    var ss := PadNat(second, 2);
    assert ":" + ss + rest == ":" + (ss + rest);
    assert (":" + (ss + rest))[1..] == ss + rest;
    DigitsOfPad(second, 2, rest);
  }

  lemma ParseClockOfRender(t: Time, seconds: bool, rest: string)
    requires ValidTime(t) && (!seconds ==> t.second == 0)
    requires rest == [] || !(rest[0] == '.' || rest[0] == ',')
    ensures ParseClockPart(RenderClock(t, seconds) + rest, seconds) == Some(Step((t.hour, t.minute, t.second), rest))
  {
    var hm := "T" + PadNat(t.hour, 2) + ":" + PadNat(t.minute, 2);
    if seconds {
      var tail := ":" + PadNat(t.second, 2) + rest;
      assert hm + (":" + PadNat(t.second, 2)) + rest == hm + tail;
      ParseHourMinuteOfRender(t.hour, t.minute, tail);
      ParseSecondOfRender(t.second, rest);
    } else {
      assert hm + "" + rest == hm + rest;
      ParseHourMinuteOfRender(t.hour, t.minute, rest);
    }
  }

  lemma NumericZoneOfRender(offset: int)
    requires offset % 60 == 0 && -(24 * 60 + 59) * 60 <= offset <= (24 * 60 + 59) * 60
    ensures ParseNumericZone(NumericZoneText(offset)) == Some(Step(offset, []))
  {
    var zm := Quot(offset, 60);
    assert zm * 60 == offset;
    var abs: nat := if zm < 0 then -zm else zm;
    var h, m := abs / 60, abs % 60;
    assert h <= 24 && m < 60 && h * 60 + m == abs;
    var sign := if zm < 0 then "-" else "+";
    assert NumericZoneText(offset) == sign + PadNat(h, 2) + ":" + PadNat(m, 2);
    NumericZoneOfPads(sign, h, m);
  }

  /** A sign, two padded hour digits, a colon and two padded minute digits
      read back as that many seconds east or west. */
  lemma NumericZoneOfPads(sign: string, h: nat, m: nat)
    requires (sign == "-" || sign == "+") && h <= 24 && m < 60
    ensures var secs := (h * 60 + m) * 60;
            ParseNumericZone(sign + PadNat(h, 2) + ":" + PadNat(m, 2))
            == Some(Step(if sign == "-" then -secs else secs, []))
  {
    var hh, mm := PadNat(h, 2), PadNat(m, 2);
    PadNatLength(h, 2);
    PadNatLength(m, 2);
    var s := sign + hh + ":" + mm;
    assert s[1..3] == hh + [] && s[4..6] == mm + [] && s[3] == ':' && s[6..] == [];
    assert s[0] == sign[0];
    DigitsOfPad(h, 2, []);
    DigitsOfPad(m, 2, []);
  }

  lemma ParseZoneOfRender(offset: int, zone: Zone)
    requires offset % 60 == 0 && -(24 * 60 + 59) * 60 <= offset <= (24 * 60 + 59) * 60
    requires zone == LiteralZ ==> offset == 0
    ensures ParseZonePart(RenderZone(zone, offset), zone) == Some(Step(offset, []))
  {
    if zone != LiteralZ {
      NumericZoneOfRender(offset);
      assert NumericZoneText(offset)[0] != 'Z';
    } else {
      assert "Z"[1..] == [];
    }
  }

  /** Parsing undoes rendering: every time the layout can carry comes back
      from its canonical text. */
  lemma ParseRender(layout: Layout, t: Time)
    requires Renderable(layout, t)
    ensures Parse(layout, Render(layout, t)) == Some(t)
  {
    match layout
    case DateOnly =>
      ParseDateOfRender(t, []);
      assert RenderDate(t) + [] == RenderDate(t);
    case DateTime(seconds, zone) =>
      var clock, zoneText := RenderClock(t, seconds), RenderZone(zone, t.offset);
      ParseDateOfRender(t, clock + zoneText);
      ParseClockOfRender(t, seconds, zoneText);
      ParseZoneOfRender(t.offset, zone);
      ParseOfParts(Render(layout, t), seconds, zone, t, clock + zoneText, zoneText);
  }

  /** Parse reads the date, then the clock, then the zone. */
  lemma ParseOfParts(s: string, seconds: bool, zone: Zone, t: Time, afterDate: string, afterClock: string)
    requires ParseDatePart(s) == Some(Step((t.year, t.month, t.day), afterDate))
    requires ParseClockPart(afterDate, seconds) == Some(Step((t.hour, t.minute, t.second), afterClock))
    requires ParseZonePart(afterClock, zone) == Some(Step(t.offset, []))
    ensures Parse(DateTime(seconds, zone), s) == Some(t)
  {
  }

  // ---------------------------------------------------------------------
  // The last character read
  // ---------------------------------------------------------------------

  /** `rest` is what is left of `s` after a part that ends in a digit. */
  predicate EndsAfterDigit(s: string, rest: string) {
    |rest| < |s| && rest == s[|s| - |rest|..] && IsDigit(s[|s| - |rest| - 1])
  }

  lemma DatePartEnd(s: string)
    requires ParseDatePart(s).Some?
    ensures EndsAfterDigit(s, ParseDatePart(s).value.rest)
  {
    var m := DashField(s[4..]);
    assert s[4..][1..] == s[5..];
    assert m.value.rest == s[7..];
    assert s[7..][1..] == s[8..];
    assert ParseDatePart(s).value.rest == s[10..];
    assert s[8..][..2][1] == s[9];
  }

  lemma SuffixEnd(a: string, b: string, c: string)
    requires EndsAfterDigit(a, b) && EndsAfterDigit(b, c)
    ensures EndsAfterDigit(a, c)
  {
    assert b[|b| - |c| - 1] == a[|a| - |c| - 1];
    assert a[|a| - |c|..] == b[|b| - |c|..];
  }

  lemma HourMinuteEnd(s: string)
    requires ParseHourMinute(s).Some?
    ensures EndsAfterDigit(s, ParseHourMinute(s).value.rest)
  {
    var k := if |s[1..]| >= 2 && IsDigit(s[1..][0]) && IsDigit(s[1..][1]) then 2 else 1;
    assert HourDigits(s[1..]).value.rest == s[1 + k..];
    assert s[1 + k..][1..] == s[2 + k..];
    assert ParseHourMinute(s).value.rest == s[4 + k..];
    assert s[2 + k..][..2][1] == s[3 + k];
  }

  lemma FractionEnd(y: string)
    requires SkipFraction(y) != y
    ensures EndsAfterDigit(y, SkipFraction(y))
  {
    assert |y| >= 2 && (y[0] == '.' || y[0] == ',') && IsDigit(y[1]);
    var run := y[2..];
    var n := DigitRun(run);
    var k := 2 + n;
    assert SkipFraction(y) == y[k..];
    if n > 0 {
      assert run[..n][n - 1] == y[k - 1];
      assert IsDigit(run[..n][n - 1]);
    }
    AfterDigitAt(y, k);
  }

  /** Cutting `s` just after a digit leaves a suffix that ends after that
      digit. */
  lemma AfterDigitAt(s: string, k: nat)
    requires 1 <= k <= |s| && IsDigit(s[k - 1])
    ensures EndsAfterDigit(s, s[k..])
  {
    assert |s[k..]| == |s| - k;
  }

  lemma SecondEnd(s: string)
    requires ParseSecond(s).Some?
    ensures EndsAfterDigit(s, ParseSecond(s).value.rest)
  {
    var y := s[3..];
    assert Digits(s[1..], 2).value.rest == y;
    assert s[1..][..2][1] == s[2];
    assert EndsAfterDigit(s, y);
    if SkipFraction(y) != y {
      FractionEnd(y);
      SuffixEnd(s, y, SkipFraction(y));
    }
  }

  lemma ClockPartEnd(s: string, seconds: bool)
    requires ParseClockPart(s, seconds).Some?
    ensures EndsAfterDigit(s, ParseClockPart(s, seconds).value.rest)
  {
    var hm := ParseHourMinute(s);
    HourMinuteEnd(s);
    if seconds {
      SecondEnd(hm.value.rest);
      SuffixEnd(s, hm.value.rest, ParseSecond(hm.value.rest).value.rest);
    }
  }

  lemma ZonePartEnd(s: string, zone: Zone)
    requires ParseZonePart(s, zone).Some? && ParseZonePart(s, zone).value.rest == []
    ensures |s| > 0 && (s[|s| - 1] == 'Z' || IsDigit(s[|s| - 1]))
  {
    if !(|s| > 0 && s[0] == 'Z' && zone != NumericOffset) {
      assert |s| == 6;
      assert s[4..6][..2][1] == s[5];
    }
  }

  /** Every layout ends in a digit or the letter `Z`, so every text `Parse`
      accepts ends in one of them too: a lower-case `z` is never read. */
  lemma ParseLastChar(layout: Layout, s: string)
    requires Parse(layout, s).Some?
    ensures |s| > 0 && (IsDigit(s[|s| - 1]) || s[|s| - 1] == 'Z')
  {
    var date := ParseDatePart(s);
    DatePartEnd(s);
    if layout.DateTime? {
      var r1 := date.value.rest;
      var clock := ParseClockPart(r1, layout.seconds);
      ClockPartEnd(r1, layout.seconds);
      var r2 := clock.value.rest;
      ZonePartEnd(r2, layout.zone);
      assert r2[|r2| - 1] == r1[|r1| - 1];
      assert r1[|r1| - 1] == s[|s| - 1];
    }
  }
}
