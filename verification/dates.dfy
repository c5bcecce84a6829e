/** formatter/dates.go: the `T12(…)`, `T24(…)` and `D(…)` tokens.

    Each token is found by its own regular expression, its argument is
    trimmed, checked and parsed against a fixed list of layouts, and the
    token is rewritten; whenever a step fails the token is left as it was. */
module Dates {
  import opened Common
  import opened Text
  import opened Regex
  import opened GoTime

  /** The layouts `parseTime` tries, in order. */
  const TimeLayouts: seq<Layout> := [
    DateTime(true, NumericOffset), DateTime(false, NumericOffset),
    DateTime(true, ZuluOrOffset), DateTime(false, ZuluOrOffset),
    DateTime(true, LiteralZ), DateTime(false, LiteralZ)]

  /** The layouts `parseDate` tries, in order: only these accept a bare
      date. */
  const DateLayouts: seq<Layout> := [
    DateTime(true, NumericOffset), DateTime(false, NumericOffset),
    DateTime(true, LiteralZ), DateTime(false, LiteralZ),
    DateOnly]

  const Months: seq<string> :=
    ["Jan", "Feb", "Mar", "Apr", "May", "Jun", "Jul", "Aug", "Sep", "Oct", "Nov", "Dec"]

  // ---------------------------------------------------------------------
  // Parsing
  // ---------------------------------------------------------------------

  /** The typographic minus sign U+2212 becomes an ASCII hyphen. */
  function NormalizeMinus(s: string): string {
    ReplaceChar(s, MinusSign, '-')
  }

  function ParseTime(iso: string): Option<Time> {
    TryLayouts(TimeLayouts, NormalizeMinus(iso))
  }

  function ParseDate(iso: string): Option<Time> {
    TryLayouts(DateLayouts, NormalizeMinus(iso))
  }

  // ---------------------------------------------------------------------
  // isValidTimeFormat
  // ---------------------------------------------------------------------

  /** `strings.HasSuffix(strings.ToUpper(s), "Z")`: only `Z` and `z`
      upper-case to `Z`. */
  predicate EndsWithZ(s: string) {
    |s| > 0 && (s[|s| - 1] == 'Z' || s[|s| - 1] == 'z')
  }

  /** `strconv.Atoi` on a two-character string: an optional sign and one
      digit, or two digits. */
  function Atoi2(s: string): (r: Option<int>)
    requires |s| == 2
    ensures r.Some? <==> IsDigit(s[1]) && (IsDigit(s[0]) || s[0] == '+' || s[0] == '-')
    ensures IsDigit(s[0]) && IsDigit(s[1]) ==> r == Some(10 * DigitValue(s[0]) + DigitValue(s[1]))
    ensures s[0] == '+' && IsDigit(s[1]) ==> r == Some(DigitValue(s[1]))
    ensures s[0] == '-' && IsDigit(s[1]) ==> r == Some(-(DigitValue(s[1]) as int))
    ensures r.Some? && 0 <= r.value ==> r.value <= 99
    ensures r.Some? && r.value < 0 ==> s[0] == '-'
  {
    if s[0] == '+' || s[0] == '-' then
      if IsDigit(s[1]) then
        var d: int := DigitValue(s[1]);
        Some(if s[0] == '-' then -d else d)
      else None
    else if IsDigit(s[0]) && IsDigit(s[1]) then Some(10 * DigitValue(s[0]) + DigitValue(s[1]))
    else None
  }

  /** An offset as the validator wants it, from the sign on: six
      characters, a colon at index 3, hours 0..23 and minutes 0..59 as
      `strconv.Atoi` reads them. */
  predicate ValidOffsetSuffix(suffix: string) {
    && |suffix| == 6
    && suffix[3] == ':'
    && Atoi2(suffix[1..3]).Some? && 0 <= Atoi2(suffix[1..3]).value <= 23
    && Atoi2(suffix[4..6]).Some? && 0 <= Atoi2(suffix[4..6]).value <= 59
  }

  /** The check that runs before parsing a time. The `-` position is
      compared as a byte offset, as Go strings are indexed by byte; the
      six-character suffix is equivalent to Go's six-byte one, because
      every byte of a suffix that passes is ASCII. */
  function IsValidTimeFormat(iso: string): bool {
    if EndsWithZ(iso) then true
    else
      match LastIndexOf(iso, '+')
      case Some(plus) => ValidOffsetSuffix(iso[plus..])
      case None =>
        match LastIndexOf(iso, '-')
        case None => false
        case Some(minus) => ByteLen(iso[..minus]) > 10 && ValidOffsetSuffix(iso[minus..])
  }

  /** `iso[i]` is the last `c` of `iso`. */
  predicate LastAt(iso: string, c: char, i: int) {
    0 <= i < |iso| && iso[i] == c && c !in iso[i + 1..]
  }

  /** The validator, stated without the search: a `Z` or `z` at the end;
      or a valid offset starting at the last `+`; or, with no `+` at all, a
      valid offset starting at the last `-`, which lies past byte 10. */
  lemma IsValidTimeFormatSpec(iso: string)
    ensures IsValidTimeFormat(iso) <==>
              || EndsWithZ(iso)
              || (exists i :: LastAt(iso, '+', i) && ValidOffsetSuffix(iso[i..]))
              || ('+' !in iso
                  && exists i :: LastAt(iso, '-', i) && ByteLen(iso[..i]) > 10 && ValidOffsetSuffix(iso[i..]))
  {
    if !EndsWithZ(iso) {
      LastIsUnique(iso, '+');
      LastIsUnique(iso, '-');
      match LastIndexOf(iso, '+')
      case Some(p) =>
        assert LastAt(iso, '+', p);
      case None =>
        assert !exists i :: LastAt(iso, '+', i);
        match LastIndexOf(iso, '-')
        case Some(m) =>
          assert LastAt(iso, '-', m);
        case None =>
          assert !exists i :: LastAt(iso, '-', i);
    }
  }

  /** The last occurrence is the only index holding `c` with no `c` after
      it. */
  lemma LastIsUnique(s: string, c: char)
    ensures forall i :: LastAt(s, c, i) ==> LastIndexOf(s, c) == Some(i)
  {
  }

  // ---------------------------------------------------------------------
  // Rendering
  // ---------------------------------------------------------------------

  /** `formatOffset`: `(+00:00)` after a `Z`; otherwise the hours and
      minutes of the offset, computed with Go's truncating division, and a
      `-` only when the hours are negative. */
  function FormatOffset(iso: string, t: Time): string {
    if EndsWithZ(iso) then "(+00:00)"
    else OffsetText(Quot(t.offset, 3600), Quot(Rem(t.offset, 3600), 60))
  }

  /** `(%s%02d:%02d)` of the sign of the hours, their magnitude and the
      minutes as they are. */
  function OffsetText(hours: int, minutes: int): string {
    var sign := if hours < 0 then "-" else "+";
    var h := if hours < 0 then -hours else hours;
    "(" + sign + IntPad2(h) + ":" + IntPad2(minutes) + ")"
  }

  /** The hour on a 12-hour clock: 0 is 12, 13..23 lose 12. */
  function Hour12(hour: nat): (r: nat)
    ensures hour < 24 ==> 1 <= r <= 12
    ensures hour < 24 ==> hour == r % 12 + (if Meridiem(hour) == "PM" then 12 else 0)
  {
    if hour > 12 then hour - 12 else if hour == 0 then 12 else hour
  }

  function Meridiem(hour: nat): string {
    if hour >= 12 then "PM" else "AM"
  }

  /** `hh:mmAM` or `hh:mmPM`. */
  function Clock12(t: Time): string {
    IntPad2(Hour12(t.hour)) + ":" + IntPad2(t.minute) + Meridiem(t.hour)
  }

  /** `hh:mm` on a 24-hour clock. */
  function Clock24(t: Time): string {
    IntPad2(t.hour) + ":" + IntPad2(t.minute)
  }

  /** `format12HourTime` and `format24HourTime`: the clock, a space and the
      offset. */
  function FormatClock(format: string, t: Time, offset: string): string {
    (if format == "12h" then Clock12(t) else Clock24(t)) + " " + offset
  }

  /** The tag whose regular expression `FormatTimeToken` uses. */
  function TimeTag(format: string): string {
    if format == "12h" then "T12" else "T24"
  }

  /** `FormatTimeToken`: the time inside `T12(…)` (format "12h") or
      `T24(…)` (any other format), or the token unchanged. */
  function FormatTimeToken(token: string, format: string): string {
    match FindCallArgument(TimeTag(format), token)
    case None => token
    case Some(arg) =>
      var iso := TrimSpace(arg);
      if !IsValidTimeFormat(iso) then token
      else
        match ParseTime(iso)
        case None => token
        case Some(t) =>
          FormatClock(format, t, FormatOffset(iso, t))
  }

  /** `FormatDateToken`: `DD Mon YYYY` for the date inside `D(…)`, the year
      with `%d` (no padding), or the token unchanged. */
  function FormatDateToken(token: string): string {
    match FindCallArgument("D", token)
    case None => token
    case Some(arg) =>
      match ParseDate(TrimSpace(arg))
      case None => token
      case Some(t) => DateText(t)
  }

  /** A time token around a trimmed argument without `)` that the check
      accepts and a layout parses is rewritten with the parsed time. */
  lemma TimeTokenOfText(format: string, s: string, t: Time)
    requires |s| >= 1 && IsDigit(s[0]) && (IsDigit(s[|s| - 1]) || s[|s| - 1] == 'Z') && ')' !in s
    requires IsValidTimeFormat(s) && ParseTime(s) == Some(t)
    ensures FormatTimeToken(TimeTag(format) + "(" + s + ")", format) == FormatClock(format, t, FormatOffset(s, t))
  {
    FindCallArgumentOf(TimeTag(format), s);
    DigitEndsTrimmed(s);
    TimeTokenOfArgument(TimeTag(format) + "(" + s + ")", format, s, t);
  }

  lemma TimeTokenOfArgument(token: string, format: string, arg: string, t: Time)
    requires FindCallArgument(TimeTag(format), token) == Some(arg)
    requires TrimSpace(arg) == arg && IsValidTimeFormat(arg) && ParseTime(arg) == Some(t)
    ensures FormatTimeToken(token, format) == FormatClock(format, t, FormatOffset(arg, t))
  {
  }

  /** A date token around a trimmed argument without `)` that a layout
      parses is rewritten with the parsed date. */
  lemma DateTokenOfText(s: string, t: Time)
    requires |s| >= 1 && IsDigit(s[0]) && (IsDigit(s[|s| - 1]) || s[|s| - 1] == 'Z') && ')' !in s
    requires ParseDate(s) == Some(t)
    ensures 1 <= t.month <= 12 && FormatDateToken("D(" + s + ")") == DateText(t)
  {
    FindCallArgumentOf("D", s);
    assert "D" + "(" == "D(";
    DigitEndsTrimmed(s);
    DateTokenOfArgument("D(" + s + ")", s, t);
  }

  lemma DateTokenOfArgument(token: string, arg: string, t: Time)
    requires FindCallArgument("D", token) == Some(arg)
    requires TrimSpace(arg) == arg && ParseDate(arg) == Some(t)
    ensures 1 <= t.month <= 12 && FormatDateToken(token) == DateText(t)
  {
  }

  /** A text that starts with a digit and ends in a digit or `Z` is
      already trimmed. */
  lemma DigitEndsTrimmed(s: string)
    requires |s| >= 1 && IsDigit(s[0]) && (IsDigit(s[|s| - 1]) || s[|s| - 1] == 'Z')
    ensures TrimSpace(s) == s
  {
    TrimSpaceOfTrimmed(s);
  }

  /** A time token whose trimmed argument fails the check is kept. */
  lemma TimeTokenKept(token: string, format: string, arg: string)
    requires FindCallArgument(TimeTag(format), token) == Some(arg)
    requires TrimSpace(arg) == arg && !IsValidTimeFormat(arg)
    ensures FormatTimeToken(token, format) == token
  {
  }

  /** The date parser reads a text as it reads its normalised form. */
  lemma ParseDateOfNormalized(s: string, u: string)
    requires NormalizeMinus(s) == u && NormalizeMinus(u) == u
    ensures ParseDate(s) == ParseDate(u)
  {
  }

  /** A text ending in `Z` passes the check and its offset is shown as
      `(+00:00)`. */
  lemma ZuluSuffix(s: string, t: Time)
    requires |s| >= 1 && s[|s| - 1] == 'Z'
    ensures IsValidTimeFormat(s) && FormatOffset(s, t) == "(+00:00)"
  {
  }

  /** `%02d %s %d` of the day, the month's short name and the year. */
  function DateText(t: Time): string
    requires 1 <= t.month <= 12
  {
    IntPad2(t.day) + " " + Months[t.month - 1] + " " + NatToString(t.year)
  }

  /** T12 tokens, then T24 tokens, then D tokens. */
  function ReplaceTimesThenDates(text: string): string {
    var afterT12 := ReplaceAll(Call("T12"), text, Format12h);
    var afterT24 := ReplaceAll(Call("T24"), afterT12, Format24h);
    ReplaceAll(Call("D"), afterT24, FormatDateToken)
  }

  function Format12h(token: string): string { FormatTimeToken(token, "12h") }

  function Format24h(token: string): string { FormatTimeToken(token, "24h") }

  // ---------------------------------------------------------------------
  // The offset text
  // ---------------------------------------------------------------------

  /** For offsets east of UTC and for whole hours west of it, the offset is
      written back exactly as Go writes the zone `-07:00`. */
  lemma FormatOffsetEcho(iso: string, t: Time)
    requires !EndsWithZ(iso) && t.offset % 60 == 0
    requires t.offset >= 0 || t.offset % 3600 == 0
    ensures FormatOffset(iso, t) == "(" + NumericZoneText(t.offset) + ")"
  {
    var o := t.offset;
    var hours, minutes := Quot(o, 3600), Quot(Rem(o, 3600), 60);
    var zone := Quot(o, 60);
    var abs: nat := if zone < 0 then -zone else zone;
    OffsetFields(o);
    var sign := if zone < 0 then "-" else "+";
    OffsetTextOfFields(hours, minutes, sign, abs / 60, abs % 60);
    assert NumericZoneText(o) == sign + PadNat(abs / 60, 2) + ":" + PadNat(abs % 60, 2);
  }

  /** `OffsetText` of non-negative minutes and hours of a given sign. */
  lemma OffsetTextOfFields(hours: int, minutes: int, sign: string, h: nat, m: nat)
    requires sign == (if hours < 0 then "-" else "+")
    requires (if hours < 0 then -hours else hours) == h && minutes == m
    ensures OffsetText(hours, minutes) == "(" + (sign + PadNat(h, 2) + ":" + PadNat(m, 2)) + ")"
  {
    assert IntPad2(if hours < 0 then -hours else hours) == PadNat(h, 2);
    assert IntPad2(minutes) == PadNat(m, 2);
  }

  /** The hours and minutes `formatOffset` computes agree with the ones of
      the zone in minutes, when the minutes are not negative. */
  lemma OffsetFields(o: int)
    requires o % 60 == 0 && (o >= 0 || o % 3600 == 0)
    ensures var zone := Quot(o, 60);
            var abs := if zone < 0 then -zone else zone;
            var hours := Quot(o, 3600);
            && (hours < 0 <==> zone < 0)
            && (if hours < 0 then -hours else hours) == abs / 60
            && Quot(Rem(o, 3600), 60) == abs % 60
  {
    if o >= 0 {
      var a := o / 60;
      var h, m := a / 60, a % 60;
      assert o == 3600 * h + 60 * m;
      assert o / 3600 == h && o % 3600 == 60 * m;
    } else {
      var h := (-o) / 3600;
      assert -o == 3600 * h;
      assert (-o) / 60 == 60 * h;
    }
  }

  /** West of UTC by a part of an hour, the minutes are printed with their
      own minus sign, and the hours lose theirs when under one hour:
      `-05:30` comes out as `(-05:-30)` and `-00:30` as `(+00:-30)`. */
  lemma FormatOffsetSplitsMinutes(iso: string, t: Time)
    requires !EndsWithZ(iso) && t.offset % 60 == 0
    requires t.offset < 0 && t.offset % 3600 != 0
    ensures var h, m := (-t.offset) / 3600, ((-t.offset) % 3600) / 60;
            FormatOffset(iso, t) == "(" + (if h > 0 then "-" else "+") + PadNat(h, 2) + ":-" + NatToString(m) + ")"
  {
    var o: nat := -t.offset;
    var h, m := o / 3600, (o % 3600) / 60;
    SplitFields(t.offset);
    OffsetTextSplit(Quot(t.offset, 3600), Quot(Rem(t.offset, 3600), 60), h, m);
  }

  /** `OffsetText` of non-positive hours and negative minutes. */
  lemma OffsetTextSplit(hours: int, minutes: int, h: nat, m: nat)
    requires hours + h == 0 && minutes + m == 0 && m > 0
    ensures OffsetText(hours, minutes) == "(" + (if h > 0 then "-" else "+") + PadNat(h, 2) + ":-" + NatToString(m) + ")"
  {
    assert IntPad2(minutes) == "-" + NatToString(m);
    assert IntPad2(if hours < 0 then -hours else hours) == PadNat(h, 2);
  }

  /** The fields `formatOffset` computes for an offset west of UTC that is
      not a whole number of hours. */
  lemma SplitFields(o: int)
    requires o < 0 && o % 60 == 0 && o % 3600 != 0
    ensures Quot(o, 3600) == -((-o) / 3600)
    ensures Quot(Rem(o, 3600), 60) == -(((-o) % 3600) / 60) < 0
  {
    var p := -o;
    var h, r := p / 3600, p % 3600;
    assert r % 60 == 0 && r > 0;
  }

  /** The quirk makes the offset differ from the zone Go would write: the
      sixth character is a minus sign where Go writes a digit. */
  lemma FormatOffsetSplitDiffers(iso: string, t: Time)
    requires !EndsWithZ(iso) && t.offset % 60 == 0
    requires -100 * 3600 < t.offset < 0 && t.offset % 3600 != 0
    ensures FormatOffset(iso, t) != "(" + NumericZoneText(t.offset) + ")"
  {
    SplitMinuteSign(iso, t);
    ZoneMinuteDigit(t.offset);
  }

  lemma SplitMinuteSign(iso: string, t: Time)
    requires !EndsWithZ(iso) && t.offset % 60 == 0
    requires -100 * 3600 < t.offset < 0 && t.offset % 3600 != 0
    ensures |FormatOffset(iso, t)| > 5 && FormatOffset(iso, t)[5] == '-'
  {
    FormatOffsetSplitsMinutes(iso, t);
    PadNat2Length((-t.offset) / 3600);
  }

  lemma ZoneMinuteDigit(offset: int)
    requires -100 * 3600 < offset < 100 * 3600
    ensures var z := "(" + NumericZoneText(offset) + ")";
            |z| > 5 && IsDigit(z[5])
  {
    var abs: nat := if offset <= -60 then -Quot(offset, 60) else Quot(offset, 60);
    PadNat2Length(abs / 60);
    PadNat2Length(abs % 60);
    var z := NumericZoneText(offset);
    assert z[4] == PadNat(abs % 60, 2)[0];
  }

  /** Worked cases of the minutes quirk: five and a half hours, and half an
      hour, west of UTC. */
  lemma FormatOffsetExampleFiveThirty(iso: string, t: Time)
    requires !EndsWithZ(iso) && t.offset == -(5 * 3600 + 30 * 60)
    ensures FormatOffset(iso, t) == "(-05:-30)"
  {
    assert Quot(t.offset, 3600) == -5;
    assert Rem(t.offset, 3600) == -1800;
    assert Quot(-1800, 60) == -30;
    PadTexts();
    assert OffsetText(-5, -30) == "(" + "-" + "05" + ":" + "-30" + ")";
  }

  lemma FormatOffsetExampleHalfHour(iso: string, t: Time)
    requires !EndsWithZ(iso) && t.offset == -30 * 60
    ensures FormatOffset(iso, t) == "(+00:-30)"
  {
    assert Quot(t.offset, 3600) == 0;
    assert Rem(t.offset, 3600) == -1800;
    assert Quot(-1800, 60) == -30;
    PadTexts();
    assert OffsetText(0, -30) == "(" + "+" + "00" + ":" + "-30" + ")";
  }

  lemma PadTexts()
    ensures IntPad2(0) == "00" && IntPad2(5) == "05" && IntPad2(-30) == "-30"
  {
    assert NatToString(0) == "0";
    assert seq(1, _ => '0') == "0";
    assert NatToString(5) == "5";
    assert NatToString(30) == "30";
  }

  // ---------------------------------------------------------------------
  // Tokens written in the canonical form
  // ---------------------------------------------------------------------

  /** The canonical text of a time with seconds and a numeric offset, the
      form the first layout of both lists reads. */
  function IsoTime(t: Time): string {
    GoTime.Render(DateTime(true, NumericOffset), t)
  }

  /** The offsets the validator lets through: at most 23:59 either way. */
  predicate ValidatorOffset(offset: int) {
    -(23 * 60 + 59) * 60 <= offset <= (23 * 60 + 59) * 60
  }

  lemma RenderDateChars(t: Time)
    ensures forall c :: c in RenderDate(t) ==> IsDigit(c) || c == '-'
  {
    DigitsMembers(PadNat(t.year, 4));
    DigitsMembers(PadNat(t.month, 2));
    DigitsMembers(PadNat(t.day, 2));
  }

  lemma RenderClockChars(t: Time, seconds: bool)
    ensures forall c :: c in RenderClock(t, seconds) ==> IsDigit(c) || c == 'T' || c == ':'
  {
    DigitsMembers(PadNat(t.hour, 2));
    DigitsMembers(PadNat(t.minute, 2));
    DigitsMembers(PadNat(t.second, 2));
  }

  /** After its sign, a numeric zone holds only digits and a colon, and it
      ends in a digit. */
  lemma NumericZoneChars(offset: int)
    ensures var z := NumericZoneText(offset);
            && (forall c :: c in z[1..] ==> IsDigit(c) || c == ':')
            && IsDigit(z[|z| - 1])
  {
    var zone := Quot(offset, 60);
    var abs: nat := if zone < 0 then -zone else zone;
    var sign := if zone < 0 then "-" else "+";
    ZonePiecesChars(sign, PadNat(abs / 60, 2), PadNat(abs % 60, 2));
  }

  lemma ZonePiecesChars(sign: string, hh: string, mm: string)
    requires |sign| == 1 && AllDigits(hh) && AllDigits(mm) && |mm| >= 1
    ensures var z := sign + hh + ":" + mm;
            && (forall c :: c in z[1..] ==> IsDigit(c) || c == ':')
            && IsDigit(z[|z| - 1])
  {
    var z := sign + hh + ":" + mm;
    assert z[1..] == hh + ":" + mm;
    DigitsMembers(hh);
    DigitsMembers(mm);
    assert z[|z| - 1] == mm[|mm| - 1];
  }

  lemma DigitsMembers(s: string)
    requires AllDigits(s)
    ensures forall c :: c in s ==> IsDigit(c)
  {
  }

  /** `strconv.Atoi` reads a two-digit padding back. */
  lemma Atoi2OfPad(n: nat)
    requires n < 100
    ensures |PadNat(n, 2)| == 2 && Atoi2(PadNat(n, 2)) == Some(n)
  {
    var p := PadNat(n, 2);
    PadNatLength(n, 2);
    NumberOfPadNat(n, 2);
    assert p[..1][..0] == [];
    assert p[..1] == p[..|p| - 1];
  }

  /** Every zone in the validator's range passes its suffix test. */
  lemma ValidZoneSuffix(offset: int)
    requires offset % 60 == 0 && ValidatorOffset(offset)
    ensures ValidOffsetSuffix(NumericZoneText(offset))
  {
    var zone := Quot(offset, 60);
    var abs: nat := if zone < 0 then -zone else zone;
    var sign := if zone < 0 then "-" else "+";
    assert abs <= 23 * 60 + 59;
    SuffixOfPads(sign, abs / 60, abs % 60);
    assert NumericZoneText(offset) == sign + PadNat(abs / 60, 2) + ":" + PadNat(abs % 60, 2);
  }

  /** A sign, two padded digits for the hours, a colon and two padded
      digits for the minutes pass the suffix test. */
  lemma SuffixOfPads(sign: string, hours: nat, minutes: nat)
    requires |sign| == 1 && hours <= 23 && minutes <= 59
    ensures ValidOffsetSuffix(sign + PadNat(hours, 2) + ":" + PadNat(minutes, 2))
  {
    var hh, mm := PadNat(hours, 2), PadNat(minutes, 2);
    Atoi2OfPad(hours);
    Atoi2OfPad(minutes);
    var z := sign + hh + ":" + mm;
    assert z[1..3] == hh && z[4..6] == mm;
  }

  /** What the canonical text is made of: date, clock, then the zone, whose
      sign is its only `+` or `-` after the date. */
  lemma IsoTimeShape(t: Time)
    ensures var iso, p := IsoTime(t), |RenderDate(t)| + |RenderClock(t, true)|;
            && p + |NumericZoneText(t.offset)| == |iso| && p >= 16
            && iso[p..] == NumericZoneText(t.offset)
            && (forall c :: c in iso[..p] ==> IsDigit(c) || c == '-' || c == 'T' || c == ':')
            && (forall c :: c in iso[p + 1..] ==> IsDigit(c) || c == ':')
            && IsDigit(iso[0]) && IsDigit(iso[|iso| - 1])
  {
    var a, b, z := RenderDate(t), RenderClock(t, true), NumericZoneText(t.offset);
    assert IsoTime(t) == (a + b) + z;
    RenderDateChars(t);
    RenderClockChars(t, true);
    NumericZoneChars(t.offset);
    DigitsMembers(PadNat(t.year, 4));
    assert a[0] == PadNat(t.year, 4)[0];
    assert |a| >= 10 && |b| >= 6;
    ThreePiecesShape(a, b, z);
  }

  /** The shape facts of `IsoTimeShape`, for any date, clock and zone text. */
  lemma ThreePiecesShape(a: string, b: string, z: string)
    requires |a| >= 10 && |b| >= 6 && |z| >= 1 && IsDigit(a[0]) && IsDigit(z[|z| - 1])
    requires forall c :: c in a ==> IsDigit(c) || c == '-'
    requires forall c :: c in b ==> IsDigit(c) || c == 'T' || c == ':'
    requires forall c :: c in z[1..] ==> IsDigit(c) || c == ':'
    ensures var iso, p := (a + b) + z, |a| + |b|;
            && p + |z| == |iso| && p >= 16
            && iso[p..] == z
            && (forall c :: c in iso[..p] ==> IsDigit(c) || c == '-' || c == 'T' || c == ':')
            && (forall c :: c in iso[p + 1..] ==> IsDigit(c) || c == ':')
            && IsDigit(iso[0]) && IsDigit(iso[|iso| - 1])
  {
    var iso, p := (a + b) + z, |a| + |b|;
    assert iso[..p] == a + b;
    assert iso[p + 1..] == z[1..];
    assert iso[p..] == z;
    assert iso[0] == a[0];
    assert iso[|iso| - 1] == z[|z| - 1];
  }

  /** The validator accepts the canonical text of every time whose offset
      is in its range. */
  lemma IsoTimeIsValid(t: Time)
    requires t.offset % 60 == 0 && ValidatorOffset(t.offset)
    ensures IsValidTimeFormat(IsoTime(t))
  {
    var iso, p := IsoTime(t), |RenderDate(t)| + |RenderClock(t, true)|;
    var z := NumericZoneText(t.offset);
    IsoTimeShape(t);
    ValidZoneSuffix(t.offset);
    assert iso[p] == z[0];
    ValidAtZone(iso, p);
  }

  /** A text of date and clock characters followed by a valid signed zone
      passes the check at its sign. */
  lemma ValidAtZone(iso: string, p: nat)
    requires p < |iso| && p > 10 && (iso[p] == '+' || iso[p] == '-')
    requires forall c :: c in iso[..p] ==> IsDigit(c) || c == '-' || c == 'T' || c == ':'
    requires forall c :: c in iso[p + 1..] ==> IsDigit(c) || c == ':'
    requires IsDigit(iso[|iso| - 1]) && ValidOffsetSuffix(iso[p..])
    ensures IsValidTimeFormat(iso)
  {
    SignedTextChars(iso, p);
    if iso[p] == '+' {
      ValidAtLastPlus(iso, p);
    } else {
      ValidAtLastMinus(iso, p);
    }
  }

  lemma ValidAtLastPlus(iso: string, p: nat)
    requires p < |iso| && !EndsWithZ(iso) && iso[p] == '+' && '+' !in iso[p + 1..]
    requires ValidOffsetSuffix(iso[p..])
    ensures IsValidTimeFormat(iso)
  {
    LastIsUnique(iso, '+');
    assert LastAt(iso, '+', p);
  }

  lemma ValidAtLastMinus(iso: string, p: nat)
    requires p < |iso| && !EndsWithZ(iso) && iso[p] == '-' && '-' !in iso[p + 1..] && '+' !in iso
    requires p > 10 && ValidOffsetSuffix(iso[p..])
    ensures IsValidTimeFormat(iso)
  {
    LastIsUnique(iso, '-');
    assert LastAt(iso, '-', p);
    assert ByteLen(iso[..p]) >= p;
  }

  /** The canonical text holds no typographic minus, so normalising leaves
      it alone. */
  lemma IsoTimeNormalized(t: Time)
    ensures NormalizeMinus(IsoTime(t)) == IsoTime(t)
    ensures MinusSign !in IsoTime(t) && ')' !in IsoTime(t) && '(' !in IsoTime(t) && |IsoTime(t)| >= 1
  {
    var iso, p := IsoTime(t), |RenderDate(t)| + |RenderClock(t, true)|;
    IsoTimeShape(t);
    assert iso[p] == NumericZoneText(t.offset)[0];
    SignedTextChars(iso, p);
    NormalizeWithoutMinus(iso);
  }

  /** A text made of date and clock characters, one sign, and zone digits
      holds no typographic minus and no parenthesis. */
  lemma SignedTextChars(iso: string, p: nat)
    requires p < |iso| && (iso[p] == '+' || iso[p] == '-')
    requires forall c :: c in iso[..p] ==> IsDigit(c) || c == '-' || c == 'T' || c == ':'
    requires forall c :: c in iso[p + 1..] ==> IsDigit(c) || c == ':'
    ensures MinusSign !in iso && ')' !in iso && '(' !in iso
    ensures '+' !in iso[p + 1..] && '-' !in iso[p + 1..]
    ensures iso[p] == '-' ==> '+' !in iso
  {
    var zone := iso[p + 1..];
    forall j | 0 <= j < |zone|
      ensures zone[j] != '+' && zone[j] != '-'
    {
      assert zone[j] in zone;
      assert IsDigit(zone[j]) || zone[j] == ':';
    }
    forall i | 0 <= i < |iso|
      ensures iso[i] != MinusSign && iso[i] != ')' && iso[i] != '('
      ensures i != p ==> iso[i] != '+'
    {
      if i < p {
        var c := iso[..p][i];
        assert c in iso[..p];
        assert IsDigit(c) || c == '-' || c == 'T' || c == ':';
        assert iso[i] == c;
      } else if i > p {
        var c := iso[p + 1..][i - p - 1];
        assert c in iso[p + 1..];
        assert IsDigit(c) || c == ':';
        assert iso[i] == c;
      } else {
        assert iso[i] == '+' || iso[i] == '-';
      }
    }
  }

  /** Normalising a text without the typographic minus changes nothing. */
  lemma NormalizeWithoutMinus(s: string)
    requires MinusSign !in s
    ensures NormalizeMinus(s) == s
  {
    assert forall i :: 0 <= i < |s| ==> NormalizeMinus(s)[i] == s[i];
  }

  /** Both parsers read the canonical text back with their first layout. */
  lemma IsoTimeParses(t: Time)
    requires Renderable(DateTime(true, NumericOffset), t)
    ensures ParseTime(IsoTime(t)) == Some(t)
    ensures ParseDate(IsoTime(t)) == Some(t)
  {
    IsoTimeNormalized(t);
    ParseRender(DateTime(true, NumericOffset), t);
  }

  /** The canonical text is read out of its token, and is already trimmed. */
  lemma IsoTimeToken(tag: string, t: Time)
    ensures FindCallArgument(tag, tag + "(" + IsoTime(t) + ")") == Some(IsoTime(t))
    ensures TrimSpace(IsoTime(t)) == IsoTime(t)
  {
    IsoTimeNormalized(t);
    CallTokenOf(tag, IsoTime(t));
    IsoTimeEnds(t);
  }

  /** The canonical text starts and ends with a digit. */
  lemma IsoTimeEnds(t: Time)
    ensures |IsoTime(t)| >= 1 && IsDigit(IsoTime(t)[0]) && IsDigit(IsoTime(t)[|IsoTime(t)| - 1])
    ensures !EndsWithZ(IsoTime(t)) && TrimSpace(IsoTime(t)) == IsoTime(t)
  {
    IsoTimeShape(t);
    TrimSpaceOfTrimmed(IsoTime(t));
  }

  /** A time token around a canonical time is rewritten with that time's
      own hour and minute, followed by the offset as `formatOffset` writes
      it. */
  lemma TimeTokenOfIsoTime(format: string, t: Time)
    requires Renderable(DateTime(true, NumericOffset), t) && ValidatorOffset(t.offset)
    ensures FormatTimeToken(TimeTag(format) + "(" + IsoTime(t) + ")", format)
            == FormatClock(format, t, FormatOffset(IsoTime(t), t))
  {
    IsoTimeEnds(t);
    IsoTimeNormalized(t);
    IsoTimeIsValid(t);
    IsoTimeParses(t);
    TimeTokenOfText(format, IsoTime(t), t);
  }

  /** With an offset east of UTC or a whole number of hours west of it, the
      rewritten token repeats the offset of the input text. */
  lemma TimeTokenEchoesOffset(format: string, t: Time)
    requires Renderable(DateTime(true, NumericOffset), t) && ValidatorOffset(t.offset)
    requires t.offset >= 0 || t.offset % 3600 == 0
    ensures FormatTimeToken(TimeTag(format) + "(" + IsoTime(t) + ")", format)
            == FormatClock(format, t, "(" + NumericZoneText(t.offset) + ")")
  {
    var iso := IsoTime(t);
    TimeTokenOfIsoTime(format, t);
    IsoTimeEnds(t);
    FormatOffsetEcho(iso, t);

  }

  /** A date token around a canonical time gives that time's date. */
  lemma DateTokenOfIsoTime(t: Time)
    requires Renderable(DateTime(true, NumericOffset), t)
    ensures FormatDateToken("D(" + IsoTime(t) + ")")
            == DateText(t)
  {
    IsoTimeEnds(t);
    IsoTimeNormalized(t);
    IsoTimeParses(t);
    DateTokenOfText(IsoTime(t), t);
  }

  // ---------------------------------------------------------------------
  // Times in UTC, bare dates and the typographic minus
  // ---------------------------------------------------------------------

  /** The canonical text of a UTC time written with a trailing `Z`. */
  function ZuluTime(t: Time): string {
    GoTime.Render(DateTime(true, LiteralZ), t)
  }

  /** The numeric layouts fail on a trailing `Z`; the first layout that
      accepts it reads the time back. */
  lemma ZuluTimeParses(t: Time)
    requires Renderable(DateTime(true, LiteralZ), t)
    ensures ParseTime(ZuluTime(t)) == Some(t)
  {
    ZuluTimeNormalized(t);
    NumericLayoutsRejectZ(t);
    ZuluOrOffsetReadsZ(t);
    ParseTimeByThirdLayout(ZuluTime(t), t);
  }

  lemma ZuluDateParses(t: Time)
    requires Renderable(DateTime(true, LiteralZ), t)
    ensures ParseDate(ZuluTime(t)) == Some(t)
  {
    ZuluTimeNormalized(t);
    NumericLayoutsRejectZ(t);
    ParseRender(DateTime(true, LiteralZ), t);
    ParseDateByThirdLayout(ZuluTime(t), t);
  }

  /** When the two numeric layouts fail, `parseTime` answers with the
      `Z07:00` layout. */
  lemma ParseTimeByThirdLayout(s: string, v: Time)
    requires NormalizeMinus(s) == s
    requires Parse(DateTime(true, NumericOffset), s).None? && Parse(DateTime(false, NumericOffset), s).None?
    requires Parse(DateTime(true, ZuluOrOffset), s) == Some(v)
    ensures ParseTime(s) == Some(v)
  {
    var rest := TimeLayouts[2..];
    assert TimeLayouts == [DateTime(true, NumericOffset), DateTime(false, NumericOffset)] + rest;
    assert rest[0] == DateTime(true, ZuluOrOffset);
    TryLayoutsSkip2(DateTime(true, NumericOffset), DateTime(false, NumericOffset), rest, s);
  }

  /** When the two numeric layouts fail, `parseDate` answers with the
      literal `Z` layout. */
  lemma ParseDateByThirdLayout(s: string, v: Time)
    requires NormalizeMinus(s) == s
    requires Parse(DateTime(true, NumericOffset), s).None? && Parse(DateTime(false, NumericOffset), s).None?
    requires Parse(DateTime(true, LiteralZ), s) == Some(v)
    ensures ParseDate(s) == Some(v)
  {
    var rest := DateLayouts[2..];
    assert DateLayouts == [DateTime(true, NumericOffset), DateTime(false, NumericOffset)] + rest;
    assert rest[0] == DateTime(true, LiteralZ);
    TryLayoutsSkip2(DateTime(true, NumericOffset), DateTime(false, NumericOffset), rest, s);
  }

  /** Two layouts that fail are passed over. */
  lemma TryLayoutsSkip2(a: Layout, b: Layout, rest: seq<Layout>, s: string)
    requires Parse(a, s).None? && Parse(b, s).None?
    ensures TryLayouts([a, b] + rest, s) == TryLayouts(rest, s)
  {
    assert ([a, b] + rest)[1..] == [b] + rest;
    assert ([b] + rest)[1..] == rest;
  }

  lemma NumericLayoutsRejectZ(t: Time)
    requires ValidTime(t)
    ensures Parse(DateTime(true, NumericOffset), ZuluTime(t)).None?
    ensures Parse(DateTime(false, NumericOffset), ZuluTime(t)).None?
  {
    SecondsLayoutRejectsZ(t);
    MinutesLayoutRejectsZ(t);
  }

  lemma SecondsLayoutRejectsZ(t: Time)
    requires ValidTime(t)
    ensures Parse(DateTime(true, NumericOffset), ZuluTime(t)).None?
  {
    var date, clock := RenderDate(t), RenderClock(t, true);
    assert ZuluTime(t) == date + (clock + "Z");
    ParseDateOfRender(t, clock + "Z");
    ParseClockOfRender(t, true, "Z");
  }

  lemma MinutesLayoutRejectsZ(t: Time)
    requires ValidTime(t)
    ensures Parse(DateTime(false, NumericOffset), ZuluTime(t)).None?
  {
    var date, clock := RenderDate(t), RenderClock(t, true);
    ZuluTimeOfParts(t, date, clock);
    ParseDateOfRender(t, clock + "Z");
    var hh, mm, ss := PadNat(t.hour, 2), PadNat(t.minute, 2), PadNat(t.second, 2);
    ClockThenZ(hh, mm, ss);
    ParseHourMinuteOfRender(t.hour, t.minute, ":" + ss + "Z");
  }

  lemma ClockThenZ(hh: string, mm: string, ss: string)
    ensures "T" + hh + ":" + mm + (":" + ss) + "Z" == ("T" + hh + ":" + mm) + (":" + ss + "Z")
  {
  }

  lemma ZuluOrOffsetReadsZ(t: Time)
    requires Renderable(DateTime(true, LiteralZ), t)
    ensures Parse(DateTime(true, ZuluOrOffset), ZuluTime(t)) == Some(t)
  {
    var date, clock := RenderDate(t), RenderClock(t, true);
    assert ZuluTime(t) == date + (clock + "Z");
    ParseDateOfRender(t, clock + "Z");
    ParseClockOfRender(t, true, "Z");
    ZuluZone();
    ParseOfParts(ZuluTime(t), true, ZuluOrOffset, t, clock + "Z", "Z");
  }

  lemma ZuluZone()
    ensures ParseZonePart("Z", ZuluOrOffset) == Some(Step(0, []))
  {
    assert "Z"[1..] == [];
  }

  lemma ZuluTimeNormalized(t: Time)
    ensures NormalizeMinus(ZuluTime(t)) == ZuluTime(t)
    ensures MinusSign !in ZuluTime(t) && ')' !in ZuluTime(t)
    ensures |ZuluTime(t)| >= 1 && IsDigit(ZuluTime(t)[0]) && ZuluTime(t)[|ZuluTime(t)| - 1] == 'Z'
  {
    var date, clock := RenderDate(t), RenderClock(t, true);
    var s := ZuluTime(t);
    assert s == date + clock + "Z";
    RenderDateChars(t);
    RenderClockChars(t, true);
    assert MinusSign !in s && ')' !in s;
    assert NormalizeMinus(s) == s;
    assert s[0] == date[0] == PadNat(t.year, 4)[0];
  }

  /** A time token around a UTC time is rewritten with its hour and minute
      and the offset `(+00:00)`. */
  lemma TimeTokenOfZuluTime(format: string, t: Time)
    requires Renderable(DateTime(true, LiteralZ), t)
    ensures FormatTimeToken(TimeTag(format) + "(" + ZuluTime(t) + ")", format)
            == FormatClock(format, t, "(+00:00)")
  {
    ZuluTimeNormalized(t);
    ZuluTimeParses(t);
    ZuluSuffix(ZuluTime(t), t);
    TimeTokenOfText(format, ZuluTime(t), t);
  }

  /** A date token around a UTC time gives its date. */
  lemma DateTokenOfZuluTime(t: Time)
    requires Renderable(DateTime(true, LiteralZ), t)
    ensures FormatDateToken("D(" + ZuluTime(t) + ")") == DateText(t)
  {
    ZuluTimeNormalized(t);
    ZuluDateParses(t);
    DateTokenOfText(ZuluTime(t), t);
  }

  /** Every layout with a clock fails on a bare date. */
  lemma ClockLayoutRejectsBareDate(t: Time, seconds: bool, zone: Zone)
    requires ValidTime(t)
    ensures Parse(DateTime(seconds, zone), RenderDate(t)).None?
  {
    ParseDateOfRender(t, []);
    assert RenderDate(t) + [] == RenderDate(t);
  }

  /** Only the date parser reads a bare date: every layout of the time
      parser wants a clock. */
  lemma BareDateParses(t: Time)
    requires Renderable(DateOnly, t)
    ensures ParseTime(RenderDate(t)).None?
    ensures ParseDate(RenderDate(t)) == Some(t)
  {
    BareDateNotTime(t);
    BareDateIsDate(t);
  }

  lemma BareDateNotTime(t: Time)
    requires ValidTime(t)
    ensures ParseTime(RenderDate(t)).None?
  {
    var s := RenderDate(t);
    BareDateNormalized(t);
    ClockLayoutRejectsBareDate(t, true, NumericOffset);
    ClockLayoutRejectsBareDate(t, false, NumericOffset);
    ClockLayoutRejectsBareDate(t, true, ZuluOrOffset);
    ClockLayoutRejectsBareDate(t, false, ZuluOrOffset);
    ClockLayoutRejectsBareDate(t, true, LiteralZ);
    ClockLayoutRejectsBareDate(t, false, LiteralZ);
    assert TimeLayouts == [DateTime(true, NumericOffset), DateTime(false, NumericOffset)]
                          + ([DateTime(true, ZuluOrOffset), DateTime(false, ZuluOrOffset)]
                          + ([DateTime(true, LiteralZ), DateTime(false, LiteralZ)] + []));
    TryLayoutsSkip2(DateTime(true, LiteralZ), DateTime(false, LiteralZ), [], s);
    TryLayoutsSkip2(DateTime(true, ZuluOrOffset), DateTime(false, ZuluOrOffset),
                    [DateTime(true, LiteralZ), DateTime(false, LiteralZ)] + [], s);
    TryLayoutsSkip2(DateTime(true, NumericOffset), DateTime(false, NumericOffset),
                    [DateTime(true, ZuluOrOffset), DateTime(false, ZuluOrOffset)]
                    + ([DateTime(true, LiteralZ), DateTime(false, LiteralZ)] + []), s);
  }

  lemma BareDateIsDate(t: Time)
    requires Renderable(DateOnly, t)
    ensures ParseDate(RenderDate(t)) == Some(t)
  {
    var s := RenderDate(t);
    BareDateNormalized(t);
    ClockLayoutRejectsBareDate(t, true, NumericOffset);
    ClockLayoutRejectsBareDate(t, false, NumericOffset);
    ClockLayoutRejectsBareDate(t, true, LiteralZ);
    ClockLayoutRejectsBareDate(t, false, LiteralZ);
    ParseRender(DateOnly, t);
    assert DateLayouts == [DateTime(true, NumericOffset), DateTime(false, NumericOffset)]
                          + ([DateTime(true, LiteralZ), DateTime(false, LiteralZ)] + [DateOnly]);
    TryLayoutsSkip2(DateTime(true, LiteralZ), DateTime(false, LiteralZ), [DateOnly], s);
    TryLayoutsSkip2(DateTime(true, NumericOffset), DateTime(false, NumericOffset),
                    [DateTime(true, LiteralZ), DateTime(false, LiteralZ)] + [DateOnly], s);
  }

  lemma BareDateNormalized(t: Time)
    ensures NormalizeMinus(RenderDate(t)) == RenderDate(t)
  {
    RenderDateChars(t);
    assert MinusSign !in RenderDate(t);
  }

  /** Where the dashes of a date are: index 7 holds the last one. */
  lemma DateDashes(t: Time)
    requires ValidTime(t)
    ensures var d := RenderDate(t);
            && |d| == 10 && d[7] == '-' && '-' !in d[8..] && '+' !in d
            && IsAscii(d[..7]) && IsDigit(d[9])
  {
    var yy, mm, dd := PadNat(t.year, 4), PadNat(t.month, 2), PadNat(t.day, 2);
    PadNatLength(t.year, 4);
    PadNatLength(t.month, 2);
    PadNatLength(t.day, 2);
    var d := RenderDate(t);
    assert d == yy + "-" + mm + "-" + dd;
    assert d[8..] == dd;
    DigitsMembers(dd);
    RenderDateChars(t);
    assert forall i :: 0 <= i < 7 ==> d[i] in d;
  }

  /** The validator rejects a text with no `Z` at the end and no `+` whose
      last `-` is the one at byte 7, the second dash of the date. */
  lemma RejectsAtDateDash(iso: string)
    requires !EndsWithZ(iso) && '+' !in iso
    requires |iso| > 7 && iso[7] == '-' && '-' !in iso[8..] && IsAscii(iso[..7])
    ensures !IsValidTimeFormat(iso)
  {
    LastIsUnique(iso, '-');
    assert LastAt(iso, '-', 7);
    ByteLenOfAscii(iso[..7]);
  }

  /** A time token around a bare date is left as it is: the validator
      turns it down. */
  lemma TimeTokenOfBareDate(format: string, t: Time)
    requires ValidTime(t)
    ensures var token := TimeTag(format) + "(" + RenderDate(t) + ")";
            FormatTimeToken(token, format) == token
  {
    var d := RenderDate(t);
    DateDashes(t);
    RenderDateChars(t);
    assert ')' !in d;
    CallTokenOf(TimeTag(format), d);
    assert IsDigit(d[0]) by {
      assert d[0] == PadNat(t.year, 4)[0];
    }
    TrimSpaceOfTrimmed(d);
    RejectsAtDateDash(d);
  }

  /** A bare date starts with a digit and holds no `)`. */
  lemma BareDateEnds(t: Time)
    ensures |RenderDate(t)| >= 1 && IsDigit(RenderDate(t)[0]) && ')' !in RenderDate(t)
  {
    var d := RenderDate(t);
    RenderDateChars(t);
    DigitsMembers(PadNat(t.year, 4));
    assert d[0] == PadNat(t.year, 4)[0];
  }

  /** A date token around a bare date gives that date. */
  lemma DateTokenOfBareDate(t: Time)
    requires Renderable(DateOnly, t)
    ensures FormatDateToken("D(" + RenderDate(t) + ")") == DateText(t)
  {
    DateDashes(t);
    BareDateEnds(t);
    BareDateParses(t);
    DateTokenOfText(RenderDate(t), t);
  }

  /** The canonical text of a time west of UTC with its zone sign written as
      the typographic minus U+2212. */
  function TypographicIsoTime(t: Time): string {
    RenderDate(t) + RenderClock(t, true) + [MinusSign] + NumericZoneText(t.offset)[1..]
  }

  /** Normalising the minus gives the canonical text back. */
  lemma TypographicNormalizes(t: Time)
    requires t.offset <= -60
    ensures NormalizeMinus(TypographicIsoTime(t)) == IsoTime(t)
  {
    var a, b, z := RenderDate(t), RenderClock(t, true), NumericZoneText(t.offset);
    RenderDateChars(t);
    RenderClockChars(t, true);
    NumericZoneChars(t.offset);
    NormalizeTypographic(a, b, z);
  }

  /** Putting the typographic minus in place of a leading `-` is undone by
      normalising. */
  lemma NormalizeTypographic(a: string, b: string, z: string)
    requires |z| >= 1 && z[0] == '-'
    requires forall c :: c in a ==> IsDigit(c) || c == '-'
    requires forall c :: c in b ==> IsDigit(c) || c == 'T' || c == ':'
    requires forall c :: c in z[1..] ==> IsDigit(c) || c == ':'
    ensures NormalizeMinus(a + b + [MinusSign] + z[1..]) == a + (b + z)
  {
    var pre := a + b;
    var typo, iso := pre + [MinusSign] + z[1..], a + (b + z);
    assert iso == pre + z;
    var n := |pre|;
    var tail := z[1..];
    forall i | 0 <= i < |iso|
      ensures NormalizeMinus(typo)[i] == iso[i]
    {
      if i < n {
        assert typo[i] == pre[i] == iso[i];
        if i < |a| {
          assert a[i] in a;
        } else {
          assert b[i - |a|] in b;
        }
      } else if i > n {
        assert typo[i] == tail[i - n - 1] == iso[i];
        assert tail[i - n - 1] in tail;
      }
    }
  }

  /** A time token whose offset carries the typographic minus is left as it
      is: the validator, which runs before the minus is normalised, finds
      no `+` and no `-` past the date. */
  lemma TimeTokenOfTypographicMinus(format: string, t: Time)
    requires ValidTime(t) && t.offset <= -60
    ensures var token := TimeTag(format) + "(" + TypographicIsoTime(t) + ")";
            FormatTimeToken(token, format) == token
  {
    var typo := TypographicIsoTime(t);
    TypographicShape(t);
    TypographicEnds(t);
    FindCallArgumentOf(TimeTag(format), typo);
    DigitEndsTrimmed(typo);
    RejectsAtDateDash(typo);
    TimeTokenKept(TimeTag(format) + "(" + typo + ")", format, typo);
  }

  /** The typographic text has the date's dashes and no other `-` or `+`. */
  lemma TypographicShape(t: Time)
    requires ValidTime(t)
    ensures var typo := TypographicIsoTime(t);
            && |typo| > 7 && typo[7] == '-' && '-' !in typo[8..] && '+' !in typo
            && IsAscii(typo[..7])
  {
    DateDashes(t);
    RenderClockChars(t, true);
    NumericZoneChars(t.offset);
    DashesAfterDate(RenderDate(t), RenderClock(t, true), NumericZoneText(t.offset)[1..]);
  }

  lemma DashesAfterDate(a: string, b: string, z: string)
    requires |a| == 10 && a[7] == '-' && '-' !in a[8..] && '+' !in a && IsAscii(a[..7])
    requires forall c :: c in b ==> IsDigit(c) || c == 'T' || c == ':'
    requires forall c :: c in z ==> IsDigit(c) || c == ':'
    ensures var typo := a + b + [MinusSign] + z;
            && |typo| > 7 && typo[7] == '-' && '-' !in typo[8..] && '+' !in typo
            && IsAscii(typo[..7])
  {
    var typo := a + b + [MinusSign] + z;
    assert typo[8..] == a[8..] + b + [MinusSign] + z;
    assert typo[..7] == a[..7];
  }

  /** The typographic text holds no `)` and starts and ends with a digit. */
  lemma TypographicEnds(t: Time)
    requires ValidTime(t)
    ensures var typo := TypographicIsoTime(t);
            && ')' !in typo && IsDigit(typo[0]) && IsDigit(typo[|typo| - 1])
  {
    var a, z := RenderDate(t), NumericZoneText(t.offset);
    RenderDateChars(t);
    RenderClockChars(t, true);
    NumericZoneChars(t.offset);
    assert a[0] == PadNat(t.year, 4)[0];
    assert |z| == 6;
    EndsOfTypographic(a, RenderClock(t, true), z);
  }

  lemma EndsOfTypographic(a: string, b: string, z: string)
    requires |a| > 0 && IsDigit(a[0]) && |z| > 1 && IsDigit(z[|z| - 1])
    requires forall c :: c in a ==> IsDigit(c) || c == '-'
    requires forall c :: c in b ==> IsDigit(c) || c == 'T' || c == ':'
    requires forall c :: c in z[1..] ==> IsDigit(c) || c == ':'
    ensures var typo := a + b + [MinusSign] + z[1..];
            && ')' !in typo && IsDigit(typo[0]) && IsDigit(typo[|typo| - 1])
  {
  }

  /** A date token whose offset carries the typographic minus gives the
      date: the date parser normalises the minus first. */
  lemma DateTokenOfTypographicMinus(t: Time)
    requires Renderable(DateTime(true, NumericOffset), t) && t.offset <= -60
    ensures FormatDateToken("D(" + TypographicIsoTime(t) + ")") == DateText(t)
  {
    var typo := TypographicIsoTime(t);
    TypographicEnds(t);
    TypographicNormalizes(t);
    IsoTimeNormalized(t);
    IsoTimeParses(t);
    ParseDateOfNormalized(typo, IsoTime(t));
    DateTokenOfText(typo, t);
  }

  // ---------------------------------------------------------------------
  // The three passes
  // ---------------------------------------------------------------------

  /** A text without any opening `T12(`, `T24(` or `D(` comes out
      unchanged. */
  lemma ReplaceTimesThenDatesWithoutTokens(text: string)
    requires !Contains(text, "T12(") && !Contains(text, "T24(") && !Contains(text, "D(")
    ensures ReplaceTimesThenDates(text) == text
  {
    assert "T12" + "(" == "T12(" && "T24" + "(" == "T24(" && "D" + "(" == "D(";
    ReplaceAllWithoutCall("T12", text, Format12h);
    ReplaceAllWithoutCall("T24", text, Format24h);
    ReplaceAllWithoutCall("D", text, FormatDateToken);
  }

  /** What a rewritten time holds: no `T` and no `D`, so the later passes
      leave it alone. */
  lemma FormattedOffsetClockChars(format: string, t: Time)
    ensures var out := FormatClock(format, t, FormatOffset(IsoTime(t), t));
            'T' !in out && 'D' !in out
  {
    ClockChars(format, t);
    FormatOffsetChars(IsoTime(t), t);
  }

  /** `formatOffset` writes only digits, signs, a colon and parentheses. */
  lemma FormatOffsetChars(iso: string, t: Time)
    ensures 'T' !in FormatOffset(iso, t) && 'D' !in FormatOffset(iso, t)
  {
    if !EndsWithZ(iso) {
      var hours := Quot(t.offset, 3600);
      IntPad2Chars(if hours < 0 then -hours else hours);
      IntPad2Chars(Quot(Rem(t.offset, 3600), 60));
    }
  }

  lemma IntPad2Chars(n: int)
    ensures 'T' !in IntPad2(n) && 'D' !in IntPad2(n)
  {
    if n < 0 {
      DigitsMembers(NatToString(-n));
    } else {
      DigitsMembers(PadNat(n, 2));
    }
  }

  lemma ClockChars(format: string, t: Time)
    ensures var c := if format == "12h" then Clock12(t) else Clock24(t);
            'T' !in c && 'D' !in c
  {
    DigitsMembers(PadNat(Hour12(t.hour), 2));
    DigitsMembers(PadNat(t.hour, 2));
    DigitsMembers(PadNat(t.minute, 2));
  }

  /** The opening of a time or date token around a canonical time is its
      only `(`, so the opening of a tag the token's own tag does not end
      with occurs nowhere in it. */
  lemma OtherTagsAbsent(tag: string, other: string, t: Time)
    requires '(' !in tag && (|other| <= |tag| ==> tag[|tag| - |other|..] != other)
    ensures !Contains(tag + "(" + IsoTime(t) + ")", other + "(")
  {
    var iso := IsoTime(t);
    var token := tag + "(" + iso + ")";
    IsoTimeNormalized(t);
    forall i | 0 <= i < |token|
      ensures token[i] == '(' ==> i == |tag|
    {
      if i < |tag| {
        assert token[i] == tag[i] && tag[i] in tag;
      } else if i > |tag| {
        assert token[i] == (iso + ")")[i - |tag| - 1] && token[i] in iso + ")";
      }
    }
    if |other| <= |tag| {
      assert token[|tag| - |other|..|tag|] == tag[|tag| - |other|..];
    }
    NoCallOpening(token, other, |tag|);
  }

  /** A canonical `T24(…)` token alone goes through all three passes and
      comes out as the 24-hour clock followed by the offset as
      `formatOffset` writes it, for every offset the validator accepts. */
  lemma ReplaceTimesThenDatesOfT24(t: Time)
    requires Renderable(DateTime(true, NumericOffset), t) && ValidatorOffset(t.offset)
    ensures ReplaceTimesThenDates("T24(" + IsoTime(t) + ")")
            == FormatClock("24h", t, FormatOffset(IsoTime(t), t))
  {
    var out := FormatClock("24h", t, FormatOffset(IsoTime(t), t));
    T12PassKeepsT24(t);
    T24PassOfToken(t);
    FormattedOffsetClockChars("24h", t);
    DatePassKeeps(out);
  }

  /** The same for a canonical `T12(…)` token: the 12-hour clock. */
  lemma ReplaceTimesThenDatesOfT12(t: Time)
    requires Renderable(DateTime(true, NumericOffset), t) && ValidatorOffset(t.offset)
    ensures ReplaceTimesThenDates("T12(" + IsoTime(t) + ")")
            == FormatClock("12h", t, FormatOffset(IsoTime(t), t))
  {
    var out := FormatClock("12h", t, FormatOffset(IsoTime(t), t));
    T12PassOfToken(t);
    FormattedOffsetClockChars("12h", t);
    T24PassKeeps(out);
    DatePassKeeps(out);
  }

  /** With an offset east of UTC or a whole number of hours west of it, a
      lone `T24(…)` token comes out with the input's own offset. */
  lemma ReplaceTimesThenDatesEchoesT24(t: Time)
    requires Renderable(DateTime(true, NumericOffset), t) && ValidatorOffset(t.offset)
    requires t.offset >= 0 || t.offset % 3600 == 0
    ensures ReplaceTimesThenDates("T24(" + IsoTime(t) + ")")
            == FormatClock("24h", t, "(" + NumericZoneText(t.offset) + ")")
  {
    ReplaceTimesThenDatesOfT24(t);
    IsoTimeEnds(t);
    FormatOffsetEcho(IsoTime(t), t);
  }

  /** The same for a lone `T12(…)` token. */
  lemma ReplaceTimesThenDatesEchoesT12(t: Time)
    requires Renderable(DateTime(true, NumericOffset), t) && ValidatorOffset(t.offset)
    requires t.offset >= 0 || t.offset % 3600 == 0
    ensures ReplaceTimesThenDates("T12(" + IsoTime(t) + ")")
            == FormatClock("12h", t, "(" + NumericZoneText(t.offset) + ")")
  {
    ReplaceTimesThenDatesOfT12(t);
    IsoTimeEnds(t);
    FormatOffsetEcho(IsoTime(t), t);
  }

  lemma T12PassKeepsT24(t: Time)
    ensures ReplaceAll(Call("T12"), "T24(" + IsoTime(t) + ")", Format12h) == "T24(" + IsoTime(t) + ")"
  {
    assert "T24" + "(" == "T24(" && "T12" + "(" == "T12(";
    OtherTagsAbsent("T24", "T12", t);
    ReplaceAllWithoutCall("T12", "T24(" + IsoTime(t) + ")", Format12h);
  }

  /** The pass of the token's own tag rewrites it as a whole. */
  lemma T24PassOfToken(t: Time)
    requires Renderable(DateTime(true, NumericOffset), t) && ValidatorOffset(t.offset)
    ensures ReplaceAll(Call("T24"), "T24(" + IsoTime(t) + ")", Format24h)
            == FormatClock("24h", t, FormatOffset(IsoTime(t), t))
  {
    var token := "T24" + "(" + IsoTime(t) + ")";
    assert TimeTag("24h") == "T24" && "T24" + "(" == "T24(";
    IsoTimeNormalized(t);
    CallTokenOf("T24", IsoTime(t));
    ReplaceAllOfToken(Call("T24"), token, Format24h);
    TimeTokenOfIsoTime("24h", t);
  }

  lemma T12PassOfToken(t: Time)
    requires Renderable(DateTime(true, NumericOffset), t) && ValidatorOffset(t.offset)
    ensures ReplaceAll(Call("T12"), "T12(" + IsoTime(t) + ")", Format12h)
            == FormatClock("12h", t, FormatOffset(IsoTime(t), t))
  {
    var token := "T12" + "(" + IsoTime(t) + ")";
    assert TimeTag("12h") == "T12" && "T12" + "(" == "T12(";
    IsoTimeNormalized(t);
    CallTokenOf("T12", IsoTime(t));
    ReplaceAllOfToken(Call("T12"), token, Format12h);
    TimeTokenOfIsoTime("12h", t);
  }

  lemma T24PassKeeps(text: string)
    requires 'T' !in text
    ensures ReplaceAll(Call("T24"), text, Format24h) == text
  {
    NotContainsWithout(text, "T24(", 0);
    assert "T24" + "(" == "T24(";
    ReplaceAllWithoutCall("T24", text, Format24h);
  }

  lemma DatePassKeeps(text: string)
    requires 'D' !in text
    ensures ReplaceAll(Call("D"), text, FormatDateToken) == text
  {
    NotContainsWithout(text, "D(", 0);
    assert "D" + "(" == "D(";
    ReplaceAllWithoutCall("D", text, FormatDateToken);
  }

  /** A time token is rewritten only when its text passed the validator
      and one of the layouts read it; in every other case it comes back as
      it was. */
  lemma TimeTokenRewritten(token: string, format: string)
    requires FormatTimeToken(token, format) != token
    ensures FindCallArgument(TimeTag(format), token).Some?
    ensures var iso := TrimSpace(FindCallArgument(TimeTag(format), token).value);
            IsValidTimeFormat(iso) && ParseTime(iso).Some?
  {
  }

  /** A date token is rewritten only when one of the date layouts read
      its text. */
  lemma DateTokenRewritten(token: string)
    requires FormatDateToken(token) != token
    ensures FindCallArgument("D", token).Some?
    ensures ParseDate(TrimSpace(FindCallArgument("D", token).value)).Some?
  {
  }

  /** Midnight UTC on a 12-hour clock. */
  lemma ExampleMidnightT12()
    ensures FormatTimeToken("T12(2007-04-05T00:00:00Z)", "12h") == "12:00AM (+00:00)"
  {
    var t := Time(2007, 4, 5, 0, 0, 0, 0);
    ExampleMidnightParts();
    TimeTokenOfZuluTime("12h", t);
  }

  lemma ExampleMidnightParts()
    ensures var t := Time(2007, 4, 5, 0, 0, 0, 0);
            && "T12(2007-04-05T00:00:00Z)" == TimeTag("12h") + "(" + ZuluTime(t) + ")"
            && "12:00AM (+00:00)" == FormatClock("12h", t, "(+00:00)")
  {
    ExampleMidnightText();
    ExampleTag();
    ExampleClockText();
  }

  lemma ExampleTag()
    ensures "T12(2007-04-05T00:00:00Z)" == TimeTag("12h") + "(" + "2007-04-05T00:00:00Z" + ")"
  {
  }

  lemma ExampleClockText()
    ensures "12:00AM (+00:00)" == FormatClock("12h", Time(2007, 4, 5, 0, 0, 0, 0), "(+00:00)")
  {
    ExampleClock12();
  }

  lemma ExampleMidnightText()
    ensures ZuluTime(Time(2007, 4, 5, 0, 0, 0, 0)) == "2007-04-05T00:00:00Z"
    ensures Clock12(Time(2007, 4, 5, 0, 0, 0, 0)) == "12:00AM"
  {
    var t := Time(2007, 4, 5, 0, 0, 0, 0);
    ExampleRenderDate();
    ExampleRenderClock();
    ZuluTimeOfParts(t, "2007-04-05", "T00:00:00");
    assert "2007-04-05" + ("T00:00:00" + "Z") == "2007-04-05T00:00:00Z";
    ExampleClock12();
  }

  lemma ZuluTimeOfParts(t: Time, date: string, clock: string)
    requires RenderDate(t) == date && RenderClock(t, true) == clock
    ensures ZuluTime(t) == date + (clock + "Z")
  {
  }

  lemma ExampleRenderDate()
    ensures RenderDate(Time(2007, 4, 5, 0, 0, 0, 0)) == "2007-04-05"
  {
    ExamplePads();
    ExampleYear();
  }

  lemma ExampleRenderClock()
    ensures RenderClock(Time(2007, 4, 5, 0, 0, 0, 0), true) == "T00:00:00"
  {
    ExamplePads();
  }

  lemma ExampleClock12()
    ensures Clock12(Time(2007, 4, 5, 0, 0, 0, 0)) == "12:00AM"
  {
    ExamplePads();
    assert Hour12(0) == 12;
  }

  lemma ExamplePads()
    ensures PadNat(4, 2) == "04" && PadNat(5, 2) == "05" && PadNat(0, 2) == "00" && PadNat(12, 2) == "12"
  {
    assert NatToString(4) == "4" && NatToString(5) == "5" && NatToString(0) == "0";
    assert NatToString(12) == "12";
    assert seq(1, _ => '0') == "0";
  }

  lemma ExampleYear()
    ensures PadNat(2007, 4) == "2007"
  {
    assert NatToString(20) == "20";
    assert NatToString(200) == "200";
    assert NatToString(2007) == "2007";
  }

  /** No layout reads a text that ends in a lower-case `z`. */
  lemma LowerZuluUnparsed(layouts: seq<Layout>, iso: string)
    requires |iso| > 0 && iso[|iso| - 1] == 'z'
    ensures TryLayouts(layouts, NormalizeMinus(iso)).None?
  {
    var n := NormalizeMinus(iso);
    assert n[|n| - 1] == 'z';
    if TryLayouts(layouts, n).Some? {
      var i :| 0 <= i < |layouts| && Parse(layouts[i], n) == TryLayouts(layouts, n);
      ParseLastChar(layouts[i], n);
    }
  }

  /** The check accepts a time that ends in a lower-case `z`, but no layout
      reads it, so the token is left as it was. */
  lemma LowerZuluTimePassesThrough(token: string, format: string)
    requires FindCallArgument(TimeTag(format), token).Some?
    requires var iso := TrimSpace(FindCallArgument(TimeTag(format), token).value);
             |iso| > 0 && iso[|iso| - 1] == 'z'
    ensures IsValidTimeFormat(TrimSpace(FindCallArgument(TimeTag(format), token).value))
    ensures FormatTimeToken(token, format) == token
  {
    LowerZuluUnparsed(TimeLayouts, TrimSpace(FindCallArgument(TimeTag(format), token).value));
  }

  /** A date that ends in a lower-case `z` is left as it was too. */
  lemma LowerZuluDatePassesThrough(token: string)
    requires FindCallArgument("D", token).Some?
    requires var iso := TrimSpace(FindCallArgument("D", token).value);
             |iso| > 0 && iso[|iso| - 1] == 'z'
    ensures FormatDateToken(token) == token
  {
    LowerZuluUnparsed(DateLayouts, TrimSpace(FindCallArgument("D", token).value));
  }
}
