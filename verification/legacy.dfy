/** main.go: the pipeline of the program that is actually built. It keeps
    an older copy of every stage instead of calling the formatter package:
    three rune replacements for the line breaks, a blank-line collapser
    with a boolean flag, one airport regular expression with no delimiter,
    dates before times, `time.RFC3339` as the only layout, and no final
    whitespace tidying. The airport table comes from its own CSV reader. */
module Legacy {
  import opened Common
  import opened Text
  import opened Regex
  import opened GoTime
  import opened Whitespace
  import AirportParser
  import opened Dates
  import Formatter
  import Airports

  // ---------------------------------------------------------------------
  // parseAirportCSV
  // ---------------------------------------------------------------------

  /** The `Airport` struct of main.go. */
  datatype LegacyAirport = LegacyAirport(name: string, municipality: string, iata: string, icao: string)

  /** The headers main.go requires, matched exactly. */
  const LegacyColumns: seq<string> := ["name", "municipality", "iata_code", "icao_code"]

  /** The cell of a row under a header, or "" when there is none. */
  function Field(row: seq<string>, columns: map<string, nat>, name: string): string {
    if name in columns && columns[name] < |row| then row[columns[name]] else ""
  }

  /** The row has a cell that is not blank at every header position,
      required or not. */
  predicate RowFilled(row: seq<string>, columns: map<string, nat>) {
    forall h :: h in columns ==> columns[h] < |row| && !IsBlank(row[columns[h]])
  }

  function RowAirport(row: seq<string>, columns: map<string, nat>): LegacyAirport {
    LegacyAirport(Field(row, columns, "name"), Field(row, columns, "municipality"),
                  Field(row, columns, "iata_code"), Field(row, columns, "icao_code"))
  }

  /** The keys an airport is stored under: `#` and `*#` before a non-empty
      IATA code, `##` and `*##` before a non-empty ICAO code. */
  function LegacyKeys(a: LegacyAirport): set<string> {
    (if a.iata != "" then {"#" + a.iata, "*#" + a.iata} else {})
    + (if a.icao != "" then {"##" + a.icao, "*##" + a.icao} else {})
  }

  function StoreAirport(table: map<string, LegacyAirport>, a: LegacyAirport): (r: map<string, LegacyAirport>)
    ensures r.Keys == table.Keys + LegacyKeys(a)
    ensures forall k :: k in LegacyKeys(a) ==> r[k] == a
    ensures forall k :: k in table && k !in LegacyKeys(a) ==> r[k] == table[k]
  {
    var withIata := if a.iata != "" then table["#" + a.iata := a]["*#" + a.iata := a] else table;
    if a.icao != "" then withIata["##" + a.icao := a]["*##" + a.icao := a] else withIata
  }

  /** The row loop: the first row with a blank cell ends the parse. */
  function BuildTable(rows: seq<seq<string>>, columns: map<string, nat>, table: map<string, LegacyAirport>)
    : Result<map<string, LegacyAirport>, string>
  {
    if |rows| == 0 then Ok(table)
    else if !RowFilled(rows[0], columns) then Err("blank field")
    else BuildTable(rows[1..], columns, StoreAirport(table, RowAirport(rows[0], columns)))
  }

  /** `parseAirportCSV` from the records the CSV reader returned. */
  function ParseAirportCSV(records: seq<seq<string>>): Result<map<string, LegacyAirport>, string> {
    if |records| < 2 then Err("CSV malformed")
    else
      var columns := AirportParser.LastIndexMap(records[0]);
      if AirportParser.FirstMissing(LegacyColumns, columns).Some? then Err("missing column")
      else BuildTable(records[1..], columns, map[])
  }

  /** The row loop fails exactly when some row has a blank cell, and then
      with the message `blank field`. */
  lemma {:induction false} BuildTableOutcome(rows: seq<seq<string>>, columns: map<string, nat>,
                                             table: map<string, LegacyAirport>)
    ensures BuildTable(rows, columns, table).Ok? <==> forall i :: 0 <= i < |rows| ==> RowFilled(rows[i], columns)
    ensures BuildTable(rows, columns, table).Err? ==> BuildTable(rows, columns, table) == Err("blank field")
    decreases |rows|
  {
    if |rows| > 0 && RowFilled(rows[0], columns) {
      BuildTableOutcome(rows[1..], columns, StoreAirport(table, RowAirport(rows[0], columns)));
      assert forall i :: 0 < i < |rows| ==> rows[1..][i - 1] == rows[i];
    }
  }

  /** A row's keys, for the quantifiers below. */
  predicate RowHasKey(rows: seq<seq<string>>, columns: map<string, nat>, i: nat, k: string)
    requires i < |rows|
  {
    k in LegacyKeys(RowAirport(rows[i], columns))
  }

  /** When the loop succeeds, the table holds the keys it started with and
      the keys of every row, and nothing else. */
  lemma {:induction false} BuildTableKeys(rows: seq<seq<string>>, columns: map<string, nat>,
                                          table: map<string, LegacyAirport>, k: string)
    requires BuildTable(rows, columns, table).Ok?
    ensures k in BuildTable(rows, columns, table).value <==>
              k in table || exists i :: 0 <= i < |rows| && RowHasKey(rows, columns, i, k)
    decreases |rows|
  {
    if |rows| > 0 {
      var next := StoreAirport(table, RowAirport(rows[0], columns));
      assert RowFilled(rows[0], columns);
      assert k in next <==> k in table || RowHasKey(rows, columns, 0, k);
      BuildTableKeys(rows[1..], columns, next, k);
      if exists i :: 0 <= i < |rows| - 1 && RowHasKey(rows[1..], columns, i, k) {
        var i :| 0 <= i < |rows| - 1 && RowHasKey(rows[1..], columns, i, k);
        assert RowHasKey(rows, columns, i + 1, k);
      }
      if exists i :: 0 <= i < |rows| && RowHasKey(rows, columns, i, k) {
        var i :| 0 <= i < |rows| && RowHasKey(rows, columns, i, k);
        if i > 0 {
          assert RowHasKey(rows[1..], columns, i - 1, k);
        }
      }
    }
  }

  /** When the loop succeeds, a key is owned by the last row that stores
      it: later rows overwrite earlier ones. */
  lemma {:induction false} BuildTableLastWins(rows: seq<seq<string>>, columns: map<string, nat>,
                                              table: map<string, LegacyAirport>, i: nat, k: string)
    requires BuildTable(rows, columns, table).Ok?
    requires i < |rows| && RowHasKey(rows, columns, i, k)
    requires forall j :: i < j < |rows| ==> !RowHasKey(rows, columns, j, k)
    ensures var t := BuildTable(rows, columns, table).value;
            k in t && t[k] == RowAirport(rows[i], columns)
    decreases |rows|
  {
    var next := StoreAirport(table, RowAirport(rows[0], columns));
    assert RowFilled(rows[0], columns);
    if i > 0 {
      assert RowHasKey(rows[1..], columns, i - 1, k);
      forall j | i - 1 < j < |rows| - 1 ensures !RowHasKey(rows[1..], columns, j, k) {
        assert !RowHasKey(rows, columns, j + 1, k);
      }
      BuildTableLastWins(rows[1..], columns, next, i - 1, k);
    } else {
      forall j | 0 <= j < |rows| - 1 ensures !RowHasKey(rows[1..], columns, j, k) {
        assert !RowHasKey(rows, columns, j + 1, k);
      }
      BuildTableKeeps(rows[1..], columns, next, k);
    }
  }

  /** When the loop succeeds, a key no row stores keeps its first value. */
  lemma {:induction false} BuildTableKeeps(rows: seq<seq<string>>, columns: map<string, nat>,
                                           table: map<string, LegacyAirport>, k: string)
    requires BuildTable(rows, columns, table).Ok?
    requires k in table && forall j :: 0 <= j < |rows| ==> !RowHasKey(rows, columns, j, k)
    ensures var t := BuildTable(rows, columns, table).value;
            k in t && t[k] == table[k]
    decreases |rows|
  {
    if |rows| > 0 {
      var next := StoreAirport(table, RowAirport(rows[0], columns));
      assert !RowHasKey(rows, columns, 0, k);
      forall j | 0 <= j < |rows| - 1 ensures !RowHasKey(rows[1..], columns, j, k) {
        assert !RowHasKey(rows, columns, j + 1, k);
      }
      BuildTableKeeps(rows[1..], columns, next, k);
    }
  }

  /** The three ways `parseAirportCSV` fails, each with its message, and
      when it succeeds. */
  lemma ParseAirportCSVOutcome(records: seq<seq<string>>)
    ensures |records| < 2 ==> ParseAirportCSV(records) == Err("CSV malformed")
    ensures |records| >= 2 ==>
              (ParseAirportCSV(records) == Err("missing column") <==> exists c :: c in LegacyColumns && c !in records[0])
    ensures ParseAirportCSV(records) == Err("blank field") <==>
              && |records| >= 2
              && (forall c :: c in LegacyColumns ==> c in records[0])
              && exists i :: 1 <= i < |records| && !RowFilled(records[i], AirportParser.LastIndexMap(records[0]))
    ensures ParseAirportCSV(records).Ok? <==>
              && |records| >= 2
              && (forall c :: c in LegacyColumns ==> c in records[0])
              && forall i :: 1 <= i < |records| ==> RowFilled(records[i], AirportParser.LastIndexMap(records[0]))
  {
    if |records| >= 2 {
      var columns := AirportParser.LastIndexMap(records[0]);
      forall c ensures c in columns <==> c in records[0] {
        AirportParser.LastIndexMapLastWins(records[0], c);
      }
      var rows := records[1..];
      BuildTableOutcome(rows, columns, map[]);
      assert forall i :: 1 <= i < |records| ==> records[i] == rows[i - 1];
      if exists i :: 1 <= i < |records| && !RowFilled(records[i], columns) {
        var i :| 1 <= i < |records| && !RowFilled(records[i], columns);
        assert !RowFilled(rows[i - 1], columns);
      }
    }
  }

  /** A row with no blank cell is stored under all four keys. */
  lemma FilledRowKeys(row: seq<string>, columns: map<string, nat>)
    requires RowFilled(row, columns) && forall c :: c in LegacyColumns ==> c in columns
    ensures var a := RowAirport(row, columns);
            LegacyKeys(a) == {"#" + a.iata, "*#" + a.iata, "##" + a.icao, "*##" + a.icao}
  {
    assert "iata_code" in LegacyColumns && "icao_code" in LegacyColumns;
    assert IsBlank([]);
  }

  // ---------------------------------------------------------------------
  // prettify and collapseBlankLines
  // ---------------------------------------------------------------------

  /** Three `strings.ReplaceAll` calls, one per control character. */
  function LegacyConvert(text: string): string {
    ReplaceChar(ReplaceChar(ReplaceChar(text, VTab, '\n'), FormFeed, '\n'), '\r', '\n')
  }

  /** The three replacements do what the formatter's single rune map
      does. */
  lemma LegacyConvertAgrees(text: string)
    ensures LegacyConvert(text) == ConvertControlChars(text)
  {
    var r := LegacyConvert(text);
    assert forall i :: 0 <= i < |text| ==> r[i] == ConvertControlChars(text)[i];
  }

  /** The loop of `collapseBlankLines`: `blank` says whether the last line
      kept was a blank one. */
  function LegacyCollapseLines(lines: seq<string>, blank: bool): seq<string> {
    if |lines| == 0 then []
    else if TrimSpace(lines[0]) == [] then
      if !blank then [""] + LegacyCollapseLines(lines[1..], true)
      else LegacyCollapseLines(lines[1..], true)
    else [lines[0]] + LegacyCollapseLines(lines[1..], false)
  }

  function LegacyCollapseBlankLines(text: string): string {
    Join(LegacyCollapseLines(Split(text), false))
  }

  /** The flag and the formatter's counter agree whenever the flag is set
      exactly when the counter is positive. */
  lemma {:induction false} LegacyCollapseLinesAgree(lines: seq<string>, blank: bool, count: nat)
    requires blank <==> count > 0
    ensures LegacyCollapseLines(lines, blank) == CollapseLines(lines, count)
    decreases |lines|
  {
    if |lines| > 0 {
      if IsBlank(lines[0]) {
        LegacyCollapseLinesAgree(lines[1..], true, count + 1);
      } else {
        LegacyCollapseLinesAgree(lines[1..], false, 0);
      }
    }
  }

  /** The boolean-flag collapser of main.go and the counter-based one of the
      formatter give the same text for every input. */
  lemma LegacyCollapseAgrees(text: string)
    ensures LegacyCollapseBlankLines(text) == CollapseBlankLines(text)
  {
    LegacyCollapseLinesAgree(Split(text), false, 0);
  }

  /** `prettify`: no whitespace tidying at the end. */
  function LegacyPrettify(text: string, table: map<string, LegacyAirport>): string {
    var converted := LegacyConvert(text);
    var collapsed := LegacyCollapseBlankLines(converted);
    var named := LegacyReplaceAirportCodes(collapsed, table);
    LegacyReplaceDates(named)
  }

  // ---------------------------------------------------------------------
  // replaceAirportCodes
  // ---------------------------------------------------------------------

  /** The replacement for one match: looked up exactly as matched. */
  function LegacyLookup(table: map<string, LegacyAirport>, code: string): string {
    if code in table then
      if StartsWith(code, "*") then table[code].municipality else table[code].name
    else code
  }

  function LegacyRewriter(table: map<string, LegacyAirport>): string -> string {
    code => LegacyLookup(table, code)
  }

  function LegacyReplaceAirportCodes(text: string, table: map<string, LegacyAirport>): string {
    ReplaceAll(LegacyCode, text, LegacyRewriter(table))
  }

  /** A code of the three-character form is taken as soon as it is seen,
      whatever follows it, and replaced by what the table holds for it. */
  lemma LegacyReplaceIataCode(table: map<string, LegacyAirport>, code: string, star: nat, rest: string)
    requires star <= 1 && |code| == star + 4 && (star == 1 ==> code[0] == '*')
    requires code[star] == '#' && WordsAt(code, star + 1, 3)
    ensures LegacyReplaceAirportCodes(code + rest, table)
            == (if code in table then (if star == 1 then table[code].municipality else table[code].name) else code)
               + LegacyReplaceAirportCodes(rest, table)
  {
    var s := code + rest;
    assert StarLen(s) == star;
    assert HashesAt(s, star, 1) && WordsAt(s, star + 1, 3);
    assert s[..star + 4] == code && s[star + 4..] == rest;
    assert star == 1 <==> StartsWith(code, "*");
  }

  /** A code of the four-character form: the three-character alternative,
      tried first, fails on the second hash. */
  lemma LegacyReplaceIcaoCode(table: map<string, LegacyAirport>, code: string, star: nat, rest: string)
    requires star <= 1 && |code| == star + 6 && (star == 1 ==> code[0] == '*')
    requires HashesAt(code, star, 2) && WordsAt(code, star + 2, 4)
    ensures LegacyReplaceAirportCodes(code + rest, table)
            == (if code in table then (if star == 1 then table[code].municipality else table[code].name) else code)
               + LegacyReplaceAirportCodes(rest, table)
  {
    var s := code + rest;
    assert StarLen(s) == star;
    assert !IsWordChar(s[star + 1]);
    assert HashesAt(s, star, 2) && WordsAt(s, star + 2, 4);
    assert s[..star + 6] == code && s[star + 6..] == rest;
    assert star == 1 <==> StartsWith(code, "*");
  }

  // ---------------------------------------------------------------------
  // replaceDates and formatDate
  // ---------------------------------------------------------------------

  /** The only layout main.go parses with: `time.RFC3339`. */
  const RFC3339: Layout := DateTime(true, ZuluOrOffset)

  /** `hr % 12`, with 0 shown as 12. */
  function LegacyHour12(hour: nat): nat {
    if hour % 12 == 0 then 12 else hour % 12
  }

  /** `formatDate`: the text inside the parentheses, untrimmed, with the
      typographic minus made ASCII, read with RFC3339. */
  function LegacyFormatDate(token: string, prefix: string): string {
    match FindCallArgument(prefix, token)
    case None => token
    case Some(arg) =>
      var raw := NormalizeMinus(arg);
      match GoTime.Parse(RFC3339, raw)
      case None => token
      case Some(t) => LegacyShow(prefix, t, LegacyOffset(raw, t), token)
  }

  /** The zone: `(+00:00)` when the text ends in `Z`, `Format("-07:00")` in
      parentheses otherwise. */
  function LegacyOffset(raw: string, t: Time): string {
    if |raw| > 0 && raw[|raw| - 1] == 'Z' then "(+00:00)" else "(" + NumericZoneText(t.offset) + ")"
  }

  /** `02 Jan 2006`: the year is padded to four digits. */
  function LegacyDateText(t: Time): string
    requires 1 <= t.month <= 12
  {
    PadNat(t.day, 2) + " " + Months[t.month - 1] + " " + PadNat(t.year, 4)
  }

  /** The switch on the prefix: `02 Jan 2006`, `03:04PM ` and `15:04 `
      with the zone after the times, and the token itself for any other
      prefix. */
  function LegacyShow(prefix: string, t: Time, offset: string, token: string): string
    requires 1 <= t.month <= 12
  {
    if prefix == "D" then LegacyDateText(t)
    else if prefix == "T12" then PadNat(LegacyHour12(t.hour), 2) + ":" + PadNat(t.minute, 2) + Meridiem(t.hour) + " " + offset
    else if prefix == "T24" then PadNat(t.hour, 2) + ":" + PadNat(t.minute, 2) + " " + offset
    else token
  }

  function LegacyDate(token: string): string { LegacyFormatDate(token, "D") }

  function LegacyT12(token: string): string { LegacyFormatDate(token, "T12") }

  function LegacyT24(token: string): string { LegacyFormatDate(token, "T24") }

  /** `replaceDates`: dates first, then 12-hour times, then 24-hour times. */
  function LegacyReplaceDates(text: string): string {
    var afterD := ReplaceAll(Call("D"), text, LegacyDate);
    var afterT12 := ReplaceAll(Call("T12"), afterD, LegacyT12);
    ReplaceAll(Call("T24"), afterT12, LegacyT24)
  }

  /** The 12-hour clock of main.go shows the same hour as the formatter's. */
  lemma LegacyHour12Agrees(hour: nat)
    requires hour < 24
    ensures LegacyHour12(hour) == Hour12(hour)
  {
  }

  /** A canonical time with a numeric offset, inside a token of `prefix`. */
  function LegacyToken(prefix: string, t: Time): string {
    prefix + "(" + IsoTime(t) + ")"
  }

  /** A canonical time is read back whole, and its zone is shown as
      written. */
  lemma LegacyFormatIsoTime(prefix: string, t: Time)
    requires Renderable(RFC3339, t)
    ensures LegacyFormatDate(LegacyToken(prefix, t), prefix)
            == LegacyShow(prefix, t, "(" + NumericZoneText(t.offset) + ")", LegacyToken(prefix, t))
  {
    var iso := IsoTime(t);
    IsoTimeNormalized(t);
    FindCallArgumentOf(prefix, iso);
    RenderRfc3339(t);
    ParseRender(RFC3339, t);
    IsoTimeOffset(t);
    LegacyFormatOfParsed(prefix, LegacyToken(prefix, t), iso, t);
  }

  /** A token whose argument RFC3339 reads is shown by the switch on the
      prefix. */
  lemma LegacyFormatOfParsed(prefix: string, token: string, arg: string, t: Time)
    requires FindCallArgument(prefix, token) == Some(arg)
    requires GoTime.Parse(RFC3339, NormalizeMinus(arg)) == Some(t)
    ensures LegacyFormatDate(token, prefix) == LegacyShow(prefix, t, LegacyOffset(NormalizeMinus(arg), t), token)
  {
  }

  /** RFC3339 writes a time the way the formatter's canonical layout does. */
  lemma RenderRfc3339(t: Time)
    ensures GoTime.Render(RFC3339, t) == IsoTime(t)
  {
  }

  /** A canonical time ends in a digit, so its zone is shown numerically. */
  lemma IsoTimeOffset(t: Time)
    ensures LegacyOffset(IsoTime(t), t) == "(" + NumericZoneText(t.offset) + ")"
  {
    IsoTimeEnds(t);
  }

  /** A 24-hour token shows the offset it was written with, including a
      negative offset with minutes, which the formatter does not. */
  lemma LegacyT24OfIsoTime(t: Time)
    requires Renderable(RFC3339, t)
    ensures LegacyT24(LegacyToken("T24", t)) == Clock24(t) + " " + ("(" + NumericZoneText(t.offset) + ")")
  {
    LegacyFormatIsoTime("T24", t);
    LegacyShowT24(t, "(" + NumericZoneText(t.offset) + ")", LegacyToken("T24", t));
  }

  /** The 24-hour branch of the switch is the formatter's 24-hour clock. */
  lemma LegacyShowT24(t: Time, offset: string, token: string)
    requires 1 <= t.month <= 12
    ensures LegacyShow("T24", t, offset, token) == Clock24(t) + " " + offset
  {
    assert "T24" != "D" && "T24" != "T12";
  }

  /** A 12-hour token: the formatter's 12-hour clock and the offset. */
  lemma LegacyT12OfIsoTime(t: Time)
    requires Renderable(RFC3339, t)
    ensures LegacyT12(LegacyToken("T12", t)) == Clock12(t) + " " + ("(" + NumericZoneText(t.offset) + ")")
  {
    LegacyFormatIsoTime("T12", t);
    LegacyShowT12(t, "(" + NumericZoneText(t.offset) + ")", LegacyToken("T12", t));
  }

  /** The 12-hour branch of the switch is the formatter's 12-hour clock. */
  lemma LegacyShowT12(t: Time, offset: string, token: string)
    requires 1 <= t.month <= 12 && t.hour < 24
    ensures LegacyShow("T12", t, offset, token) == Clock12(t) + " " + offset
  {
    assert "T12" != "D";
    LegacyHour12Agrees(t.hour);
  }

  /** A date token: the day, the month's short name and the year padded to
      four digits, which is the formatter's date from year 1000 on. */
  lemma LegacyDateOfIsoTime(t: Time)
    requires Renderable(RFC3339, t)
    ensures LegacyDate(LegacyToken("D", t)) == LegacyDateText(t)
    ensures t.year >= 1000 ==> LegacyDateText(t) == DateText(t)
  {
    LegacyFormatIsoTime("D", t);
    NatToStringLength(t.year);
  }

  /** A time written with a trailing `Z` is read back whole and its zone
      is shown as `(+00:00)`. */
  lemma LegacyFormatZuluTime(prefix: string, t: Time)
    requires Renderable(DateTime(true, LiteralZ), t)
    ensures LegacyFormatDate(prefix + "(" + ZuluTime(t) + ")", prefix)
            == LegacyShow(prefix, t, "(+00:00)", prefix + "(" + ZuluTime(t) + ")")
  {
    var zulu := ZuluTime(t);
    ZuluTimeNormalized(t);
    FindCallArgumentOf(prefix, zulu);
    ZuluOrOffsetReadsZ(t);
    LegacyFormatOfParsed(prefix, prefix + "(" + zulu + ")", zulu, t);
  }

  lemma LegacyT24OfZuluTime(t: Time)
    requires Renderable(DateTime(true, LiteralZ), t)
    ensures LegacyT24("T24(" + ZuluTime(t) + ")") == Clock24(t) + " " + "(+00:00)"
  {
    assert "T24" + "(" == "T24(";
    LegacyFormatZuluTime("T24", t);
    LegacyShowT24(t, "(+00:00)", "T24(" + ZuluTime(t) + ")");
  }

  /** A text with a blank or malformed time inside the parentheses is left
      as it was: nothing trims the text before parsing. */
  lemma LegacyKeepsUnparsed(prefix: string, arg: string)
    requires |arg| >= 1 && ')' !in arg
    requires GoTime.Parse(RFC3339, NormalizeMinus(arg)).None?
    ensures LegacyFormatDate(prefix + "(" + arg + ")", prefix) == prefix + "(" + arg + ")"
  {
    FindCallArgumentOf(prefix, arg);
  }

  // ---------------------------------------------------------------------
  // The whole pipeline
  // ---------------------------------------------------------------------

  /** A text with no `#` and no `(` has nothing to replace: it only has
      its line breaks normalised and its blank lines collapsed, and keeps
      its spacing. */
  lemma LegacyPrettifyPlainText(text: string, table: map<string, LegacyAirport>)
    requires '#' !in text && '(' !in text
    ensures LegacyPrettify(text, table) == CollapseBlankLines(ConvertControlChars(text))
  {
    var converted := ConvertControlChars(text);
    var collapsed := CollapseBlankLines(converted);
    LegacyConvertAgrees(text);
    LegacyCollapseAgrees(converted);
    CollapsedPlain(converted);
    ReplaceAllWithoutHash(LegacyCode, collapsed, LegacyRewriter(table));
    LegacyReplaceDatesPlain(collapsed);
  }

  /** Collapsing blank lines adds no `#` and no `(`. */
  lemma CollapsedPlain(text: string)
    requires '#' !in text && '(' !in text
    ensures '#' !in CollapseBlankLines(text) && '(' !in CollapseBlankLines(text)
  {
    if '#' in CollapseBlankLines(text) { CollapseBlankLinesChars(text, '#'); }
    if '(' in CollapseBlankLines(text) { CollapseBlankLinesChars(text, '('); }
  }

  /** No pass of `replaceDates` finds anything in a text without `(`. */
  lemma LegacyReplaceDatesPlain(text: string)
    requires '(' !in text
    ensures LegacyReplaceDates(text) == text
  {
    assert "D" + "(" == "D(";
    NotContainsWithout(text, "D(", 1);
    ReplaceAllWithoutCall("D", text, LegacyDate);
    LegacyTimePassesKeep(text);
  }

  /** With nothing to replace, the formatter's output is main.go's output
      with the spacing of every line tidied. */
  lemma LegacyThenTidy(text: string, table: map<string, LegacyAirport>, svc: Airports.Service)
    requires '#' !in text && '(' !in text
    ensures Formatter.Prettify(text, svc) == TrimExcessiveWhitespace(LegacyPrettify(text, table))
  {
    LegacyPrettifyPlainText(text, table);
    Formatter.PrettifyPlainText(text, svc);
  }

  /** A canonical `T24(…)` token alone goes through the date pass and the
      12-hour pass untouched, and the 24-hour pass rewrites it. */
  lemma LegacyReplaceDatesOfT24(t: Time)
    requires Renderable(RFC3339, t)
    ensures LegacyReplaceDates(LegacyToken("T24", t)) == Clock24(t) + " " + ("(" + NumericZoneText(t.offset) + ")")
  {
    var token := LegacyToken("T24", t);
    OtherTagsAbsent("T24", "D", t);
    ReplaceAllWithoutCall("D", token, LegacyDate);
    OtherTagsAbsent("T24", "T12", t);
    ReplaceAllWithoutCall("T12", token, LegacyT12);
    IsoTimeNormalized(t);
    CallTokenOf("T24", IsoTime(t));
    ReplaceAllOfToken(Call("T24"), token, LegacyT24);
    LegacyT24OfIsoTime(t);
  }

  /** A canonical `D(…)` token alone is rewritten by the first pass, and
      the date it becomes holds nothing the time passes would touch. */
  lemma LegacyReplaceDatesOfD(t: Time)
    requires Renderable(RFC3339, t)
    ensures LegacyReplaceDates(LegacyToken("D", t)) == LegacyDateText(t)
  {
    var token := LegacyToken("D", t);
    IsoTimeNormalized(t);
    CallTokenOf("D", IsoTime(t));
    ReplaceAllOfToken(Call("D"), token, LegacyDate);
    LegacyDateOfIsoTime(t);
    LegacyDateTextPlain(t);
    LegacyTimePassesKeep(LegacyDateText(t));
  }

  /** The two time passes leave a text without `(` alone. */
  lemma LegacyTimePassesKeep(text: string)
    requires '(' !in text
    ensures ReplaceAll(Call("T24"), ReplaceAll(Call("T12"), text, LegacyT12), LegacyT24) == text
  {
    assert "T12" + "(" == "T12(" && "T24" + "(" == "T24(";
    NotContainsWithout(text, "T12(", 3);
    NotContainsWithout(text, "T24(", 3);
    ReplaceAllWithoutCall("T12", text, LegacyT12);
    ReplaceAllWithoutCall("T24", text, LegacyT24);
  }

  /** A date has digits, spaces and letters only. */
  lemma LegacyDateTextPlain(t: Time)
    requires 1 <= t.month <= 12
    ensures '(' !in LegacyDateText(t)
  {
    var day, month, year := PadNat(t.day, 2), Months[t.month - 1], PadNat(t.year, 4);
    DigitsMembers(day);
    DigitsMembers(year);
    MonthsPlain();
    assert LegacyDateText(t) == day + (" " + (month + (" " + year)));
  }

  lemma MonthsPlain()
    ensures forall k :: 0 <= k < |Months| ==> '(' !in Months[k]
  {
  }
}
