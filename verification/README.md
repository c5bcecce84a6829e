# Itinerary prettifier — a Dafny model

This project models the text pipeline of the itinerary prettifier. The
prettifier turns a raw flight itinerary into a customer-friendly one in four
steps:

- Line-break control characters become newlines.
- Runs of blank lines collapse to one empty line.
- Airport codes (`#LHR`, `##EGLL`, `*#LHR`, `*##EGLL`) become airport or city
  names from a lookup table.
- `T12(…)`, `T24(…)` and `D(…)` tokens become 12-hour times, 24-hour times
  and `DD Mon YYYY` dates.

Inside each line, runs of spaces and tabs are squeezed and the line is
trimmed. The lookup table is built from the rows of a CSV file. Each airport
is stored under four tagged keys.

The repository has two pipelines, and both are modelled:

- **The component pipeline:** `formatter/` with `airports/` and `config/`.
- **The older pipeline in `main.go`:** the one the built program actually
  uses. It has its own blank-line collapse, its own airport regular
  expression, its own date order (D, then T12, then T24) and its own CSV
  builder.

Modules, one per concern of the source:

| module | file | models |
|---|---|---|
| `Common` | common.dfy | `Option`, `Result` |
| `Text` | text.dfy | the Go `strings`/`unicode`/`fmt` operations the core uses (`TrimSpace`, `Split`/`Join`, `LastIndex`, `ReplaceAll` of one rune, `%02d`, `%d`) |
| `Regex` | regex.dfy | the RE2 patterns of the core as anchored scanners, and `ReplaceAllStringFunc` / `FindStringSubmatch` with leftmost-first semantics |
| `GoTime` | gotime.dfy | `time.Parse` for the fixed layouts the core uses, and the layouts written back |
| `Config` | config.dfy | config/config.go |
| `Airports` | airports.dfy | airports/lookup.go and airports/airports.go |
| `AirportParser` | airport_parser.dfy | airports/parser.go (the header check, the records and the row loop) |
| `Whitespace` | whitespace.dfy | formatter/whitespace.go |
| `AirportCodes` | airport_codes.dfy | formatter/airports.go |
| `Dates` | dates.dfy | formatter/dates.go |
| `Formatter` | formatter.dfy | formatter/formatter.go |
| `BlankLines` | blank_lines.dfy | blank lines through the whole formatter pipeline |
| `Legacy` | legacy.dfy | main.go: `parseAirportCSV`, `prettify`, `collapseBlankLines`, `replaceAirportCodes`, `replaceDates`, `formatDate` |

Strings are `seq<char>` of Unicode code points. Go indexes strings by
UTF-8 byte, and the one place where that matters (the position check of
`isValidTimeFormat`) counts bytes explicitly. Go's truncating `/` and `%` are
written out as `GoTime.Quot` and `GoTime.Rem`. A `time.Time` is the
wall-clock fields of the input plus its offset in seconds. No zone conversion
happens anywhere in the core.

## Model

| member | source | states |
|---|---|---|
| `Config.Validate` | config/config.go:19-30 | The input path is checked first, then the output path, then the lookup path. Each error is returned exactly when its path is the first empty one, and there is no error exactly when all three are set. |
| `Airports.FindByCode` | airports/lookup.go:16-19 | Reports presence exactly when the code is a key of the stored map. On a hit it returns the stored record; on a miss it returns the all-empty Airport. |
| `Airports.NewAirportRepository` | airports/lookup.go:12-14 | Builds the repository around the parsed map; `Airports.RepositoryKeepsTable` states that it keeps that map. |
| `Airports.GetAll` | airports/lookup.go:21-23 | Returns the whole table; `Airports.RepositoryKeepsTable` states that it is the constructor's map. |
| `Airports.RepositoryKeepsTable` | airports/lookup.go:12-23 | `GetAll` of a new repository is the map it was built from, and `FindByCode` answers from exactly that map. |
| `Airports.GetAirportName` | airports/airports.go:25-31 | Looks up the code exactly as given, with its `*` and `#`. Returns the airport name on a hit and the code itself on a miss. |
| `Airports.GetCityName` | airports/airports.go:33-39 | Looks up the code exactly as given. Returns the municipality on a hit and the code itself on a miss. |
| `AirportParser.ToLower` | airports/parser.go:65 | Lower-cases rune by rune and keeps the length. |
| `AirportParser.LastIndexMapLastWins` | airports/parser.go:63-67 | A header name is a key exactly when some header cleans to it. Its index is the last header that does, so a duplicate header's last position wins. |
| `AirportParser.FirstMissing` | airports/parser.go:69-73 | Reports nothing exactly when every required column is present. Otherwise it names the first required column, in the order of the required list, that is absent; every column before it is present. |
| `AirportParser.ValidateHeaders` | airports/parser.go:62-76 | Succeeds exactly when all six required columns are among the cleaned headers. The map it returns sends each cleaned header to its last index. |
| `AirportParser.FirstBlank` | airports/parser.go:85-90 | Reports nothing exactly when every required column has a cell that is in range and not blank. Otherwise it names the first required column, in the order of the required list, whose cell is out of range or blank; every column before it has a filled cell. |
| `AirportParser.ParseRecord` | airports/parser.go:78-100 | `parseRecord`; its errors and its trimmed fields are stated by `AirportParser.ParseRecordSpec` and `AirportParser.CellIsTrimmed`. |
| `AirportParser.ParseRecordSpec` | airports/parser.go:78-100 | A record with fewer than six cells fails. A record succeeds exactly when it has six cells or more and every required cell is in range and not blank. On success, each of the six fields is the trimmed cell of its column. |
| `AirportParser.CellIsTrimmed` | airports/parser.go:92-99 | The field taken from a filled cell is non-empty and has no white space at either end. |
| `AirportParser.AddAirportToMap` | airports/parser.go:102-111 | Sets `#IATA` and `*#IATA` (when IATA is non-empty) and `##ICAO` and `*##ICAO` (when ICAO is non-empty) to the airport. Every other key keeps its entry. |
| `AirportParser.AddParsedSpec` | airports/parser.go:42-59 | The first failing record aborts with that record's error. Otherwise a key is in the table exactly when a record claims it or it was there before, and it maps to the last record that claims it. |
| `AirportParser.AddRowsSpec` | airports/parser.go:40-59 | The loop fails exactly when some row fails, and then with the error of the first failing row. On success each key maps to the last row that claims it. |
| `AirportParser.Parse` | airports/parser.go:27-60 | `Parse` on already-split records; its outcome is stated by `AirportParser.ParseOutcome` and `AirportParser.AddRowsSpec`. |
| `AirportParser.ParseOutcome` | airports/parser.go:27-60 | An empty file fails with `failed to read header: EOF`, the reader's end-of-file error wrapped as the code wraps it. A header check error is returned as is. `Parse` succeeds exactly when the header is valid and every later row parses, and then its keys are exactly those some row claims. |
| `AirportParser.ParsedKeysTrimmed` | airports/parser.go:92-111 | No key of a parsed table ends in white space. |
| `Whitespace.ConvertControlChars` | formatter/whitespace.go:21-32 | The output has the input's length and has no vertical tab, form feed or carriage return. Those three become `\n`, and every other character is kept in place. |
| `Whitespace.ConvertControlCharsAddsNoWord` | formatter/whitespace.go:21-32 | A word without a newline occurs in the converted text only if it occurs in the original. |
| `Whitespace.CollapseLines` | formatter/whitespace.go:38-49 | The loop over the lines keeps no two adjacent blank lines and never yields more lines than it reads. With no blank run pending and some input it yields a line; after a blank run its first line is not blank. |
| `Whitespace.CollapseLinesBlanks` | formatter/whitespace.go:40-44 | Every blank line the loop yields is exactly `""`, and lines without newlines stay without newlines. |
| `Whitespace.CollapseLinesKeepsText` | formatter/whitespace.go:45-47 | The non-blank lines come out unchanged and in the same order. |
| `Whitespace.CollapseLinesFrom` | formatter/whitespace.go:39-49 | Every output line is `""` or one of the input lines. |
| `Whitespace.CollapseLinesRun` | formatter/whitespace.go:39-48 | A run of blank lines followed by a non-blank line or the end comes out as exactly one `""`, or as nothing when a blank run is already pending, and the loop goes on with its counter back at zero. |
| `Whitespace.CollapseLinesAppend` | formatter/whitespace.go:39-48 | Lines ending with a non-blank line collapse the same whatever follows them, and what follows is collapsed from a zero counter. |
| `Whitespace.CollapseBlankLinesOfRun` | formatter/whitespace.go:34-52 | In a text, a run of blank lines between non-blank lines (or the text's ends) becomes exactly one empty line; the lines on each side are collapsed on their own. |
| `Whitespace.CollapseBlankLinesAddsNoWord` | formatter/whitespace.go:34-52 | A non-empty word without a newline occurs in the collapsed text only if it occurs in the original: collapsing only drops lines and empties blank ones. |
| `Whitespace.CollapseLinesAllBlank` | formatter/whitespace.go:40-44 | Lines that are all blank give one `""` line, or none when a blank run is already pending. |
| `Whitespace.CollapseLinesFixpoint` | formatter/whitespace.go:39-49 | Lines that already have no adjacent blanks and whose blanks are all empty come out unchanged. |
| `Whitespace.LinesOfCollapse` | formatter/whitespace.go:34-52 | The lines of the result are the loop's output on the lines of the input. |
| `Whitespace.CollapseBlankLines` | formatter/whitespace.go:34-52 | Split, the counter loop, Join; stated by `Whitespace.CollapseBlankLinesSpec`, `Whitespace.CollapseBlankLinesOfRun` and `Whitespace.CollapseBlankLinesIdempotent`. |
| `Whitespace.CollapseBlankLinesSpec` | formatter/whitespace.go:34-52 | The result never has two adjacent blank lines, and every blank line is `""`. Its non-blank lines are the input's, in order, and it has no more lines than the input. That each run of blank lines becomes exactly one empty line is `Whitespace.CollapseBlankLinesOfRun`. |
| `Whitespace.CollapseBlankLinesIdempotent` | formatter/whitespace.go:34-52 | Collapsing twice is collapsing once. |
| `Whitespace.CollapseBlankLinesChars` | formatter/whitespace.go:34-52 | Every character of the result is a newline or occurs in the input. |
| `Whitespace.CollapseBlankLinesOfSpace` | formatter/whitespace.go:40-44 | A text of nothing but white space collapses to `""`. |
| `Whitespace.SqueezeBlanksShape` | formatter/whitespace.go:57-58 | Replacing each run of spaces and tabs by one space leaves no tab and no double space. The result is empty exactly when the line is. Its first character is the line's, or a space for a leading run. It brings in no character but the space. |
| `Whitespace.SqueezeBlanksOfClean` | formatter/whitespace.go:57-58 | A line without tabs and double spaces is unchanged. |
| `Whitespace.SqueezeBlanksKeeps` | formatter/whitespace.go:57-58 | Every character other than space and tab survives. |
| `Whitespace.TrimLineIsClean` | formatter/whitespace.go:57-59 | A squeezed and trimmed line has no tab, no double space and no white space at either end, and it gains no newline. |
| `Whitespace.TrimLineOfClean` | formatter/whitespace.go:57-59 | A clean line is its own trimmed form. |
| `Whitespace.TrimLineBlank` | formatter/whitespace.go:57-59 | Trimming keeps a line blank exactly when it was blank, and a blank line becomes `""`. |
| `Whitespace.TrimLineChars` | formatter/whitespace.go:57-59 | Trimming brings in no character but the space. |
| `Whitespace.TrimLines` | formatter/whitespace.go:56-60 | Every line is replaced by its trimmed form, and the count is kept. |
| `Whitespace.TrimExcessiveWhitespace` | formatter/whitespace.go:54-62 | Split, the per-line trim, Join; stated by `Whitespace.TrimExcessiveWhitespaceSpec` and `Whitespace.TrimExcessiveWhitespaceIdempotent`. |
| `Whitespace.TrimExcessiveWhitespaceSpec` | formatter/whitespace.go:54-62 | The number of lines is kept, every line comes out clean, and line k of the result is line k of the input, trimmed. |
| `Whitespace.TrimExcessiveWhitespaceIdempotent` | formatter/whitespace.go:54-62 | Trimming twice is trimming once. |
| `Whitespace.TrimExcessiveWhitespaceChars` | formatter/whitespace.go:54-62 | Every character of the result is a space, a newline or a character of the input. |
| `Whitespace.CollapseOfTrimmedCollapsed` | formatter/whitespace.go:34-62 | Collapsing a collapsed-then-trimmed text changes nothing. |
| `Text.TrimSpaceSpec` | formatter/whitespace.go:59 | `strings.TrimSpace` returns a slice of its argument with only white space cut on either side, and it starts and ends with a non-space. |
| `Text.BlankIffAllSpace` | formatter/whitespace.go:40 | A line is blank after trimming exactly when every character of it is white space. |
| `Text.Split` | formatter/whitespace.go:35 | `strings.Split(s, "\n")` yields at least one piece and none of the pieces holds a newline. Joining the pieces gives back `s`. |
| `Text.SplitJoin` | formatter/whitespace.go:51 | Splitting what was joined gives back the lines, if none of them holds a newline. |
| `Text.LastIndexOf` | formatter/dates.go:164-166 | `strings.LastIndex` of a rune finds nothing exactly when the rune is absent. Otherwise it finds the last occurrence. |
| `Text.ReplaceChar` | main.go:131-133 | Replacing one rune by another keeps the length and changes exactly the occurrences of that rune. |
| `Text.NumberOfPadNat` | formatter/dates.go:248 | `%02d` of a number reads back as that number. |
| `Text.ByteLenOfAscii` | formatter/dates.go:168 | For ASCII text the byte index Go compares with 10 is the character index. |
| `Regex.MatchEnd` | formatter/airports.go:17-19 | A match is never empty and never runs past the text. |
| `Regex.CodeThenDelimiter` | formatter/airports.go:18-19 | A code match ends at the end of the text or just after one delimiter: `\s` (tab, newline, form feed, carriage return, space) or one of `. , ; ! ? ) " '`. |
| `Regex.MatchIsToken` | formatter/airports.go:24 | Every match found, taken on its own, is exactly one match of the pattern. |
| `Regex.Tokenize` | formatter/airports.go:24 | The scan's pieces put together give back the text, and every match piece is one match of the pattern. |
| `Regex.ReplaceAllIsRender` | formatter/airports.go:24 | Replacing copies the text outside the matches unchanged and puts the replacement of each match in its place. |
| `Regex.ReplaceAllIdentity` | formatter/airports.go:24 | A replacement that returns every match unchanged leaves the text unchanged. |
| `Regex.SkipUnmatched` | formatter/airports.go:24 | Characters at which no match starts are copied, and the scan resumes after them. |
| `Regex.ReplaceAllOfToken` | formatter/airports.go:24 | A text that is exactly one match is replaced by the replacement of that match. |
| `Regex.ReplaceAllWithoutHash` | formatter/airports.go:18-19 | A text without `#` holds no airport code match, so every code pass copies it. |
| `Regex.ReplaceAllWithoutCall` | formatter/dates.go:26-40 | A text in which `tag(` never occurs is copied by that tag's pass. |
| `Regex.NoCallOpening` | formatter/dates.go:37 | Only the `(` after the tag can open a call. Since there is no left boundary, `tag(` occurs wherever the tag's letters precede a `(`. |
| `Regex.FindCallArgument` | formatter/dates.go:49-54 | The captured argument is non-empty and holds no `)`. |
| `Regex.CallTokenOf` | formatter/dates.go:49-54 | `tag(arg)`, with a non-empty `arg` without `)`, is one match, and its captured argument is `arg`. |
| `Regex.CallArgumentOfToken` | formatter/dates.go:87-93 | The argument of a lone call match is the text between its parentheses. |
| `Regex.BlankRunLength` | formatter/whitespace.go:57 | `[ \t]+` takes the whole run of spaces and tabs. |
| `GoTime.Quot` | formatter/dates.go:217 | Go's `/` truncates toward zero. |
| `GoTime.Rem` | formatter/dates.go:218 | Go's `%` takes the sign of the dividend. |
| `GoTime.ParseDatePart` | formatter/dates.go:116 | `2006-01-02` accepts a four-digit year, a month in 1..12 and a day within the month, counting leap years. |
| `GoTime.ParseHourMinute` | formatter/dates.go:117 | `T15:04` gives an hour below 24 and a minute below 60. |
| `GoTime.ParseSecond` | formatter/dates.go:116 | `:05` gives a second below 60. |
| `GoTime.ParseClockPart` | formatter/dates.go:116-117 | The clock is within range, and the second is 0 for the layouts without seconds. |
| `GoTime.ParseNumericZone` | formatter/dates.go:116 | `-07:00` reads exactly six characters, and the offset is whole minutes within Go's bound. |
| `GoTime.ParseZonePart` | formatter/dates.go:116-121 | The zone offset is whole minutes within bound. The literal `Z` layouts give offset 0. |
| `GoTime.Parse` | formatter/dates.go:125 | A parsed time is a valid calendar time. The date-only layout gives midnight at offset 0, layouts without seconds give second 0, and literal `Z` layouts give offset 0. |
| `GoTime.TryLayouts` | formatter/dates.go:124-131 | A result is what some layout parses to, and every layout before that one fails to parse. Nothing is returned exactly when no layout parses. |
| `GoTime.NumericZoneText` | main.go:224 | `Format("-07:00")` has six characters and starts with `-` exactly for offsets of a minute or more west of UTC. |
| `GoTime.ParseRender` | formatter/dates.go:115-129 | Every layout reads back exactly the time it writes out. |
| `GoTime.ParseLastChar` | formatter/dates.go:115-122 | Every text a layout accepts ends in a digit or `Z`. |
| `AirportCodes.TrimRightCut` | formatter/airports.go:26 | `TrimRight` with the cut set removes a suffix made only of space and `. , ; ! ? ) " '`, and leaves a text that does not end in one of them. |
| `AirportCodes.CodeOfToken` | formatter/airports.go:18-26 | The code of a match is the match without its delimiter when that is a cut character, and the whole match otherwise. |
| `AirportCodes.RewriteCode` | formatter/airports.go:26-45 | The replacement callback; `AirportCodes.RewriteKnownCode` and `AirportCodes.RewriteUnknownCode` state both of its outcomes. |
| `AirportCodes.ReplaceAirportCodes` | formatter/airports.go:15-49 | The ICAO pass, then the IATA pass; stated by `AirportCodes.ReplaceAirportCodesIdentity`, `AirportCodes.ReplaceKnownIataCode` and `AirportCodes.ReplaceKnownIcaoCode`. |
| `AirportCodes.RewriteKnownCode` | formatter/airports.go:28-41 | A known code becomes the city for `*` codes and the airport name otherwise, followed by the delimiter that ended the match. |
| `AirportCodes.RewriteUnknownCode` | formatter/airports.go:36-44 | A match whose code the service does not know is returned verbatim, delimiter included. |
| `AirportCodes.WhitespaceDelimiterNeverResolves` | formatter/airports.go:18-36 | A code followed by a tab, newline, form feed or carriage return keeps that character in its lookup key. With a table of trimmed keys it never resolves. |
| `AirportCodes.ReplaceAirportCodesIdentity` | formatter/airports.go:22-48 | When no code either pattern can match is known, both passes leave the text unchanged. |
| `AirportCodes.ReplaceAirportCodesEmptyTable` | formatter/airports.go:22-48 | An empty table leaves every text unchanged. |
| `AirportCodes.ReplaceAirportCodesWithoutHash` | formatter/airports.go:17-20 | A text without `#` passes both passes unchanged, whatever the service knows. |
| `AirportCodes.IataPassSkipsIcaoCode` | formatter/airports.go:17-22 | The `#` pass finds nothing inside `##` plus four capitals, so such a code left by the `##` pass stays as it is. |
| `AirportCodes.IataPassReadsShortIcaoCode` | formatter/airports.go:17-22 | `##ABC` plus a delimiter, left by the `##` pass, is read by the `#` pass as `#` followed by the code `#ABC`. |
| `AirportCodes.ReplaceKnownIataCode` | formatter/airports.go:15-49 | A known `#ABC` followed by a cut character goes through both passes as its airport name followed by that character. |
| `AirportCodes.IcaoPassSkipsIataCode` | formatter/airports.go:18 | The `##` pass finds nothing in a single-hash code. |
| `AirportCodes.ReplaceKnownIcaoCode` | formatter/airports.go:15-49 | A known `##ABCD` followed by a cut character goes through both passes as its airport name followed by that character, when the name holds no `#`. |
| `AirportCodes.ReplaceKnownStarIataCode` | formatter/airports.go:15-49 | A known `*#ABC` followed by a cut character goes through both passes as its city followed by that character. |
| `AirportCodes.IcaoPassWithoutDoubleHash` | formatter/airports.go:18 | The `##` pass leaves a text without two hashes in a row unchanged. |
| `AirportCodes.IataPassRewritesKnownCode` | formatter/airports.go:19-41 | The `#` pass replaces a known `#ABC` plus a cut character by the name and that character. |
| `Dates.Atoi2` | formatter/dates.go:193-198 | `strconv.Atoi` on two characters succeeds exactly when the second is a digit and the first is a digit or a sign. Two digits give their decimal value, `+d` gives `d` and `-d` gives `-d`. |
| `Dates.IsValidTimeFormat` | formatter/dates.go:157-213 | `isValidTimeFormat`; its exact acceptance condition is `Dates.IsValidTimeFormatSpec`. |
| `Dates.ParseTime` | formatter/dates.go:110-132 | The first of the six clock layouts, in list order, that reads the text after U+2212 is replaced by `-`; `GoTime.TryLayouts` states the order and `Dates.IsoTimeParses` the value. |
| `Dates.ParseDate` | formatter/dates.go:134-155 | The same over the five date layouts, the last of which reads a bare date; stated by `Dates.IsoTimeParses` and `Dates.BareDateParses`. |
| `Dates.FormatOffset` | formatter/dates.go:215-233 | `formatOffset`; stated by `Dates.FormatOffsetEcho`, `Dates.FormatOffsetSplitsMinutes` and `Dates.FormatOffsetSplitDiffers`. |
| `Dates.FormatTimeToken` | formatter/dates.go:45-84 | `FormatTimeToken`; stated by `Dates.TimeTokenOfIsoTime`, `Dates.TimeTokenRewritten` and `Dates.TimeTokenOfBareDate`. |
| `Dates.FormatDateToken` | formatter/dates.go:86-108 | `FormatDateToken`; stated by `Dates.DateTokenOfIsoTime`, `Dates.DateTokenRewritten` and `Dates.DateTokenOfBareDate`. |
| `Dates.ReplaceTimesThenDates` | formatter/dates.go:24-43 | The T12, T24 and D passes in that order; stated by `Dates.ReplaceTimesThenDatesWithoutTokens`, `Dates.ReplaceTimesThenDatesOfT24` and `Dates.ReplaceTimesThenDatesOfT12`. |
| `Dates.IsValidTimeFormatSpec` | formatter/dates.go:157-213 | The check accepts exactly when one of three holds. (1) The text ends in `Z` or `z`. (2) The text from its last `+` is a valid six-character `+HH:MM`. (3) There is no `+`, the last `-` is past byte 10 and starts a valid `-HH:MM`. |
| `Dates.Hour12` | formatter/dates.go:237-247 | The 12-hour hour is in 1..12, and together with AM/PM it gives back the 24-hour hour. |
| `Dates.FormatClock` | formatter/dates.go:235-254 | `format12HourTime` and `format24HourTime`. The 12-hour form is the two-digit 12-hour hour, `:`, the two-digit minute, `AM` or `PM`, a space and the offset text; the 24-hour form is the two-digit hour, `:`, the two-digit minute, a space and the offset text. `Dates.Hour12` states the hour, `Text.NumberOfPadNat` that each `%02d` field reads back as its number, and `Dates.TimeTokenOfIsoTime` that a token around a time renders through it. |
| `Dates.FormatOffsetEcho` | formatter/dates.go:215-233 | For offsets east of UTC and whole hours west of it, the offset is written `(±HH:MM)` as Go writes `-07:00`. |
| `Dates.OffsetFields` | formatter/dates.go:216-218 | For those offsets, truncating division gives the sign, the hours and the minutes of the zone. |
| `Dates.FormatOffsetSplitsMinutes` | formatter/dates.go:217-232 | For a fractional offset west of UTC, the minutes carry their own `-` and the hour sign is `+` when the hours are 0. |
| `Dates.FormatOffsetSplitDiffers` | formatter/dates.go:217-232 | For every fractional offset west of UTC, the rendered offset differs from the zone Go itself would write. |
| `Dates.FormatOffsetExampleFiveThirty` | formatter/dates.go:217-232 | Offset −05:30 renders as `(-05:-30)`. |
| `Dates.FormatOffsetExampleHalfHour` | formatter/dates.go:217-232 | Offset −00:30 renders as `(+00:-30)`. |
| `Dates.IsoTimeIsValid` | formatter/dates.go:157-213 | Every `2006-01-02T15:04:05-07:00` rendering with an offset below 24 hours passes the check. |
| `Dates.IsoTimeParses` | formatter/dates.go:110-155 | Both `parseTime` and `parseDate` read such a rendering back as the same time. |
| `Dates.TimeTokenOfIsoTime` | formatter/dates.go:45-84 | A `T12`/`T24` token around such a rendering becomes the clock, a space and `formatOffset` of the time. |
| `Dates.TimeTokenEchoesOffset` | formatter/dates.go:45-84 | With the offset east of UTC or a whole hour west, the token becomes the clock, a space and `(±HH:MM)`. |
| `Dates.DateTokenOfIsoTime` | formatter/dates.go:86-108 | A `D` token around such a rendering becomes `DD Mon YYYY` of its date. |
| `Dates.ZuluTimeParses` | formatter/dates.go:110-132 | A `Z`-suffixed rendering with seconds parses back to the same time at offset 0. |
| `Dates.ZuluDateParses` | formatter/dates.go:134-155 | `parseDate` reads it back too. |
| `Dates.NumericLayoutsRejectZ` | formatter/dates.go:116-117 | The two numeric-offset layouts reject a `Z` suffix, so a later layout decides. |
| `Dates.ZuluOrOffsetReadsZ` | formatter/dates.go:118 | The `Z07:00` layout reads a `Z` suffix as offset 0. |
| `Dates.TimeTokenOfZuluTime` | formatter/dates.go:45-84 | A `Z`-suffixed time token becomes the clock followed by `(+00:00)`. |
| `Dates.DateTokenOfZuluTime` | formatter/dates.go:86-108 | A `Z`-suffixed date token becomes `DD Mon YYYY`. |
| `Dates.ClockLayoutRejectsBareDate` | formatter/dates.go:115-122 | No layout with a clock accepts a bare `YYYY-MM-DD`. |
| `Dates.BareDateParses` | formatter/dates.go:110-155 | `parseTime` rejects a bare date and `parseDate` accepts it as midnight. |
| `Dates.RejectsAtDateDash` | formatter/dates.go:164-170 | Without `+`, a last `-` at the date separator position fails the check. |
| `Dates.TimeTokenOfBareDate` | formatter/dates.go:64-67 | A time token around a bare date is left as it was. |
| `Dates.DateTokenOfBareDate` | formatter/dates.go:86-108 | A date token around a bare date becomes `DD Mon YYYY`. |
| `Dates.TypographicNormalizes` | formatter/dates.go:112 | Replacing U+2212 with `-` turns the typographic-minus rendering into the ASCII one. |
| `Dates.TimeTokenOfTypographicMinus` | formatter/dates.go:64-67 | A time token whose offset uses U+2212 fails the check, which runs before the minus is normalised, and is left as it was. |
| `Dates.DateTokenOfTypographicMinus` | formatter/dates.go:134-155 | A date token whose offset uses U+2212 is normalised and formatted, since `D` has no check. |
| `Dates.LowerZuluTimePassesThrough` | formatter/dates.go:159-161 | A time ending in a lower-case `z` passes the check, but no layout reads it, so the token is left as it was. |
| `Dates.LowerZuluDatePassesThrough` | formatter/dates.go:139-145 | A date ending in a lower-case `z` is left as it was. |
| `Dates.ReplaceTimesThenDatesWithoutTokens` | formatter/dates.go:24-43 | A text where none of `T12(`, `T24(` and `D(` occurs is unchanged. |
| `Dates.ReplaceTimesThenDatesOfT24` | formatter/dates.go:24-43 | A lone `T24(…)` token around any canonical time the validator accepts goes through all three passes as its 24-hour clock, a space and the offset as `formatOffset` writes it, fractional western offsets included. The later passes leave it alone. |
| `Dates.ReplaceTimesThenDatesEchoesT24` | formatter/dates.go:24-43 | For offsets east of UTC or whole hours west, that offset is the input's own `(±HH:MM)`. |
| `Dates.ReplaceTimesThenDatesOfT12` | formatter/dates.go:24-43 | A lone `T12(…)` token around any canonical time the validator accepts goes through all three passes as its 12-hour clock, a space and the offset as `formatOffset` writes it, fractional western offsets included. |
| `Dates.ReplaceTimesThenDatesEchoesT12` | formatter/dates.go:24-43 | For offsets east of UTC or whole hours west, that offset is the input's own `(±HH:MM)`. |
| `Dates.OtherTagsAbsent` | formatter/dates.go:37 | A call token whose tag does not end in another tag's letters holds no opening of that other tag. |
| `Dates.T12PassKeepsT24` | formatter/dates.go:26-29 | The T12 pass leaves a `T24` token alone. |
| `Dates.T24PassOfToken` | formatter/dates.go:31-34 | The T24 pass rewrites a lone canonical `T24` token, for every validator-accepted offset, into the clock and `formatOffset`'s text. |
| `Dates.T12PassOfToken` | formatter/dates.go:26-29 | The T12 pass rewrites a lone canonical `T12` token, for every validator-accepted offset, into the 12-hour clock and `formatOffset`'s text. |
| `Dates.T24PassKeeps` | formatter/dates.go:31-34 | The T24 pass leaves a text without the letter `T` alone; the general form, a text without `T24(`, is `Regex.ReplaceAllWithoutCall`. |
| `Dates.DatePassKeeps` | formatter/dates.go:37-40 | The D pass leaves a text without the letter `D` alone; the general form, a text without `D(`, is `Regex.ReplaceAllWithoutCall`. |
| `Dates.TimeTokenRewritten` | formatter/dates.go:45-84 | A time token is changed only when its argument was found, passed the check and parsed. |
| `Dates.DateTokenRewritten` | formatter/dates.go:86-108 | A date token is changed only when its argument was found and parsed. |
| `Dates.ExampleMidnightT12` | formatter/dates.go:45-84 | `T12(2007-04-05T00:00:00Z)` becomes `12:00AM (+00:00)`. |
| `Formatter.Prettify` | formatter/formatter.go:29-37 | Every line of the result has no tab, no two adjacent spaces and no white space at either end. |
| `Formatter.PrettifyPlainText` | formatter/formatter.go:29-37 | A text without `#` and `(` is only tidied: trimmed after collapsing after control conversion, whatever the service knows. |
| `Formatter.PrettifyNothingToRewrite` | formatter/formatter.go:29-37 | A text with no opening `T12(`, `T24(` or `D(`, under a service that knows no code the two airport patterns can match, is only tidied. |
| `Formatter.PrettifyOfSpace` | formatter/formatter.go:31-36 | A text of nothing but white space and control characters prettifies to `""`. |
| `Formatter.TidyWhitespaceIdempotent` | formatter/whitespace.go:21-62 | The three whitespace stages in pipeline order are idempotent. |
| `Formatter.TidyWhitespaceChars` | formatter/whitespace.go:21-62 | The whitespace stages bring in no character but the space and the newline. |
| `Formatter.PrettifyPlainTextIdempotent` | formatter/formatter.go:29-37 | Prettifying a text without `#` and `(` twice is prettifying it once. |
| `BlankLines.SettledIffNoAdjacentBlank` | formatter/whitespace.go:40-44 | A left-to-right scan of the text ends settled exactly when no two adjacent lines are blank. |
| `BlankLines.ReplaceAllRank` | formatter/airports.go:24 | A pass that keeps each match or puts one line with content in its place creates no adjacent blank lines. |
| `BlankLines.RewriteCodeShape` | formatter/airports.go:36-44 | When no name or city in the table is blank or spans lines, a match is kept or becomes one line with content. |
| `BlankLines.FormatTimeTokenShape` | formatter/dates.go:45-84 | A time token is kept or becomes one line with content. |
| `BlankLines.FormatDateTokenShape` | formatter/dates.go:86-108 | A date token is kept or becomes one line with content. |
| `BlankLines.TrimKeepsNoAdjacentBlank` | formatter/whitespace.go:54-62 | Trimming lines creates no adjacent blank lines. |
| `BlankLines.PrettifyNoAdjacentBlank` | formatter/formatter.go:32-35 | When no name or city in the table is blank or spans lines, the prettified text has no two adjacent blank lines, so no two adjacent empty lines. |
| `Legacy.StoreAirport` | main.go:116-123 | Stores the airport under `#IATA` and `*#IATA` when IATA is non-empty and under `##ICAO` and `*##ICAO` when ICAO is non-empty. Every other key keeps its entry. |
| `Legacy.BuildTableOutcome` | main.go:99-105 | The row loop succeeds exactly when every row has a non-blank cell at every header's index. Otherwise it fails with `blank field`. |
| `Legacy.BuildTableKeys` | main.go:99-124 | A key is in the table exactly when it was there before or some row claims it. |
| `Legacy.BuildTableLastWins` | main.go:99-124 | A key maps to the airport of the last row that claims it. |
| `Legacy.BuildTableKeeps` | main.go:99-124 | A key no row claims keeps its entry. |
| `Legacy.ParseAirportCSV` | main.go:75-126 | `parseAirportCSV` on already-split records; stated by `Legacy.ParseAirportCSVOutcome`, `Legacy.FilledRowKeys` and the `Legacy.BuildTable` lemmas. |
| `Legacy.ParseAirportCSVOutcome` | main.go:78-105 | Fewer than two records give `CSV malformed`. A missing column (exact, case-sensitive header) gives `missing column`. Otherwise any row with a blank or missing cell at any header index gives `blank field`, and success is exactly the absence of all three. |
| `Legacy.FilledRowKeys` | main.go:108-123 | An accepted row is stored under exactly `#IATA`, `*#IATA`, `##ICAO` and `*##ICAO`. |
| `Legacy.LegacyConvertAgrees` | main.go:131-133 | The three `strings.ReplaceAll` calls agree with `ConvertControlChars`. |
| `Legacy.LegacyCollapseLinesAgree` | main.go:150-162 | The boolean-flag loop agrees with the counter loop when the flag is set exactly when the counter is positive. |
| `Legacy.LegacyCollapseBlankLines` | main.go:148-164 | `collapseBlankLines`; `Legacy.LegacyCollapseAgrees` states that it equals the formatter's `CollapseBlankLines`. |
| `Legacy.LegacyCollapseAgrees` | main.go:148-164 | `collapseBlankLines` equals the formatter's `CollapseBlankLines` on every input. |
| `Legacy.LegacyReplaceAirportCodes` | main.go:167-179 | `replaceAirportCodes`; stated by `Legacy.LegacyReplaceIataCode` and `Legacy.LegacyReplaceIcaoCode`. |
| `Legacy.LegacyReplaceIataCode` | main.go:169-178 | A three-character `#` code (with an optional `*`) becomes the municipality for `*` and the name otherwise on a table hit. On a miss it stays verbatim, and the rest of the text is processed after it. |
| `Legacy.LegacyReplaceIcaoCode` | main.go:169-178 | The same for a four-character `##` code. |
| `Legacy.LegacyHour12Agrees` | main.go:236 | Go's `03` hour agrees with the formatter's 12-hour hour. |
| `Legacy.LegacyFormatDate` | main.go:205-242 | `formatDate`; stated by `Legacy.LegacyFormatIsoTime`, `Legacy.LegacyKeepsUnparsed` and `Legacy.LegacyFormatZuluTime`. |
| `Legacy.LegacyReplaceDates` | main.go:182-202 | The D, T12 and T24 passes in that order; stated by `Legacy.LegacyReplaceDatesOfT24`, `Legacy.LegacyReplaceDatesOfD` and `Legacy.LegacyTimePassesKeep`. |
| `Legacy.LegacyFormatIsoTime` | main.go:205-241 | An RFC 3339 token with a numeric offset is rendered per prefix with offset `(` + Go's `-07:00` + `)`. |
| `Legacy.LegacyT24OfIsoTime` | main.go:237-238 | A `T24` token becomes the 24-hour clock, a space and the offset. |
| `Legacy.LegacyShowT12` | main.go:235-236 | The `T12` case renders the formatter's 12-hour clock with AM/PM, a space and the offset. |
| `Legacy.LegacyShowT24` | main.go:237-238 | The `T24` case renders the clock, a space and the offset. |
| `Legacy.LegacyT12OfIsoTime` | main.go:235-236 | A `T12` token becomes the 12-hour clock with AM/PM, a space and the offset. |
| `Legacy.LegacyDateOfIsoTime` | main.go:233-234 | A `D` token becomes `02 Jan 2006` of its date, with the year padded to four digits. From year 1000 on, that equals the formatter's date text. |
| `Legacy.LegacyFormatZuluTime` | main.go:225-226 | A `Z`-suffixed argument gives offset `(+00:00)`. |
| `Legacy.LegacyT24OfZuluTime` | main.go:225-238 | A `Z`-suffixed `T24` token becomes the clock followed by `(+00:00)`. |
| `Legacy.LegacyKeepsUnparsed` | main.go:218-221 | An argument RFC 3339 cannot parse leaves the match as it was. |
| `Legacy.LegacyPrettifyPlainText` | main.go:129-145 | A text without `#` and `(` comes out converted and collapsed, and is not trimmed. |
| `Legacy.LegacyPrettify` | main.go:129-145 | `prettify`; stated by `Legacy.LegacyPrettifyPlainText` and `Legacy.LegacyThenTidy`. |
| `Legacy.LegacyThenTidy` | main.go:129-145 | On such a text, the formatter pipeline is the legacy pipeline followed by the line trim. |
| `Legacy.LegacyReplaceDatesOfT24` | main.go:182-202 | A lone `T24` token goes through all three passes as its clock and offset. |
| `Legacy.LegacyReplaceDatesOfD` | main.go:182-202 | A lone `D` token goes through all three passes as its padded date. |
| `Legacy.LegacyTimePassesKeep` | main.go:189-199 | The T12 and T24 passes leave a text without `(` alone. |
| `Legacy.LegacyDateTextPlain` | main.go:234 | A rendered date holds no `(`, so the later passes leave it alone. |

## Left out

- File I/O, the command line and the process. This covers fileio/fileio.go, cli/cli.go, `main()` in main.go, `AirportLoader.Load` in airports/lookup.go and the `csv.Reader` calls. The CSV is given as already-split rows (`seq<seq<string>>`), so CSV quoting and field-count errors are not modelled, and neither is the `error reading record` path of `Parse`.
- types/types.go has no behaviour. Its `Airport` and `Config` appear as datatypes.
- Regex compilation and caching have no effect on results. The patterns are scanners written by hand.
- Go `time` beyond the fixed layouts is not modelled: no time zone database, no location names, no monotonic clock. A fractional second after the seconds field is read and dropped, because no output shows it.
- Invalid UTF-8 (decoded by Go as U+FFFD) is not modelled. Text is a sequence of code points.
- AirportParser.ToLower: lowers ASCII capitals plus U+0130 and U+212A, the only code points that lower into ASCII. Other letters are kept, which cannot change whether a header equals one of the six ASCII column names.
- Formatter.PrettifyPlainTextIdempotent: idempotence is proved only for texts without `#` and `(`. A rewritten name or date can itself contain a token again (for example a city called `#ABC`), so full idempotence does not hold for every table.
- BlankLines.PrettifyNoAdjacentBlank: it assumes that no name or city in the table is blank or contains a newline. A blank name can put blank lines next to each other, so the property does not hold for every table.
- Legacy.LegacyFormatIsoTime: stated for times that render in the numeric-offset form with seconds. Other spellings that `time.Parse` accepts for RFC 3339, such as a fraction after the seconds, reach the same code path, and their exact output is not stated. A lower-case `t` is not one of them: the parse rejects it and the token is left as it was (`Legacy.LegacyKeepsUnparsed`).

## Where the intended behaviour and the code differ

Each item below sets what the itinerary prettifier is meant to do beside what its code does. The model follows the code in each case. The intended behaviour is not modelled, and nothing in the model promises it.

- **Typographic minus:** the intent is that U+2212 is read as a minus sign before the offset check. In the code, the check sees the raw text, so `T12`/`T24` tokens with U+2212 pass through unchanged (`Dates.TimeTokenOfTypographicMinus`). `D` tokens are normalised and formatted.
- **Lower-case `z`:** it is accepted by the check but read by no layout, so the token passes through (`Dates.LowerZuluTimePassesThrough`) instead of showing `(+00:00)`.
- **Negative fractional offsets:** they render with Go's truncating division as `(-05:-30)`, not the intended `(-05:30)` (`Dates.FormatOffsetExampleFiveThirty`).
- **Year in `D` tokens:** the formatter writes it with `%d`, so it is not padded to four digits. main.go pads it.
- **Token boundaries:** no pattern checks a left boundary, so a code or tag glued to preceding letters still matches. A `#` code followed by a tab or newline keeps that character in its lookup key and never resolves (`AirportCodes.WhitespaceDelimiterNeverResolves`).
- **The `+` offset:** the position check of the validator applies only to the `-` offset. A `+` anywhere counts.
- **Adjacent blank lines:** whether two blank lines can end up next to each other depends on the table's names (`BlankLines.PrettifyNoAdjacentBlank`).
- **Which pipeline runs:** main.go, which the built program uses, keeps its own pipeline. Both are modelled, and `Legacy.LegacyThenTidy` relates them.
