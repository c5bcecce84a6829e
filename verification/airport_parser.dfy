/** airports/parser.go: building the tagged-key airport table from CSV rows
    that the CSV reader has already split into cells. */
module AirportParser {
  import opened Common
  import opened Text
  import opened Airports

  /** The columns every lookup file must have, in the order they are
      checked. */
  const RequiredColumns: seq<string> :=
    ["name", "iso_country", "municipality", "icao_code", "iata_code", "coordinates"]

  // ---------------------------------------------------------------------
  // validateHeaders
  // ---------------------------------------------------------------------

  /** `unicode.ToLower` for the code points that lower-case into ASCII:
      A-Z, U+0130 (capital I with dot) and U+212A (Kelvin sign). */
  function LowerRune(c: char): char {
    if IsUpper(c) then (c as int + 32) as char
    else if c == '\U{0130}' then 'i'
    else if c == '\U{212A}' then 'k'
    else c
  }

  function ToLower(s: string): (r: string)
    ensures |r| == |s|
    ensures forall i :: 0 <= i < |s| ==> r[i] == LowerRune(s[i])
  {
    if |s| == 0 then [] else [LowerRune(s[0])] + ToLower(s[1..])
  }

  /** A header cell as it is looked up: lower-cased, then trimmed. */
  function HeaderKey(header: string): string {
    TrimSpace(ToLower(header))
  }

  /** The cleaned names of the header cells, in column order. */
  function HeaderKeys(headers: seq<string>): (r: seq<string>)
    ensures |r| == |headers|
  {
    seq(|headers|, i requires 0 <= i < |headers| => HeaderKey(headers[i]))
  }

  /** Name to position, filled left to right, so a name that occurs twice
      keeps the position of its last occurrence. */
  function LastIndexMap(keys: seq<string>): (m: map<string, nat>)
    ensures forall k :: k in m ==> m[k] < |keys|
  {
    if |keys| == 0 then map[]
    else LastIndexMap(keys[..|keys| - 1])[keys[|keys| - 1] := |keys| - 1]
  }

  /** Every name is a key, and its position is the last occurrence. */
  lemma {:induction false} LastIndexMapLastWins(keys: seq<string>, name: string)
    ensures name in LastIndexMap(keys) <==> name in keys
    ensures name in LastIndexMap(keys) ==>
              && keys[LastIndexMap(keys)[name]] == name
              && forall j :: LastIndexMap(keys)[name] < j < |keys| ==> keys[j] != name
    decreases |keys|
  {
    if |keys| > 0 {
      var init := keys[..|keys| - 1];
      LastIndexMapLastWins(init, name);
      assert keys == init + [keys[|keys| - 1]];
    }
  }

  /** Cleaned header name to column index; the last header with a name wins. */
  function ColumnMap(headers: seq<string>): map<string, nat> {
    LastIndexMap(HeaderKeys(headers))
  }

  /** The first required column, in order, that is not a key of `columns`. */
  function FirstMissing(required: seq<string>, columns: map<string, nat>): (r: Option<string>)
    ensures r.None? <==> forall c :: c in required ==> c in columns
    ensures r.Some? ==> r.value in required && r.value !in columns
    ensures r.Some? ==> exists i :: && 0 <= i < |required| && required[i] == r.value
                                    && forall j :: 0 <= j < i ==> required[j] in columns
  {
    if |required| == 0 then None
    else if required[0] !in columns then Some(required[0])
    else
      var r := FirstMissing(required[1..], columns);
      if r.Some? then
        var i :| && 0 <= i < |required| - 1 && required[1..][i] == r.value
                 && forall j :: 0 <= j < i ==> required[1..][j] in columns;
        assert required[i + 1] == r.value;
        assert forall j :: 0 <= j < i + 1 ==> required[j] in columns by {
          forall j | 0 < j < i + 1 ensures required[j] in columns {
            assert required[j] == required[1..][j - 1];
          }
        }
        r
      else r
  }

  /** The column map, or an error naming the first required column that no
      header provides. */
  function ValidateHeaders(headers: seq<string>): (r: Result<map<string, nat>, string>)
    ensures r.Ok? <==> forall c :: c in RequiredColumns ==> c in HeaderKeys(headers)
    ensures r.Ok? ==> r.value == ColumnMap(headers)
  {
    var columns := ColumnMap(headers);
    forall c | c in RequiredColumns ensures c in columns <==> c in HeaderKeys(headers) {
      LastIndexMapLastWins(HeaderKeys(headers), c);
    }
    match FirstMissing(RequiredColumns, columns)
    case Some(column) => Err("missing required column: " + column)
    case None => Ok(columns)
  }

  // ---------------------------------------------------------------------
  // parseRecord
  // ---------------------------------------------------------------------

  /** Go's map read: a missing key reads as index 0. */
  function ColumnIndex(columns: map<string, nat>, name: string): nat {
    if name in columns then columns[name] else 0
  }

  /** The cell of a required column is present and not blank. */
  predicate HasCell(record: seq<string>, columns: map<string, nat>, name: string) {
    ColumnIndex(columns, name) < |record| && !IsBlank(record[ColumnIndex(columns, name)])
  }

  /** The first required column, in order, whose cell is missing or blank. */
  function FirstBlank(required: seq<string>, record: seq<string>, columns: map<string, nat>): (r: Option<string>)
    ensures r.None? <==> forall c :: c in required ==> HasCell(record, columns, c)
    ensures r.Some? ==> r.value in required && !HasCell(record, columns, r.value)
    ensures r.Some? ==> exists i :: && 0 <= i < |required| && required[i] == r.value
                                    && forall j :: 0 <= j < i ==> HasCell(record, columns, required[j])
  {
    if |required| == 0 then None
    else if !HasCell(record, columns, required[0]) then Some(required[0])
    else
      var r := FirstBlank(required[1..], record, columns);
      if r.Some? then
        var i :| && 0 <= i < |required| - 1 && required[1..][i] == r.value
                 && forall j :: 0 <= j < i ==> HasCell(record, columns, required[1..][j]);
        assert required[i + 1] == r.value;
        assert forall j :: 0 <= j < i + 1 ==> HasCell(record, columns, required[j]) by {
          forall j | 0 < j < i + 1 ensures HasCell(record, columns, required[j]) {
            assert required[j] == required[1..][j - 1];
          }
        }
        r
      else r
  }

  /** The trimmed cell of a column. */
  function Cell(record: seq<string>, columns: map<string, nat>, name: string): string {
    if ColumnIndex(columns, name) < |record| then TrimSpace(record[ColumnIndex(columns, name)]) else ""
  }

  /** A string that is not empty and has no white space at either end. */
  predicate IsTrimmedField(s: string) {
    s != [] && !IsSpace(s[0]) && !IsSpace(s[|s| - 1])
  }

  /** One data row to an airport, or the error for the first required
      column whose cell is missing or blank. */
  function ParseRecord(record: seq<string>, columns: map<string, nat>): Result<Airport, string> {
    if |record| < |RequiredColumns| then Err("record has insufficient columns")
    else match FirstBlank(RequiredColumns, record, columns)
      case Some(column) => Err("blank field in required column: " + column)
      case None =>
        Ok(Airport(
          Cell(record, columns, "name"),
          Cell(record, columns, "iso_country"),
          Cell(record, columns, "municipality"),
          Cell(record, columns, "icao_code"),
          Cell(record, columns, "iata_code"),
          Cell(record, columns, "coordinates")))
  }

  /** A row parses exactly when it has at least as many cells as there are
      required columns and no required cell is missing or blank; then every
      field is the trimmed cell of its column, non-empty and with no white
      space at either end. */
  lemma ParseRecordSpec(record: seq<string>, columns: map<string, nat>)
    ensures |record| < |RequiredColumns| ==> ParseRecord(record, columns).Err?
    ensures ParseRecord(record, columns).Ok? <==>
              |record| >= |RequiredColumns| &&
              forall c :: c in RequiredColumns ==> HasCell(record, columns, c)
    ensures ParseRecord(record, columns).Ok? ==>
              var a := ParseRecord(record, columns).value;
              && a.name == Cell(record, columns, "name")
              && a.isoCountry == Cell(record, columns, "iso_country")
              && a.municipality == Cell(record, columns, "municipality")
              && a.icao == Cell(record, columns, "icao_code")
              && a.iata == Cell(record, columns, "iata_code")
              && a.coordinates == Cell(record, columns, "coordinates")
              && IsTrimmedField(a.name) && IsTrimmedField(a.isoCountry)
              && IsTrimmedField(a.municipality) && IsTrimmedField(a.icao)
              && IsTrimmedField(a.iata) && IsTrimmedField(a.coordinates)
  {
    if ParseRecord(record, columns).Ok? {
      assert "name" in RequiredColumns && "iso_country" in RequiredColumns;
      assert "municipality" in RequiredColumns && "icao_code" in RequiredColumns;
      assert "iata_code" in RequiredColumns && "coordinates" in RequiredColumns;
      CellIsTrimmed(record, columns, "name");
      CellIsTrimmed(record, columns, "iso_country");
      CellIsTrimmed(record, columns, "municipality");
      CellIsTrimmed(record, columns, "icao_code");
      CellIsTrimmed(record, columns, "iata_code");
      CellIsTrimmed(record, columns, "coordinates");
    }
  }

  lemma CellIsTrimmed(record: seq<string>, columns: map<string, nat>, name: string)
    requires HasCell(record, columns, name)
    ensures IsTrimmedField(Cell(record, columns, name))
  {
    TrimSpaceSpec(record[ColumnIndex(columns, name)]);
  }

  // ---------------------------------------------------------------------
  // addAirportToMap and the row loop
  // ---------------------------------------------------------------------

  /** The tagged keys an airport is stored under: `#IATA` and `*#IATA` when
      it has an IATA code, `##ICAO` and `*##ICAO` when it has an ICAO code. */
  function KeysOf(a: Airport): set<string> {
    (if a.iata != "" then {"#" + a.iata, "*#" + a.iata} else {})
    + (if a.icao != "" then {"##" + a.icao, "*##" + a.icao} else {})
  }

  /** Stores `a` under each of its tagged keys, replacing what was there. */
  function AddAirportToMap(table: map<string, Airport>, a: Airport): (r: map<string, Airport>)
    ensures r.Keys == table.Keys + KeysOf(a)
    ensures forall k :: k in KeysOf(a) ==> r[k] == a
    ensures forall k :: k in table && k !in KeysOf(a) ==> r[k] == table[k]
  {
    var withIata := if a.iata != "" then table["#" + a.iata := a]["*#" + a.iata := a] else table;
    if a.icao != "" then withIata["##" + a.icao := a]["*##" + a.icao := a] else withIata
  }

  /** The outcome of each data row, in row order. */
  function RowResults(rows: seq<seq<string>>, columns: map<string, nat>): (r: seq<Result<Airport, string>>)
    ensures |r| == |rows|
    ensures forall i :: 0 <= i < |rows| ==> r[i] == ParseRecord(rows[i], columns)
  {
    seq(|rows|, i requires 0 <= i < |rows| => ParseRecord(rows[i], columns))
  }

  /** Row outcomes stored left to right; the first error aborts the whole
      table with its message. */
  function AddParsed(results: seq<Result<Airport, string>>, table: map<string, Airport>)
    : Result<map<string, Airport>, string>
  {
    if |results| == 0 then Ok(table)
    else match results[0]
      case Err(e) => Err(e)
      case Ok(a) => AddParsed(results[1..], AddAirportToMap(table, a))
  }

  /** The rows after the header, parsed and stored left to right. */
  function AddRows(rows: seq<seq<string>>, columns: map<string, nat>, table: map<string, Airport>)
    : Result<map<string, Airport>, string>
  {
    AddParsed(RowResults(rows, columns), table)
  }

  /** The airport table of a CSV file given as rows of cells: the first row
      is the header. An empty file fails as the header cannot be read. */
  function Parse(records: seq<seq<string>>): Result<map<string, Airport>, string> {
    if |records| == 0 then Err("failed to read header: EOF")
    else match ValidateHeaders(records[0])
      case Err(e) => Err(e)
      case Ok(columns) => AddRows(records[1..], columns, map[])
  }

  // ---------------------------------------------------------------------
  // What the loop builds
  // ---------------------------------------------------------------------

  /** Every outcome is an airport. */
  predicate AllOk(results: seq<Result<Airport, string>>) {
    forall i :: 0 <= i < |results| ==> results[i].Ok?
  }

  /** The index of the first error, if any. */
  function FirstError(results: seq<Result<Airport, string>>): (r: Option<nat>)
    ensures r.None? <==> AllOk(results)
    ensures r.Some? ==> r.value < |results| && results[r.value].Err?
                        && AllOk(results[..r.value])
  {
    if |results| == 0 then None
    else if results[0].Err? then Some(0)
    else match FirstError(results[1..])
      case None => None
      case Some(i) => Some(i + 1)
  }

  /** The airports of outcomes that are all airports, in order. */
  function StoredAirports(results: seq<Result<Airport, string>>): (r: seq<Airport>)
    requires AllOk(results)
    ensures |r| == |results|
    ensures forall i :: 0 <= i < |r| ==> r[i] == results[i].value
  {
    seq(|results|, i requires 0 <= i < |results| => results[i].value)
  }

  /** The last airport of the sequence that is stored under `key`. */
  function LastOwner(airports: seq<Airport>, key: string): Option<Airport> {
    if |airports| == 0 then None
    else if key in KeysOf(airports[|airports| - 1]) then Some(airports[|airports| - 1])
    else LastOwner(airports[..|airports| - 1], key)
  }

  /** LastOwner read from the front: a later airport wins over the first. */
  lemma {:induction false} LastOwnerCons(airports: seq<Airport>, key: string)
    requires |airports| > 0
    ensures LastOwner(airports, key) ==
              (if LastOwner(airports[1..], key).Some? then LastOwner(airports[1..], key)
               else if key in KeysOf(airports[0]) then Some(airports[0]) else None)
    decreases |airports|
  {
    if |airports| > 1 {
      var init := airports[..|airports| - 1];
      LastOwnerCons(init, key);
      assert init[1..] == airports[1..][..|airports| - 2];
      assert airports[1..][|airports| - 2] == airports[|airports| - 1];
    }
  }

  /** The fold fails exactly when some outcome is an error, with the first
      error; otherwise every key holds the last airport stored under it, and
      keys no airport mentions keep their old value. */
  lemma AddParsedSpec(results: seq<Result<Airport, string>>, table: map<string, Airport>)
    ensures FirstError(results).Some? ==>
              AddParsed(results, table) == Err(results[FirstError(results).value].error)
    ensures AllOk(results) ==>
              var airports := StoredAirports(results);
              && AddParsed(results, table).Ok?
              && (forall key :: key in AddParsed(results, table).value <==>
                                  (LastOwner(airports, key).Some? || key in table))
              && forall key :: key in AddParsed(results, table).value ==>
                                 AddParsed(results, table).value[key] ==
                                   (if LastOwner(airports, key).Some? then LastOwner(airports, key).value
                                    else table[key])
  {
    AddParsedError(results, table);
    if AllOk(results) {
      AddParsedTable(results, table);
    }
  }

  lemma {:induction false} AddParsedError(results: seq<Result<Airport, string>>, table: map<string, Airport>)
    ensures FirstError(results).Some? ==>
              AddParsed(results, table) == Err(results[FirstError(results).value].error)
    decreases |results|
  {
    if |results| > 0 && results[0].Ok? {
      AddParsedError(results[1..], AddAirportToMap(table, results[0].value));
    }
  }

  lemma {:induction false} AddParsedTable(results: seq<Result<Airport, string>>, table: map<string, Airport>)
    requires AllOk(results)
    ensures var airports := StoredAirports(results);
            && AddParsed(results, table).Ok?
            && (forall key :: key in AddParsed(results, table).value <==>
                                (LastOwner(airports, key).Some? || key in table))
            && forall key :: key in AddParsed(results, table).value ==>
                               AddParsed(results, table).value[key] ==
                                 (if LastOwner(airports, key).Some? then LastOwner(airports, key).value
                                  else table[key])
    decreases |results|
  {
    if |results| > 0 {
      var a := results[0].value;
      var next := AddAirportToMap(table, a);
      assert AllOk(results[1..]) by {
        forall i | 0 <= i < |results[1..]| ensures results[1..][i].Ok? {
          assert results[1..][i] == results[i + 1];
        }
      }
      AddParsedTable(results[1..], next);
      var airports := StoredAirports(results);
      assert airports[1..] == StoredAirports(results[1..]);
      forall key ensures LastOwner(airports, key) ==
                         (if LastOwner(airports[1..], key).Some? then LastOwner(airports[1..], key)
                          else if key in KeysOf(a) then Some(a) else None)
      {
        LastOwnerCons(airports, key);
      }
    }
  }

  /** The row loop fails exactly when some row does not parse, with the
      error of the first such row; otherwise the table holds, under each
      key, the airport of the last row stored under it. */
  lemma AddRowsSpec(rows: seq<seq<string>>, columns: map<string, nat>)
    ensures AddRows(rows, columns, map[]).Err? <==>
              exists i :: 0 <= i < |rows| && ParseRecord(rows[i], columns).Err?
    ensures AddRows(rows, columns, map[]).Err? ==>
              exists i :: && 0 <= i < |rows| && ParseRecord(rows[i], columns) == Err(AddRows(rows, columns, map[]).error)
                          && forall j :: 0 <= j < i ==> ParseRecord(rows[j], columns).Ok?
    ensures AddRows(rows, columns, map[]).Ok? ==>
              var airports := StoredAirports(RowResults(rows, columns));
              forall key :: (key in AddRows(rows, columns, map[]).value <==> LastOwner(airports, key).Some?)
                            && (key in AddRows(rows, columns, map[]).value ==>
                                  AddRows(rows, columns, map[]).value[key] == LastOwner(airports, key).value)
  {
    AddRowsErrors(rows, columns);
    AddRowsTable(rows, columns);
  }

  lemma AddRowsErrors(rows: seq<seq<string>>, columns: map<string, nat>)
    ensures AddRows(rows, columns, map[]).Err? <==>
              exists i :: 0 <= i < |rows| && ParseRecord(rows[i], columns).Err?
    ensures AddRows(rows, columns, map[]).Err? ==>
              exists i :: && 0 <= i < |rows| && ParseRecord(rows[i], columns) == Err(AddRows(rows, columns, map[]).error)
                          && forall j :: 0 <= j < i ==> ParseRecord(rows[j], columns).Ok?
  {
    var results := RowResults(rows, columns);
    AddParsedError(results, map[]);
    match FirstError(results)
    case Some(i) =>
      assert forall j :: 0 <= j < i ==> results[..i][j] == results[j];
    case None =>
      AddParsedTable(results, map[]);
  }

  lemma AddRowsTable(rows: seq<seq<string>>, columns: map<string, nat>)
    ensures AddRows(rows, columns, map[]).Ok? <==> AllOk(RowResults(rows, columns))
    ensures AddRows(rows, columns, map[]).Ok? ==>
              var airports := StoredAirports(RowResults(rows, columns));
              forall key :: (key in AddRows(rows, columns, map[]).value <==> LastOwner(airports, key).Some?)
                            && (key in AddRows(rows, columns, map[]).value ==>
                                  AddRows(rows, columns, map[]).value[key] == LastOwner(airports, key).value)
  {
    var results := RowResults(rows, columns);
    if AllOk(results) {
      AddParsedTable(results, map[]);
    } else {
      AddParsedError(results, map[]);
    }
  }

  /** No key of a stored table ends in white space when the codes of every
      stored airport are trimmed and non-empty. */
  lemma {:induction false} AddParsedKeysTrimmed(results: seq<Result<Airport, string>>, table: map<string, Airport>)
    requires forall k :: k in table ==> |k| > 0 && !IsSpace(k[|k| - 1])
    requires forall i :: 0 <= i < |results| && results[i].Ok? ==>
               IsTrimmedField(results[i].value.iata) && IsTrimmedField(results[i].value.icao)
    requires AddParsed(results, table).Ok?
    ensures forall k :: k in AddParsed(results, table).value ==> |k| > 0 && !IsSpace(k[|k| - 1])
    decreases |results|
  {
    if |results| > 0 {
      var a := results[0].value;
      var next := AddAirportToMap(table, a);
      KeysOfTrimmed(a);
      var rest := results[1..];
      assert forall i :: 0 <= i < |rest| ==> rest[i] == results[i + 1];
      AddParsedKeysTrimmed(rest, next);
    }
  }

  lemma KeysOfTrimmed(a: Airport)
    requires IsTrimmedField(a.iata) && IsTrimmedField(a.icao)
    ensures forall k :: k in KeysOf(a) ==> |k| > 0 && !IsSpace(k[|k| - 1])
  {
    forall k | k in KeysOf(a) ensures |k| > 0 && !IsSpace(k[|k| - 1]) {
      assert k[|k| - 1] == a.iata[|a.iata| - 1] || k[|k| - 1] == a.icao[|a.icao| - 1];
    }
  }

  /** The codes of a parsed row are trimmed and non-empty. */
  lemma ParsedCodesTrimmed(record: seq<string>, columns: map<string, nat>)
    requires ParseRecord(record, columns).Ok?
    ensures IsTrimmedField(ParseRecord(record, columns).value.iata)
    ensures IsTrimmedField(ParseRecord(record, columns).value.icao)
  {
    ParseRecordSpec(record, columns);
  }

  /** No key of a parsed table ends in white space, so a key never absorbs
      the delimiter that follows a code in the text. */
  lemma ParsedKeysTrimmed(records: seq<seq<string>>)
    requires Parse(records).Ok?
    ensures forall k :: k in Parse(records).value ==> |k| > 0 && !IsSpace(k[|k| - 1])
  {
    var columns := ValidateHeaders(records[0]).value;
    var results := RowResults(records[1..], columns);
    forall i | 0 <= i < |results| && results[i].Ok?
      ensures IsTrimmedField(results[i].value.iata) && IsTrimmedField(results[i].value.icao)
    {
      ParsedCodesTrimmed(records[1..][i], columns);
    }
    AddParsedKeysTrimmed(results, map[]);
  }

  /** The outcomes of `Parse`: an empty file fails on its header, a header
      without a required column fails on that column, the first row that
      fails fails the whole file, and otherwise every key belongs to the
      last row that claims it. */
  lemma ParseOutcome(records: seq<seq<string>>)
    ensures |records| == 0 ==> Parse(records) == Err("failed to read header: EOF")
    ensures |records| > 0 && ValidateHeaders(records[0]).Err? ==>
              Parse(records) == Err(ValidateHeaders(records[0]).error)
    ensures Parse(records).Ok? <==>
              && |records| > 0
              && ValidateHeaders(records[0]).Ok?
              && forall i :: 1 <= i < |records| ==> ParseRecord(records[i], ColumnMap(records[0])).Ok?
    ensures Parse(records).Ok? ==>
              var airports := StoredAirports(RowResults(records[1..], ColumnMap(records[0])));
              forall key :: key in Parse(records).value <==> LastOwner(airports, key).Some?
  {
    if |records| > 0 && ValidateHeaders(records[0]).Ok? {
      var rows := records[1..];
      var columns := ColumnMap(records[0]);
      AddRowsSpec(rows, columns);
      if AddRows(rows, columns, map[]).Err? {
        var i :| 0 <= i < |rows| && ParseRecord(rows[i], columns).Err?;
        assert ParseRecord(records[i + 1], columns).Err?;
      } else {
        forall i | 1 <= i < |records| ensures ParseRecord(records[i], columns).Ok? {
          assert records[i] == rows[i - 1];
        }
      }
    }
  }
}
