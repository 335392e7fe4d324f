/**
 * The parsing half of `reader.onload` in `handleFileInput`
 * (3dviz/src/DataVisualization.js): the text is cut into lines, the header names
 * the columns, and every non-empty line after it becomes a raw record whose colour
 * comes from a per-ID memo table.
 */
module Ingest {
  import opened Wrappers
  import opened JsStrings
  import ColorHash

  /** The positions of the four named columns in the header; -1 when a name is absent. */
  datatype Columns = Columns(id: int, latitude: int, longitude: int, timestamp: int)

  /**
   * The foreign conversions applied to a field: `parseFloat(..)` and
   * `new Date(..).getTime()`. They receive `None` when the row has no such column.
   */
  datatype Parsers = Parsers(parseFloat: Option<string> -> real, dateMillis: Option<string> -> real)

  /** One parsed row: `{ id, color, x: latitude, y: longitude, z: timestamp }`. */
  datatype RawRecord = RawRecord(id: string, color: string, x: real, y: real, z: real)

  /** `line.split(',')` with every piece trimmed: one field per piece, none with white space at either end. */
  function Fields(line: string): (fields: seq<string>)
    ensures |fields| == |Split(line, ',')|
    ensures forall k :: 0 <= k < |fields| ==> Trimmed(fields[k])
  {
    var pieces := Split(line, ',');
    seq(|pieces|, k requires 0 <= k < |pieces| => Trim(pieces[k]))
  }

  /** Neither end of `s` is JavaScript white space. */
  predicate Trimmed(s: string)
  {
    s == [] || (!IsJsWhitespace(s[0]) && !IsJsWhitespace(s[|s| - 1]))
  }

  /** No ASCII lower-case letter occurs in `s`. */
  predicate NoLowerAscii(s: string)
  {
    forall j :: 0 <= j < |s| ==> !('a' <= s[j] <= 'z')
  }

  /**
   * The header tokens: each comma-separated piece trimmed and upper-cased, so one
   * token per piece, none with an ASCII lower-case letter.
   */
  function HeaderTokens(header: string): (tokens: seq<string>)
    ensures |tokens| == |Split(header, ',')|
    ensures forall k :: 0 <= k < |tokens| ==> NoLowerAscii(tokens[k])
  {
    var pieces := Split(header, ',');
    var tokens := seq(|pieces|, k requires 0 <= k < |pieces| => ToUpper(Trim(pieces[k])));
    forall k | 0 <= k < |tokens| ensures NoLowerAscii(tokens[k]) {
      UpperHasNoLower(Trim(pieces[k]));
    }
    tokens
  }

  /** Upper-casing leaves no ASCII lower-case letter. */
  lemma UpperHasNoLower(s: string)
    ensures NoLowerAscii(ToUpper(s))
  {
    var u := ToUpper(s);
    forall j | 0 <= j < |u| ensures !('a' <= u[j] <= 'z') {
      assert u[j] == UpperChar(s[j]);
    }
  }

  /**
   * The four `headers.indexOf(..)` lookups: each index is the first header token,
   * trimmed and upper-cased, that equals the column name, or -1 when none does.
   */
  function HeaderColumns(header: string): (c: Columns)
    ensures FirstMatch(HeaderTokens(header), "ID", c.id)
    ensures FirstMatch(HeaderTokens(header), "LATITUDE", c.latitude)
    ensures FirstMatch(HeaderTokens(header), "LONGITUDE", c.longitude)
    ensures FirstMatch(HeaderTokens(header), "TIMESTAMP", c.timestamp)
  {
    var tokens := HeaderTokens(header);
    Columns(IndexOf(tokens, "ID"), IndexOf(tokens, "LATITUDE"),
            IndexOf(tokens, "LONGITUDE"), IndexOf(tokens, "TIMESTAMP"))
  }

  /** `columns[index]`: `undefined` (None) for -1 or for a row too short to have the column. */
  function Field(columns: seq<string>, index: int): (f: Option<string>)
    ensures f.Some? <==> 0 <= index < |columns|
    ensures f.Some? ==> f.value == columns[index]
  {
    if 0 <= index < |columns| then Some(columns[index]) else None
  }

  /**
   * The record a non-empty line yields. A row without an ID value aborts the whole
   * load: `stringToColor(undefined)` throws when it reads `undefined.length`.
   */
  function ParseRecord(line: string, cols: Columns, p: Parsers): (r: Option<RawRecord>)
    ensures r.Some? <==> 0 <= cols.id < |Fields(line)|
    ensures r.Some? ==> r.value.id == Fields(line)[cols.id] && r.value.color == ColorHash.ColorOf(r.value.id)
  {
    var columns := Fields(line);
    match Field(columns, cols.id)
    case None => None
    case Some(id) =>
      Some(RawRecord(id, ColorHash.ColorOf(id),
                     p.parseFloat(Field(columns, cols.latitude)),
                     p.parseFloat(Field(columns, cols.longitude)),
                     p.dateMillis(Field(columns, cols.timestamp))))
  }

  /** `rows.map(..).filter(p => p)`: empty rows are skipped, a failing row aborts everything. */
  function ParseRows(rows: seq<string>, parse: string -> Option<RawRecord>): Option<seq<RawRecord>>
  {
    if rows == [] then Some([])
    else
      match ParseRows(rows[..|rows| - 1], parse)
      case None => None
      case Some(recs) =>
        var line := rows[|rows| - 1];
        if line == "" then Some(recs)
        else
          match parse(line)
          case None => None
          case Some(r) => Some(recs + [r])
  }

  /** The callback given to `map`, for the columns found in the header. */
  function RowParser(cols: Columns, p: Parsers): string -> Option<RawRecord>
  {
    line => ParseRecord(line, cols, p)
  }

  /**
   * The rows that are not the empty string, in order: every kept row is a non-empty
   * input row, and every non-empty input row is kept.
   */
  function NonEmpty(rows: seq<string>): (kept: seq<string>)
    ensures |kept| <= |rows|
    ensures forall k :: 0 <= k < |kept| ==> kept[k] != "" && kept[k] in rows
    ensures forall k :: 0 <= k < |rows| && rows[k] != "" ==> rows[k] in kept
  {
    if rows == [] then []
    else
      var front := NonEmpty(rows[..|rows| - 1]);
      assert forall k :: 0 <= k < |rows| - 1 ==> rows[k] == rows[..|rows| - 1][k];
      if rows[|rows| - 1] == "" then front else front + [rows[|rows| - 1]]
  }

  /** Filtering distributes over concatenation, so the kept rows stay in input order. */
  lemma {:induction false} NonEmptyConcat(a: seq<string>, b: seq<string>)
    ensures NonEmpty(a + b) == NonEmpty(a) + NonEmpty(b)
    decreases |b|
  {
    if b == [] {
      assert a + b == a;
    } else {
      var b' := b[..|b| - 1];
      assert (a + b)[..|a + b| - 1] == a + b';
      NonEmptyConcat(a, b');
    }
  }

  /** A single row is kept exactly when it is not empty. */
  lemma NonEmptySingle(row: string)
    ensures NonEmpty([row]) == if row == "" then [] else [row]
  {
    assert [row][..0] == [];
  }

  /** Rows that are all empty keep nothing. */
  lemma {:induction false} BlankRowsKeepNothing(rows: seq<string>)
    requires forall k :: 0 <= k < |rows| ==> rows[k] == ""
    ensures NonEmpty(rows) == []
  {
    if rows != [] {
      BlankRowsKeepNothing(rows[..|rows| - 1]);
    }
  }

  /** Rows that are all empty parse to no record, whatever the row parser. */
  lemma {:induction false} BlankRowsParse(rows: seq<string>, parse: string -> Option<RawRecord>)
    requires forall k :: 0 <= k < |rows| ==> rows[k] == ""
    ensures ParseRows(rows, parse) == Some([])
  {
    if rows != [] {
      BlankRowsParse(rows[..|rows| - 1], parse);
    }
  }

  /** The whole parse: the first line is the header, the others are the rows. */
  function ParseText(text: string, p: Parsers): Option<seq<RawRecord>>
  {
    var lines := Split(text, '\n');
    ParseRows(lines[1..], RowParser(HeaderColumns(lines[0]), p))
  }

  /** Parsing fails exactly when some non-empty row has no ID value. */
  lemma {:induction false} ParseRowsFails(rows: seq<string>, parse: string -> Option<RawRecord>)
    ensures ParseRows(rows, parse).Some? <==>
      forall k :: 0 <= k < |rows| && rows[k] != "" ==> parse(rows[k]).Some?
  {
    if rows != [] {
      var front, line := rows[..|rows| - 1], rows[|rows| - 1];
      ParseRowsFails(front, parse);
      assert forall k :: 0 <= k < |front| ==> rows[k] == front[k];
      var allFront := forall k :: 0 <= k < |front| && front[k] != "" ==> parse(front[k]).Some?;
      var lastOk := line != "" ==> parse(line).Some?;
      assert ParseRows(rows, parse).Some? <==> allFront && lastOk;
      assert (forall k :: 0 <= k < |rows| && rows[k] != "" ==> parse(rows[k]).Some?)
        <==> allFront && lastOk;
    }
  }

  /** The records correspond one to one, in order, to the non-empty rows. */
  lemma {:induction false} ParseRowsMatchesLines(rows: seq<string>, parse: string -> Option<RawRecord>)
    requires ParseRows(rows, parse).Some?
    ensures |ParseRows(rows, parse).value| == |NonEmpty(rows)|
    ensures forall k :: 0 <= k < |NonEmpty(rows)| ==>
      parse(NonEmpty(rows)[k]) == Some(ParseRows(rows, parse).value[k])
  {
    if rows != [] {
      var front, line := rows[..|rows| - 1], rows[|rows| - 1];
      ParseRowsMatchesLines(front, parse);
      var recs := ParseRows(front, parse).value;
      if line != "" {
        var r := parse(line).value;
        assert ParseRows(rows, parse).value == recs + [r];
        assert NonEmpty(rows) == NonEmpty(front) + [line];
      }
    }
  }

  /** Every record carries the colour of its own ID, so records sharing an ID share a colour. */
  lemma {:induction false} RecordColors(rows: seq<string>, cols: Columns, p: Parsers)
    requires ParseRows(rows, RowParser(cols, p)).Some?
    ensures forall r :: r in ParseRows(rows, RowParser(cols, p)).value ==> r.color == ColorHash.ColorOf(r.id)
    ensures forall r1, r2 :: (r1 in ParseRows(rows, RowParser(cols, p)).value && r2 in ParseRows(rows, RowParser(cols, p)).value
      && r1.id == r2.id) ==> r1.color == r2.color
  {
    if rows != [] {
      RecordColors(rows[..|rows| - 1], cols, p);
    }
  }

  /** A failure in an earlier row is final. */
  lemma {:induction false} FailureIsFinal(rows: seq<string>, n: nat, parse: string -> Option<RawRecord>)
    requires n <= |rows| && ParseRows(rows[..n], parse).None?
    ensures ParseRows(rows, parse).None?
    decreases |rows| - n
  {
    if n < |rows| {
      assert rows[..n + 1][..n] == rows[..n];
      FailureIsFinal(rows, n + 1, parse);
    } else {
      assert rows[..n] == rows;
    }
  }

  /** The record of a line whose ID column exists. */
  lemma RowParserAt(line: string, cols: Columns, p: Parsers, columns: seq<string>)
    requires columns == Fields(line) && 0 <= cols.id < |columns|
    ensures RowParser(cols, p)(line) ==
      Some(RawRecord(columns[cols.id], ColorHash.ColorOf(columns[cols.id]),
                     p.parseFloat(Field(columns, cols.latitude)),
                     p.parseFloat(Field(columns, cols.longitude)),
                     p.dateMillis(Field(columns, cols.timestamp))))
  {
  }

  /** The line of a row without an ID column aborts the parse. */
  lemma RowParserFails(line: string, cols: Columns, p: Parsers, columns: seq<string>)
    requires columns == Fields(line) && !(0 <= cols.id < |columns|)
    ensures RowParser(cols, p)(line) == None
  {
  }

  /** What the `map` callback makes of one line: `null` for an empty line, a point, or an error thrown. */
  datatype LineOutcome = Skipped | Mapped(record: RawRecord) | Threw

  /** The outcome the parse of the rows gives to one line. */
  function OutcomeOf(line: string, parse: string -> Option<RawRecord>): LineOutcome
  {
    if line == "" then Skipped
    else match parse(line)
      case None => Threw
      case Some(r) => Mapped(r)
  }

  /** One more row extends the parse of the rows before it. */
  lemma ParseRowsStep(rows: seq<string>, i: nat, parse: string -> Option<RawRecord>, recs: seq<RawRecord>)
    requires i < |rows| && ParseRows(rows[..i], parse) == Some(recs)
    ensures ParseRows(rows[..i + 1], parse) ==
      match OutcomeOf(rows[i], parse)
      case Skipped => Some(recs)
      case Threw => None
      case Mapped(r) => Some(recs + [r])
  {
    assert rows[..i + 1][..i] == rows[..i];
  }

  /** The IDs of a sequence of records. */
  function Ids(recs: seq<RawRecord>): set<string>
  {
    if recs == [] then {} else Ids(recs[..|recs| - 1]) + {recs[|recs| - 1].id}
  }

  /** Every entry of the colour memo is the colour of its key. */
  predicate MemoHoldsColors(idToColorMap: map<string, string>)
  {
    forall id :: id in idToColorMap ==> idToColorMap[id] == ColorHash.ColorOf(id)
  }

  /**
   * `if (!idToColorMap.has(id)) idToColorMap.set(id, stringToColor(id))` followed by
   * `idToColorMap.get(id)`: the colour is hashed only when the ID is new.
   */
  method ColorFor(idToColorMap: map<string, string>, id: string)
    returns (color: string, updated: map<string, string>, ghost hashedNow: bool)
    requires MemoHoldsColors(idToColorMap)
    ensures color == ColorHash.ColorOf(id)
    ensures updated.Keys == idToColorMap.Keys + {id}
    ensures MemoHoldsColors(updated)
    ensures hashedNow <==> id !in idToColorMap
    ensures |updated.Keys| == |idToColorMap.Keys| + (if hashedNow then 1 else 0)
  {
    updated := idToColorMap;
    hashedNow := id !in updated;
    if id !in updated {
      var c := ColorHash.StringToColor(id);
      AddKey(updated, id, c);
      updated := updated[id := c];
    } else {
      assert idToColorMap.Keys + {id} == idToColorMap.Keys;
    }
    color := updated[id];
  }

  /** A new key adds one element to the key set. */
  lemma AddKey(m: map<string, string>, k: string, v: string)
    requires k !in m
    ensures m[k := v].Keys == m.Keys + {k}
    ensures |m[k := v].Keys| == |m.Keys| + 1
  {
  }

  /**
   * The `map` callback for one line, with the colour memo: an empty line gives `null`;
   * otherwise the columns are split and trimmed, a missing ID makes `stringToColor`
   * throw, and a present one is looked up in or added to the memo.
   */
  method MapLine(line: string, cols: Columns, p: Parsers, idToColorMap: map<string, string>)
    returns (outcome: LineOutcome, updated: map<string, string>, ghost hashedNow: bool)
    requires MemoHoldsColors(idToColorMap)
    ensures outcome == OutcomeOf(line, RowParser(cols, p))
    ensures outcome.Mapped? ==> updated.Keys == idToColorMap.Keys + {outcome.record.id}
    ensures !outcome.Mapped? ==> updated == idToColorMap
    ensures MemoHoldsColors(updated)
    ensures hashedNow <==> outcome.Mapped? && outcome.record.id !in idToColorMap
    ensures |updated.Keys| == |idToColorMap.Keys| + (if hashedNow then 1 else 0)
  {
    updated, hashedNow := idToColorMap, false;
    if line == "" {
      return Skipped, updated, hashedNow;
    }
    var columns := Fields(line);
    if !(0 <= cols.id < |columns|) {
      RowParserFails(line, cols, p, columns);
      return Threw, updated, hashedNow;
    }
    var id := columns[cols.id];
    var color;
    color, updated, hashedNow := ColorFor(idToColorMap, id);
    var record := RawRecord(id, color,
                            p.parseFloat(Field(columns, cols.latitude)),
                            p.parseFloat(Field(columns, cols.longitude)),
                            p.dateMillis(Field(columns, cols.timestamp)));
    RowParserAt(line, cols, p, columns);
    outcome := Mapped(record);
  }

  /**
   * The `lines.slice(1).map(..).filter(p => p)` loop with its `idToColorMap`: the
   * colour of an ID is computed the first time the ID is met and looked up afterwards.
   * `hashed` counts the calls of `stringToColor`.
   */
  method ParseLines(lines: seq<string>, cols: Columns, p: Parsers)
    returns (result: Option<seq<RawRecord>>, idToColorMap: map<string, string>, ghost hashed: nat)
    requires |lines| >= 1
    ensures result == ParseRows(lines[1..], RowParser(cols, p))
    ensures result.Some? ==> idToColorMap.Keys == Ids(result.value)
    ensures MemoHoldsColors(idToColorMap)
    ensures hashed == |idToColorMap.Keys|
  {
    idToColorMap := map[];
    hashed := 0;
    var recs: seq<RawRecord> := [];
    var rows := lines[1..];
    var parse := RowParser(cols, p);
    for i := 0 to |rows|
      invariant ParseRows(rows[..i], parse) == Some(recs)
      invariant idToColorMap.Keys == Ids(recs)
      invariant MemoHoldsColors(idToColorMap)
      invariant hashed == |idToColorMap.Keys|
    {
      var outcome, updated, hashedNow := MapLine(rows[i], cols, p, idToColorMap);
      ParseRowsStep(rows, i, parse, recs);
      match outcome {
        case Threw =>
          FailureIsFinal(rows, i + 1, parse);
          return None, idToColorMap, hashed;
        case Skipped =>
        case Mapped(record) =>
          if hashedNow {
            hashed := hashed + 1;
          }
          idToColorMap := updated;
          IdsSnoc(recs, record);
          recs := recs + [record];
      }
    }
    ParseAll(rows, parse);
    result := Some(recs);
  }

  lemma ParseAll(rows: seq<string>, parse: string -> Option<RawRecord>)
    ensures ParseRows(rows[..|rows|], parse) == ParseRows(rows, parse)
  {
    assert rows[..|rows|] == rows;
  }

  lemma IdsSnoc(recs: seq<RawRecord>, r: RawRecord)
    ensures Ids(recs + [r]) == Ids(recs) + {r.id}
  {
    assert (recs + [r])[..|recs|] == recs;
  }
}
