/**
 The CSV export of the analytics module (apps/api/src/modules/analytics/analytics-csv.util.ts),
 against a reader for section 2 of RFC 4180.
 */
module AnalyticsCsv {
  import opened Options
  import opened JsStrings

  /** A cell value: null or undefined, a string, or any other value with its `String(value)`. */
  datatype Cell = Missing | Text(text: string) | Scalar(text: string)

  type Record = map<string, Cell>

  const CRLF := "\r\n"

  predicate StartsFormula(s: string) {
    s != "" && (s[0] == '=' || s[0] == '+' || s[0] == '-' || s[0] == '@' || s[0] == '\t' || s[0] == '\r')
  }

  predicate IsSpecial(c: char) {
    c == '"' || c == ',' || c == '\n' || c == '\r'
  }

  predicate HasSpecial(s: string) {
    exists i :: 0 <= i < |s| && IsSpecial(s[i])
  }

  function Guard(s: string): string {
    if StartsFormula(s) then "'" + s else s
  }

  function SanitizeCell(value: Cell): string {
    match value
    case Missing => ""
    case _ =>
      var safe := Guard(value.text);
      if HasSpecial(safe) then "\"" + ReplaceAll(safe, "\"", "\"\"") + "\"" else safe
  }

  function SanitizeAll(cells: seq<Cell>): seq<string> {
    if cells == [] then [] else [SanitizeCell(cells[0])] + SanitizeAll(cells[1..])
  }

  function HeaderCells(headers: seq<string>): seq<Cell> {
    if headers == [] then [] else [Text(headers[0])] + HeaderCells(headers[1..])
  }

  /** `row[header]`. */
  function CellOf(row: Record, header: string): Cell {
    if header in row then row[header] else Missing
  }

  function RowCells(headers: seq<string>, row: Record): seq<Cell> {
    if headers == [] then [] else [CellOf(row, headers[0])] + RowCells(headers[1..], row)
  }

  /** The cells of the export: the header record, then one record a row. */
  function Grid(headers: seq<string>, rows: seq<Record>): seq<seq<Cell>> {
    [HeaderCells(headers)] + RowGrid(headers, rows)
  }

  function RowGrid(headers: seq<string>, rows: seq<Record>): seq<seq<Cell>> {
    if rows == [] then [] else [RowCells(headers, rows[0])] + RowGrid(headers, rows[1..])
  }

  function Line(cells: seq<Cell>): string {
    Join(SanitizeAll(cells), ",")
  }

  function Lines(grid: seq<seq<Cell>>): seq<string> {
    if grid == [] then [] else [Line(grid[0])] + Lines(grid[1..])
  }

  function CsvText(grid: seq<seq<Cell>>): string {
    Join(Lines(grid), CRLF)
  }

  method ToCsv(headers: seq<string>, rows: seq<Record>) returns (csv: string)
    ensures csv == CsvText(Grid(headers, rows))
  {
    var lines := [Line(HeaderCells(headers))];
    assert rows[0..] == rows;
    for k := 0 to |rows|
      invariant lines + Lines(RowGrid(headers, rows[k..])) == Lines(Grid(headers, rows))
    {
      assert rows[k..][0] == rows[k] && rows[k..][1..] == rows[k + 1..];
      lines := lines + [Line(RowCells(headers, rows[k]))];
    }
    assert rows[|rows|..] == [] && RowGrid(headers, []) == [];
    assert lines + [] == lines == Lines(Grid(headers, rows));
    csv := Join(lines, CRLF);
  }

  // ---------------------------------------------------------------- the reader

  /** A field and the text after it. */
  datatype Field = Field(value: string, rest: string)

  /** After the opening quote: two quotes stand for one, a single quote ends the field. */
  function ReadQuoted(t: string): (r: Option<Field>)
    ensures r.Some? ==> |r.value.rest| < |t|
  {
    if t == "" then None
    else if t[0] != '"' then Put(t[0], ReadQuoted(t[1..]))
    else if |t| > 1 && t[1] == '"' then Put('"', ReadQuoted(t[2..]))
    else Some(Field("", t[1..]))
  }

  function Put(c: char, r: Option<Field>): Option<Field> {
    match r
    case None => None
    case Some(f) => Some(Field([c] + f.value, f.rest))
  }

  /** A bare field runs up to the next quote, comma, carriage return or line feed. */
  function ReadBare(t: string): (f: Field)
    ensures |f.rest| <= |t|
  {
    if t == "" || IsSpecial(t[0]) then Field("", t)
    else
      var f := ReadBare(t[1..]);
      Field([t[0]] + f.value, f.rest)
  }

  function ReadField(t: string): (r: Option<Field>)
    ensures r.Some? ==> |r.value.rest| <= |t|
  {
    if t != "" && t[0] == '"' then ReadQuoted(t[1..]) else Some(ReadBare(t))
  }

  /** Records are separated by CRLF, fields by commas (RFC 4180, section 2, rules 1 and 4 to 7). */
  function Read(t: string): (r: Option<seq<seq<string>>>)
    ensures r.Some? ==> r.value != [] && r.value[0] != []
    decreases |t|
  {
    match ReadField(t)
    case None => None
    case Some(f) =>
      if f.rest == "" then Some([[f.value]])
      else if f.rest[0] == ',' then MoreFields(f.value, Read(f.rest[1..]))
      else if CRLF <= f.rest then MoreRecords(f.value, Read(f.rest[2..]))
      else None
  }

  function MoreFields(field: string, r: Option<seq<seq<string>>>): Option<seq<seq<string>>>
    requires r.Some? ==> r.value != []
  {
    match r
    case None => None
    case Some(records) => Some([[field] + records[0]] + records[1..])
  }

  function MoreRecords(field: string, r: Option<seq<seq<string>>>): Option<seq<seq<string>>> {
    match r
    case None => None
    case Some(records) => Some([[field]] + records)
  }

  // ---------------------------------------------------------------- one field

  /** What a cell is meant to read back as. */
  function Guarded(value: Cell): string {
    match value
    case Missing => ""
    case _ => Guard(value.text)
  }

  predicate EndsField(rest: string) {
    rest == "" || rest[0] == ',' || rest[0] == '\r'
  }

  lemma ReadOneQuoted(c: char, doubled: string, end: string)
    requires doubled == if c == '"' then "\"\"" else [c]
    ensures forall body: string :: ReadQuoted(doubled + body + end) == Put(c, ReadQuoted(body + end))
  {
    forall body: string ensures ReadQuoted(doubled + body + end) == Put(c, ReadQuoted(body + end)) {
      assert (doubled + body + end)[|doubled|..] == body + end;
    }
  }

  lemma {:induction false} ReadDoubled(s: string, rest: string)
    requires EndsField(rest)
    ensures ReadQuoted(ReplaceAll(s, "\"", "\"\"") + ("\"" + rest)) == Some(Field(s, rest))
  {
    var end := "\"" + rest;
    if s == "" {
      assert "" + end == end && end[1..] == rest;
    } else {
      ReadDoubled(s[1..], rest);
      assert "\"" <= s <==> s[0] == '"';
      assert [s[0]] + s[1..] == s;
      ReadOneQuoted(s[0], if s[0] == '"' then "\"\"" else [s[0]], end);
    }
  }

  lemma {:induction false} ReadPlain(s: string, rest: string)
    requires !HasSpecial(s) && EndsField(rest)
    ensures ReadBare(s + rest) == Field(s, rest)
  {
    if s == "" {
      assert s + rest == rest;
    } else {
      assert !HasSpecial(s[1..]) by {
        assert forall i :: 0 <= i < |s[1..]| ==> s[1..][i] == s[i + 1];
      }
      ReadPlain(s[1..], rest);
      assert !IsSpecial(s[0]);
      assert (s + rest)[1..] == s[1..] + rest;
      assert [s[0]] + s[1..] == s;
    }
  }

  lemma ReadSanitized(value: Cell, rest: string)
    requires EndsField(rest)
    ensures ReadField(SanitizeCell(value) + rest) == Some(Field(Guarded(value), rest))
  {
    var safe := Guarded(value);
    if HasSpecial(safe) {
      var body := ReplaceAll(safe, "\"", "\"\"");
      ReadDoubled(safe, rest);
      assert ("\"" + body + "\"" + rest)[1..] == body + ("\"" + rest);
    } else {
      ReadPlain(safe, rest);
      if safe != "" {
        assert !IsSpecial(safe[0]);
      }
    }
  }

  // ---------------------------------------------------------------- records and the whole text

  function GuardedCells(cells: seq<Cell>): seq<string> {
    if cells == [] then [] else [Guarded(cells[0])] + GuardedCells(cells[1..])
  }

  function GuardedGrid(grid: seq<seq<Cell>>): seq<seq<string>> {
    if grid == [] then [] else [GuardedCells(grid[0])] + GuardedGrid(grid[1..])
  }

  lemma ReadMore(t: string, f: Field, records: seq<seq<string>>)
    requires ReadField(t) == Some(f) && f.rest != "" && f.rest[0] == ',' && Read(f.rest[1..]) == Some(records)
    ensures records != [] && Read(t) == Some([[f.value] + records[0]] + records[1..])
  {
  }

  /** A field in front of a line that reads. */
  lemma ReadComma(value: Cell, line: string, after: string, fields: seq<string>, records: seq<seq<string>>)
    requires Read(line + after) == Some([fields] + records)
    ensures Read(SanitizeCell(value) + "," + line + after) == Some([[Guarded(value)] + fields] + records)
  {
    var f := Field(Guarded(value), "," + (line + after));
    assert f.rest[1..] == line + after;
    ReadSanitized(value, f.rest);
    ReadMore(SanitizeCell(value) + f.rest, f, [fields] + records);
    CommaConcat(SanitizeCell(value), line, after);
    assert ([fields] + records)[1..] == records;
  }

  lemma CommaConcat(head: string, line: string, after: string)
    ensures head + "," + line + after == head + ("," + (line + after))
  {
  }

  /** What may follow a record: nothing, or a line break and more records. */
  predicate After(after: string, records: seq<seq<string>>) {
    (after == "" && records == []) || (CRLF <= after && Read(after[2..]) == Some(records))
  }

  lemma ReadLastField(value: Cell, after: string, records: seq<seq<string>>)
    requires After(after, records)
    ensures Read(SanitizeCell(value) + after) == Some([[Guarded(value)]] + records)
  {
    ReadSanitized(value, after);
    if after == "" {
      assert [[Guarded(value)]] + records == [[Guarded(value)]];
    }
  }

  lemma LineCons(cells: seq<Cell>)
    requires cells != []
    ensures |cells| == 1 ==> Line(cells) == SanitizeCell(cells[0])
    ensures |cells| > 1 ==> Line(cells) == SanitizeCell(cells[0]) + "," + Line(cells[1..])
  {
    var texts := SanitizeAll(cells);
    assert texts[1..] == SanitizeAll(cells[1..]);
    if |cells| > 1 {
      assert SanitizeAll(cells[1..]) != [];
    } else {
      assert texts == [SanitizeCell(cells[0])];
    }
  }

  lemma GuardedCons(cells: seq<Cell>)
    requires cells != []
    ensures GuardedCells(cells) == [Guarded(cells[0])] + GuardedCells(cells[1..])
    ensures |cells| == 1 ==> GuardedCells(cells) == [Guarded(cells[0])]
  {
  }

  lemma {:induction false} ReadLine(cells: seq<Cell>, after: string, records: seq<seq<string>>)
    requires cells != [] && After(after, records)
    ensures Read(Line(cells) + after) == Some([GuardedCells(cells)] + records)
  {
    LineCons(cells);
    GuardedCons(cells);
    if |cells| == 1 {
      ReadLastField(cells[0], after, records);
    } else {
      ReadLine(cells[1..], after, records);
      ReadComma(cells[0], Line(cells[1..]), after, GuardedCells(cells[1..]), records);
    }
  }

  lemma TextCons(grid: seq<seq<Cell>>)
    requires grid != []
    ensures |grid| == 1 ==> CsvText(grid) == Line(grid[0]) + ""
    ensures |grid| > 1 ==> CsvText(grid) == Line(grid[0]) + (CRLF + CsvText(grid[1..]))
  {
    var lines := Lines(grid);
    assert lines[1..] == Lines(grid[1..]);
    if |grid| > 1 {
      assert Lines(grid[1..]) != [];
      assert Line(grid[0]) + CRLF + CsvText(grid[1..]) == Line(grid[0]) + (CRLF + CsvText(grid[1..]));
    } else {
      assert lines == [Line(grid[0])];
    }
  }

  lemma {:induction false} ReadGrid(grid: seq<seq<Cell>>)
    requires grid != [] && forall i :: 0 <= i < |grid| ==> grid[i] != []
    ensures Read(CsvText(grid)) == Some(GuardedGrid(grid))
  {
    TextCons(grid);
    if |grid| == 1 {
      ReadLine(grid[0], "", []);
      assert GuardedGrid(grid) == [GuardedCells(grid[0])] + [];
    } else {
      var after := CRLF + CsvText(grid[1..]);
      ReadGrid(grid[1..]);
      assert after[2..] == CsvText(grid[1..]);
      ReadLine(grid[0], after, GuardedGrid(grid[1..]));
    }
  }

  lemma {:induction false} GridIsRectangular(headers: seq<string>, rows: seq<Record>)
    ensures forall i :: 0 <= i < |RowGrid(headers, rows)| ==> |RowGrid(headers, rows)[i]| == |headers|
  {
    if rows != [] {
      GridIsRectangular(headers, rows[1..]);
      RowWidth(headers, rows[0]);
    }
  }

  lemma {:induction false} RowWidth(headers: seq<string>, row: Record)
    ensures |RowCells(headers, row)| == |headers| == |HeaderCells(headers)|
  {
    if headers != [] {
      RowWidth(headers[1..], row);
    }
  }

  /** The reader gets back exactly the guarded grid, whatever the cells hold, if and only if there is a header. */
  lemma CsvReadsBack(headers: seq<string>, rows: seq<Record>)
    ensures var grid := Grid(headers, rows);
      Read(CsvText(grid)) == Some(GuardedGrid(grid)) <==> headers != []
  {
    var grid := Grid(headers, rows);
    GridIsRectangular(headers, rows);
    RowWidth(headers, map[]);
    if headers != [] {
      ReadGrid(grid);
    } else {
      assert GuardedGrid(grid)[0] == [];
    }
  }

  lemma {:induction false} GuardedCellAt(cells: seq<Cell>, j: nat)
    requires j < |cells|
    ensures |GuardedCells(cells)| == |cells| && GuardedCells(cells)[j] == Guarded(cells[j])
  {
    if j > 0 {
      GuardedCellAt(cells[1..], j - 1);
    } else if |cells| > 1 {
      GuardedCellAt(cells[1..], 0);
    }
  }

  lemma {:induction false} CellAt(headers: seq<string>, row: Record, j: nat)
    requires j < |headers|
    ensures |RowCells(headers, row)| == |HeaderCells(headers)| == |headers|
    ensures RowCells(headers, row)[j] == CellOf(row, headers[j]) && HeaderCells(headers)[j] == Text(headers[j])
  {
    RowWidth(headers, row);
    if j > 0 {
      CellAt(headers[1..], row, j - 1);
    }
  }

  lemma {:induction false} GuardedRowAt(headers: seq<string>, rows: seq<Record>, i: nat)
    requires i < |rows|
    ensures |GuardedGrid(RowGrid(headers, rows))| == |rows|
    ensures GuardedGrid(RowGrid(headers, rows))[i] == GuardedCells(RowCells(headers, rows[i]))
  {
    if i > 0 {
      GuardedRowAt(headers, rows[1..], i - 1);
    } else if |rows| > 1 {
      GuardedRowAt(headers, rows[1..], 0);
    }
  }

  /** A text as the reader must get it: with a quote in front exactly if it starts like a formula. */
  function Shielded(text: string): string {
    if text != "" && text[0] in {'=', '+', '-', '@', '\t', '\r'} then "'" + text else text
  }

  /**
   Read back, each header is its text, and the field in row `i` under header `j` is the text that row
   has for that header, or empty where the row has none; a text that starts like a formula is shielded.
   */
  lemma ReadsBackAt(headers: seq<string>, rows: seq<Record>, i: nat, j: nat)
    requires i < |rows| && j < |headers|
    ensures var read := Read(CsvText(Grid(headers, rows)));
      && read.Some? && |read.value| == 1 + |rows|
      && |read.value[0]| == |read.value[i + 1]| == |headers|
      && read.value[0][j] == Shielded(headers[j])
      && read.value[i + 1][j] ==
         if headers[j] in rows[i] && !rows[i][headers[j]].Missing? then Shielded(rows[i][headers[j]].text) else ""
  {
    CsvReadsBack(headers, rows);
    CellAt(headers, rows[i], j);
    GuardedRowAt(headers, rows, i);
    GuardedCellAt(HeaderCells(headers), j);
    GuardedCellAt(RowCells(headers, rows[i]), j);
    assert GuardedGrid(Grid(headers, rows)) ==
      [GuardedCells(HeaderCells(headers))] + GuardedGrid(RowGrid(headers, rows));
  }

  lemma {:induction false} GuardedFieldsAreNoFormulas(cells: seq<Cell>)
    ensures forall i :: 0 <= i < |GuardedCells(cells)| ==> !StartsFormula(GuardedCells(cells)[i])
  {
    if cells != [] {
      GuardedFieldsAreNoFormulas(cells[1..]);
    }
  }

  lemma {:induction false} GuardedGridHasNoFormulas(grid: seq<seq<Cell>>)
    ensures forall i, j :: 0 <= i < |GuardedGrid(grid)| && 0 <= j < |GuardedGrid(grid)[i]| ==>
      !StartsFormula(GuardedGrid(grid)[i][j])
  {
    if grid != [] {
      GuardedFieldsAreNoFormulas(grid[0]);
      GuardedGridHasNoFormulas(grid[1..]);
    }
  }

  /** A record without cells has the text of one with a missing cell. */
  function Filled(grid: seq<seq<Cell>>): seq<seq<Cell>> {
    if grid == [] then [] else [if grid[0] == [] then [Missing] else grid[0]] + Filled(grid[1..])
  }

  lemma {:induction false} FilledText(grid: seq<seq<Cell>>)
    ensures Lines(Filled(grid)) == Lines(grid) && |Filled(grid)| == |grid|
    ensures forall i :: 0 <= i < |Filled(grid)| ==> Filled(grid)[i] != []
  {
    if grid != [] {
      FilledText(grid[1..]);
      assert SanitizeAll([Missing]) == [""] && Line([]) == "" == Line([Missing]);
    }
  }

  /** Whatever headers and rows are exported, no field that the reader gets back starts with a formula prefix. */
  lemma NoFormulaReadsBack(headers: seq<string>, rows: seq<Record>)
    ensures var read := Read(CsvText(Grid(headers, rows)));
      && read.Some?
      && forall i, j :: 0 <= i < |read.value| && 0 <= j < |read.value[i]| ==>
           read.value[i][j] == "" || read.value[i][j][0] !in {'=', '+', '-', '@', '\t', '\r'}
  {
    var grid := Filled(Grid(headers, rows));
    FilledText(Grid(headers, rows));
    ReadGrid(grid);
    GuardedGridHasNoFormulas(grid);
  }

  /** A cell comes back as it was exactly when it starts no formula: that goes for numbers too. */
  lemma CellComesBackIff(value: Cell)
    requires !value.Missing?
    ensures Read(SanitizeCell(value)) == Some([[value.text]]) <==> !StartsFormula(value.text)
  {
    ReadLastField(value, "", []);
    assert SanitizeCell(value) + "" == SanitizeCell(value);
    if StartsFormula(value.text) {
      assert |Guarded(value)| == |value.text| + 1;
      assert [[Guarded(value)]][0][0] != [[value.text]][0][0];
    }
  }

  /** A cell is quoted exactly if its shielded text holds a quote, a comma or a line break. */
  lemma QuotedIff(value: Cell)
    requires !value.Missing?
    ensures var safe := Shielded(value.text);
      if '"' in safe || ',' in safe || '\n' in safe || '\r' in safe
      then SanitizeCell(value) == "\"" + ReplaceAll(safe, "\"", "\"\"") + "\""
      else SanitizeCell(value) == safe
  {
  }

  /** Unlike what the comment in the source says, a negative number does not pass through. */
  lemma NegativeNumberIsPrefixed()
    ensures SanitizeCell(Scalar("-5")) == "'-5"
  {
    assert !HasSpecial("'-5");
  }

  // ---------------------------------------------------------------- the end of the text

  predicate EndsInLineFeed(t: string) {
    t != "" && t[|t| - 1] == '\n'
  }

  lemma SanitizedEnd(value: Cell)
    ensures !EndsInLineFeed(SanitizeCell(value))
  {
    if !value.Missing? && !HasSpecial(Guard(value.text)) && value.text != "" {
      assert !IsSpecial(Guard(value.text)[|Guard(value.text)| - 1]);
    }
  }

  lemma {:induction false} LineEnd(cells: seq<Cell>)
    requires cells != []
    ensures !EndsInLineFeed(Line(cells))
    ensures Line(cells) == "" <==> |cells| == 1 && Guarded(cells[0]) == ""
  {
    LineCons(cells);
    SanitizedEnd(cells[0]);
    if |cells| > 1 {
      LineEnd(cells[1..]);
    }
  }

  lemma {:induction false} TextEnd(grid: seq<seq<Cell>>)
    requires grid != [] && forall i :: 0 <= i < |grid| ==> grid[i] != []
    ensures EndsInLineFeed(CsvText(grid)) <==> |grid| > 1 && Line(grid[|grid| - 1]) == ""
    ensures CsvText(grid) == "" <==> |grid| == 1 && Line(grid[0]) == ""
  {
    TextCons(grid);
    LineEnd(grid[0]);
    if |grid| > 1 {
      TextEnd(grid[1..]);
    }
  }

  lemma {:induction false} LastOfRowGrid(headers: seq<string>, rows: seq<Record>)
    ensures |RowGrid(headers, rows)| == |rows|
    ensures rows != [] ==> RowGrid(headers, rows)[|rows| - 1] == RowCells(headers, rows[|rows| - 1])
  {
    if rows != [] {
      LastOfRowGrid(headers, rows[1..]);
    }
  }

  lemma GridShape(headers: seq<string>, rows: seq<Record>)
    ensures |Grid(headers, rows)| == 1 + |rows|
    ensures forall i :: 0 <= i < |Grid(headers, rows)| ==> |Grid(headers, rows)[i]| == |headers|
    ensures rows != [] ==> Grid(headers, rows)[|rows|] == RowCells(headers, rows[|rows| - 1])
  {
    GridIsRectangular(headers, rows);
    RowWidth(headers, map[]);
    LastOfRowGrid(headers, rows);
  }

  /**
   The text ends in a line break, which RFC 4180 lets a reader take for the end of the last record
   instead of an empty one, exactly when the only column is empty in the last row.
   */
  lemma EndsInLineBreakIff(headers: seq<string>, rows: seq<Record>)
    requires headers != []
    ensures EndsInLineFeed(CsvText(Grid(headers, rows))) <==>
      && |headers| == 1 && rows != []
      && var last := rows[|rows| - 1];
         headers[0] !in last || last[headers[0]].Missing? || last[headers[0]].text == ""
  {
    var grid := Grid(headers, rows);
    GridShape(headers, rows);
    TextEnd(grid);
    LineEnd(grid[|grid| - 1]);
    if rows != [] {
      assert grid[|grid| - 1][0] == CellOf(rows[|rows| - 1], headers[0]);
    }
  }
}
