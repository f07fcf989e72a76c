/** The CSV export of the data studio, and a reader for it by the quoting rules
    of section 2 of RFC 4180 (records end in LF, the last LF is optional). */
module Csv {
  import opened Wrappers
  import Text

  /** `xs.map(f)`. */
  function Map<T, U>(f: T -> U, xs: seq<T>): (r: seq<U>)
    ensures |r| == |xs| && forall i :: 0 <= i < |xs| ==> r[i] == f(xs[i])
  {
    if xs == [] then [] else [f(xs[0])] + Map(f, xs[1..])
  }

  // ---------------------------------------------------------------- the printer

  /** A cell is null or undefined, or the text that String gives for its value. */
  type Cell = Option<string>
  type Row = map<string, Cell>

  predicate Special(c: char) { c == '"' || c == ',' || c == '\n' || c == '\r' }

  predicate NeedsQuotes(s: string) { exists i :: 0 <= i < |s| && Special(s[i]) }

  function DoubleQuotes(s: string): string {
    if s == "" then ""
    else (if s[0] == '"' then "\"\"" else [s[0]]) + DoubleQuotes(s[1..])
  }

  function CellText(v: Cell): string {
    if v.None? then "" else v.value
  }

  function Escape(v: Cell): string {
    var s := CellText(v);
    if NeedsQuotes(s) then "\"" + (DoubleQuotes(s) + "\"") else s
  }

  function CellOf(row: Row, column: string): Cell {
    if column in row then row[column] else None
  }

  function PrintRow(columns: seq<string>, row: Row): string {
    Text.Join(Map((c: string) => Escape(CellOf(row, c)), columns), ',')
  }

  function RowsToCsv(columns: seq<string>, rows: seq<Row>): string {
    var header := Text.Join(Map((c: string) => Escape(Some(c)), columns), ',');
    var body := Text.Join(Map((row: Row) => PrintRow(columns, row), rows), '\n');
    header + "\n" + body
  }

  /** A text of none of the four characters that force quotes. */
  predicate Plain(s: string) { '"' !in s && ',' !in s && '\n' !in s && '\r' !in s }

  /** A cell is printed as it is, or in quotes if it holds a quote, a comma, LF or CR; null prints as nothing. */
  lemma EscapeIs(s: string)
    ensures Escape(Some(s)) == if Plain(s) then s else "\"" + (DoubleQuotes(s) + "\"")
    ensures Escape(None) == ""
  {
    if !Plain(s) {
      var c :| c in s && c in ['"', ',', '\n', '\r'];
      var i :| 0 <= i < |s| && s[i] == c;
      assert Special(s[i]);
    }
  }

  /** A column that a row does not have prints as nothing. */
  lemma MissingColumn(row: Row, column: string)
    ensures column !in row ==> Escape(CellOf(row, column)) == ""
    ensures column in row ==> CellOf(row, column) == row[column]
  {}

  /** Each quote inside is doubled, and nothing else changes. */
  lemma {:induction false} QuotesAreDoubled(before: string, after: string)
    ensures '"' !in before ==> DoubleQuotes(before) == before
    ensures DoubleQuotes(before + "\"" + after) == DoubleQuotes(before) + "\"\"" + DoubleQuotes(after)
  {
    var s := before + "\"" + after;
    if before == "" {
      assert s[1..] == after;
    } else {
      QuotesAreDoubled(before[1..], after);
      assert s[1..] == before[1..] + "\"" + after && before == [before[0]] + before[1..];
    }
  }

  /** What is printed, where nothing needs quotes: commas between cells, LF between lines, none at the end. */
  lemma PlainExport(a: string, b: string, row: Row, row': Row)
    requires Plain(a) && Plain(b) && a in row && b in row && a in row' && b in row'
    requires forall r: Row, c: string :: r in [row, row'] && c in [a, b] ==> r[c].Some? && Plain(r[c].value)
    ensures RowsToCsv([a, b], [row, row']) ==
            a + "," + b + "\n" + (row[a].value + "," + row[b].value + "\n" + (row'[a].value + "," + row'[b].value))
  {
    EscapeIs(a);
    EscapeIs(b);
    PlainLine(a, b, row);
    PlainLine(a, b, row');
    assert Map((c: string) => Escape(Some(c)), [a, b]) == [a, b];
    assert Map((r: Row) => PrintRow([a, b], r), [row, row']) == [PrintRow([a, b], row), PrintRow([a, b], row')];
    JoinPair(a, b, ',');
    JoinPair(PrintRow([a, b], row), PrintRow([a, b], row'), '\n');
  }

  lemma JoinPair(x: string, y: string, sep: char)
    ensures Text.Join([x, y], sep) == x + [sep] + y
  {
    assert [x] + [y] == [x, y];
    Text.JoinCons(x, [y], sep);
  }

  lemma PlainLine(a: string, b: string, row: Row)
    requires a in row && b in row && row[a].Some? && row[b].Some? && Plain(row[a].value) && Plain(row[b].value)
    ensures PrintRow([a, b], row) == row[a].value + "," + row[b].value
  {
    EscapeIs(row[a].value);
    EscapeIs(row[b].value);
    assert Map((c: string) => Escape(CellOf(row, c)), [a, b]) == [row[a].value, row[b].value];
    JoinPair(row[a].value, row[b].value, ',');
  }

  // ---------------------------------------------------------------- the reader

  /** Something read from the front of a text, and the text after it. */
  datatype Read<+T> = Got(value: T, rest: string) | Malformed

  /** The inside of a quoted field, after its opening quote. */
  function ReadQuoted(s: string): (r: Read<string>)
    ensures r.Got? ==> |r.rest| < |s|
  {
    if s == "" then Malformed
    else if s[0] == '"' then
      if |s| > 1 && s[1] == '"' then
        match ReadQuoted(s[2..])
        case Malformed => Malformed
        case Got(f, rest) => Got("\"" + f, rest)
      else Got("", s[1..])
    else
      match ReadQuoted(s[1..])
      case Malformed => Malformed
      case Got(f, rest) => Got([s[0]] + f, rest)
  }

  /** Plain text data, up to a character that cannot belong to it. */
  function ReadPlain(s: string): (r: Read<string>)
    ensures r.Got? && |r.rest| <= |s|
  {
    if s == "" || Special(s[0]) then Got("", s)
    else
      var r := ReadPlain(s[1..]);
      Got([s[0]] + r.value, r.rest)
  }

  function ReadField(s: string): (r: Read<string>)
    ensures r.Got? ==> |r.rest| <= |s|
  {
    if s != "" && s[0] == '"' then ReadQuoted(s[1..]) else ReadPlain(s)
  }

  /** Fields up to the end of the record; its line break is consumed. */
  function ReadRecord(s: string): (r: Read<seq<string>>)
    ensures r.Got? ==> r.value != [] && |r.rest| <= |s| && (s != "" ==> |r.rest| < |s|)
    decreases |s|
  {
    match ReadField(s)
    case Malformed => Malformed
    case Got(f, rest) =>
      if rest == "" then Got([f], "")
      else if rest[0] == '\n' then Got([f], rest[1..])
      else if rest[0] != ',' then Malformed
      else
        match ReadRecord(rest[1..])
        case Malformed => Malformed
        case Got(fs, rest') => Got([f] + fs, rest')
  }

  function ReadFile(s: string): (r: Option<seq<seq<string>>>)
    ensures r.Some? ==> forall i :: 0 <= i < |r.value| ==> r.value[i] != []
    decreases |s|
  {
    if s == "" then Some([])
    else
      match ReadRecord(s)
      case Malformed => None
      case Got(fs, rest) =>
        match ReadFile(rest)
        case None => None
        case Some(more) => Some([fs] + more)
  }

  // ---------------------------------------------------------------- fields and records

  predicate EndsField(t: string) { t == "" || t[0] == ',' || t[0] == '\n' }

  lemma {:induction false} ReadDoubled(s: string, t: string)
    requires EndsField(t)
    ensures ReadQuoted(DoubleQuotes(s) + "\"" + t) == Got(s, t)
  {
    var whole := DoubleQuotes(s) + "\"" + t;
    if s == "" {
      assert whole[1..] == t;
    } else {
      ReadDoubled(s[1..], t);
      var more := DoubleQuotes(s[1..]) + "\"" + t;
      if s[0] == '"' {
        assert whole[2..] == more;
      } else {
        assert whole[1..] == more;
      }
      assert s == [s[0]] + s[1..];
    }
  }

  lemma {:induction false} ReadPlainText(s: string, t: string)
    requires !NeedsQuotes(s) && EndsField(t)
    ensures ReadPlain(s + t) == Got(s, t)
  {
    if s == "" {
      assert s + t == t;
    } else {
      assert !Special(s[0]);
      assert forall i :: 0 <= i < |s[1..]| ==> s[1..][i] == s[i + 1];
      ReadPlainText(s[1..], t);
      assert (s + t)[1..] == s[1..] + t;
      assert s == [s[0]] + s[1..];
    }
  }

  lemma QuotedRoundTrip(s: string, t: string)
    requires EndsField(t)
    ensures ReadField("\"" + (DoubleQuotes(s) + "\"") + t) == Got(s, t)
  {
    ReadDoubled(s, t);
    Assoc("\"", DoubleQuotes(s) + "\"", t);
    ReadAfterQuote(DoubleQuotes(s) + "\"" + t);
  }

  lemma Assoc(a: string, b: string, c: string)
    ensures a + b + c == a + (b + c)
  {}

  lemma ReadAfterQuote(inside: string)
    ensures ReadField("\"" + inside) == ReadQuoted(inside)
  {
    assert ("\"" + inside)[1..] == inside;
  }

  lemma PlainRoundTrip(s: string, t: string)
    requires !NeedsQuotes(s) && EndsField(t)
    ensures ReadField(s + t) == Got(s, t)
  {
    ReadPlainText(s, t);
    assert s != "" ==> (s + t)[0] == s[0];
    assert s == "" ==> s + t == t;
  }

  /** Reading back one escaped cell. */
  lemma FieldRoundTrip(v: Cell, t: string)
    requires EndsField(t)
    ensures ReadField(Escape(v) + t) == Got(CellText(v), t)
  {
    var s := CellText(v);
    if NeedsQuotes(s) { QuotedRoundTrip(s, t); } else { PlainRoundTrip(s, t); }
  }

  /** The cells of a record as text, and the record as printed. */
  function Texts(cells: seq<Cell>): seq<string> { Map(CellText, cells) }

  function PrintRecord(cells: seq<Cell>): string { Text.Join(Map(Escape, cells), ',') }

  /** Joining mapped items, one item at a time. */
  lemma JoinMapStep<T>(f: T -> string, xs: seq<T>, sep: char)
    requires xs != []
    ensures Text.Join(Map(f, xs), sep) ==
            if |xs| == 1 then f(xs[0]) else f(xs[0]) + [sep] + Text.Join(Map(f, xs[1..]), sep)
  {
    if |xs| > 1 { Text.JoinCons(f(xs[0]), Map(f, xs[1..]), sep); }
  }

  lemma ReadRecordStep(s: string, f: string, more: string)
    requires ReadField(s) == Got(f, "," + more)
    ensures ReadRecord(s) ==
            match ReadRecord(more) case Malformed => Malformed case Got(fs, rest) => Got([f] + fs, rest)
  {}

  lemma JoinedThen(a: string, b: string, c: string, d: string)
    ensures a + b + c + d == a + (b + (c + d))
  {}

  lemma {:induction false} RecordRoundTrip(cells: seq<Cell>, t: string)
    requires cells != [] && (t == "" || t[0] == '\n')
    ensures ReadRecord(PrintRecord(cells) + t) == Got(Texts(cells), if t == "" then "" else t[1..])
    decreases |cells|
  {
    JoinMapStep(Escape, cells, ',');
    if |cells| == 1 {
      FieldRoundTrip(cells[0], t);
      assert Texts(cells) == [CellText(cells[0])];
    } else {
      var more := PrintRecord(cells[1..]) + t;
      JoinedThen(Escape(cells[0]), ",", PrintRecord(cells[1..]), t);
      FieldRoundTrip(cells[0], "," + more);
      ReadRecordStep(PrintRecord(cells) + t, CellText(cells[0]), more);
      RecordRoundTrip(cells[1..], t);
    }
  }

  lemma PrintedEmptyIff(cells: seq<Cell>)
    requires cells != []
    ensures PrintRecord(cells) == "" <==> |cells| == 1 && CellText(cells[0]) == ""
  {}

  // ---------------------------------------------------------------- whole files

  type Grid = seq<seq<Cell>>

  function PrintRecords(grid: Grid): string {
    Text.Join(Map(PrintRecord, grid), '\n')
  }

  function GridTexts(grid: Grid): seq<seq<string>> {
    Map(Texts, grid)
  }

  lemma ReadFileStep(s: string)
    requires s != "" && ReadRecord(s).Got?
    ensures ReadFile(s) ==
            match ReadFile(ReadRecord(s).rest) case None => None case Some(more) => Some([ReadRecord(s).value] + more)
    ensures ReadRecord(s).rest == "" ==> ReadFile(s) == Some([ReadRecord(s).value])
  {
    var fs := ReadRecord(s).value;
    assert ReadFile("") == Some([]) && [fs] + [] == [fs];
  }

  /** The records a reader sees: an empty last line is none. */
  function Kept(grid: Grid): Grid
    requires grid != []
  {
    if PrintRecord(grid[|grid| - 1]) == "" then grid[..|grid| - 1] else grid
  }

  lemma KeptStep(grid: Grid)
    requires |grid| > 1
    ensures GridTexts(Kept(grid)) == [Texts(grid[0])] + GridTexts(Kept(grid[1..]))
  {}

  lemma LastLine(record: seq<Cell>)
    requires record != []
    ensures ReadFile(PrintRecord(record)) == if PrintRecord(record) == "" then Some([]) else Some([Texts(record)])
  {
    var text := PrintRecord(record);
    assert text == text + "";
    RecordRoundTrip(record, "");
    if text != "" { ReadFileStep(text); }
  }

  lemma NextLine(record: seq<Cell>, more: string)
    requires record != []
    ensures ReadFile(PrintRecord(record) + "\n" + more) ==
            match ReadFile(more) case None => None case Some(fs) => Some([Texts(record)] + fs)
  {
    Assoc(PrintRecord(record), "\n", more);
    RecordRoundTrip(record, "\n" + more);
    assert ("\n" + more)[1..] == more;
    ReadFileStep(PrintRecord(record) + ("\n" + more));
  }

  /** Records joined by LF read back, except that an empty last line is not a record. */
  lemma {:induction false} LinesRoundTrip(grid: Grid)
    requires grid != [] && forall i :: 0 <= i < |grid| ==> grid[i] != []
    ensures ReadFile(PrintRecords(grid)) == Some(GridTexts(Kept(grid)))
    decreases |grid|
  {
    JoinMapStep(PrintRecord, grid, '\n');
    if |grid| == 1 {
      LastLine(grid[0]);
      assert GridTexts(grid[..0]) == [];
      assert GridTexts(grid) == [Texts(grid[0])];
    } else {
      NextLine(grid[0], PrintRecords(grid[1..]));
      LinesRoundTrip(grid[1..]);
      KeptStep(grid);
    }
  }

  function HeaderCells(columns: seq<string>): seq<Cell> { Map((c: string) => Some(c), columns) }

  function RowCells(columns: seq<string>, row: Row): seq<Cell> { Map((c: string) => CellOf(row, c), columns) }

  /** The header row and every row, in column order. */
  function GridOf(columns: seq<string>, rows: seq<Row>): Grid {
    [HeaderCells(columns)] + Map((row: Row) => RowCells(columns, row), rows)
  }

  lemma RowIsRecord(columns: seq<string>, row: Row)
    ensures PrintRow(columns, row) == PrintRecord(RowCells(columns, row))
  {
    assert Map((c: string) => Escape(CellOf(row, c)), columns) == Map(Escape, RowCells(columns, row));
  }

  lemma CsvIsRecords(columns: seq<string>, rows: seq<Row>)
    ensures RowsToCsv(columns, rows) ==
            if rows == [] then PrintRecord(HeaderCells(columns)) + "\n" else PrintRecords(GridOf(columns, rows))
  {
    var header, cells := HeaderCells(columns), Map((row: Row) => RowCells(columns, row), rows);
    assert Map((c: string) => Escape(Some(c)), columns) == Map(Escape, header);
    forall i | 0 <= i < |rows| ensures PrintRow(columns, rows[i]) == PrintRecord(cells[i]) {
      RowIsRecord(columns, rows[i]);
    }
    assert Map((row: Row) => PrintRow(columns, row), rows) == Map(PrintRecord, cells);
    if rows != [] {
      JoinMapStep(PrintRecord, GridOf(columns, rows), '\n');
      assert GridOf(columns, rows)[1..] == cells;
    }
  }

  /** Reading a printed grid gives the header and all cell texts exactly if there are two columns,
      or one column whose last row, if any, is not empty. */
  lemma {:induction false} CsvRoundTripIff(columns: seq<string>, rows: seq<Row>)
    ensures ReadFile(RowsToCsv(columns, rows)) == Some(GridTexts(GridOf(columns, rows))) <==>
            |columns| >= 2 ||
            (|columns| == 1 && (rows == [] || CellText(CellOf(rows[|rows| - 1], columns[0])) != ""))
  {
    var g := GridOf(columns, rows);
    CsvIsRecords(columns, rows);
    if columns == [] {
      assert GridTexts(g)[0] == [];
    } else if rows == [] {
      RecordRoundTrip(g[0], "\n");
      ReadFileStep(RowsToCsv(columns, rows));
      assert GridTexts(g) == [Texts(g[0])];
    } else {
      LinesRoundTrip(g);
      assert g[|g| - 1] == RowCells(columns, rows[|rows| - 1]);
      PrintedEmptyIff(g[|g| - 1]);
      assert |GridTexts(g[..|g| - 1])| != |GridTexts(g)|;
    }
  }

  /** So the printer is injective on grids of two or more columns. */
  lemma CsvInjective(columns: seq<string>, rows: seq<Row>, columns': seq<string>, rows': seq<Row>)
    requires |columns| >= 2 && |columns'| >= 2
    requires RowsToCsv(columns, rows) == RowsToCsv(columns', rows')
    ensures columns == columns' && |rows| == |rows'|
    ensures forall i, j :: 0 <= i < |rows| && 0 <= j < |columns| ==>
              CellText(CellOf(rows[i], columns[j])) == CellText(CellOf(rows'[i], columns[j]))
  {
    CsvRoundTripIff(columns, rows);
    CsvRoundTripIff(columns', rows');
    var g, g' := GridOf(columns, rows), GridOf(columns', rows');
    var t, t' := GridTexts(g), GridTexts(g');
    assert t == t';
    assert |t| == 1 + |rows| && |t'| == 1 + |rows'|;
    assert t[0] == Texts(HeaderCells(columns)) == columns && t'[0] == Texts(HeaderCells(columns')) == columns';
    forall i, j | 0 <= i < |rows| && 0 <= j < |columns|
      ensures CellText(CellOf(rows[i], columns[j])) == CellText(CellOf(rows'[i], columns[j]))
    {
      assert t[1 + i][j] == t'[1 + i][j];
    }
  }

  /** With one column, an empty last row is lost: two different exports print the same text. */
  lemma SingleColumnCollision(column: string)
    ensures RowsToCsv([column], []) == RowsToCsv([column], [map[column := Some("")]])
  {}
}
