/**
 * The XML-to-CSV page: each `row` element becomes one line of quoted,
 * comma-separated trimmed cell texts, lines are joined with newlines, and
 * the page then splits the text again to show the header line and the
 * first data line with quotes removed. Nothing is escaped, so the round
 * trip holds only for cells without commas, quotes or newlines.
 */
module XmlCsv {
  import opened Text
  import XmlRecords

  type Row = XmlRecords.Row

  /** `"${text}"`. */
  function Quote(t: string): (r: string)
    ensures |r| == |t| + 2
  {
    ['"'] + t + ['"']
  }

  /** The quoted trimmed texts of a row's cells, in order. */
  function QuotedCells(row: Row): (r: seq<string>)
    ensures |r| == |row|
    ensures forall j :: 0 <= j < |row| ==> r[j] == Quote(Trim(row[j].text))
  {
    seq(|row|, j requires 0 <= j < |row| => Quote(Trim(row[j].text)))
  }

  /** The line of one row: its quoted cells joined by commas. */
  function CsvLine(row: Row): string {
    JoinWith(QuotedCells(row), ',')
  }

  /** The lines of all rows, in order. */
  function CsvLines(rows: seq<Row>): (r: seq<string>)
    ensures |r| == |rows|
    ensures forall i :: 0 <= i < |rows| ==> r[i] == CsvLine(rows[i])
  {
    seq(|rows|, i requires 0 <= i < |rows| => CsvLine(rows[i]))
  }

  /** The whole text: the lines joined by newlines. */
  function CsvText(rows: seq<Row>): string {
    JoinWith(CsvLines(rows), '\n')
  }

  /** Builds the text row by row, as `xmlToCsv` does. */
  method XmlToCsv(rows: seq<Row>) returns (csv: string)
    ensures csv == CsvText(rows)
  {
    var csvRows: seq<string> := [];
    for i := 0 to |rows|
      invariant csvRows == CsvLines(rows)[..i]
    {
      var cellValues := QuotedCells(rows[i]);
      csvRows := csvRows + [JoinWith(cellValues, ',')];
    }
    assert csvRows == CsvLines(rows);
    csv := JoinWith(csvRows, '\n');
  }

  /** `s.replace(/"/g, '')`. */
  function RemoveQuotes(s: string): (r: string)
    ensures '"' !in r
  {
    if s == [] then [] else (if s[0] == '"' then [] else [s[0]]) + RemoveQuotes(s[1..])
  }

  /** A line split on commas, each piece without its quotes. */
  function Fields(line: string): (r: seq<string>)
    ensures |r| >= 1
  {
    var pieces := Split(line, ',');
    seq(|pieces|, k requires 0 <= k < |pieces| => RemoveQuotes(pieces[k]))
  }

  /** What the page shows: no file chosen, the failure message for an empty
      text, the no-data message, or the header and first-row cells. */
  datatype CsvOutcome = NoFile | ConversionFailed | NoData | Table(headers: seq<string>, firstRow: seq<string>)

  /** The display derived from the row elements: fields of line 0, and of
      line 1 when it exists and is not empty. */
  function CsvView(rows: seq<Row>): CsvOutcome {
    var csv := CsvText(rows);
    if csv == [] then ConversionFailed
    else
      var lines := Split(csv, '\n');
      Table(Fields(lines[0]), if |lines| > 1 && lines[1] != [] then Fields(lines[1]) else [])
  }

  /** The click handler of the XML-to-CSV page. Only `row` elements are
      read; there is no fallback to the root's children and no check for a
      parser error. */
  method HandleLoadXml(hasFile: bool, doc: XmlRecords.XmlDoc) returns (r: CsvOutcome)
    ensures r == (if hasFile then CsvView(doc.rowElements) else NoFile)
    ensures r != NoData
  {
    if !hasFile {
      return NoFile;
    }
    var csv := XmlToCsv(doc.rowElements);
    if csv == [] {
      return ConversionFailed;
    }
    var csvLines := Split(csv, '\n');
    if |csvLines| == 0 {
      return NoData;
    }
    var headers := Fields(csvLines[0]);
    var firstRow := if |csvLines| > 1 && csvLines[1] != [] then Fields(csvLines[1]) else [];
    r := Table(headers, firstRow);
  }

  /** A row's line is empty exactly when the row has no cells. */
  lemma CsvLineEmpty(row: Row)
    ensures CsvLine(row) == [] <==> row == []
  {
    if row != [] {
      JoinWithFirst(QuotedCells(row), ',');
    }
  }

  /** A join starts with its first part. */
  lemma JoinWithFirst(parts: seq<string>, sep: char)
    requires |parts| >= 1
    ensures |JoinWith(parts, sep)| >= |parts[0]|
  {
  }

  /** A join of two or more parts holds a separator. */
  lemma JoinWithHasSeparator(parts: seq<string>, sep: char)
    requires |parts| >= 2
    ensures sep in JoinWith(parts, sep)
  {
    assert JoinWith(parts, sep) == parts[0] + [sep] + JoinWith(parts[1..], sep);
    assert JoinWith(parts, sep)[|parts[0]|] == sep;
  }

  /** The text is empty, and conversion fails, exactly when there are no
      rows or a single row without cells. */
  lemma CsvTextEmpty(rows: seq<Row>)
    ensures CsvText(rows) == [] <==> |rows| == 0 || (|rows| == 1 && rows[0] == [])
  {
    if |rows| == 1 {
      CsvLineEmpty(rows[0]);
    } else if |rows| >= 2 {
      JoinWithHasSeparator(CsvLines(rows), '\n');
    }
  }

  /** Quoting and then removing quotes gives back a text without quotes. */
  lemma {:induction false} RemoveQuotesOfPlain(t: string)
    requires '"' !in t
    ensures RemoveQuotes(t) == t
  {
    if t != [] {
      RemoveQuotesOfPlain(t[1..]);
      assert t == [t[0]] + t[1..];
    }
  }

  lemma {:induction false} RemoveQuotesAppend(a: string, b: string)
    ensures RemoveQuotes(a + b) == RemoveQuotes(a) + RemoveQuotes(b)
  {
    if a != [] {
      assert (a + b)[1..] == a[1..] + b;
      RemoveQuotesAppend(a[1..], b);
    } else {
      assert a + b == b;
    }
  }

  lemma QuoteRoundTrip(t: string)
    requires '"' !in t
    ensures RemoveQuotes(Quote(t)) == t
  {
    RemoveQuotesAppend(['"'] + t, ['"']);
    RemoveQuotesAppend(['"'], t);
    RemoveQuotesOfPlain(t);
    assert RemoveQuotes(['"']) == [];
  }

  /** No cell's trimmed text holds a comma, a quote or a newline. */
  predicate PlainCells(row: Row) {
    forall j :: 0 <= j < |row| ==> ',' !in Trim(row[j].text) && '"' !in Trim(row[j].text) && '\n' !in Trim(row[j].text)
  }

  /** For a row of plain cells, the fields of its line are its trimmed
      cell texts. */
  lemma FieldsOfLine(row: Row)
    requires row != [] && PlainCells(row)
    ensures Fields(CsvLine(row)) == XmlRecords.Texts(row)
  {
    var cells := QuotedCells(row);
    forall j | 0 <= j < |cells| ensures ',' !in cells[j] {
      QuoteAvoids(Trim(row[j].text), ',');
    }
    SplitJoin(cells, ',');
    var fields := Fields(CsvLine(row));
    forall j | 0 <= j < |row| ensures fields[j] == XmlRecords.Texts(row)[j] {
      QuoteRoundTrip(Trim(row[j].text));
    }
  }

  /** A line of plain cells has no newline. */
  lemma LineHasNoNewline(row: Row)
    requires PlainCells(row)
    ensures '\n' !in CsvLine(row)
  {
    var cells := QuotedCells(row);
    forall j | 0 <= j < |cells| ensures '\n' !in cells[j] {
      QuoteAvoids(Trim(row[j].text), '\n');
    }
    JoinWithAvoids(cells, ',', '\n');
  }

  /** Quoting adds only quotes. */
  lemma QuoteAvoids(t: string, c: char)
    requires c != '"' && c !in t
    ensures c !in Quote(t)
  {
  }

  /** A join of parts without `c`, with a separator other than `c`, has no
      `c`. */
  lemma {:induction false} JoinWithAvoids(parts: seq<string>, sep: char, c: char)
    requires sep != c
    requires forall k :: 0 <= k < |parts| ==> c !in parts[k]
    ensures c !in JoinWith(parts, sep)
  {
    if |parts| > 1 {
      JoinWithAvoids(parts[1..], sep, c);
      assert parts[1..][0] == parts[1];
    }
  }

  /** Round trip: when the first row has cells and no cell holds a comma, a
      quote or a newline, the page shows exactly the trimmed texts of the
      first row as headers and of the second row (if any) as its first
      row. */
  lemma CsvRoundTrip(rows: seq<Row>)
    requires |rows| >= 1 && rows[0] != []
    requires forall i :: 0 <= i < |rows| ==> PlainCells(rows[i])
    ensures CsvView(rows) == Table(XmlRecords.Texts(rows[0]), if |rows| >= 2 then XmlRecords.Texts(rows[1]) else [])
  {
    var lines := CsvLines(rows);
    forall i | 0 <= i < |lines| ensures '\n' !in lines[i] {
      LineHasNoNewline(rows[i]);
    }
    SplitJoin(lines, '\n');
    CsvTextEmpty(rows);
    FieldsOfLine(rows[0]);
    if |rows| >= 2 {
      CsvLineEmpty(rows[1]);
      if rows[1] != [] {
        FieldsOfLine(rows[1]);
      }
    }
  }

  /** Without escaping the round trip fails: a single cell holding one comma
      is shown as two empty headers. */
  lemma CommaBreaksRoundTrip()
    ensures XmlRecords.Texts([XmlRecords.Cell("c", ",")]) == [","]
    ensures CsvView([[XmlRecords.Cell("c", ",")]]) == Table(["", ""], [])
  {
    var row := [XmlRecords.Cell("c", ",")];
    assert Trim(",") == ",";
    assert CsvLine(row) == ['"', ',', '"'];
    SplitAtSeparator(['"'], ',', ['"']);
    SplitNoSeparator(['"'], ',');
    assert Split(['"', ',', '"'], ',') == [['"'], ['"']];
    assert CsvText([row]) == CsvLine(row);
    SplitNoSeparator(CsvLine(row), '\n');
  }
}
