/**
 * The XML-to-Excel page: the parsed document is flattened into one record
 * (column name to trimmed cell text) per row, and every cell whose trimmed
 * text still holds a disallowed control character is logged with its row,
 * its column and the labels of those characters. The XML parser is outside
 * the model: a document is given as the outcome of parsing, the `row`
 * elements and the children of the root element, each a sequence of cells.
 */
module XmlRecords {
  import opened Text
  import opened InvalidChars

  /** A child element of a row: its tag name and its text content. */
  datatype Cell = Cell(tag: string, text: string)

  type Row = seq<Cell>

  /** What the parser produced: whether it reported an error, whether there
      is a root element, the `row` elements in document order and the root's
      element children. */
  datatype XmlDoc = XmlDoc(parserError: bool, hasRoot: bool, rowElements: seq<Row>, rootChildren: seq<Row>)

  type Record = map<string, string>

  /** One line of the invalid-character report. */
  datatype InvalidEntry = InvalidEntry(row: nat, column: string, invalidChars: seq<string>)

  /** The rows to flatten: the `row` elements, or the root's children when
      there are none. */
  function SelectRows(doc: XmlDoc): seq<Row> {
    if doc.rowElements != [] then doc.rowElements else doc.rootChildren
  }

  /** The column a cell fills: its tag, or `col` and its index when the tag
      is empty. */
  function ColumnName(cell: Cell, index: nat): (r: string)
    ensures r != []
  {
    if cell.tag != [] then cell.tag else "col" + Decimal(index)
  }

  /** The column names of a row's cells, in order. */
  function Columns(row: Row): (r: seq<string>)
    ensures |r| == |row|
    ensures forall j :: 0 <= j < |row| ==> r[j] == ColumnName(row[j], j)
  {
    seq(|row|, j requires 0 <= j < |row| => ColumnName(row[j], j))
  }

  /** The trimmed texts of a row's cells, in order. */
  function Texts(row: Row): (r: seq<string>)
    ensures |r| == |row|
    ensures forall j :: 0 <= j < |row| ==> r[j] == Trim(row[j].text)
  {
    seq(|row|, j requires 0 <= j < |row| => Trim(row[j].text))
  }

  /** The disallowed characters of each cell's trimmed text, in order. */
  function Reported(row: Row): (r: seq<string>)
    ensures |r| == |row|
    ensures forall j :: 0 <= j < |row| ==> r[j] == Detect(Trim(row[j].text))
  {
    seq(|row|, j requires 0 <= j < |row| => Detect(Trim(row[j].text)))
  }

  /** The one property name whose assignment on a plain object does not
      create a property: it calls the inherited prototype setter, which
      ignores a string value. */
  const ProtoKey := "__proto__"

  /** `record[key] = val` on a plain JavaScript object. */
  function Assign(record: Record, key: string, val: string): Record {
    if key == ProtoKey then record else record[key := val]
  }

  /** Assigns `vals[j]` to `keys[j]` for each `j` in turn, as repeated
      property assignment on a plain object does. */
  function Assoc(keys: seq<string>, vals: seq<string>): Record
    requires |keys| == |vals|
  {
    if keys == [] then map[]
    else
      var last := |keys| - 1;
      Assign(Assoc(keys[..last], vals[..last]), keys[last], vals[last])
  }

  /** The keys of the assignments are exactly the keys assigned, except
      `__proto__`. */
  lemma {:induction false} AssocKeys(keys: seq<string>, vals: seq<string>)
    requires |keys| == |vals|
    ensures forall k :: k in Assoc(keys, vals) <==> k in keys && k != ProtoKey
  {
    if keys != [] {
      var last := |keys| - 1;
      AssocKeys(keys[..last], vals[..last]);
      assert keys == keys[..last] + [keys[last]];
    }
  }

  /** A key other than `__proto__` holds the value of its last
      assignment. */
  lemma {:induction false} AssocLastWins(keys: seq<string>, vals: seq<string>, j: nat)
    requires |keys| == |vals| && j < |keys|
    requires keys[j] != ProtoKey && keys[j] !in keys[j + 1..]
    ensures keys[j] in Assoc(keys, vals) && Assoc(keys, vals)[keys[j]] == vals[j]
  {
    var last := |keys| - 1;
    if j < last {
      assert keys[last] in keys[j + 1..];
      assert keys[..last][j + 1..] == keys[j + 1..last];
      assert keys[j] !in keys[j + 1..last];
      AssocLastWins(keys[..last], vals[..last], j);
    }
  }

  /** The record of a row: each cell in turn sets its column to its trimmed
      text. */
  function RecordOf(row: Row): Record {
    Assoc(Columns(row), Texts(row))
  }

  /** The columns of a record are exactly the column names of its cells,
      except `__proto__`, which never becomes a column. */
  lemma RecordKeys(row: Row)
    ensures forall k :: k in RecordOf(row) <==> k != ProtoKey && exists j :: 0 <= j < |row| && ColumnName(row[j], j) == k
  {
    var keys := Columns(row);
    AssocKeys(keys, Texts(row));
    forall k ensures k in RecordOf(row) <==> k != ProtoKey && exists j :: 0 <= j < |row| && ColumnName(row[j], j) == k {
      if k in RecordOf(row) {
        var j :| 0 <= j < |keys| && keys[j] == k;
        assert ColumnName(row[j], j) == k;
      }
    }
  }

  /** When a column repeats within a row, the last cell's trimmed text
      wins. */
  lemma RecordLastWins(row: Row, j: nat)
    requires j < |row| && ColumnName(row[j], j) != ProtoKey
    requires forall j' :: j < j' < |row| ==> ColumnName(row[j'], j') != ColumnName(row[j], j)
    ensures ColumnName(row[j], j) in RecordOf(row)
    ensures RecordOf(row)[ColumnName(row[j], j)] == Trim(row[j].text)
  {
    var keys := Columns(row);
    var later := keys[j + 1..];
    forall k | 0 <= k < |later| ensures later[k] != keys[j] {
      assert later[k] == keys[j + 1 + k];
    }
    AssocLastWins(keys, Texts(row), j);
  }

  /** A cell tagged `__proto__` leaves no column: the record is made by
      the other cells alone. */
  lemma ProtoCellIgnored(t: string, u: string)
    ensures RecordOf([Cell(ProtoKey, t), Cell("id", u)]) == map["id" := Trim(u)]
  {
    var row := [Cell(ProtoKey, t), Cell("id", u)];
    assert Columns(row) == [ProtoKey, "id"];
    assert Texts(row) == [Trim(t), Trim(u)];
    AssocPair(ProtoKey, "id", Trim(t), Trim(u));
  }

  lemma AssocPair(k0: string, k1: string, v0: string, v1: string)
    ensures Assoc([k0, k1], [v0, v1]) == Assign(Assign(map[], k0, v0), k1, v1)
  {
    assert [k0][..0] == [] && [v0][..0] == [];
    assert Assoc([k0], [v0]) == Assign(map[], k0, v0);
    assert [k0, k1][..1] == [k0] && [v0, v1][..1] == [v0];
    assert Assoc([k0, k1], [v0, v1]) == Assign(Assoc([k0], [v0]), k1, v1);
  }

  /** The report lines for cells with the given column names and reported
      characters, at 0-based row position `rowIndex`: one line per cell that
      reports something, in cell order. */
  function RowLog(rowIndex: nat, columns: seq<string>, reported: seq<string>): seq<InvalidEntry>
    requires |columns| == |reported|
  {
    if columns == [] then []
    else
      var last := |columns| - 1;
      RowLog(rowIndex, columns[..last], reported[..last])
      + (if reported[last] != [] then [InvalidEntry(rowIndex + 1, columns[last], Labels(reported[last]))] else [])
  }

  /** The report of all rows, row after row. */
  function LogOf(rows: seq<Row>): seq<InvalidEntry> {
    if rows == [] then []
    else
      var last := |rows| - 1;
      LogOf(rows[..last]) + RowLog(last, Columns(rows[last]), Reported(rows[last]))
  }

  /** The report line of cell `j` of row `i`. */
  function EntryFor(rows: seq<Row>, i: nat, j: nat): InvalidEntry
    requires i < |rows| && j < |rows[i]|
  {
    InvalidEntry(i + 1, Columns(rows[i])[j], Labels(Reported(rows[i])[j]))
  }

  /** Every line of a row's report comes from a cell that reports a
      character. */
  lemma {:induction false} RowLogSound(rowIndex: nat, columns: seq<string>, reported: seq<string>, e: InvalidEntry)
    requires |columns| == |reported|
    requires e in RowLog(rowIndex, columns, reported)
    ensures exists j :: 0 <= j < |columns| && reported[j] != [] && e == InvalidEntry(rowIndex + 1, columns[j], Labels(reported[j]))
  {
    var last := |columns| - 1;
    if e in RowLog(rowIndex, columns[..last], reported[..last]) {
      RowLogSound(rowIndex, columns[..last], reported[..last], e);
      var j :| 0 <= j < last && reported[..last][j] != []
        && e == InvalidEntry(rowIndex + 1, columns[..last][j], Labels(reported[..last][j]));
      assert reported[..last][j] == reported[j] && columns[..last][j] == columns[j];
    }
  }

  /** Every cell that reports a character has its line in the row's
      report. */
  lemma {:induction false} RowLogComplete(rowIndex: nat, columns: seq<string>, reported: seq<string>, j: nat)
    requires |columns| == |reported| && j < |columns|
    requires reported[j] != []
    ensures InvalidEntry(rowIndex + 1, columns[j], Labels(reported[j])) in RowLog(rowIndex, columns, reported)
  {
    var last := |columns| - 1;
    if j < last {
      RowLogComplete(rowIndex, columns[..last], reported[..last], j);
      assert reported[..last][j] == reported[j] && columns[..last][j] == columns[j];
    }
  }

  /** A cell of an earlier row has the same report line with or without the
      last row. */
  lemma EntryForPrefix(rows: seq<Row>, i: nat, j: nat)
    requires i < |rows| - 1 && j < |rows[i]|
    ensures rows[..|rows| - 1][i] == rows[i]
    ensures EntryFor(rows[..|rows| - 1], i, j) == EntryFor(rows, i, j)
  {
  }

  /** Every line of the report names a cell whose trimmed text holds a
      disallowed character: its 1-based row, its column and one label per
      occurrence. */
  lemma {:induction false} LogSound(rows: seq<Row>, e: InvalidEntry)
    requires e in LogOf(rows)
    ensures exists i, j :: 0 <= i < |rows| && 0 <= j < |rows[i]| && Detect(Trim(rows[i][j].text)) != [] && e == EntryFor(rows, i, j)
  {
    var last := |rows| - 1;
    var prefix := rows[..last];
    if e in LogOf(prefix) {
      LogSound(prefix, e);
      var i, j :| 0 <= i < |prefix| && 0 <= j < |prefix[i]| && Detect(Trim(prefix[i][j].text)) != [] && e == EntryFor(prefix, i, j);
      EntryForPrefix(rows, i, j);
      assert 0 <= i < |rows| && 0 <= j < |rows[i]| && Detect(Trim(rows[i][j].text)) != [] && e == EntryFor(rows, i, j);
    } else {
      var j := LogSoundLast(rows, last, e);
      assert 0 <= last < |rows| && 0 <= j < |rows[last]| && Detect(Trim(rows[last][j].text)) != [] && e == EntryFor(rows, last, j);
    }
  }

  /** A line that the last row adds names one of its dirty cells. */
  lemma LogSoundLast(rows: seq<Row>, last: nat, e: InvalidEntry) returns (j: nat)
    requires last + 1 == |rows| && e in LogOf(rows) && e !in LogOf(rows[..last])
    ensures j < |rows[last]| && Detect(Trim(rows[last][j].text)) != [] && e == EntryFor(rows, last, j)
  {
    var row := rows[last];
    RowLogSound(last, Columns(row), Reported(row), e);
    j :| 0 <= j < |row| && Reported(row)[j] != [] && e == InvalidEntry(last + 1, Columns(row)[j], Labels(Reported(row)[j]));
    assert EntryFor(rows, last, j) == e;
  }

  /** Every cell whose trimmed text holds a disallowed character has its
      line in the report. */
  lemma {:induction false} LogComplete(rows: seq<Row>, i: nat, j: nat)
    requires i < |rows| && j < |rows[i]|
    requires Detect(Trim(rows[i][j].text)) != []
    ensures EntryFor(rows, i, j) in LogOf(rows)
  {
    var last := |rows| - 1;
    if i < last {
      EntryForPrefix(rows, i, j);
      LogComplete(rows[..last], i, j);
      LogOfExtends(rows, EntryFor(rows, i, j));
    } else {
      LogCompleteLast(rows, i, j);
    }
  }

  /** The report of all rows but the last is part of the whole report. */
  lemma LogOfExtends(rows: seq<Row>, e: InvalidEntry)
    requires rows != [] && e in LogOf(rows[..|rows| - 1])
    ensures e in LogOf(rows)
  {
  }

  /** A dirty cell of the last row has its line in the report. */
  lemma LogCompleteLast(rows: seq<Row>, last: nat, j: nat)
    requires last + 1 == |rows| && j < |rows[last]|
    requires Detect(Trim(rows[last][j].text)) != []
    ensures EntryFor(rows, last, j) in LogOf(rows)
  {
    var row := rows[last];
    var cols, rep := Columns(row), Reported(row);
    assert rep[j] != [];
    RowLogComplete(last, cols, rep, j);
  }

  /** A row whose cells report nothing adds no line. */
  lemma {:induction false} QuietRowLogsNothing(rowIndex: nat, columns: seq<string>, reported: seq<string>)
    requires |columns| == |reported|
    requires forall j :: 0 <= j < |reported| ==> reported[j] == []
    ensures RowLog(rowIndex, columns, reported) == []
  {
    if columns != [] {
      var last := |columns| - 1;
      QuietRowLogsNothing(rowIndex, columns[..last], reported[..last]);
    }
  }

  /** A cell whose text is clean reports nothing. */
  lemma CleanCellReportsNothing(t: string)
    requires Clean(t)
    ensures Detect(Trim(t)) == []
  {
    var a, b := TrimDecompose(t);
    forall k | 0 <= k < |t[a..b]| ensures !IsInvalid(t[a..b][k]) {
      assert t[a..b][k] == t[a + k];
    }
    DetectEmptyIffClean(t[a..b]);
  }

  /** A document whose cell texts are all clean produces an empty report. */
  lemma {:induction false} CleanRowsLogNothing(rows: seq<Row>)
    requires forall i, j :: 0 <= i < |rows| && 0 <= j < |rows[i]| ==> Clean(rows[i][j].text)
    ensures LogOf(rows) == []
  {
    if rows != [] {
      var last := |rows| - 1;
      CleanRowsLogNothing(rows[..last]);
      var row := rows[last];
      forall j | 0 <= j < |row| ensures Reported(row)[j] == [] {
        CleanCellReportsNothing(row[j].text);
      }
      QuietRowLogsNothing(last, Columns(row), Reported(row));
    }
  }

  /** Trim runs before detection: whitespace-class control characters at the
      ends of a cell (VT 0x0B, FF 0x0C) are detected in the raw text but
      never reported, while those inside the trimmed text are. */
  lemma EdgeControlsHidden(a: string, t: string, b: string)
    requires AllSpace(a) && AllSpace(b)
    requires t != [] && !IsSpace(t[0]) && !IsSpace(t[|t| - 1])
    ensures Detect(Trim(a + t + b)) == Detect(t)
    ensures Detect(a + t + b) == Detect(a) + Detect(t) + Detect(b)
  {
    TrimPadded(a, t, b);
    DetectAppend(a, t);
    DetectAppend(a + t, b);
  }

  lemma AssocStep(keys: seq<string>, vals: seq<string>, j: nat)
    requires |keys| == |vals| && j < |keys|
    ensures Assoc(keys[..j + 1], vals[..j + 1]) == Assign(Assoc(keys[..j], vals[..j]), keys[j], vals[j])
  {
    assert keys[..j + 1][..j] == keys[..j];
    assert vals[..j + 1][..j] == vals[..j];
  }

  lemma RowLogStep(rowIndex: nat, columns: seq<string>, reported: seq<string>, j: nat)
    requires |columns| == |reported| && j < |columns|
    ensures RowLog(rowIndex, columns[..j + 1], reported[..j + 1])
      == RowLog(rowIndex, columns[..j], reported[..j])
      + (if reported[j] != [] then [InvalidEntry(rowIndex + 1, columns[j], Labels(reported[j]))] else [])
  {
    assert columns[..j + 1][..j] == columns[..j];
    assert reported[..j + 1][..j] == reported[..j];
  }

  /** One more cell of a row: the equations the row loop follows. */
  lemma FlattenStep(rowIndex: nat, row: Row, j: nat)
    requires j < |row|
    ensures Assoc(Columns(row)[..j + 1], Texts(row)[..j + 1])
      == Assign(Assoc(Columns(row)[..j], Texts(row)[..j]), ColumnName(row[j], j), Trim(row[j].text))
    ensures RowLog(rowIndex, Columns(row)[..j + 1], Reported(row)[..j + 1])
      == RowLog(rowIndex, Columns(row)[..j], Reported(row)[..j])
      + (if Detect(Trim(row[j].text)) != [] then [InvalidEntry(rowIndex + 1, ColumnName(row[j], j), Labels(Detect(Trim(row[j].text))))] else [])
  {
    AssocStep(Columns(row), Texts(row), j);
    RowLogStep(rowIndex, Columns(row), Reported(row), j);
  }

  /** The prefix of a row's columns, texts and reports that covers the whole
      row is all of them. */
  lemma WholeRow(row: Row)
    ensures Columns(row)[..|row|] == Columns(row)
    ensures Texts(row)[..|row|] == Texts(row)
    ensures Reported(row)[..|row|] == Reported(row)
  {
  }

  /** Flattens one row: builds its record and its report lines. */
  method FlattenRow(rowIndex: nat, row: Row) returns (record: Record, entries: seq<InvalidEntry>)
    ensures record == RecordOf(row)
    ensures entries == RowLog(rowIndex, Columns(row), Reported(row))
  {
    record := map[];
    entries := [];
    for j := 0 to |row|
      invariant record == Assoc(Columns(row)[..j], Texts(row)[..j])
      invariant entries == RowLog(rowIndex, Columns(row)[..j], Reported(row)[..j])
    {
      var cell := row[j];
      var cellText := Trim(cell.text);
      var invalidChars := Detect(cellText);
      var column := ColumnName(cell, j);
      FlattenStep(rowIndex, row, j);
      record := Assign(record, column, cellText);
      if invalidChars != [] {
        entries := entries + [InvalidEntry(rowIndex + 1, column, Labels(invalidChars))];
      }
    }
    WholeRow(row);
  }

  /** Flattens every row, in document order. */
  method XmlToData(rows: seq<Row>) returns (data: seq<Record>, log: seq<InvalidEntry>)
    ensures |data| == |rows|
    ensures forall i :: 0 <= i < |rows| ==> data[i] == RecordOf(rows[i])
    ensures log == LogOf(rows)
  {
    data := [];
    log := [];
    for i := 0 to |rows|
      invariant |data| == i
      invariant forall k :: 0 <= k < i ==> data[k] == RecordOf(rows[k])
      invariant log == LogOf(rows[..i])
    {
      var record, entries := FlattenRow(i, rows[i]);
      LogOfStep(rows, i);
      data := data + [record];
      log := log + entries;
    }
    assert rows[..|rows|] == rows;
  }

  /** The report of the first `i + 1` rows extends that of the first `i`
      by the lines of row `i`. */
  lemma LogOfStep(rows: seq<Row>, i: nat)
    requires i < |rows|
    ensures LogOf(rows[..i + 1]) == LogOf(rows[..i]) + RowLog(i, Columns(rows[i]), Reported(rows[i]))
  {
    assert rows[..i + 1][..i] == rows[..i];
  }

  /** How the page ends: no file chosen, the parser reported an error, no
      root element, no rows, or the records and report ready for preview and
      export. */
  datatype ExcelOutcome =
    | NoFile
    | ParseError
    | InvalidStructure
    | NoData
    | Ready(data: seq<Record>, log: seq<InvalidEntry>)

  /** The click handler of the XML-to-Excel page, up to the preview. */
  method HandleXmlToExcel(hasFile: bool, doc: XmlDoc) returns (r: ExcelOutcome)
    ensures r == NoFile <==> !hasFile
    ensures r == ParseError <==> hasFile && doc.parserError
    ensures r == InvalidStructure <==> hasFile && !doc.parserError && !doc.hasRoot
    ensures r == NoData <==> hasFile && !doc.parserError && doc.hasRoot && doc.rowElements == [] && doc.rootChildren == []
    ensures r.Ready? ==> |r.data| == |SelectRows(doc)| > 0
    ensures r.Ready? ==> forall i :: 0 <= i < |r.data| ==> r.data[i] == RecordOf(SelectRows(doc)[i])
    ensures r.Ready? ==> r.log == LogOf(SelectRows(doc))
  {
    if !hasFile {
      return NoFile;
    }
    if doc.parserError {
      return ParseError;
    }
    if !doc.hasRoot {
      return InvalidStructure;
    }
    var rows := SelectRows(doc);
    var data, log := XmlToData(rows);
    if |data| == 0 {
      return NoData;
    }
    r := Ready(data, log);
  }
}
