/** A last row cut short, as a write that was not taken whole leaves it: which cuts can be read back. */
module CsvCuts {
  import opened Text
  import opened CsvFormatter
  import opened Utf8Converter
  import opened CsvReader
  import opened CsvExact

  // ---------- the columns before the message ----------

  lemma {:induction false} ReadInside(p: Reader, column: string)
    requires Plain(column) && (p.mode == Unquoted || p.mode == FieldStart)
    ensures var q := Read(p, column);
            q.rows == p.rows && q.row == p.row && (q.mode == Unquoted || q.mode == FieldStart)
    decreases |column|
  {
    if column == "" {
    } else {
      ReadInside(Feed(p, column[0]), column[1..]);
    }
  }

  lemma PlainPart(column: string, n: nat)
    requires Plain(column) && n <= |column|
    ensures Plain(column[..n])
  {
  }

  /** Columns cut before the last separator make fewer fields. */
  lemma {:induction false} ReadFewerColumns(before: seq<Row>, cols: seq<string>, n: nat)
    requires n < |Columns(cols)| && forall i :: 0 <= i < |cols| ==> Plain(cols[i])
    ensures var p := Read(Start(before), Columns(cols)[..n]);
            p.rows == before && |p.row| < |cols| && (p.mode == Unquoted || p.mode == FieldStart)
    decreases |cols|
  {
    hide Read, Plain;
    var cols', c := cols[..|cols| - 1], cols[|cols| - 1];
    var k := n - |Columns(cols')|;
    assert Columns(cols) == Columns(cols') + (c + ";");
    if k < 0 {
      assert Columns(cols)[..n] == Columns(cols')[..n];
      ReadFewerColumns(before, cols', n);
    } else {
      assert Columns(cols)[..n] == Columns(cols') + c[..k];
      ReadConcat(Start(before), Columns(cols'), c[..k]);
      ReadColumns(before, cols');
      PlainPart(c, k);
      ReadInside(Reader(FieldStart, before, cols', ""), c[..k]);
    }
  }

  // ---------- the quoted message ----------

  /** A quoted field cut inside is still open, or seems closed after fewer characters. */
  lemma {:induction false} ReadEscapedPart(p: Reader, m: string, n: nat)
    requires p.mode == InQuotes && n <= |Escaped(m)|
    ensures var q := Read(p, Escaped(m)[..n]);
            q == p.(mode := q.mode, field := q.field)
            && (q.mode == InQuotes || (q.mode == QuoteSeen && |q.field| < |p.field| + |m|))
    decreases |m|
  {
    hide Read;
    if n == 0 {
      assert Escaped(m)[..n] == "";
      ReadNothing(p);
    } else {
      var e, p' := EscapedChar(m[0]), p.(field := p.field + [m[0]]);
      if n < |e| {
        assert Escaped(m)[..n] == "\"";
        ReadOne(p, '"');
      } else {
        assert Escaped(m)[..n] == e + Escaped(m[1..])[..n - |e|];
        ReadConcat(p, e, Escaped(m[1..])[..n - |e|]);
        ReadEscapedChar(p, m[0]);
        ReadEscapedPart(p', m[1..], n - |e|);
      }
    }
  }

  lemma ReadClosed(p: Reader, m: string)
    requires p.mode == FieldStart && p.field == ""
    ensures Read(p, Quoted(m)) == p.(mode := QuoteSeen, field := m)
  {
    hide Read;
    var inside := p.(mode := InQuotes);
    assert Quoted(m) == "\"" + (Escaped(m) + "\"");
    ReadConcat(p, "\"", Escaped(m) + "\"");
    ReadOne(p, '"');
    ReadConcat(inside, Escaped(m), "\"");
    ReadEscaped(inside, m);
    assert "" + m == m;
    ReadOne(inside.(field := m), '"');
  }

  // ---------- cut rows ----------

  /** Only the line feed is missing, or an empty message with its quotes. */
  predicate ReadableCut(row: Row, n: nat)
    requires |row| == 7
  {
    n >= |RowText(row)| - 1 || (row[6] == "" && n == |Columns(row[..6])|)
  }

  lemma ColumnsRead(before: seq<Row>, row: Row)
    requires |row| == 7 && PlainColumns(row)
    ensures Read(Start(before), Columns(row[..6])) == Reader(FieldStart, before, row[..6], "")
  {
    ReadColumns(before, row[..6]);
  }

  lemma CutInMessage(before: seq<Row>, row: Row, n: nat)
    requires |row| == 7 && PlainColumns(row) && |Columns(row[..6])| < n < |RowText(row)| - 1
    ensures Finish(Read(Start(before), RowText(row)[..n])) != Some(before + [row])
  {
    hide Read, PlainColumns, Escaped;
    var cols, m := row[..6], row[6];
    var k := n - |Columns(cols)| - 1;
    var start := Reader(FieldStart, before, cols, "");
    var part := Escaped(m)[..k];
    assert RowText(row) == Columns(cols) + ("\"" + (Escaped(m) + "\"\n"));
    assert RowText(row)[..n] == Columns(cols) + ("\"" + part);
    ColumnsRead(before, row);
    ReadConcat(Start(before), Columns(cols), "\"" + part);
    ReadConcat(start, "\"", part);
    ReadOne(start, '"');
    ReadEscapedPart(start.(mode := InQuotes), m, k);
    var q := Read(start.(mode := InQuotes), part);
    assert (before + [cols + [q.field]])[|before|][6] == q.field;
    assert (before + [row])[|before|][6] == m;
  }

  lemma CutInColumns(before: seq<Row>, row: Row, n: nat)
    requires |row| == 7 && PlainColumns(row) && n <= |Columns(row[..6])|
    ensures Finish(Read(Start(before), RowText(row)[..n])) == Some(before + [row])
            <==> row[6] == "" && n == |Columns(row[..6])|
  {
    hide Read;
    var cols := row[..6];
    assert RowText(row)[..n] == Columns(cols)[..n];
    assert (before + [row])[|before|] == row;
    if n < |Columns(cols)| {
      ReadFewerColumns(before, cols, n);
      var p := Read(Start(before), Columns(cols)[..n]);
      assert (before + [p.row + [p.field]])[|before|] == p.row + [p.field];
    } else {
      assert Columns(cols)[..n] == Columns(cols);
      ColumnsRead(before, row);
      assert (before + [cols + [""]])[|before|] == cols + [""];
      assert row == cols + [row[6]];
    }
  }

  lemma CutLineFeed(before: seq<Row>, row: Row)
    requires |row| == 7 && PlainColumns(row)
    ensures Finish(Read(Start(before), RowText(row)[..|RowText(row)| - 1])) == Some(before + [row])
  {
    hide Read, PlainColumns;
    var cols, m := row[..6], row[6];
    assert RowText(row) == Columns(cols) + (Quoted(m) + "\n");
    assert RowText(row)[..|RowText(row)| - 1] == Columns(cols) + Quoted(m);
    ColumnsRead(before, row);
    ReadConcat(Start(before), Columns(cols), Quoted(m));
    ReadClosed(Reader(FieldStart, before, cols, ""), m);
    assert row == cols + [m];
  }

  /** After any rows, a row cut after `n` characters is read as the row exactly for these cuts. */
  lemma CutRowReadsBackExactly(before: seq<Row>, row: Row, n: nat)
    requires |row| == 7 && PlainColumns(row) && n <= |RowText(row)|
    ensures Finish(Read(Start(before), RowText(row)[..n])) == Some(before + [row]) <==> ReadableCut(row, n)
  {
    hide Read, PlainColumns;
    if n == |RowText(row)| {
      assert RowText(row)[..n] == RowText(row);
      ReadRow(before, row);
    } else if n == |RowText(row)| - 1 {
      CutLineFeed(before, row);
    } else if n > |Columns(row[..6])| {
      CutInMessage(before, row, n);
    } else {
      CutInColumns(before, row, n);
    }
  }

  lemma BeforeIsKept(before: seq<Row>, s: string)
    ensures var r := Finish(Read(Start(before), s)); r.Some? ==> before <= r.value
  {
    ReadKeeps(Start(before), s);
  }

  lemma DroppedHeader(rows: seq<Row>, row: Row, all: seq<Row>)
    requires [HEADER_ROW] + rows <= all
    ensures all == [HEADER_ROW] + rows + [row] <==> all[1..] == rows + [row]
  {
    assert [HEADER_ROW] + rows + [row] == [HEADER_ROW] + (rows + [row]);
    assert all == [all[0]] + all[1..] && all[0] == ([HEADER_ROW] + rows)[0];
  }

  lemma MarkIsWritten()
    ensures BOM == MARK
  {
  }

  /** A file whose last row is cut reads back to all its rows exactly for these cuts. */
  lemma CutFileReadsBackExactly(rows: seq<Row>, row: Row, n: nat)
    requires PlainRows(rows) && |row| == 7 && PlainColumns(row) && n <= |RowText(row)|
    ensures ParseFile(FILE_HEADER + RowsText(rows) + RowText(row)[..n]) == Some(rows + [row]) <==> ReadableCut(row, n)
  {
    hide Read, RowText, RowsText, Finish, ReadableCut, PlainColumns, HEADER, BOM;
    var cut := RowText(row)[..n];
    var text := HEADER + (RowsText(rows) + cut);
    var before := [HEADER_ROW] + rows;
    Assoc(BOM, HEADER, RowsText(rows));
    assert FILE_HEADER + RowsText(rows) + cut == BOM + text;
    assert (BOM + text)[|BOM|..] == text;
    MarkIsWritten();
    ReadHeader();
    ReadConcat(Start([]), HEADER, RowsText(rows) + cut);
    ReadConcat(Start([HEADER_ROW]), RowsText(rows), cut);
    ReadRows([HEADER_ROW], rows);
    CutRowReadsBackExactly(before, row, n);
    BeforeIsKept(before, cut);
    var r := Finish(Read(Start(before), cut));
    if r.Some? {
      DroppedHeader(rows, row, r.value);
    }
  }
}
