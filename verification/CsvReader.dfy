/**
 * A reader for the log's CSV files, written from the CSV rules (section 2 of RFC 4180, with ';'
 * between fields and a line feed between rows) and not from the formatter, and the round trip.
 */
module CsvReader {
  import opened Text
  import opened CsvFormatter
  import opened Utf8Converter

  // ---------- the reader ----------

  datatype Mode =
    | FieldStart  // nothing of the field read yet
    | Unquoted    // inside a field without quotes
    | InQuotes    // inside a quoted field
    | QuoteSeen   // after a quote inside a quoted field: its end, or one half of a doubled quote
    | Broken

  datatype Reader = Reader(mode: Mode, rows: seq<Row>, row: Row, field: string)

  function Start(rows: seq<Row>): Reader
  {
    Reader(FieldStart, rows, [], "")
  }

  function EndField(p: Reader): Reader
  {
    Reader(FieldStart, p.rows, p.row + [p.field], "")
  }

  function EndRow(p: Reader): Reader
  {
    Start(p.rows + [p.row + [p.field]])
  }

  function Feed(p: Reader, c: char): Reader
  {
    match p.mode
    case Broken => p
    case InQuotes => if c == '"' then p.(mode := QuoteSeen) else p.(field := p.field + [c])
    case QuoteSeen =>
      if c == '"' then p.(mode := InQuotes, field := p.field + [c])
      else if c == ';' then EndField(p)
      else if c == '\n' then EndRow(p)
      else p.(mode := Broken)
    case _ =>
      if c == ';' then EndField(p)
      else if c == '\n' then EndRow(p)
      else if c == '"' then p.(mode := if p.mode == FieldStart then InQuotes else Broken)
      else p.(mode := Unquoted, field := p.field + [c])
  }

  function Read(p: Reader, s: string): Reader
    decreases |s|
  {
    if s == "" then p else Read(Feed(p, s[0]), s[1..])
  }

  /** What has been read when the text ends here; the last line break may be missing. */
  function Finish(p: Reader): Option<seq<Row>>
  {
    if p.mode == Broken || p.mode == InQuotes then None
    else if p.mode == FieldStart && p.row == [] then Some(p.rows)
    else Some(p.rows + [p.row + [p.field]])
  }

  function Parse(s: string): Option<seq<Row>>
  {
    Finish(Read(Start([]), s))
  }

  /** The mark of a UTF-8 file: the bytes 0xEF, 0xBB, 0xBF (section 6 of RFC 3629). */
  const MARK: string := [0xEF as char, 0xBB as char, 0xBF as char]

  /** The rows of a log file: a file that starts with the mark has its header row dropped. */
  function ParseFile(content: string): Option<seq<Row>>
  {
    if MARK <= content then
      match Parse(content[|MARK|..])
      case Some(rows) => if rows == [] then None else Some(rows[1..])
      case None => None
    else Parse(content)
  }

  // ---------- which rows can be read back ----------

  predicate Plain(column: string)
  {
    ';' !in column && '"' !in column && '\n' !in column
  }

  predicate PlainColumns(row: Row)
  {
    forall i :: 0 <= i < |row| - 1 ==> Plain(row[i])
  }

  predicate LikeMark(column: string)
  {
    column != "" && column[0] == MARK[0]
  }

  predicate ValidRow(row: Row)
  {
    |row| == 7 && PlainColumns(row) && !LikeMark(row[0])
  }

  predicate ValidRows(rows: seq<Row>)
  {
    forall i :: 0 <= i < |rows| ==> ValidRow(rows[i])
  }

  /** What a file with a header asks of its rows. */
  predicate PlainRows(rows: seq<Row>)
  {
    forall i :: 0 <= i < |rows| ==> |rows[i]| == 7 && PlainColumns(rows[i])
  }

  /** Only the printed pointer and the function name could spoil a row. */
  predicate ValidRecord(r: Record)
  {
    Plain(r.pointer) && Plain(r.func)
  }

  lemma SeverityPlain(s: Severity)
    ensures Plain(s.Text())
  {
  }

  lemma DatePlain(t: Time)
    ensures Plain(Date(t)) && !LikeMark(Date(t))
  {
    hide Date;
  }

  lemma ClockPlain(t: Time)
    ensures Plain(Clock(t))
  {
    hide Clock;
  }

  lemma NumberPlain(n: nat)
    ensures Plain(Decimal(n))
  {
    hide Decimal;
  }

  lemma FunctionPlain(func: string, line: nat)
    ensures Plain(func + "@" + Decimal(line)) <==> Plain(func)
  {
    hide Decimal;
  }

  lemma FieldsPlain(r: Record)
    ensures var f := Fields(r);
            Plain(f[0]) && Plain(f[1]) && Plain(f[2]) && Plain(f[3]) && f[4] == r.pointer && !LikeMark(f[0])
    ensures Plain(Fields(r)[5]) <==> Plain(r.func)
  {
    hide Date, Clock, Decimal, Plain, LikeMark, Truncated;
    DatePlain(r.time);
    ClockPlain(r.time);
    SeverityPlain(r.severity);
    NumberPlain(r.tid);
    FunctionPlain(r.func, r.line);
  }

  lemma FieldsValid(r: Record)
    ensures ValidRow(Fields(r)) <==> ValidRecord(r)
  {
    FieldsPlain(r);
    hide Fields, Plain, LikeMark;
  }

  // ---------- reading what the formatter wrote ----------

  lemma {:induction false} ReadConcat(p: Reader, a: string, b: string)
    ensures Read(p, a + b) == Read(Read(p, a), b)
    decreases |a|
  {
    if a == "" {
      assert a + b == b;
    } else {
      ReadConcat(Feed(p, a[0]), a[1..], b);
      assert (a + b)[1..] == a[1..] + b;
    }
  }

  lemma ReadNothing(p: Reader)
    ensures Read(p, "") == p
  {
  }

  lemma ReadOne(p: Reader, c: char)
    ensures Read(p, [c]) == Feed(p, c)
  {
    assert [c][1..] == "";
  }

  lemma {:induction false} ReadPlain(p: Reader, column: string)
    requires Plain(column)
    requires p.mode == Unquoted || p.mode == FieldStart
    ensures Read(p, column + ";") == Reader(FieldStart, p.rows, p.row + [p.field + column], "")
    decreases |column|
  {
    var text := column + ";";
    if column == "" {
      assert text == ";" && p.field + column == p.field;
      assert Read(Feed(p, ';'), text[1..]) == Feed(p, ';');
    } else {
      var p' := Feed(p, column[0]);
      ReadPlain(p', column[1..]);
      assert text[1..] == column[1..] + ";";
      assert p'.field + column[1..] == p.field + column;
    }
  }

  lemma {:induction false} ReadColumns(rows: seq<Row>, cols: seq<string>)
    requires forall i :: 0 <= i < |cols| ==> Plain(cols[i])
    ensures Read(Start(rows), Columns(cols)) == Reader(FieldStart, rows, cols, "")
  {
    hide Plain, Read;
    if cols == [] {
      ReadNothing(Start(rows));
    } else {
      var cols', c := cols[..|cols| - 1], cols[|cols| - 1];
      ReadColumns(rows, cols');
      ReadConcat(Start(rows), Columns(cols'), c + ";");
      ReadPlain(Reader(FieldStart, rows, cols', ""), c);
      assert Columns(cols) == Columns(cols') + (c + ";");
      assert "" + c == c;
      assert cols' + [c] == cols;
    }
  }

  lemma ReadEscapedChar(p: Reader, c: char)
    requires p.mode == InQuotes
    ensures Read(p, EscapedChar(c)) == p.(field := p.field + [c])
  {
    var e := EscapedChar(c);
    if c == '"' {
      assert e[1..][1..] == "";
      assert Read(Feed(Feed(p, e[0]), e[1]), e[1..][1..]) == Feed(Feed(p, e[0]), e[1]);
      assert Read(Feed(p, e[0]), e[1..]) == Feed(Feed(p, e[0]), e[1]);
    } else {
      assert e[1..] == "";
    }
  }

  lemma {:induction false} ReadEscaped(p: Reader, m: string)
    requires p.mode == InQuotes
    ensures Read(p, Escaped(m)) == p.(field := p.field + m)
    decreases |m|
  {
    if m == "" {
      assert p.field + m == p.field;
    } else {
      var p' := p.(field := p.field + [m[0]]);
      ReadConcat(p, EscapedChar(m[0]), Escaped(m[1..]));
      ReadEscapedChar(p, m[0]);
      ReadEscaped(p', m[1..]);
      assert p.field + [m[0]] + m[1..] == p.field + m;
    }
  }

  lemma ReadQuoted(p: Reader, m: string)
    requires p.mode == FieldStart && p.field == ""
    ensures Read(p, Quoted(m) + "\n") == Start(p.rows + [p.row + [m]])
  {
    hide Read;
    var inside := p.(mode := InQuotes);
    var closed := inside.(field := m, mode := QuoteSeen);
    assert Quoted(m) + "\n" == "\"" + (Escaped(m) + "\"\n");
    ReadConcat(p, "\"", Escaped(m) + "\"\n");
    ReadConcat(inside, Escaped(m), "\"\n");
    ReadEscaped(inside, m);
    assert "" + m == m;
    assert "\"\n" == ['"'] + ['\n'];
    ReadConcat(inside.(field := m), ['"'], ['\n']);
    ReadOne(inside.(field := m), '"');
    ReadOne(closed, '\n');
    ReadOne(p, '"');
  }

  lemma ReadRow(rows: seq<Row>, row: Row)
    requires row != [] && PlainColumns(row)
    ensures Read(Start(rows), RowText(row)) == Start(rows + [row])
  {
    var cols, m := row[..|row| - 1], row[|row| - 1];
    ReadColumns(rows, cols);
    ReadConcat(Start(rows), Columns(cols), Quoted(m) + "\n");
    ReadQuoted(Reader(FieldStart, rows, cols, ""), m);
    assert RowText(row) == Columns(cols) + (Quoted(m) + "\n");
    assert cols + [m] == row;
  }

  lemma {:induction false} ReadRows(before: seq<Row>, rows: seq<Row>)
    requires PlainRows(rows)
    ensures Read(Start(before), RowsText(rows)) == Start(before + rows)
  {
    if rows == [] {
      assert before + rows == before;
    } else {
      var rows', row := rows[..|rows| - 1], rows[|rows| - 1];
      ReadRows(before, rows');
      ReadConcat(Start(before), RowsText(rows'), RowText(row));
      ReadRow(before + rows', row);
      assert before + rows' + [row] == before + rows;
    }
  }

  const HEADER_ROW: Row := ["Date", "Time", "Severity", "TID", "This", "Function", "Message"]

  lemma HeaderPlain()
    ensures |HEADER_ROW| == 7 && PlainColumns(HEADER_ROW) && Plain(HEADER_ROW[6])
  {
    assert Plain("Date") && Plain("Time") && Plain("Severity") && Plain("TID");
    assert Plain("This") && Plain("Function");
  }

  lemma {:induction false} ReadLastPlain(p: Reader, column: string)
    requires Plain(column)
    requires p.mode == Unquoted || p.mode == FieldStart
    ensures Read(p, column + "\n") == Start(p.rows + [p.row + [p.field + column]])
    decreases |column|
  {
    var text := column + "\n";
    if column == "" {
      assert text == "\n" && p.field + column == p.field;
      assert Read(Feed(p, '\n'), text[1..]) == Feed(p, '\n');
    } else {
      var p' := Feed(p, column[0]);
      ReadLastPlain(p', column[1..]);
      assert text[1..] == column[1..] + "\n";
      assert p'.field + column[1..] == p.field + column;
    }
  }

  lemma ReadUnquotedRow(text: string, row: Row)
    requires row != [] && PlainColumns(row) && Plain(row[|row| - 1])
    requires text == Columns(row[..|row| - 1]) + (row[|row| - 1] + "\n")
    ensures Read(Start([]), text) == Start([row])
  {
    var cols, last := row[..|row| - 1], row[|row| - 1];
    ReadColumns([], cols);
    ReadConcat(Start([]), Columns(cols), last + "\n");
    ReadLastPlain(Reader(FieldStart, [], cols, ""), last);
    assert "" + last == last;
    assert cols + [last] == row;
  }

  lemma ColumnsStep(cols: seq<string>, k: nat)
    requires k < |cols|
    ensures Columns(cols[..k + 1]) == Columns(cols[..k]) + cols[k] + ";"
  {
    assert cols[..k + 1][..k] == cols[..k];
  }

  lemma FirstHeaderColumns()
    ensures Columns(HEADER_ROW[..3]) == "Date;Time;Severity;"
  {
    var h := HEADER_ROW;
    assert Columns(h[..0]) == "";
    hide Columns;
    ColumnsStep(h, 0);
    ColumnsStep(h, 1);
    ColumnsStep(h, 2);
  }

  lemma HeaderColumnsText()
    ensures Columns(HEADER_ROW[..6]) == "Date;Time;Severity;TID;This;Function;"
  {
    hide Columns;
    var h := HEADER_ROW;
    FirstHeaderColumns();
    ColumnsStep(h, 3);
    ColumnsStep(h, 4);
    ColumnsStep(h, 5);
  }

  lemma HeaderColumns()
    ensures HEADER == Columns(HEADER_ROW[..6]) + (HEADER_ROW[6] + "\n")
  {
    HeaderColumnsText();
    assert HEADER_ROW[6] + "\n" == "Message\n";
  }

  lemma ReadHeader()
    ensures Read(Start([]), HEADER) == Start([HEADER_ROW])
  {
    HeaderPlain();
    HeaderColumns();
    ReadUnquotedRow(HEADER, HEADER_ROW);
  }

  // ---------- the round trip of whole files ----------

  lemma FinishStart(rows: seq<Row>)
    ensures Finish(Start(rows)) == Some(rows)
  {
  }

  lemma MarkedFileRoundTrip(header: string, headerRow: Row, rows: seq<Row>)
    requires Read(Start([]), header) == Start([headerRow])
    requires PlainRows(rows)
    ensures ParseFile(BOM + header + RowsText(rows)) == Some(rows)
  {
    hide Read, Finish;
    var content := BOM + header + RowsText(rows);
    assert BOM == MARK;
    assert MARK <= content;
    assert content[|BOM|..] == header + RowsText(rows);
    ReadConcat(Start([]), header, RowsText(rows));
    ReadRows([headerRow], rows);
    assert ([headerRow] + rows)[1..] == rows;
    FinishStart([headerRow] + rows);
  }

  /** Header and rows, in any number, read back to exactly the rows. */
  lemma HeadedFileRoundTrip(rows: seq<Row>)
    requires PlainRows(rows)
    ensures ParseFile(FILE_HEADER + RowsText(rows)) == Some(rows)
  {
    ReadHeader();
    MarkedFileRoundTrip(HEADER, HEADER_ROW, rows);
  }

  lemma {:induction false} ColumnsStart(cols: seq<string>)
    requires cols != []
    ensures Columns(cols) != "" && Columns(cols)[0] == (cols[0] + ";")[0]
  {
    if |cols| > 1 {
      ColumnsStart(cols[..|cols| - 1]);
    } else {
      assert Columns(cols[..0]) == "";
      assert Columns(cols) == cols[0] + ";";
    }
  }

  lemma RowStart(row: Row)
    requires ValidRow(row)
    ensures RowText(row) != "" && RowText(row)[0] != MARK[0]
  {
    var cols := row[..6];
    ColumnsStart(cols);
    assert cols[0] == row[0];
    assert RowText(row)[0] == Columns(cols)[0];
  }

  lemma {:induction false} NoMarkInRows(rows: seq<Row>)
    requires ValidRows(rows)
    ensures !(MARK <= RowsText(rows))
    ensures rows != [] ==> RowsText(rows) != "" && RowsText(rows)[0] != MARK[0]
  {
    hide RowText;
    if rows == [] {
    } else {
      NoMarkInRows(rows[..|rows| - 1]);
      RowStart(rows[|rows| - 1]);
    }
  }

  /** The same for a file whose header could not be written. */
  lemma BareFileRoundTrip(rows: seq<Row>)
    requires ValidRows(rows)
    ensures ParseFile(RowsText(rows)) == Some(rows)
  {
    NoMarkInRows(rows);
    ReadRows([], rows);
    assert [] + rows == rows;
  }

  /** Formatted records, whatever their messages contain, read back as their fields. */
  lemma FormattedRecordsRoundTrip(records: seq<Record>)
    requires forall i :: 0 <= i < |records| ==> ValidRecord(records[i])
    ensures var rows := seq(|records|, i requires 0 <= i < |records| => Fields(records[i]));
            ParseFile(FILE_HEADER + RowsText(rows)) == Some(rows)
  {
    var rows := seq(|records|, i requires 0 <= i < |records| => Fields(records[i]));
    forall i | 0 <= i < |rows| ensures ValidRow(rows[i]) {
      FieldsValid(records[i]);
    }
    HeadedFileRoundTrip(rows);
  }
}
