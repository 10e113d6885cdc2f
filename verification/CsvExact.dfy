/** Exactly which rows and files can be read back: those whose columns before the message are plain. */
module CsvExact {
  import opened Text
  import opened CsvFormatter
  import opened Utf8Converter
  import opened CsvReader

  /** What is already read stays: finished rows, finished fields, the start of the current field. */
  ghost predicate Keeps(p: Reader, rows: seq<Row>)
  {
    && p.rows <= rows
    && (p.row != [] || p.mode != FieldStart ==> |rows| > |p.rows|)
    && (p.row != [] ==> p.row <= rows[|p.rows|])
    && (p.mode != FieldStart ==> |rows[|p.rows|]| > |p.row| && p.field <= rows[|p.rows|][|p.row|])
  }

  lemma {:induction false} ReadKeeps(p: Reader, s: string)
    requires p.mode == FieldStart ==> p.field == ""
    ensures var r := Finish(Read(p, s)); r.Some? ==> Keeps(p, r.value)
    decreases |s|
  {
    if s == "" {
    } else {
      ReadKeeps(Feed(p, s[0]), s[1..]);
    }
  }

  lemma {:induction false} BrokenStays(p: Reader, s: string)
    requires p.mode == Broken
    ensures Read(p, s) == p
    decreases |s|
  {
    if s == "" {
    } else {
      BrokenStays(p, s[1..]);
    }
  }

  /** Whatever was read, the field that `p` is in is not `column` in a row of seven. */
  ghost predicate Spoiled(p: Reader, r: Option<seq<Row>>, column: string)
  {
    r.Some? ==>
      |r.value| > |p.rows|
      && !(|r.value[|p.rows|]| == 7 && |p.row| < 6 && r.value[|p.rows|][|p.row|] == column)
  }

  /** The first `n` characters of the column are quotes. */
  ghost predicate QuotesUpTo(column: string, n: nat)
  {
    n <= |column| && forall i :: 0 <= i < n ==> column[i] == '"'
  }

  /**
   * A column that starts with a quote is read as a quoted field, and no quoted field reads back to
   * a text that starts with the quote that opened it: the text would have to be quotes for ever.
   */
  lemma {:induction false} QuotedNeverItself(p: Reader, column: string, n: nat, rest: string)
    requires 1 + 2 * n <= |column| && QuotesUpTo(column, 1 + 2 * n)
    requires p.mode == InQuotes && p.field == column[..n]
    requires |p.row| < 6
    ensures Spoiled(p, Finish(Read(p, column[1 + 2 * n..] + (";" + rest))), column)
    decreases |column| - n
  {
    var text := column[1 + 2 * n..] + (";" + rest);
    var k := |p.row|;
    var x := text[0];
    var p1 := Feed(p, x);
    ReadKeeps(p1, text[1..]);
    if x != '"' {
      assert p1.field == column[..n] + [x];
      assert p1.field[n] == x && column[n] == '"';
    } else {
      var y := text[1];
      var p2 := Feed(p1, y);
      ReadKeeps(p2, text[1..][1..]);
      if y == '"' {
        assert column[1 + 2 * n] == '"';
        if 2 + 2 * n < |column| {
          assert column[2 + 2 * n] == '"';
          assert p2.field == column[..n + 1];
          assert text[1..][1..] == column[1 + 2 * (n + 1)..] + (";" + rest);
          QuotedNeverItself(p2, column, n + 1, rest);
        }
      } else if y == ';' {
        assert p2.row[k] == column[..n];
      } else if y == '\n' {
        assert |p2.rows[|p.rows|]| == k + 1;
      } else {
        BrokenStays(p2, text[1..][1..]);
      }
    }
  }

  /** A column that is not plain is never read back as itself. */
  lemma {:induction false} SpoiledColumn(p: Reader, column: string, done: nat, rest: string)
    requires done <= |column| && !Plain(column[done..])
    requires p.mode == (if done == 0 then FieldStart else Unquoted) && p.field == column[..done]
    requires |p.row| < 6
    ensures Spoiled(p, Finish(Read(p, column[done..] + (";" + rest))), column)
    decreases |column| - done
  {
    var text := column[done..] + (";" + rest);
    var x := column[done];
    var p1 := Feed(p, x);
    assert text[0] == x && text[1..] == column[done + 1..] + (";" + rest);
    ReadKeeps(p1, text[1..]);
    if x == '"' {
      if done == 0 {
        QuotedNeverItself(p1, column, 0, rest);
      } else {
        BrokenStays(p1, text[1..]);
      }
    } else if x == ';' {
      assert p1.row[|p.row|] == column[..done];
    } else if x == '\n' {
      assert |p1.rows[|p.rows|]| == |p.row| + 1;
    } else {
      assert column[done..] == [x] + column[done + 1..];
      assert p1.field == column[..done + 1];
      SpoiledColumn(p1, column, done + 1, rest);
    }
  }

  lemma {:induction false} ColumnsSplit(a: seq<string>, b: seq<string>)
    ensures Columns(a + b) == Columns(a) + Columns(b)
  {
    if b == [] {
      assert a + b == a;
    } else {
      var b', c := b[..|b| - 1], b[|b| - 1];
      ColumnsSplit(a, b');
      assert (a + b)[..|a + b| - 1] == a + b';
      Assoc(Columns(a), Columns(b'), c + ";");
      assert Columns(b) == Columns(b') + (c + ";");
      assert Columns(a + b) == Columns(a + b') + (c + ";");
    }
  }

  lemma Regroup(a: string, b: string, c: string, d: string)
    ensures ((a + b + ";") + c) + d == a + (b + (";" + (c + d)))
  {
  }

  /** The text of a row around its column `k`. */
  lemma RowTextAt(row: Row, k: nat) returns (rest: string)
    requires k < |row| - 1
    ensures RowText(row) == Columns(row[..k]) + (row[k] + (";" + rest))
  {
    var n := |row| - 1;
    var after := Columns(row[k + 1..n]);
    rest := after + (Quoted(row[n]) + "\n");
    ColumnsSplit(row[..k + 1], row[k + 1..n]);
    assert row[..n] == row[..k + 1] + row[k + 1..n];
    assert row[..k + 1][..k] == row[..k];
    Regroup(Columns(row[..k]), row[k], after, Quoted(row[n]) + "\n");
    assert RowText(row) == Columns(row[..n]) + (Quoted(row[n]) + "\n");
  }

  lemma FirstSpoiled(row: Row, from: nat) returns (k: nat)
    requires |row| == 7 && from <= 6 && !PlainColumns(row)
    requires forall i :: 0 <= i < from ==> Plain(row[i])
    ensures k < 6 && !Plain(row[k]) && forall i :: 0 <= i < k ==> Plain(row[i])
    decreases 6 - from
  {
    if !Plain(row[from]) {
      k := from;
    } else {
      k := FirstSpoiled(row, from + 1);
    }
  }

  lemma TailMoves(a: string, b: string, rest: string, tail: string)
    ensures (a + (b + (";" + rest))) + tail == a + (b + (";" + (rest + tail)))
  {
  }

  /** A row that is not plain is not read back, after whatever rows and before whatever text. */
  lemma SpoiledRow(before: seq<Row>, row: Row, tail: string)
    requires |row| == 7 && !PlainColumns(row)
    ensures var r := Finish(Read(Start(before), RowText(row) + tail));
            r.Some? ==> |r.value| > |before| && r.value[|before|] != row
  {
    var k := FirstSpoiled(row, 0);
    var rest := RowTextAt(row, k);
    var cols := row[..k];
    TailMoves(Columns(cols), row[k], rest, tail);
    ReadConcat(Start(before), Columns(cols), row[k] + (";" + (rest + tail)));
    ReadColumns(before, cols);
    assert row[k][0..] == row[k];
    SpoiledColumn(Reader(FieldStart, before, cols, ""), row[k], 0, rest + tail);
  }

  /**
   * The row of a record reads back to the record's seven fields exactly when the six columns before
   * the message hold no separator, quote or line feed.
   */
  lemma RowReadsBackExactly(row: Row)
    requires |row| == 7
    ensures Parse(RowText(row)) == Some([row]) <==> PlainColumns(row)
  {
    if PlainColumns(row) {
      ReadRow([], row);
      assert [] + [row] == [row];
    } else {
      SpoiledRow([], row, "");
      assert RowText(row) + "" == RowText(row);
    }
  }

  predicate SevenColumns(rows: seq<Row>)
  {
    forall i :: 0 <= i < |rows| ==> |rows[i]| == 7
  }

  lemma {:induction false} RowsTextSplit(a: seq<Row>, b: seq<Row>)
    requires SevenColumns(a) && SevenColumns(b)
    ensures RowsText(a + b) == RowsText(a) + RowsText(b)
  {
    if b == [] {
      assert a + b == a;
    } else {
      var b', row := b[..|b| - 1], b[|b| - 1];
      RowsTextSplit(a, b');
      assert (a + b)[..|a + b| - 1] == a + b';
      Assoc(RowsText(a), RowsText(b'), RowText(row));
    }
  }

  lemma OneRowText(row: Row)
    requires row != []
    ensures RowsText([row]) == RowText(row)
  {
    assert [row][..0] == [] && RowsText([]) == "";
    assert "" + RowText(row) == RowText(row);
  }

  /** The text of rows around the row `k`. */
  lemma RowsTextAt(rows: seq<Row>, k: nat)
    requires SevenColumns(rows) && k < |rows|
    ensures RowsText(rows) == RowsText(rows[..k]) + (RowText(rows[k]) + RowsText(rows[k + 1..]))
  {
    hide RowText, RowsText;
    RowsTextSplit(rows[..k], rows[k..]);
    RowsTextSplit([rows[k]], rows[k + 1..]);
    assert rows[..k] + rows[k..] == rows && [rows[k]] + rows[k + 1..] == rows[k..];
    OneRowText(rows[k]);
  }

  lemma FirstSpoiledRow(rows: seq<Row>, from: nat) returns (k: nat)
    requires from <= |rows| && SevenColumns(rows) && PlainRows(rows[..from])
    requires exists i :: from <= i < |rows| && !PlainColumns(rows[i])
    ensures k < |rows| && !PlainColumns(rows[k]) && PlainRows(rows[..k])
    decreases |rows| - from
  {
    if !PlainColumns(rows[from]) {
      k := from;
    } else {
      assert rows[..from + 1] == rows[..from] + [rows[from]];
      k := FirstSpoiledRow(rows, from + 1);
    }
  }

  /** Reading a headed file up to its row `k`. */
  lemma ReadUpTo(rows: seq<Row>, k: nat)
    requires SevenColumns(rows) && k < |rows| && PlainRows(rows[..k])
    ensures Read(Start([]), HEADER + RowsText(rows))
            == Read(Start([HEADER_ROW] + rows[..k]), RowText(rows[k]) + RowsText(rows[k + 1..]))
  {
    hide RowText, RowsText, PlainColumns, Read;
    var tail := RowText(rows[k]) + RowsText(rows[k + 1..]);
    RowsTextAt(rows, k);
    ReadHeader();
    ReadConcat(Start([]), HEADER, RowsText(rows));
    ReadConcat(Start([HEADER_ROW]), RowsText(rows[..k]), tail);
    ReadRows([HEADER_ROW], rows[..k]);
  }

  lemma MarkedParse(text: string)
    ensures var r := ParseFile(BOM + text);
            r.Some? ==> Parse(text).Some? && Parse(text).value != [] && r.value == Parse(text).value[1..]
  {
    hide Parse;
    assert BOM == MARK;
    assert (BOM + text)[|BOM|..] == text;
  }

  lemma SpoiledFile(rows: seq<Row>, k: nat)
    requires SevenColumns(rows) && k < |rows| && !PlainColumns(rows[k]) && PlainRows(rows[..k])
    ensures ParseFile(FILE_HEADER + RowsText(rows)) != Some(rows)
  {
    hide RowText, RowsText, PlainColumns, PlainRows, Finish, Read, ParseFile, HEADER, BOM;
    var text := HEADER + RowsText(rows);
    Assoc(BOM, HEADER, RowsText(rows));
    MarkedParse(text);
    ReadUpTo(rows, k);
    SpoiledRow([HEADER_ROW] + rows[..k], rows[k], RowsText(rows[k + 1..]));
    assert |[HEADER_ROW] + rows[..k]| == k + 1;
  }

  /**
   * A file of mark, header and any rows of seven columns reads back to these rows exactly when all
   * of them are plain before the message: one bad row spoils the file.
   */
  lemma FileReadsBackExactly(rows: seq<Row>)
    requires SevenColumns(rows)
    ensures ParseFile(FILE_HEADER + RowsText(rows)) == Some(rows) <==> PlainRows(rows)
  {
    if PlainRows(rows) {
      HeadedFileRoundTrip(rows);
    } else {
      var k := FirstSpoiledRow(rows, 0);
      SpoiledFile(rows, k);
    }
  }

  /** For a record: exactly when its printed pointer and its function name are plain. */
  lemma RecordReadsBackExactly(r: Record)
    ensures Parse(RowText(Fields(r))) == Some([Fields(r)]) <==> Plain(r.pointer) && Plain(r.func)
  {
    FieldsValid(r);
    RowReadsBackExactly(Fields(r));
  }

  /** A record of a literal operator, whose name holds quotes, does not read back. */
  lemma QuotedFunctionIsLost(r: Record)
    requires r.func == "operator\"\"_x"
    ensures Parse(RowText(Fields(r))) != Some([Fields(r)])
  {
    RecordReadsBackExactly(r);
    assert r.func[8] == '"';
  }
}
