/**
 * The line-ending converter that can stand before the UTF-8 converter (NativeEOLConverter.h). This
 * is its form on Windows; elsewhere it changes nothing.
 */
module EolConverter {
  import opened Text
  import opened CsvFormatter
  import opened Utf8Converter
  import opened CsvReader

  /** A carriage return before every line feed. */
  function Fixed(s: string): string
  {
    if s == "" then ""
    else Fixed(s[..|s| - 1]) + FixedChar(s[|s| - 1])
  }

  function FixedChar(c: char): string
  {
    if c == '\n' then "\r\n" else [c]
  }

  /** `fixLineEndings`: pushes the characters one by one. */
  method FixLineEndings(s: string) returns (output: string)
    ensures output == Fixed(s)
  {
    output := "";
    for i := 0 to |s|
      invariant output == Fixed(s[..i])
    {
      assert s[..i + 1][..i] == s[..i];
      var ch := s[i];
      ghost var before := output;
      if ch == '\n' {
        output := output + ['\r'];
      }
      output := output + [ch];
      assert output == before + FixedChar(ch);
    }
    assert s[..|s|] == s;
  }

  /** Converts header and rows as the derived converter does, with UTF-8 as identity. */
  function ConvertHeader(s: string): string
  {
    BOM + Fixed(s)
  }

  /** Reads a converted text back: one carriage return before each line feed goes away. */
  function Undone(s: string): string
  {
    if s == "" then ""
    else if |s| >= 2 && s[|s| - 1] == '\n' && s[|s| - 2] == '\r' then Undone(s[..|s| - 2]) + "\n"
    else Undone(s[..|s| - 1]) + [s[|s| - 1]]
  }

  lemma {:induction false} FixedConcat(a: string, b: string)
    ensures Fixed(a + b) == Fixed(a) + Fixed(b)
  {
    if b == "" {
      assert a + b == a;
    } else {
      var b' := b[..|b| - 1];
      FixedConcat(a, b');
      assert (a + b)[..|a + b| - 1] == a + b';
      Assoc(Fixed(a), Fixed(b'), FixedChar(b[|b| - 1]));
    }
  }

  lemma {:induction false} CountLast(s: string, x: char, c: char)
    ensures Count(s + [x], c) == Count(s, c) + if x == c then 1 else 0
  {
    if s == "" {
      assert ([x])[1..] == "";
      assert s + [x] == [x];
    } else {
      CountLast(s[1..], x, c);
      assert (s + [x])[1..] == s[1..] + [x];
    }
  }

  lemma {:induction false} CountBound(s: string)
    ensures Count(s, '\n') <= |s|
  {
    if s == "" {
    } else {
      CountBound(s[1..]);
    }
  }

  lemma {:induction false} FixedLength(s: string)
    ensures |Fixed(s)| == |s| + Count(s, '\n')
    ensures |Fixed(s)| <= 2 * |s|
  {
    if s == "" {
    } else {
      var s' := s[..|s| - 1];
      FixedLength(s');
      CountLast(s', s[|s| - 1], '\n');
      assert s' + [s[|s| - 1]] == s;
      CountBound(s');
    }
  }

  lemma UndoneStep(t: string, c: char)
    ensures Undone(t + FixedChar(c)) == Undone(t) + [c]
  {
    var s := t + FixedChar(c);
    if c == '\n' {
      assert s[..|s| - 2] == t;
    } else {
      assert s[..|s| - 1] == t;
    }
  }

  lemma UndoneNothing()
    ensures Undone(Fixed("")) == ""
  {
  }

  /** Converting loses nothing, also when the text already holds carriage returns. */
  lemma {:induction false} UndoneFixed(s: string)
    ensures Undone(Fixed(s)) == s
  {
    hide Undone;
    if s == "" {
      UndoneNothing();
    } else {
      UndoneFixed(s[..|s| - 1]);
      UndoneStep(Fixed(s[..|s| - 1]), s[|s| - 1]);
    }
  }

  /** The rows as the appender writes them: each one converted on its own. */
  function ConvertRows(rows: seq<Row>): string
    requires forall i :: 0 <= i < |rows| ==> rows[i] != []
  {
    if rows == [] then "" else ConvertRows(rows[..|rows| - 1]) + Fixed(RowText(rows[|rows| - 1]))
  }

  lemma {:induction false} ConvertRowsIsFixed(rows: seq<Row>)
    requires forall i :: 0 <= i < |rows| ==> rows[i] != []
    ensures ConvertRows(rows) == Fixed(RowsText(rows))
  {
    if rows == [] {
    } else {
      var rows' := rows[..|rows| - 1];
      ConvertRowsIsFixed(rows');
      FixedConcat(RowsText(rows'), RowText(rows[|rows| - 1]));
    }
  }

  lemma {:induction false} FixedWithoutBreak(s: string)
    requires '\n' !in s
    ensures Fixed(s) == s
  {
    if s == "" {
    } else {
      FixedWithoutBreak(s[..|s| - 1]);
    }
  }

  lemma MarkUntouched()
    ensures Fixed(BOM) == BOM
  {
    FixedWithoutBreak(BOM);
  }

  /** Every file written row by row through this converter is converted as a whole, and reads back. */
  lemma ConvertedFileRoundTrip(rows: seq<Row>)
    requires PlainRows(rows)
    ensures ConvertHeader(HEADER) + ConvertRows(rows) == Fixed(FILE_HEADER + RowsText(rows))
    ensures ParseFile(Undone(ConvertHeader(HEADER) + ConvertRows(rows))) == Some(rows)
  {
    ConvertRowsIsFixed(rows);
    FixedConcat(HEADER, RowsText(rows));
    MarkUntouched();
    FixedConcat(BOM, HEADER + RowsText(rows));
    Assoc(BOM, Fixed(HEADER), Fixed(RowsText(rows)));
    Assoc(BOM, HEADER, RowsText(rows));
    UndoneFixed(FILE_HEADER + RowsText(rows));
    HeadedFileRoundTrip(rows);
  }
}
