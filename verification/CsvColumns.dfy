/**
 * What a reader finds under each column name of the log: the fields of the record, read by the
 * format's own rules and not by the functions that print them.
 */
module CsvColumns {
  import opened Text
  import opened CsvFormatter
  import opened CsvReader
  import opened CsvExact
  import opened CsvRecords

  // ---------- cutting a column ----------

  /** The parts of a text between the separators `c`. */
  function Pieces(s: string, c: char): (pieces: seq<string>)
    ensures pieces != []
  {
    if s == "" then [""]
    else
      var before, x := Pieces(s[..|s| - 1], c), s[|s| - 1];
      if x == c then before + [""] else before[..|before| - 1] + [before[|before| - 1] + [x]]
  }

  lemma {:induction false} OnePiece(s: string, c: char)
    requires c !in s
    ensures Pieces(s, c) == [s]
  {
    if s == "" {
    } else {
      OnePiece(s[..|s| - 1], c);
      assert s[..|s| - 1] + [s[|s| - 1]] == s;
    }
  }

  lemma {:induction false} OnePieceMore(a: string, c: char, b: string)
    requires c !in b
    ensures Pieces(a + [c] + b, c) == Pieces(a, c) + [b]
    decreases |b|
  {
    var s := a + [c] + b;
    if b == "" {
      assert s[..|s| - 1] == a;
    } else {
      var b' := b[..|b| - 1];
      OnePieceMore(a, c, b');
      assert s[..|s| - 1] == a + [c] + b';
      var before := Pieces(a, c) + [b'];
      assert before[..|before| - 1] == Pieces(a, c);
      assert b' + [b[|b| - 1]] == b;
    }
  }

  lemma ThreePieces(a: string, b: string, d: string, c: char)
    requires c !in a && c !in b && c !in d
    ensures Pieces(a + [c] + b + [c] + d, c) == [a, b, d]
  {
    OnePiece(a, c);
    OnePieceMore(a, c, b);
    OnePieceMore(a + [c] + b, c, d);
  }

  lemma TwoPieces(a: string, b: string, c: char)
    requires c !in a && c !in b
    ensures Pieces(a + [c] + b, c) == [a, b]
  {
    OnePiece(a, c);
    OnePieceMore(a, c, b);
  }

  // ---------- reading a column ----------

  predicate PrintsSigned(s: string, n: int)
  {
    if n < 0 then s != "" && s[0] == '-' && Prints(s[1..], 1, -n) else Prints(s, 1, n)
  }

  /** Year, month and day, in this order, between slashes; the last two with at least two digits. */
  predicate IsDate(s: string, year: int, month: nat, day: nat)
  {
    var parts := Pieces(s, '/');
    |parts| == 3 && PrintsSigned(parts[0], year) && Prints(parts[1], 2, month) && Prints(parts[2], 2, day)
  }

  /** Hour, minute and second between colons, and the milliseconds, of three digits, after a dot. */
  predicate IsClock(s: string, hour: nat, minute: nat, second: nat, millis: nat)
  {
    var parts := Pieces(s, ':');
    && |parts| == 3 && Prints(parts[0], 2, hour) && Prints(parts[1], 2, minute)
    && var fraction := Pieces(parts[2], '.');
       |fraction| == 2 && Prints(fraction[0], 2, second) && Prints(fraction[1], 3, millis)
  }

  /** The names of the severities, in their order. */
  const NAMES: seq<string> := ["NONE", "FATAL", "ERROR", "WARN", "INFO", "DEBUG", "VERB"]

  /** A function name, the last '@', and a line number. */
  predicate IsPlace(s: string, func: string, line: nat)
  {
    exists k :: 0 <= k < |s| && s[k] == '@' && '@' !in s[k + 1..] && s[..k] == func && Prints(s[k + 1..], 1, line)
  }

  lemma PaddedPrints(width: nat, n: nat)
    requires width > 0
    ensures Prints(Padded(width, n), width, n)
  {
    ValueOfPadded(width, n);
    DecimalPrints(n);
    hide Value, Decimal;
  }

  lemma SignedPrints(n: int)
    ensures PrintsSigned(Signed(n), n)
  {
    hide Prints, Decimal;
    DecimalPrints(if n < 0 then -n else n);
    if n < 0 {
      assert Signed(n)[1..] == Decimal(-n);
    }
  }

  lemma DateIsDate(t: Time)
    ensures IsDate(Date(t), t.year + 1900, t.month + 1, t.day)
  {
    hide Prints, PrintsSigned, Signed, Padded, Pieces;
    var y, m, d := Signed(t.year + 1900), Padded(2, t.month + 1), Padded(2, t.day);
    assert Date(t) == y + ['/'] + m + ['/'] + d;
    ThreePieces(y, m, d, '/');
    SignedPrints(t.year + 1900);
    PaddedPrints(2, t.month + 1);
    PaddedPrints(2, t.day);
  }

  lemma ClockIsClock(t: Time)
    ensures IsClock(Clock(t), t.hour, t.minute, t.second, t.millis)
  {
    hide Prints, Padded, Pieces;
    var h, m, s, f := Padded(2, t.hour), Padded(2, t.minute), Padded(2, t.second), Padded(3, t.millis);
    assert Clock(t) == h + [':'] + m + [':'] + (s + ['.'] + f);
    ThreePieces(h, m, s + ['.'] + f, ':');
    TwoPieces(s, f, '.');
    PaddedPrints(2, t.hour);
    PaddedPrints(2, t.minute);
    PaddedPrints(2, t.second);
    PaddedPrints(3, t.millis);
  }

  lemma FunctionIsPlace(func: string, line: nat)
    ensures IsPlace(func + "@" + Decimal(line), func, line)
  {
    hide Prints, Decimal;
    DecimalPrints(line);
    var s := func + "@" + Decimal(line);
    assert s[|func|] == '@' && s[|func| + 1..] == Decimal(line) && s[..|func|] == func;
  }

  lemma SeverityNamed(j: nat)
    requires j < |SEVERITIES|
    ensures |NAMES| == |SEVERITIES| && SEVERITIES[j].Text() == NAMES[j]
  {
  }

  // ---------- the columns by their names ----------

  /** The place of a name in the header, from `from` on; 0 if it is not there. */
  function IndexOf(name: string, from: nat): (i: nat)
    requires from <= 7
    ensures i < 7
    decreases 7 - from
  {
    if from == 7 then 0 else if HEADER_ROW[from] == name then from else IndexOf(name, from + 1)
  }

  /** What stands in a row under a name of the header. */
  function Under(row: Row, name: string): string
    requires |row| == 7
  {
    row[IndexOf(name, 0)]
  }

  lemma Places()
    ensures IndexOf("Date", 0) == 0 && IndexOf("Time", 0) == 1 && IndexOf("Severity", 0) == 2
    ensures IndexOf("TID", 0) == 3 && IndexOf("This", 0) == 4 && IndexOf("Function", 0) == 5
    ensures IndexOf("Message", 0) == 6
  {
  }

  lemma SeverityHasPlace(s: Severity)
    ensures s in SEVERITIES
  {
    assert SEVERITIES[0] == NoSeverity && SEVERITIES[1] == Fatal && SEVERITIES[2] == Error && SEVERITIES[3] == Warning;
    assert SEVERITIES[4] == Info && SEVERITIES[5] == Debug && SEVERITIES[6] == Verbose;
  }

  /**
   * Whatever the record, the row the formatter writes for it is read as one row, and under each name
   * of the header stands the field of that name: the date, the time, the name of the severity, the
   * thread id, the object's address, the function and the line, and the message as far as it is kept.
   */
  lemma ColumnsTellRecord(r: Record)
    requires ValidRecord(r)
    ensures var rows := Parse(RowText(Fields(r)));
            && rows.Some? && |rows.value| == 1 && |rows.value[0]| == 7
            && var row := rows.value[0];
               && IsDate(Under(row, "Date"), r.time.year + 1900, r.time.month + 1, r.time.day)
               && IsClock(Under(row, "Time"), r.time.hour, r.time.minute, r.time.second, r.time.millis)
               && Prints(Under(row, "TID"), 1, r.tid)
               && Under(row, "This") == r.pointer
               && IsPlace(Under(row, "Function"), r.func, r.line)
               && Under(row, "Message") == (if |r.message| <= 32000 then r.message else r.message[..32000] + "...")
    ensures var row := Parse(RowText(Fields(r))).value[0];
            && r.severity in SEVERITIES && |NAMES| == |SEVERITIES|
            && forall j :: 0 <= j < |SEVERITIES| && r.severity == SEVERITIES[j] ==> Under(row, "Severity") == NAMES[j]
  {
    hide Prints, Date, Clock, Decimal, IsDate, IsClock, IsPlace, IndexOf, RowText, Parse;
    RecordReadsBackExactly(r);
    Places();
    DateIsDate(r.time);
    ClockIsClock(r.time);
    SeverityHasPlace(r.severity);
    forall j | 0 <= j < |SEVERITIES| ensures |NAMES| == |SEVERITIES| && SEVERITIES[j].Text() == NAMES[j] {
      SeverityNamed(j);
    }
    DecimalPrints(r.tid);
    FunctionIsPlace(r.func, r.line);
  }
}
