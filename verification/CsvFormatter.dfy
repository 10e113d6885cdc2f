/** The CSV formatter of the log (CsvFormatter.h): its columns, its truncation and its quoting loop. */
module CsvFormatter {
  import opened Text

  datatype Severity = NoSeverity | Fatal | Error | Warning | Info | Debug | Verbose {
    function Rank(): int
    {
      match this
      case NoSeverity => 0
      case Fatal => 1
      case Error => 2
      case Warning => 3
      case Info => 4
      case Debug => 5
      case Verbose => 6
    }

    function Text(): string
    {
      match this
      case NoSeverity => "NONE"
      case Fatal => "FATAL"
      case Error => "ERROR"
      case Warning => "WARN"
      case Info => "INFO"
      case Debug => "DEBUG"
      case Verbose => "VERB"
    }
  }

  /** The severities in their order, from the gravest on; no severity stands before all. */
  const SEVERITIES: seq<Severity> := [NoSeverity, Fatal, Error, Warning, Info, Debug, Verbose]

  /** Broken-down local time; `year` counts from 1900 and `month` from 0, as in struct tm. */
  datatype Time = Time(year: int, month: nat, day: nat, hour: nat, minute: nat, second: nat, millis: nat)

  /** A log record. `pointer` is the printed address of the object and `func` the function name. */
  datatype Record = Record(severity: Severity, time: Time, tid: nat, pointer: string,
                           func: string, line: nat, message: string)

  /** One row as a reader sees it: six columns and the message. */
  type Row = seq<string>

  const MAX_MESSAGE_SIZE: nat := 32000

  const HEADER: string := "Date;Time;Severity;TID;This;Function;Message\n"

  function Date(t: Time): (s: string)
    ensures s != "" && forall i :: 0 <= i < |s| ==> '-' <= s[i] <= '9'
  {
    Signed(t.year + 1900) + "/" + Padded(2, t.month + 1) + "/" + Padded(2, t.day)
  }

  function Clock(t: Time): (s: string)
    ensures forall i :: 0 <= i < |s| ==> '.' <= s[i] <= ':'
  {
    Padded(2, t.hour) + ":" + Padded(2, t.minute) + ":" + Padded(2, t.second) + "." + Padded(3, t.millis)
  }

  /** The message, cut to its first 32000 characters and marked when it is longer. */
  function Truncated(message: string): (m: string)
    ensures |message| <= MAX_MESSAGE_SIZE ==> m == message
    ensures |message| > MAX_MESSAGE_SIZE ==> |m| == MAX_MESSAGE_SIZE + 3
    ensures |m| <= MAX_MESSAGE_SIZE + 3
  {
    if |message| > MAX_MESSAGE_SIZE then message[..MAX_MESSAGE_SIZE] + "..." else message
  }

  /** The row a record stands for. */
  function Fields(r: Record): (row: Row)
    ensures |row| == 7
  {
    [Date(r.time), Clock(r.time), r.severity.Text(), Decimal(r.tid), r.pointer,
     r.func + "@" + Decimal(r.line), Truncated(r.message)]
  }

  // ---------- the written form of a row ----------

  function EscapedChar(c: char): string
  {
    if c == '"' then "\"\"" else [c]
  }

  /** Every quote doubled. */
  function Escaped(s: string): string
  {
    if s == "" then "" else EscapedChar(s[0]) + Escaped(s[1..])
  }

  function Quoted(s: string): string
  {
    "\"" + Escaped(s) + "\""
  }

  /** Columns, each followed by a separator. */
  function Columns(cols: seq<string>): string
  {
    if cols == [] then "" else Columns(cols[..|cols| - 1]) + cols[|cols| - 1] + ";"
  }

  function RowText(row: Row): string
    requires row != []
  {
    Columns(row[..|row| - 1]) + Quoted(row[|row| - 1]) + "\n"
  }

  function RowsText(rows: seq<Row>): string
    requires forall i :: 0 <= i < |rows| ==> rows[i] != []
  {
    if rows == [] then "" else RowsText(rows[..|rows| - 1]) + RowText(rows[|rows| - 1])
  }

  function Count(s: string, c: char): nat
  {
    if s == "" then 0 else (if s[0] == c then 1 else 0) + Count(s[1..], c)
  }

  lemma {:induction false} EscapedLength(s: string)
    ensures |Escaped(s)| == |s| + Count(s, '"')
    ensures Count(s, '"') <= |s|
  {
    if s == "" {
    } else {
      EscapedLength(s[1..]);
    }
  }

  /** The quoted message never takes more than 2 * 32003 + 2 characters. */
  lemma QuotedMessageBound(message: string)
    ensures |Quoted(Truncated(message))| == |Truncated(message)| + Count(Truncated(message), '"') + 2
    ensures |Quoted(Truncated(message))| <= 2 * (MAX_MESSAGE_SIZE + 3) + 2
  {
    EscapedLength(Truncated(message));
  }

  lemma {:induction false} EscapedConcat(a: string, b: string)
    ensures Escaped(a + b) == Escaped(a) + Escaped(b)
  {
    if a == "" {
      assert a + b == b;
    } else {
      var a', e := a[1..], EscapedChar(a[0]);
      assert (a + b)[1..] == a' + b;
      EscapedConcat(a', b);
      assert e + Escaped(a' + b) == (e + Escaped(a')) + Escaped(b);
    }
  }

  lemma {:induction false} EscapedWithoutQuote(s: string)
    requires '"' !in s
    ensures Escaped(s) == s
  {
    if s == "" {
    } else {
      EscapedWithoutQuote(s[1..]);
      assert s == [s[0]] + s[1..];
    }
  }

  // ---------- the stream the formatter splits the message with ----------

  /** A string stream opened for reading. */
  class StringStream {
    const text: string
    var pos: nat
    var atEnd: bool // eofbit

    ghost predicate Valid()
      reads this
    {
      pos <= |text|
    }

    ghost function Rest(): string
      reads this
      requires Valid()
    {
      text[pos..]
    }

    constructor (text: string)
      ensures Valid() && Rest() == text && !atEnd
    {
      this.text := text;
      this.pos := 0;
      this.atEnd := false;
    }

    /** std::getline with a delimiter, called on a good stream. */
    method GetLine(delim: char) returns (token: string)
      requires Valid() && !atEnd
      modifies this
      ensures Valid()
      ensures delim !in token
      ensures old(Rest()) == if atEnd then token else token + ([delim] + Rest())
    {
      token := "";
      while pos < |text| && text[pos] != delim
        invariant Valid() && !atEnd && old(pos) <= pos
        invariant token == text[old(pos)..pos]
        invariant delim !in token
      {
        token := token + [text[pos]];
        pos := pos + 1;
      }
      if pos == |text| {
        atEnd := true;
      } else {
        pos := pos + 1;
      }
    }
  }

  lemma Regroup(q: string, t: string, e: string)
    ensures q + (t + (q + q + e)) + q == (q + t + q) + (q + e + q)
  {
  }

  lemma EscapedAtQuote(t: string, rest: string)
    requires '"' !in t
    ensures Escaped(t + ("\"" + rest)) == t + ("\"" + "\"" + Escaped(rest))
  {
    EscapedConcat(t, "\"" + rest);
    EscapedWithoutQuote(t);
    assert ("\"" + rest)[1..] == rest;
    assert "\"\"" == "\"" + "\"";
  }

  /** One pass of the loop: the token goes out in quotes, the rest is still to come. */
  lemma QuotedSplit(t: string, rest: string)
    requires '"' !in t
    ensures Quoted(t + ("\"" + rest)) == ("\"" + t + "\"") + Quoted(rest)
  {
    EscapedAtQuote(t, rest);
    Regroup("\"", t, Escaped(rest));
  }

  /** Sends one more column and its separator to the stream. */
  method PutColumn(ss: string, column: string, ghost cols: seq<string>) returns (out: string)
    requires ss == Columns(cols)
    ensures out == Columns(cols + [column])
  {
    assert (cols + [column])[..|cols|] == cols;
    out := ss + column + ";";
  }

  /** The six columns before the message. */
  method FormatColumns(r: Record) returns (ss: string)
    ensures ss == Columns(Fields(r)[..6])
  {
    ghost var cols: seq<string> := [];
    ss := PutColumn("", Date(r.time), cols);
    cols := cols + [Date(r.time)];
    ss := PutColumn(ss, Clock(r.time), cols);
    cols := cols + [Clock(r.time)];
    ss := PutColumn(ss, r.severity.Text(), cols);
    cols := cols + [r.severity.Text()];
    ss := PutColumn(ss, Decimal(r.tid), cols);
    cols := cols + [Decimal(r.tid)];
    ss := PutColumn(ss, r.pointer, cols);
    cols := cols + [r.pointer];
    ss := PutColumn(ss, r.func + "@" + Decimal(r.line), cols);
    assert Fields(r)[..6] == cols + [r.func + "@" + Decimal(r.line)];
  }

  /** The token goes to the stream in quotes. */
  method PutToken(ss: string, token: string, ghost rest: string) returns (out: string)
    requires '"' !in token
    ensures out + Quoted(rest) == ss + Quoted(token + ("\"" + rest))
    ensures out == ss + Quoted(token)
  {
    EscapedWithoutQuote(token);
    QuotedSplit(token, rest);
    out := ss + ("\"" + token + "\"");
    Assoc(ss, "\"" + token + "\"", Quoted(rest));
  }

  /** The message, quoted token by token. */
  method FormatMessage(text: string) returns (quoted: string)
    ensures quoted == Quoted(Truncated(text))
  {
    var message := text;
    if |message| > MAX_MESSAGE_SIZE {
      message := message[..MAX_MESSAGE_SIZE];
      message := message + "...";
    }
    quoted := "";
    ghost var target := Quoted(Truncated(text));
    var split := new StringStream(message);
    assert quoted + Quoted(split.Rest()) == target;
    while !split.atEnd
      invariant split.Valid()
      invariant target == if split.atEnd then quoted else quoted + Quoted(split.Rest())
      decreases !split.atEnd, |split.Rest()|
    {
      var token := split.GetLine('"');
      quoted := PutToken(quoted, token, split.Rest());
    }
  }

  /** `CsvFormatter::format`: the row written is the written form of the record's fields. */
  method Format(r: Record) returns (row: string)
    ensures row == RowText(Fields(r))
  {
    var columns := FormatColumns(r);
    var message := FormatMessage(r.message);
    row := columns + message + "\n";
  }
}
