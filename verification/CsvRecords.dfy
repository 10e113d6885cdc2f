/** A row determines its record: everything but the part of the message that was cut off. */
module CsvRecords {
  import opened Text
  import opened CsvFormatter
  import opened CsvReader
  import opened CsvExact

  /** What a reader learns of a record. */
  function Shown(r: Record): Record
  {
    r.(message := if |r.message| <= 32000 then r.message else r.message[..32000] + "...")
  }

  /** A text splits in one way only at its last separator. */
  lemma SplitAtLast(a: string, b: string, c: string, d: string, sep: char)
    requires a + [sep] + b == c + [sep] + d
    requires sep !in b && sep !in d
    ensures a == c && b == d
  {
    var s := a + [sep] + b;
    assert s[|a|] == sep && s[|c|] == sep;
    assert s[..|a|] == a && s[..|c|] == c;
    assert s[|a| + 1..] == b && s[|c| + 1..] == d;
  }

  lemma {:induction false} ValueOfZeros(n: nat, d: string)
    ensures Value(seq(n, _ => '0') + d) == Value(d)
    decreases n + |d|
  {
    var z := seq(n, _ => '0');
    var s := z + d;
    if d != "" {
      var d' := d[..|d| - 1];
      assert s[..|s| - 1] == z + d';
      ValueOfZeros(n, d');
    } else if n > 0 {
      assert s[..|s| - 1] == seq(n - 1, _ => '0') + "";
      ValueOfZeros(n - 1, "");
      assert Value("") == 0;
    } else {
      assert s == "";
    }
  }

  lemma ValueOfPadded(width: nat, n: nat)
    ensures Value(Padded(width, n)) == n
  {
    ValueOfDecimal(n);
    if |Decimal(n)| < width {
      ValueOfZeros(width - |Decimal(n)|, Decimal(n));
    }
  }

  lemma PaddedInjective(width: nat, m: nat, n: nat)
    ensures Padded(width, m) == Padded(width, n) <==> m == n
  {
    ValueOfPadded(width, m);
    ValueOfPadded(width, n);
  }

  lemma SignedInjective(m: int, n: int)
    ensures Signed(m) == Signed(n) <==> m == n
  {
    hide Decimal;
    if m < 0 && n < 0 {
      assert Signed(m)[1..] == Decimal(-m) && Signed(n)[1..] == Decimal(-n);
      DecimalInjective(-m, -n);
    } else if m >= 0 && n >= 0 {
      DecimalInjective(m, n);
    } else {
      assert (Signed(m)[0] == '-') != (Signed(n)[0] == '-');
    }
  }

  lemma SeverityInjective(s: Severity, t: Severity)
    ensures s.Text() == t.Text() <==> s == t
  {
    assert s.Text()[0] == t.Text()[0] ==> s == t;
  }

  lemma SplitInThree(a: string, b: string, c: string, x: string, y: string, z: string)
    requires a + "/" + b + "/" + c == x + "/" + y + "/" + z
    requires '/' !in b && '/' !in c && '/' !in y && '/' !in z
    ensures a == x && b == y && c == z
  {
    SplitAtLast(a + "/" + b, c, x + "/" + y, z, '/');
    SplitAtLast(a, b, x, y, '/');
  }

  lemma DateInjective(t: Time, u: Time)
    requires Date(t) == Date(u)
    ensures t.year == u.year && t.month == u.month && t.day == u.day
  {
    hide Signed, Padded, Decimal;
    var a, b, c := Signed(t.year + 1900), Padded(2, t.month + 1), Padded(2, t.day);
    var x, y, z := Signed(u.year + 1900), Padded(2, u.month + 1), Padded(2, u.day);
    assert Date(t) == a + "/" + b + "/" + c && Date(u) == x + "/" + y + "/" + z;
    SplitInThree(a, b, c, x, y, z);
    SignedInjective(t.year + 1900, u.year + 1900);
    PaddedInjective(2, t.month + 1, u.month + 1);
    PaddedInjective(2, t.day, u.day);
  }

  lemma ClockInjective(t: Time, u: Time)
    requires Clock(t) == Clock(u)
    ensures t.hour == u.hour && t.minute == u.minute && t.second == u.second && t.millis == u.millis
  {
    hide Padded, Decimal;
    var a, b, c, d := Padded(2, t.hour), Padded(2, t.minute), Padded(2, t.second), Padded(3, t.millis);
    var w, x, y, z := Padded(2, u.hour), Padded(2, u.minute), Padded(2, u.second), Padded(3, u.millis);
    assert Clock(t) == (a + ":" + b + ":" + c) + ['.'] + d && Clock(u) == (w + ":" + x + ":" + y) + ['.'] + z;
    SplitAtLast(a + ":" + b + ":" + c, d, w + ":" + x + ":" + y, z, '.');
    SplitAtLast(a + ":" + b, c, w + ":" + x, y, ':');
    SplitAtLast(a, b, w, x, ':');
    PaddedInjective(2, t.hour, u.hour);
    PaddedInjective(2, t.minute, u.minute);
    PaddedInjective(2, t.second, u.second);
    PaddedInjective(3, t.millis, u.millis);
  }

  lemma FunctionInjective(f: string, m: nat, g: string, n: nat)
    requires f + "@" + Decimal(m) == g + "@" + Decimal(n)
    ensures f == g && m == n
  {
    SplitAtLast(f, Decimal(m), g, Decimal(n), '@');
    DecimalInjective(m, n);
  }

  /** Two records have the same row exactly when a reader is shown the same record. */
  lemma FieldsDetermineRecord(r: Record, q: Record)
    ensures Fields(r) == Fields(q) <==> Shown(r) == Shown(q)
  {
    var f, g := Fields(r), Fields(q);
    if f == g {
      assert f[0] == g[0] && f[1] == g[1] && f[2] == g[2] && f[3] == g[3] && f[4] == g[4] && f[5] == g[5] && f[6] == g[6];
      DateInjective(r.time, q.time);
      ClockInjective(r.time, q.time);
      SeverityInjective(r.severity, q.severity);
      DecimalInjective(r.tid, q.tid);
      FunctionInjective(r.func, r.line, q.func, q.line);
    }
  }

  /**
   * Written and read back, different records stay different: one written row is read as one row,
   * and no other record (as shown to a reader) has it.
   */
  lemma WrittenRowsDetermineRecords(r: Record, q: Record)
    requires ValidRecord(r) && ValidRecord(q)
    ensures Parse(RowText(Fields(r))) == Some([Fields(r)]) && Fields(r)[6] == Shown(r).message
    ensures Parse(RowText(Fields(r))) == Parse(RowText(Fields(q))) <==> Shown(r) == Shown(q)
  {
    RecordReadsBackExactly(r);
    RecordReadsBackExactly(q);
    FieldsDetermineRecord(r, q);
    assert [Fields(r)] == [Fields(q)] ==> [Fields(r)][0] == [Fields(q)][0];
  }
}
