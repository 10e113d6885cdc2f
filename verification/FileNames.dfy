/** How the rolling appender names the files of its family (Util.h, RollingFileAppender.h, Init.h). */
module FileNames {
  import opened Text

  /** Position of the last dot, as strrchr finds it. */
  function FindExtensionDot(name: string): (dot: Option<nat>)
    ensures dot.Some? ==> dot.value < |name| && name[dot.value] == '.' && '.' !in name[dot.value + 1..]
    ensures dot.None? ==> '.' !in name
  {
    if name == "" then None
    else if name[|name| - 1] == '.' then Some(|name| - 1)
    else
      assert name == name[..|name| - 1] + [name[|name| - 1]];
      var dot := FindExtensionDot(name[..|name| - 1]);
      assert dot.Some? ==> name[dot.value + 1..] == name[..|name| - 1][dot.value + 1..] + [name[|name| - 1]];
      dot
  }

  /** Name without extension, and extension without its dot. */
  function SplitFileName(name: string): (parts: (string, string))
    ensures '.' !in parts.1
    ensures '.' in name ==> name == parts.0 + "." + parts.1
    ensures '.' !in name ==> parts == (name, "")
  {
    match FindExtensionDot(name)
    case Some(dot) => (name[..dot], name[dot + 1..])
    case None => (name, "")
  }

  function BuildFileName(noExt: string, ext: string, fileNumber: int): string
  {
    noExt
    + (if fileNumber > 0 then "." + Decimal(fileNumber) else "")
    + (if ext != "" then "." + ext else "")
  }

  predicate IsCsv(name: string)
  {
    var dot := FindExtensionDot(name);
    dot.Some? && name[dot.value..] == ".csv"
  }

  /** Different numbers give different files, whatever the name and the extension. */
  lemma NumberedNamesDistinct(noExt: string, ext: string, i: nat, j: nat)
    ensures BuildFileName(noExt, ext, i) == BuildFileName(noExt, ext, j) <==> i == j
  {
    var a, b := BuildFileName(noExt, ext, i), BuildFileName(noExt, ext, j);
    if a == b {
      var tail := if ext != "" then "." + ext else "";
      var x := if i > 0 then "." + Decimal(i) else "";
      var y := if j > 0 then "." + Decimal(j) else "";
      assert a[|noExt|..|a| - |tail|] == x;
      assert b[|noExt|..|b| - |tail|] == y;
      if i > 0 && j > 0 {
        assert x[1..] == Decimal(i) && y[1..] == Decimal(j);
        DecimalInjective(i, j);
      }
    }
  }

  lemma LastDotIs(name: string, head: string, tail: string)
    requires name == head + "." + tail && '.' !in tail
    ensures FindExtensionDot(name) == Some(|head|)
  {
    assert name[|head|] == '.';
    assert name[|head| + 1..] == tail;
  }

  lemma SplitAtDot(head: string, tail: string)
    requires '.' !in tail
    ensures SplitFileName(head + "." + tail) == (head, tail)
  {
    var name := head + "." + tail;
    LastDotIs(name, head, tail);
    assert name[..|head|] == head && name[|head| + 1..] == tail;
  }

  /** A file name read back: what stands before its number, the number's digits, and the extension. */
  function ReadName(name: string, hasExtension: bool): (string, string, string)
  {
    var (front, ext) := if hasExtension then SplitFileName(name) else (name, "");
    var (base, digits) := SplitFileName(front);
    (base, digits, ext)
  }

  /**
   * The name of every file, for every name and extension: file 0 has no number; any other has its
   * number, after a dot, in front of the extension or, without one, at the end.
   */
  lemma NumberReadsBack(noExt: string, ext: string, fileNumber: nat)
    requires '.' !in ext
    ensures var name := BuildFileName(noExt, ext, fileNumber);
            if fileNumber == 0 then name == if ext == "" then noExt else noExt + "." + ext
            else
              var (base, digits, extension) := ReadName(name, ext != "");
              base == noExt && extension == ext && Prints(digits, 1, fileNumber)
  {
    var digits := Decimal(fileNumber);
    DecimalPrints(fileNumber);
    if fileNumber == 0 {
      assert ext == "" ==> BuildFileName(noExt, ext, 0) == noExt;
    } else if ext == "" {
      assert BuildFileName(noExt, ext, fileNumber) == noExt + "." + digits;
      SplitAtDot(noExt, digits);
    } else {
      assert BuildFileName(noExt, ext, fileNumber) == (noExt + "." + digits) + "." + ext;
      SplitAtDot(noExt + "." + digits, ext);
      SplitAtDot(noExt, digits);
    }
  }

  predicate EndsInDot(name: string)
  {
    name != "" && name[|name| - 1] == '.'
  }

  /** File 0 is the file the user named, except that one trailing dot gets lost. */
  lemma SplitThenBuild(name: string)
    ensures var (noExt, ext) := SplitFileName(name);
            BuildFileName(noExt, ext, 0) == name <==> !EndsInDot(name)
  {
    var (noExt, ext) := SplitFileName(name);
    if '.' in name {
      assert name == noExt + "." + ext;
      if ext == "" {
        assert name[|name| - 1] == '.';
      } else {
        assert name[|name| - 1] == ext[|ext| - 1];
      }
    }
  }

  lemma CsvOfParts(name: string, head: string, tail: string)
    requires name == head + "." + tail && '.' !in tail
    ensures IsCsv(name) <==> tail == "csv"
  {
    LastDotIs(name, head, tail);
    assert name[|head|..] == "." + tail;
    assert name[|head|..][1..] == tail;
  }

  /** Files whose name ends in ".csv.": told apart from CSV by `IsCsv`, but file 0 is written as ".csv". */
  predicate LosesDotBeforeCsv(name: string)
  {
    |name| >= 5 && name[|name| - 5..] == ".csv."
  }

  lemma FormatWithExtension(name: string, noExt: string, ext: string, fileNumber: nat)
    requires name == noExt + "." + ext && '.' !in ext && ext != ""
    ensures IsCsv(BuildFileName(noExt, ext, fileNumber)) <==> IsCsv(name)
    ensures !LosesDotBeforeCsv(name)
  {
    var mid := if fileNumber > 0 then "." + Decimal(fileNumber) else "";
    CsvOfParts(name, noExt, ext);
    CsvOfParts(BuildFileName(noExt, ext, fileNumber), noExt + mid, ext);
    assert name[|name| - 1] == ext[|ext| - 1];
    if |name| >= 5 {
      assert name[|name| - 5..][4] == ext[|ext| - 1];
    }
  }

  lemma NumberIsNoCsv(noExt: string, fileNumber: nat)
    requires fileNumber > 0
    ensures !IsCsv(BuildFileName(noExt, "", fileNumber))
  {
    var d := Decimal(fileNumber);
    assert BuildFileName(noExt, "", fileNumber) == noExt + "." + d;
    CsvOfParts(BuildFileName(noExt, "", fileNumber), noExt, d);
    assert "csv"[0] == 'c';
  }

  lemma CsvSuffix(name: string)
    ensures IsCsv(name) <==> |name| >= 4 && name[|name| - 4..] == ".csv"
  {
    if |name| >= 4 && name[|name| - 4..] == ".csv" {
      var tail := ".csv"[1..];
      assert name == name[..|name| - 4] + ".csv";
      assert ".csv" == "." + "csv";
      assert name == name[..|name| - 4] + "." + "csv";
      CsvOfParts(name, name[..|name| - 4], "csv");
    }
  }

  lemma FormatAfterDot(name: string, noExt: string)
    requires name == noExt + "."
    ensures IsCsv(noExt) <==> LosesDotBeforeCsv(name)
  {
    CsvSuffix(noExt);
    if |name| >= 5 {
      assert name[|name| - 5..] == noExt[|noExt| - 4..] + ".";
      assert ".csv." == ".csv" + ".";
      assert name[|name| - 5..][..4] == noExt[|noExt| - 4..];
      assert (".csv" + ".")[..4] == ".csv";
    }
  }

  /**
   * Every file of the family is taken for CSV exactly when the name given by the user is,
   * but for file 0 of a name ending in ".csv.".
   */
  lemma FamilyKeepsFormat(name: string, fileNumber: nat)
    ensures var (noExt, ext) := SplitFileName(name);
            (IsCsv(BuildFileName(noExt, ext, fileNumber)) <==> IsCsv(name))
            <==> !(fileNumber == 0 && LosesDotBeforeCsv(name))
  {
    var (noExt, ext) := SplitFileName(name);
    if ext != "" {
      FormatWithExtension(name, noExt, ext, fileNumber);
    } else if fileNumber > 0 {
      NumberIsNoCsv(noExt, fileNumber);
      if '.' in name {
        CsvOfParts(name, noExt, ext);
      }
    } else {
      assert BuildFileName(noExt, ext, 0) == noExt;
      if '.' in name {
        CsvOfParts(name, noExt, ext);
        FormatAfterDot(name, noExt);
      }
    }
  }

  /** A name that loses its dot, and one whose file 0 becomes a CSV file by that. */
  lemma TrailingDotLost()
    ensures var (noExt, ext) := SplitFileName("log."); BuildFileName(noExt, ext, 0) == "log"
    ensures var (noExt, ext) := SplitFileName("a.csv.");
            IsCsv(BuildFileName(noExt, ext, 0)) && !IsCsv("a.csv.")
  {
    hide FindExtensionDot, SplitFileName, IsCsv;
    assert "log." == "log" + "." + "" && "a.csv." == "a.csv" + "." + "";
    SplitAtDot("log", "");
    SplitAtDot("a.csv", "");
    CsvOfParts("a.csv.", "a.csv", "");
    assert "a.csv" == "a" + "." + "csv";
    CsvOfParts("a.csv", "a", "csv");
    assert BuildFileName("log", "", 0) == "log" && BuildFileName("a.csv", "", 0) == "a.csv";
  }

  // ---------- the directory of a family ----------

  /** A path up to its last separator, which is '/' or, on Windows, a backslash. */
  function Directory(path: string, separator: char): (directory: string)
    ensures directory <= path && (directory != "" <==> separator in path)
  {
    if path == "" then ""
    else if path[|path| - 1] == separator then path
    else
      assert path == path[..|path| - 1] + [path[|path| - 1]];
      Directory(path[..|path| - 1], separator)
  }

  lemma {:induction false} DirectoryOfConcat(head: string, tail: string, separator: char)
    ensures Directory(head + tail, separator)
            == if separator in tail then head + Directory(tail, separator) else Directory(head, separator)
  {
    if tail == "" {
      assert head + tail == head;
    } else {
      var tail', c := tail[..|tail| - 1], tail[|tail| - 1];
      assert tail == tail' + [c];
      assert (head + tail)[..|head + tail| - 1] == head + tail';
      if c != separator {
        DirectoryOfConcat(head, tail', separator);
      }
    }
  }

  /**
   * The last dot may stand in a directory's name. All files of a family are in one directory
   * exactly when it does not.
   */
  lemma FamilySharesDirectory(name: string, separator: char, fileNumber: nat)
    requires fileNumber > 0 && separator != '.' && !('0' <= separator <= '9')
    ensures var (noExt, ext) := SplitFileName(name);
            Directory(BuildFileName(noExt, ext, fileNumber), separator) == Directory(BuildFileName(noExt, ext, 0), separator)
            <==> separator !in ext
  {
    var (noExt, ext) := SplitFileName(name);
    var number := "." + Decimal(fileNumber);
    assert BuildFileName(noExt, ext, 0) == noExt + (if ext != "" then "." + ext else "");
    if ext == "" {
      assert BuildFileName(noExt, ext, fileNumber) == noExt + number;
      assert BuildFileName(noExt, ext, 0) == noExt;
      DirectoryOfConcat(noExt, number, separator);
      assert separator !in number;
    } else {
      assert BuildFileName(noExt, ext, fileNumber) == (noExt + number) + ("." + ext);
      DirectoryOfConcat(noExt + number, "." + ext, separator);
      DirectoryOfConcat(noExt, "." + ext, separator);
      DirectoryOfConcat(noExt, number, separator);
      assert separator !in number;
      assert separator in "." + ext <==> separator in ext;
    }
  }

  /** A path whose numbered files would be in directories of their own. */
  lemma DottedDirectory()
    ensures var (noExt, ext) := SplitFileName("logs.d/app"); BuildFileName(noExt, ext, 1) == "logs.1.d/app"
  {
    hide FindExtensionDot, SplitFileName;
    assert "logs.d/app" == "logs" + "." + "d/app";
    SplitAtDot("logs", "d/app");
    assert Decimal(1) == "1";
  }

  /** The names of files 0..last of one family. */
  function Family(noExt: string, ext: string, last: nat): (names: seq<string>)
    ensures |names| == last + 1
    ensures forall i :: 0 <= i <= last ==> names[i] == BuildFileName(noExt, ext, i)
    ensures Distinct(names)
  {
    var names := seq(last + 1, i requires 0 <= i => BuildFileName(noExt, ext, i));
    assert Distinct(names) by {
      forall i, j | 0 <= i < j < |names| ensures names[i] != names[j] {
        NumberedNamesDistinct(noExt, ext, i, j);
      }
    }
    names
  }

  predicate Distinct(names: seq<string>)
  {
    forall i, j :: 0 <= i < j < |names| ==> names[i] != names[j]
  }
}
