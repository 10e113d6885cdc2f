/** What a log file holds: whole rows, after the header or without it. */
module LogReplay {
  import opened Text
  import opened Files
  import opened CsvFormatter
  import opened Utf8Converter
  import opened CsvReader
  import opened LogFamily

  /** The rows of one file; a file that cannot be parsed has none. */
  function Records(content: string): seq<Row>
  {
    var parsed := ParseFile(content);
    if parsed.Some? then parsed.value else []
  }

  /** Whole rows and nothing else, after the header or, where the header failed, without it. */
  predicate Clean(content: string)
  {
    && ParseFile(content).Some?
    && ValidRows(Records(content))
    && (content == RowsText(Records(content)) || content == FILE_HEADER + RowsText(Records(content)))
  }

  predicate AllClean(names: seq<string>, disk: Disk)
  {
    forall i :: 0 <= i < |names| && names[i] in disk ==> Clean(disk[names[i]])
  }

  // ---------- single files ----------

  lemma CleanWithoutRows()
    ensures Clean("") && Records("") == []
    ensures Clean(FILE_HEADER) && Records(FILE_HEADER) == []
  {
    BareFileRoundTrip([]);
    HeadedFileRoundTrip([]);
    assert RowsText([]) == "";
    assert FILE_HEADER + "" == FILE_HEADER;
  }

  lemma CleanAppend(content: string, row: Row)
    requires Clean(content) && ValidRow(row)
    ensures Clean(content + RowText(row))
    ensures Records(content + RowText(row)) == Records(content) + [row]
  {
    var rows := Records(content);
    var more := rows + [row];
    assert more[..|rows|] == rows;
    assert RowsText(more) == RowsText(rows) + RowText(row);
    if content == RowsText(rows) {
      BareFileRoundTrip(more);
    } else {
      Assoc(FILE_HEADER, RowsText(rows), RowText(row));
      HeadedFileRoundTrip(more);
    }
  }

  lemma CleanLong(content: string)
    requires Clean(content) && |content| > |FILE_HEADER|
    ensures Records(content) != []
  {
    assert RowsText([]) == "";
  }

  /** A clean file longer than the header has rows to show. */
  lemma LongFileIsReadable(names: seq<string>, d: Disk, i: nat)
    requires i < |names| && names[i] in d && Clean(d[names[i]]) && |d[names[i]]| > |FILE_HEADER|
    ensures Gather(Records, names, d, |names|) != []
  {
    CleanLong(d[names[i]]);
    GatherNotEmpty(Records, names, d, |names|, i);
  }
}
