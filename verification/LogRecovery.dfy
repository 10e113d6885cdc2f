/**
 * The end-to-end theorem. Writes are taken whole or not at all; everything else may happen: any
 * threads, any interleaving, failing opens and writes, and the process stopping between any two
 * steps and starting again. What the files hold, read from the oldest to the newest, is then a
 * suffix of what was written.
 */
module LogRecovery {
  import opened Text
  import opened Files
  import opened CsvFormatter
  import opened Utf8Converter
  import opened CsvReader
  import opened RollingAppender
  import opened LogFamily
  import opened LogReplay
  import opened LogMachine
  import opened LogPhases
  import opened LogBytes

  predicate WholeWrites(env: Env)
  {
    !env.header.Short? && !env.record.Short?
  }

  predicate ValidPrograms(p: Programs)
  {
    forall t :: t in p ==> forall i :: 0 <= i < |p[t]| ==> ValidRecord(p[t][i])
  }

  /** The events the theorem is about: whole writes of records that can be read back. */
  predicate Fair(e: Event)
  {
    match e
    case Launch(programs) => ValidPrograms(programs)
    case Step(_, env) => WholeWrites(env)
    case _ => true
  }

  ghost predicate IsCsvConfig(cfg: Config)
  {
    cfg.Valid() && cfg.header == FILE_HEADER
  }

  function Readable(cfg: Config, disk: Disk): seq<Row>
  {
    Gather(Records, cfg.names, disk, |cfg.names|)
  }

  // ---------- what one step does to the readable rows ----------

  /** Contents of file 0 change, nothing else. */
  lemma FileZeroGrows(cfg: Config, s: State, text: string, rows: seq<Row>)
    requires cfg.Valid() && SizeIsReal(cfg, s) && s.handle.Some? && AllClean(cfg.names, s.disk)
    requires Clean(s.disk[cfg.names[0]] + text)
    requires Records(s.disk[cfg.names[0]] + text) == Records(s.disk[cfg.names[0]]) + rows
    ensures var after := Appended(s.disk, cfg.names[0], text);
            AllClean(cfg.names, after) && Readable(cfg, after) == Readable(cfg, s.disk) + rows
  {
    var after := Appended(s.disk, cfg.names[0], text);
    GatherGrows(Records, cfg.names, s.disk, after, rows);
  }

  lemma NothingPut(s: State, data: string, io: Io)
    requires s.handle.None? || io.Failed?
    ensures Put(s, data, io).disk == s.disk
  {
    if s.handle.Some? {
      NothingAccepted(s.disk, s.handle.value, data);
    }
  }

  lemma AppendStep(cfg: Config, s: State, row: Row, io: Io)
    requires IsCsvConfig(cfg) && SizeIsReal(cfg, s) && AllClean(cfg.names, s.disk)
    requires ValidRow(row) && !io.Short?
    ensures var after := Put(s, RowText(row), io).disk;
            && AllClean(cfg.names, after)
            && Readable(cfg, after) == Readable(cfg, s.disk) + if s.handle.Some? && io.Full? then [row] else []
  {
    if s.handle.Some? && io.Full? {
      var text := RowText(row);
      assert text[..|text|] == text;
      CleanAppend(s.disk[cfg.names[0]], row);
      FileZeroGrows(cfg, s, text, [row]);
    } else {
      NothingPut(s, RowText(row), io);
    }
  }

  lemma HeaderStep(cfg: Config, s: State, io: Io)
    requires IsCsvConfig(cfg) && SizeIsReal(cfg, s) && AllClean(cfg.names, s.disk)
    requires s.handle.Some? && s.size == 0 && !io.Short?
    ensures var after := Put(s, cfg.header, io).disk;
            AllClean(cfg.names, after) && Readable(cfg, after) == Readable(cfg, s.disk)
  {
    hide Gather, Part, Clean, Records, ParseFile;
    if io.Full? {
      var old0 := s.disk[cfg.names[0]];
      assert old0 == "" && old0 + cfg.header == cfg.header;
      assert cfg.header[..|cfg.header|] == cfg.header;
      CleanWithoutRows();
      FileZeroGrows(cfg, s, cfg.header, []);
    } else {
      NothingPut(s, cfg.header, io);
    }
  }

  lemma NewFileIsEmpty(disk: Disk, name: string)
    requires name !in disk
    ensures Part(Records, disk[name := ""], name) == Part(Records, disk, name) + []
    ensures Clean(disk[name := ""][name])
  {
    hide Clean, Records;
    CleanWithoutRows();
  }

  lemma OpenStep(cfg: Config, s: State, opens: bool)
    requires IsCsvConfig(cfg) && AllClean(cfg.names, s.disk)
    ensures var after := Opened(cfg, s, opens).disk;
            AllClean(cfg.names, after) && Readable(cfg, after) == Readable(cfg, s.disk) + []
  {
    var zero := cfg.names[0];
    if opens && zero !in s.disk {
      NewFileIsEmpty(s.disk, zero);
      GatherGrows(Records, cfg.names, s.disk, s.disk[zero := ""], []);
    } else {
      assert Opened(cfg, s, opens).disk == s.disk;
    }
  }

  lemma MovedStaysClean(cfg: Config, disk: Disk, j: int, refused: set<int>)
    requires cfg.Valid() && 0 <= j < cfg.Last() && AllClean(cfg.names, disk)
    ensures AllClean(cfg.names, Moved(cfg, disk, j, refused))
  {
    hide Clean;
  }

  /** What removing and renaming files does. */
  lemma MovingStep(cfg: Config, s: State, pc: Pc, data: string, env: Env)
    requires IsCsvConfig(cfg) && Phase(cfg, s, pc) && (pc.Unlinking? || pc.Renaming?) && AllClean(cfg.names, s.disk)
    requires pc.Renaming? ==> !ReplacesInside(cfg, s.disk.Keys, pc.fileNumber, env.refused)
    ensures var after := Work(cfg, s, pc, data, env).0.disk;
            && AllClean(cfg.names, after)
            && IsSuffix(Readable(cfg, after), Readable(cfg, s.disk))
            && Readable(cfg, after) != []
            && (pc.Renaming? && cfg.names[pc.fileNumber + 1] !in s.disk ==> Readable(cfg, after) == Readable(cfg, s.disk))
  {
    hide Gather, Clean, ReplacesInside, IsSuffix;
    var after := Work(cfg, s, pc, data, env).0.disk;
    if pc.Unlinking? {
      RemoveKeepsSuffix(Records, cfg, s.disk, env.refused);
    } else {
      MovedStaysClean(cfg, s.disk, pc.fileNumber, env.refused);
      MoveKeepsSuffix(Records, cfg, s.disk, pc.fileNumber, env.refused);
    }
    FullZeroRemains(cfg, s, pc, data, env);
    var i :| 0 <= i <= 1 && cfg.names[i] in after && |after[cfg.names[i]]| > cfg.maxSize;
    LongFileIsReadable(cfg.names, after, i);
  }

  /**
   * One step of a thread, in one place: rows are added by the append, and removed by the unlink or
   * by a rename that replaces its target only.
   */
  lemma WorkAndRows(cfg: Config, s: State, pc: Pc, row: Row, env: Env)
    requires IsCsvConfig(cfg) && Phase(cfg, s, pc) && Busy(pc) && AllClean(cfg.names, s.disk)
    requires ValidRow(row) && WholeWrites(env)
    requires pc.Renaming? ==> !ReplacesInside(cfg, s.disk.Keys, pc.fileNumber, env.refused)
    ensures var after := Work(cfg, s, pc, RowText(row), env).0.disk;
            && AllClean(cfg.names, after)
            && (pc.Unlinking? || pc.Renaming? ==>
                  IsSuffix(Readable(cfg, after), Readable(cfg, s.disk)) && Readable(cfg, after) != [])
            && (pc.Renaming? && cfg.names[pc.fileNumber + 1] !in s.disk ==> Readable(cfg, after) == Readable(cfg, s.disk))
            && (!pc.Unlinking? && !pc.Renaming? ==>
                  Readable(cfg, after) == Readable(cfg, s.disk)
                  + if pc == Appending && s.handle.Some? && env.record.Full? then [row] else [])
  {
    hide Readable, Clean, RowText, Put, Opened, ReplacesInside, IsSuffix, RolledAreFull;
    var same := Readable(cfg, s.disk);
    assert same + [] == same;
    match pc
    case Unlinking => MovingStep(cfg, s, pc, RowText(row), env);
    case Renaming(j) => MovingStep(cfg, s, pc, RowText(row), env);
    case Opening => OpenStep(cfg, s, env.opens);
    case Heading => HeaderStep(cfg, s, env.header);
    case Appending => AppendStep(cfg, s, row, env.record);
    case _ =>
  }

  // ---------- the invariant ----------

  ghost predicate Recoverable(cfg: Config, w: World)
    requires IsCsvConfig(cfg)
  {
    && Sound(cfg, w)
    && AllClean(cfg.names, w.state.disk)
    && IsSuffix(Readable(cfg, w.state.disk), Rows(w.history))
    && (w.history != [] ==> Readable(cfg, w.state.disk) != [])
    && (cfg.Last() == 0 ==> Readable(cfg, w.state.disk) == Rows(w.history))
    && (forall p :: 0 <= p < |w.started| ==> ValidPrograms(w.started[p]))
  }

  lemma RowsGrow(history: seq<Stamped>, more: seq<Stamped>)
    ensures Rows(history + more) == Rows(history) + Rows(more)
  {
  }

  lemma AddedRows(w: World, t: nat, env: Env)
    requires Enabled(w, Step(t, env)) && WholeWrites(env)
    ensures Rows(Added(w, t, env))
            == if w.threads[t].pc == Appending && w.state.handle.Some? && env.record.Full?
               then [Fields(Program(w, t)[w.threads[t].next])] else []
  {
    var row := Fields(Program(w, t)[w.threads[t].next]);
    assert |RowText(row)| > 0;
  }

  lemma StepIsRecoverable(cfg: Config, w: World, t: nat, env: Env)
    requires IsCsvConfig(cfg) && Recoverable(cfg, w) && Enabled(w, Step(t, env)) && WholeWrites(env)
    requires !Disorders(cfg, w, Step(t, env))
    ensures Recoverable(cfg, Next(cfg, w, Step(t, env)))
  {
    hide Readable, Clean, Work, Added, RowText, Fields, ReplacesInside, RolledAreFull;
    var w' := Next(cfg, w, Step(t, env));
    var me := w.threads[t];
    var record := Program(w, t)[me.next];
    var row := Fields(record);
    NextIsSound(cfg, w, Step(t, env));
    assert w.lock == Some(t);
    FieldsValid(record);
    WorkAndRows(cfg, w.state, me.pc, row, env);
    RowsGrow(w.history, Added(w, t, env));
    AddedRows(w, t, env);
    var before, after := Readable(cfg, w.state.disk), Readable(cfg, w'.state.disk);
    if me.pc.Unlinking? || me.pc.Renaming? {
      assert Rows(w.history) + [] == Rows(w.history);
      SuffixOfSuffix(after, before, Rows(w.history));
    } else if Rows(Added(w, t, env)) == [] {
      assert after == before + [] == before;
      assert Rows(w.history) + [] == Rows(w.history);
    } else {
      SuffixExtends(before, Rows(w.history), row);
    }
  }

  lemma NextIsRecoverable(cfg: Config, w: World, e: Event)
    requires IsCsvConfig(cfg) && Recoverable(cfg, w) && Fair(e) && !Disorders(cfg, w, e)
    ensures Recoverable(cfg, Next(cfg, w, e))
  {
    NextIsSound(cfg, w, e);
    if Enabled(w, e) && e.Step? {
      StepIsRecoverable(cfg, w, e.thread, e.env);
    }
  }

  lemma {:induction false} RunIsRecoverable(cfg: Config, w: World, events: seq<Event>)
    requires IsCsvConfig(cfg) && Recoverable(cfg, w)
    requires forall i :: 0 <= i < |events| ==> Fair(events[i])
    requires Orderly(cfg, w, events)
    ensures Recoverable(cfg, Run(cfg, w, events))
    decreases |events|
  {
    hide Next, Recoverable, Disorders, Fair;
    if events == [] {
    } else {
      NextIsRecoverable(cfg, w, events[0]);
      RunIsRecoverable(cfg, Next(cfg, w, events[0]), events[1..]);
    }
  }

  lemma InitialIsRecoverable(cfg: Config, disk: Disk)
    requires IsCsvConfig(cfg) && NoFamilyFiles(cfg, disk)
    ensures Recoverable(cfg, Initial(disk))
  {
    InitialIsSound(cfg, disk);
    GatherOfNothing(Records, cfg.names, disk, |cfg.names|);
  }

  /**
   * The main theorem. For every file name and limits, from a directory without files of the
   * family, after any run that does not replace a file between others: every file of the family
   * holds whole rows; the files, oldest first, decode to a suffix of the rows written, in the order
   * they were written; the newest row written is always among them; and with a single file nothing
   * is ever lost. No run replaces a file between others where rename does not replace its target,
   * nor where no rename and no removal is refused.
   */
  lemma FilesHoldASuffix(fileName: string, maxFileSize: nat, maxFiles: int, overwrites: bool,
                         disk: Disk, events: seq<Event>)
    requires NoFamilyFiles(Configured(fileName, maxFileSize, maxFiles, overwrites), disk)
    requires forall i :: 0 <= i < |events| ==> Fair(events[i])
    ensures var cfg := Configured(fileName, maxFileSize, maxFiles, overwrites);
            var w := Run(cfg, Initial(disk), events);
            Orderly(cfg, Initial(disk), events) ==>
              && AllClean(cfg.names, w.state.disk)
              && IsSuffix(Readable(cfg, w.state.disk), Rows(w.history))
              && (w.history != [] ==>
                    var rows := Readable(cfg, w.state.disk);
                    rows != [] && rows[|rows| - 1] == w.history[|w.history| - 1].row)
              && (maxFiles <= 1 ==> Readable(cfg, w.state.disk) == Rows(w.history))
    ensures !overwrites || (forall i :: 0 <= i < |events| ==> Obeys(events[i])) ==>
              Orderly(Configured(fileName, maxFileSize, maxFiles, overwrites), Initial(disk), events)
  {
    hide Run, Readable, Configured, Sound, Clean, Initial, NoFamilyFiles, Orderly, Fair, Obeys;
    var cfg := Configured(fileName, maxFileSize, maxFiles, overwrites);
    OrderIsKept(cfg, disk, events);
    if Orderly(cfg, Initial(disk), events) {
      InitialIsRecoverable(cfg, disk);
      RunIsRecoverable(cfg, Initial(disk), events);
    }
  }
}
