/**
 * The bytes of the files over whole runs, whatever the system answers: short and failed writes,
 * failed opens, refused renames, crashes. The only thing that can break the order is a rename that
 * replaces a file between others.
 */
module LogBytes {
  import opened Text
  import opened Files
  import opened FileNames
  import opened CsvFormatter
  import opened RollingAppender
  import opened LogMachine
  import opened LogPhases
  import opened LogFamily

  // ---------- runs that keep the order ----------

  /** The event is a rename that replaces a file between others. */
  ghost predicate Disorders(cfg: Config, w: World, e: Event)
    requires cfg.Valid()
  {
    && e.Step? && Enabled(w, e)
    && var pc := w.threads[e.thread].pc;
       pc.Renaming? && 0 <= pc.fileNumber < cfg.Last()
       && ReplacesInside(cfg, w.state.disk.Keys, pc.fileNumber, e.env.refused)
  }

  ghost predicate Orderly(cfg: Config, w: World, events: seq<Event>)
    requires cfg.Valid()
    decreases |events|
  {
    events == [] || (!Disorders(cfg, w, events[0]) && Orderly(cfg, Next(cfg, w, events[0]), events[1..]))
  }

  lemma RoomIsInOrder(cfg: Config, w: World, e: Event)
    requires cfg.Valid() && Sound(cfg, w) && Roomy(cfg, w.state, HolderPc(w))
    ensures !Disorders(cfg, w, e)
  {
    hide Phase;
    if Enabled(w, e) && e.Step? {
      assert w.lock == Some(e.thread);
    }
  }

  /** Where rename does not replace its target, and where the system refuses nothing, all runs do. */
  lemma {:induction false} RunIsOrderly(cfg: Config, w: World, events: seq<Event>)
    requires cfg.Valid() && Sound(cfg, w)
    requires !cfg.overwrites
             || (Roomy(cfg, w.state, HolderPc(w)) && forall i :: 0 <= i < |events| ==> Obeys(events[i]))
    ensures Orderly(cfg, w, events)
    decreases |events|
  {
    hide Next;
    if events == [] {
    } else {
      NextIsSound(cfg, w, events[0]);
      if cfg.overwrites {
        NextKeepsRoom(cfg, w, events[0]);
        RoomIsInOrder(cfg, w, events[0]);
      }
      RunIsOrderly(cfg, Next(cfg, w, events[0]), events[1..]);
    }
  }

  lemma OrderIsKept(cfg: Config, disk: Disk, events: seq<Event>)
    requires cfg.Valid() && NoFamilyFiles(cfg, disk)
    ensures !cfg.overwrites || (forall i :: 0 <= i < |events| ==> Obeys(events[i])) ==>
              Orderly(cfg, Initial(disk), events)
  {
    hide Orderly;
    InitialIsSound(cfg, disk);
    if !cfg.overwrites || (forall i :: 0 <= i < |events| ==> Obeys(events[i])) {
      RunIsOrderly(cfg, Initial(disk), events);
    }
  }

  // ---------- what one step does to the bytes ----------

  function PutText(s: State, data: string, io: Io): string
  {
    if s.handle.None? then "" else data[..Accepted(io, data)]
  }

  /** The bytes the system takes in one step. */
  function Taken(cfg: Config, s: State, pc: Pc, data: string, env: Env): string
  {
    match pc
    case Heading => PutText(s, cfg.header, env.header)
    case Appending => PutText(s, data, env.record)
    case _ => ""
  }

  lemma PutGrows(cfg: Config, s: State, data: string, io: Io)
    requires cfg.Valid() && SizeIsReal(cfg, s)
    ensures FamilyText(cfg, Put(s, data, io).disk) == FamilyText(cfg, s.disk) + PutText(s, data, io)
  {
    hide Gather;
    if s.handle.Some? {
      GatherGrows(Raw, cfg.names, s.disk, Put(s, data, io).disk, PutText(s, data, io));
    }
  }

  lemma OpenKeeps(cfg: Config, s: State, opens: bool)
    requires cfg.Valid()
    ensures FamilyText(cfg, Opened(cfg, s, opens).disk) == FamilyText(cfg, s.disk)
  {
    hide Gather;
    GatherGrows(Raw, cfg.names, s.disk, Opened(cfg, s, opens).disk, "");
  }

  /** A full file 0 is still there, by its number or the next. */
  lemma FullZeroRemains(cfg: Config, s: State, pc: Pc, data: string, env: Env)
    requires cfg.Valid() && Phase(cfg, s, pc) && (pc.Unlinking? || pc.Renaming?)
    ensures var after := Work(cfg, s, pc, data, env).0.disk;
            exists i :: 0 <= i <= 1 && cfg.names[i] in after && |after[cfg.names[i]]| > cfg.maxSize
  {
    var after := Work(cfg, s, pc, data, env).0.disk;
    if pc == Renaming(0) && after != s.disk {
      assert cfg.names[1] in after;
    } else {
      assert cfg.names[0] != cfg.names[if pc.Renaming? then pc.fileNumber + 1 else cfg.Last()];
      assert cfg.names[0] in after;
    }
  }

  lemma StepKeepsText(cfg: Config, s: State, pc: Pc, data: string, env: Env)
    requires cfg.Valid() && Phase(cfg, s, pc) && Busy(pc) && !pc.Unlinking? && !pc.Renaming?
    ensures FamilyText(cfg, Work(cfg, s, pc, data, env).0.disk) == FamilyText(cfg, s.disk) + Taken(cfg, s, pc, data, env)
  {
    hide FamilyText, RolledAreFull;
    match pc
    case Opening => OpenKeeps(cfg, s, env.opens);
    case Heading => PutGrows(cfg, s, cfg.header, env.header);
    case Appending => PutGrows(cfg, s, data, env.record);
    case _ =>
  }

  lemma LongFileIsText(cfg: Config, disk: Disk, i: nat)
    requires cfg.Valid() && i < |cfg.names| && cfg.names[i] in disk && disk[cfg.names[i]] != ""
    ensures FamilyText(cfg, disk) != ""
  {
    GatherNotEmpty(Raw, cfg.names, disk, |cfg.names|, i);
  }

  lemma MovingKeepsSuffix(cfg: Config, s: State, pc: Pc, data: string, env: Env)
    requires cfg.Valid() && Phase(cfg, s, pc) && (pc.Unlinking? || pc.Renaming?)
    requires pc.Renaming? ==> !ReplacesInside(cfg, s.disk.Keys, pc.fileNumber, env.refused)
    ensures var after := Work(cfg, s, pc, data, env).0.disk;
            IsSuffix(FamilyText(cfg, after), FamilyText(cfg, s.disk)) && FamilyText(cfg, after) != ""
  {
    hide FamilyText, ReplacesInside, IsSuffix;
    var after := Work(cfg, s, pc, data, env).0.disk;
    if pc.Unlinking? {
      TextKeepsSuffixRemoved(cfg, s.disk, env.refused);
    } else {
      TextKeepsSuffix(cfg, s.disk, pc.fileNumber, env.refused);
    }
    FullZeroRemains(cfg, s, pc, data, env);
    var i :| 0 <= i <= 1 && cfg.names[i] in after && |after[cfg.names[i]]| > cfg.maxSize;
    LongFileIsText(cfg, after, i);
  }

  // ---------- over runs ----------

  /** The bytes the system takes in one event. */
  function Accepts(cfg: Config, w: World, e: Event): string
  {
    if e.Step? && Enabled(w, e) then
      var me := w.threads[e.thread];
      Taken(cfg, w.state, me.pc, RowText(Fields(Program(w, e.thread)[me.next])), e.env)
    else ""
  }

  /** All bytes the system takes in a run, headers included. */
  function Output(cfg: Config, w: World, events: seq<Event>): string
    requires cfg.Valid()
    decreases |events|
  {
    if events == [] then "" else Accepts(cfg, w, events[0]) + Output(cfg, Next(cfg, w, events[0]), events[1..])
  }

  /** The files hold a suffix of these bytes, all of them if there is one file only, and the last. */
  ghost predicate Covers(cfg: Config, disk: Disk, output: string)
    requires cfg.Valid()
  {
    var text := FamilyText(cfg, disk);
    && IsSuffix(text, output)
    && (text == "" ==> output == "")
    && (cfg.Last() == 0 ==> text == output)
  }

  lemma StepCovers(cfg: Config, s: State, pc: Pc, data: string, env: Env, output: string)
    requires cfg.Valid() && Phase(cfg, s, pc) && Busy(pc) && Covers(cfg, s.disk, output)
    requires pc.Renaming? ==> !ReplacesInside(cfg, s.disk.Keys, pc.fileNumber, env.refused)
    ensures Covers(cfg, Work(cfg, s, pc, data, env).0.disk, output + Taken(cfg, s, pc, data, env))
  {
    hide FamilyText, Work, IsSuffix, ReplacesInside, RolledAreFull;
    var before, after := FamilyText(cfg, s.disk), FamilyText(cfg, Work(cfg, s, pc, data, env).0.disk);
    if pc.Unlinking? || pc.Renaming? {
      MovingKeepsSuffix(cfg, s, pc, data, env);
      SuffixOfSuffix(after, before, output);
      assert output + "" == output;
    } else {
      StepKeepsText(cfg, s, pc, data, env);
      SuffixGrows(before, output, Taken(cfg, s, pc, data, env));
    }
  }

  lemma NextCovers(cfg: Config, w: World, e: Event, output: string)
    requires cfg.Valid() && Sound(cfg, w) && Covers(cfg, w.state.disk, output) && !Disorders(cfg, w, e)
    ensures Covers(cfg, Next(cfg, w, e).state.disk, output + Accepts(cfg, w, e))
  {
    hide Work, RowText, Fields, Phase, Covers, ReplacesInside, Taken;
    assert output + "" == output;
    if Enabled(w, e) && e.Step? {
      var me := w.threads[e.thread];
      assert w.lock == Some(e.thread);
      RenamesInRange(cfg, w.state, me.pc);
      StepCovers(cfg, w.state, me.pc, RowText(Fields(Program(w, e.thread)[me.next])), e.env, output);
    }
  }

  lemma {:induction false} RunCovers(cfg: Config, w: World, events: seq<Event>, output: string)
    requires cfg.Valid() && Sound(cfg, w) && Covers(cfg, w.state.disk, output) && Orderly(cfg, w, events)
    ensures Covers(cfg, Run(cfg, w, events).state.disk, output + Output(cfg, w, events))
    decreases |events|
  {
    hide Next, Sound, Covers, Accepts, Disorders;
    if events == [] {
      assert output + "" == output;
    } else {
      var rest := Output(cfg, Next(cfg, w, events[0]), events[1..]);
      NextIsSound(cfg, w, events[0]);
      NextCovers(cfg, w, events[0], output);
      RunCovers(cfg, Next(cfg, w, events[0]), events[1..], output + Accepts(cfg, w, events[0]));
      Assoc(output, Accepts(cfg, w, events[0]), rest);
    }
  }

  lemma NothingCovered(cfg: Config, disk: Disk)
    requires cfg.Valid() && NoFamilyFiles(cfg, disk)
    ensures Covers(cfg, disk, "")
  {
    GatherOfNothing(Raw, cfg.names, disk, |cfg.names|);
  }

  /**
   * Whatever the system answers - short and failed writes, failed opens, refused renames and
   * removals - and wherever processes stop: the files, oldest first, hold a suffix of all bytes the
   * system took, headers included; the last byte taken is always there; and with a single file
   * nothing is lost. The run may not replace a file between others, which cannot happen where
   * rename does not replace its target, nor where no rename and no removal is refused.
   */
  lemma BytesHoldASuffix(cfg: Config, disk: Disk, events: seq<Event>)
    requires cfg.Valid() && NoFamilyFiles(cfg, disk)
    ensures var text := FamilyText(cfg, Run(cfg, Initial(disk), events).state.disk);
            var output := Output(cfg, Initial(disk), events);
            Orderly(cfg, Initial(disk), events) ==>
              && IsSuffix(text, output)
              && (output != "" ==> text != "" && text[|text| - 1] == output[|output| - 1])
              && (cfg.Last() == 0 ==> text == output)
    ensures !cfg.overwrites || (forall i :: 0 <= i < |events| ==> Obeys(events[i])) ==>
              Orderly(cfg, Initial(disk), events)
  {
    hide Run, Output, Orderly, FamilyText;
    OrderIsKept(cfg, disk, events);
    InitialIsSound(cfg, disk);
    if Orderly(cfg, Initial(disk), events) {
      NothingCovered(cfg, disk);
      RunCovers(cfg, Initial(disk), events, "");
      assert "" + Output(cfg, Initial(disk), events) == Output(cfg, Initial(disk), events);
    }
  }

  lemma FourParts(cfg: Config, disk: Disk)
    requires cfg.Valid() && |cfg.names| == 4
    ensures FamilyText(cfg, disk)
            == Part(Raw, disk, cfg.names[3]) + Part(Raw, disk, cfg.names[2])
               + Part(Raw, disk, cfg.names[1]) + Part(Raw, disk, cfg.names[0])
  {
    hide Part;
    var n := cfg.names;
    assert Gather(Raw, n, disk, 1) == Part(Raw, disk, n[0]) + [];
    assert Gather(Raw, n, disk, 2) == Part(Raw, disk, n[1]) + Part(Raw, disk, n[0]);
    assert Gather(Raw, n, disk, 3) == Part(Raw, disk, n[2]) + (Part(Raw, disk, n[1]) + Part(Raw, disk, n[0]));
  }

  /** Four files; the middle rename is refused, and the last one replaces what it should have moved. */
  lemma MiddleIsLost(names: seq<string>, header: string, maxSize: int)
    requires |names| == 4 && Distinct(names) && 0 < |header| <= maxSize
    ensures var cfg := Config(names, maxSize, header, true);
            var disk := map[names[0] := "0", names[1] := "1", names[2] := "2", names[3] := "3"];
            var after := AfterShift(cfg, State(disk, None, 0, false), {1}).disk;
            && FamilyText(cfg, disk) == "3210" && FamilyText(cfg, after) == "20"
            && !IsSuffix(FamilyText(cfg, after), FamilyText(cfg, disk))
  {
    var cfg := Config(names, maxSize, header, true);
    var disk := map[names[0] := "0", names[1] := "1", names[2] := "2", names[3] := "3"];
    FourParts(cfg, disk);
    var after := map[names[1] := "0", names[3] := "2"];
    var removed := map[names[0] := "0", names[1] := "1", names[2] := "2"];
    var moved := map[names[0] := "0", names[1] := "1", names[3] := "2"];
    assert Removed(cfg, disk, {1}) == removed;
    assert Moved(cfg, removed, 2, {1}) == moved && Moved(cfg, moved, 1, {1}) == moved;
    assert Moved(cfg, moved, 0, {1}) == after;
    assert Shifted(cfg, moved, 0, {1}) == after;
    assert Shifted(cfg, moved, 1, {1}) == after;
    FourParts(cfg, after);
  }
}
