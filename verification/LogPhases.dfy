/** What every step keeps, whatever the system answers: mutual exclusion, sizes, phases of a roll. */
module LogPhases {
  import opened Text
  import opened Files
  import opened CsvFormatter
  import opened RollingAppender
  import opened RollShift
  import opened LogMachine

  /** At most the holder of the mutex is inside `write`, and threads stay within their programs. */
  ghost predicate Exclusive(w: World)
  {
    && (w.lock.Some? ==> w.lock.value in w.threads)
    && (forall t :: t in w.threads ==> (w.threads[t].pc != Outside <==> w.lock == Some(t)))
    && (forall t :: t in w.threads ==> w.threads[t].next <= |Program(w, t)|)
    && (forall t :: t in w.threads && Busy(w.threads[t].pc) ==> w.threads[t].next < |Program(w, t)|)
    && (w.started == [] ==> w.threads == map[])
    && (w.started != [] ==> w.threads.Keys == w.started[|w.started| - 1].Keys)
  }

  /** Where the mutex's holder stands. */
  function HolderPc(w: World): Pc
  {
    if w.lock.Some? && w.lock.value in w.threads then w.threads[w.lock.value].pc else Outside
  }

  /** File 0 exists and is over the limit. */
  predicate ZeroIsFull(cfg: Config, disk: Disk)
    requires cfg.Valid()
  {
    cfg.names[0] in disk && |disk[cfg.names[0]]| > cfg.maxSize
  }

  /** Every file that was ever rolled is over the limit. */
  ghost predicate RolledAreFull(cfg: Config, disk: Disk)
    requires cfg.Valid()
  {
    forall j :: 1 <= j <= cfg.Last() && cfg.names[j] in disk ==> |disk[cfg.names[j]]| > cfg.maxSize
  }

  /** An open handle is on file 0, and the size is its real length. */
  predicate SizeIsReal(cfg: Config, s: State)
    requires cfg.Valid()
  {
    s.handle.Some? ==>
      s.handle.value == cfg.names[0] && cfg.names[0] in s.disk && s.size == |s.disk[cfg.names[0]]|
  }

  /** The open failed, in this process, and will not be tried again. */
  predicate GaveUp(s: State)
  {
    s.handle.None? && !s.firstWrite && s.size == -1
  }

  ghost predicate Phase(cfg: Config, s: State, pc: Pc)
    requires cfg.Valid()
  {
    && SizeIsReal(cfg, s)
    && RolledAreFull(cfg, s.disk)
    && (s.firstWrite ==> s.handle == None || pc == Heading)
    && match pc
       case Closing => s.handle.Some? && ZeroIsFull(cfg, s.disk) && cfg.Last() > 0
       case Unlinking => s.handle == None && ZeroIsFull(cfg, s.disk) && cfg.Last() > 0 && !s.firstWrite
       case Renaming(j) =>
         s.handle == None && !s.firstWrite && ZeroIsFull(cfg, s.disk) && 0 <= j < cfg.Last()
       case Opening => s.handle == None
       case Heading => s.handle.Some? && s.size == 0
       case Appending => (s.handle.Some? && !s.firstWrite) || GaveUp(s)
       case Leaving => (s.handle.Some? && !s.firstWrite) || GaveUp(s)
       case _ => s.firstWrite || s.handle.Some? || GaveUp(s)
  }

  ghost predicate Sound(cfg: Config, w: World)
    requires cfg.Valid()
  {
    Exclusive(w) && Phase(cfg, w.state, HolderPc(w))
  }

  lemma PutIsAccounted(cfg: Config, s: State, data: string, io: Io)
    requires cfg.Valid() && SizeIsReal(cfg, s) && RolledAreFull(cfg, s.disk)
    ensures var s' := Put(s, data, io);
            SizeIsReal(cfg, s') && RolledAreFull(cfg, s'.disk) && s'.handle == s.handle
  {
  }

  lemma LastOverLimit(cfg: Config, s: State, refused: set<int>)
    requires cfg.Valid() && Phase(cfg, s, Unlinking)
    ensures Phase(cfg, s.(disk := Removed(cfg, s.disk, refused)), Renaming(cfg.Last() - 1))
  {
    assert cfg.names[0] != cfg.names[cfg.Last()];
  }

  /** One step of one thread keeps the phase, under short, failing and refused calls too. */
  lemma WorkKeepsPhase(cfg: Config, s: State, pc: Pc, data: string, env: Env)
    requires cfg.Valid() && Phase(cfg, s, pc) && Busy(pc)
    ensures var (s', pc') := Work(cfg, s, pc, data, env); Phase(cfg, s', pc')
  {
    match pc
    case Heading => PutIsAccounted(cfg, s, cfg.header, env.header);
    case Appending => PutIsAccounted(cfg, s, data, env.record);
    case Unlinking => LastOverLimit(cfg, s, env.refused);
    case _ =>
  }

  lemma LaunchIsExclusive(cfg: Config, w: World, programs: Programs)
    requires cfg.Valid()
    ensures Exclusive(Next(cfg, w, Launch(programs)))
  {
  }

  lemma LockIsExclusive(w: World, t: nat, lock: Option<nat>, pc: Pc)
    requires Exclusive(w) && t in w.threads && (w.lock == None || w.threads[t].pc != Outside)
    requires if lock == Some(t) then Busy(pc) && w.threads[t].next < |Program(w, t)| else lock == None && pc == Outside
    ensures Exclusive(w.(lock := lock, threads := w.threads[t := w.threads[t].(pc := pc)]))
    ensures w.lock.Some? ==> w.lock == Some(t)
  {
    var w' := w.(lock := lock, threads := w.threads[t := w.threads[t].(pc := pc)]);
    forall u | u in w'.threads
      ensures w'.threads[u].next <= |Program(w', u)| && (Busy(w'.threads[u].pc) ==> w'.threads[u].next < |Program(w', u)|)
    {
      assert Program(w', u) == Program(w, u);
    }
  }

  lemma RenamesInRange(cfg: Config, s: State, pc: Pc)
    requires cfg.Valid() && Phase(cfg, s, pc)
    ensures pc.Renaming? ==> 0 <= pc.fileNumber < cfg.Last()
  {
  }

  lemma WorkStaysInside(cfg: Config, s: State, pc: Pc, data: string, env: Env)
    requires cfg.Valid() && Busy(pc)
    ensures var (s', pc') := Work(cfg, s, pc, data, env);
            pc' != Outside && (pc' == Leaving <==> pc == Appending)
  {
  }

  lemma StepIsSound(cfg: Config, w: World, t: nat, env: Env)
    requires cfg.Valid() && Sound(cfg, w) && Enabled(w, Step(t, env))
    ensures Sound(cfg, Next(cfg, w, Step(t, env)))
  {
    hide Work, RowText, Fields, Phase;
    var me := w.threads[t];
    var data := RowText(Fields(Program(w, t)[me.next]));
    assert w.lock == Some(t);
    WorkKeepsPhase(cfg, w.state, me.pc, data, env);
    WorkStaysInside(cfg, w.state, me.pc, data, env);
  }

  /** Stopping the process at any phase leaves what a new process expects. */
  lemma StoppedIsIdle(cfg: Config, s: State, pc: Pc)
    requires cfg.Valid() && Phase(cfg, s, pc)
    ensures Phase(cfg, State(s.disk, None, 0, true), Outside)
  {
  }

  /** Taking and releasing the mutex changes nothing of the appender. */
  lemma IdleEnds(cfg: Config, s: State)
    requires cfg.Valid()
    ensures Phase(cfg, s, Outside) <==> Phase(cfg, s, Entered)
    ensures Phase(cfg, s, Leaving) ==> Phase(cfg, s, Outside)
  {
  }

  lemma NextIsSound(cfg: Config, w: World, e: Event)
    requires cfg.Valid() && Sound(cfg, w)
    ensures Sound(cfg, Next(cfg, w, e))
  {
    hide Work, RowText, Fields, Phase, Exclusive, Program;
    if Enabled(w, e) {
      match e
      case Step(t, env) => StepIsSound(cfg, w, t, env);
      case Launch(programs) =>
        StoppedIsIdle(cfg, w.state, HolderPc(w));
        LaunchIsExclusive(cfg, w, programs);
      case Acquire(t) =>
        IdleEnds(cfg, w.state);
        LockIsExclusive(w, t, Some(t), Entered);
      case Release(t) =>
        IdleEnds(cfg, w.state);
        LockIsExclusive(w, t, None, Outside);
    }
  }

  /**
   * Over all runs: any threads, any interleaving, any number of crashes and restarts, and any
   * answers of the system, also short and failed writes and refused renames.
   */
  lemma {:induction false} RunIsSound(cfg: Config, w: World, events: seq<Event>)
    requires cfg.Valid() && Sound(cfg, w)
    ensures Sound(cfg, Run(cfg, w, events))
    decreases |events|
  {
    if events == [] {
    } else {
      NextIsSound(cfg, w, events[0]);
      RunIsSound(cfg, Next(cfg, w, events[0]), events[1..]);
    }
  }

  ghost predicate NoFamilyFiles(cfg: Config, disk: Disk)
  {
    forall i :: 0 <= i < |cfg.names| ==> cfg.names[i] !in disk
  }

  lemma InitialIsSound(cfg: Config, disk: Disk)
    requires cfg.Valid() && NoFamilyFiles(cfg, disk)
    ensures Sound(cfg, Initial(disk))
  {
  }

  // ---------- when the system refuses nothing ----------

  /** The system renames and removes what it is asked to. */
  predicate Obeys(e: Event)
  {
    e.Step? ==> e.env.refused == {}
  }

  /** The next file to be renamed, or opened after a roll, finds its new name free. */
  predicate Roomy(cfg: Config, s: State, pc: Pc)
    requires cfg.Valid()
  {
    && (pc.Renaming? && 0 <= pc.fileNumber < cfg.Last() ==> cfg.names[pc.fileNumber + 1] !in s.disk)
    && (pc.Opening? && !s.firstWrite ==> cfg.names[0] !in s.disk)
  }

  lemma WorkKeepsRoom(cfg: Config, s: State, pc: Pc, data: string, env: Env)
    requires cfg.Valid() && Phase(cfg, s, pc) && Busy(pc) && Roomy(cfg, s, pc) && env.refused == {}
    ensures var (s', pc') := Work(cfg, s, pc, data, env); Roomy(cfg, s', pc')
  {
  }

  lemma NextKeepsRoom(cfg: Config, w: World, e: Event)
    requires cfg.Valid() && Sound(cfg, w) && Roomy(cfg, w.state, HolderPc(w)) && Obeys(e)
    ensures Roomy(cfg, Next(cfg, w, e).state, HolderPc(Next(cfg, w, e)))
  {
    hide Work, RowText, Fields, Phase;
    if Enabled(w, e) && e.Step? {
      var me := w.threads[e.thread];
      assert w.lock == Some(e.thread);
      WorkKeepsRoom(cfg, w.state, me.pc, RowText(Fields(Program(w, e.thread)[me.next])), e.env);
    }
  }

  lemma {:induction false} RunKeepsRoom(cfg: Config, w: World, events: seq<Event>)
    requires cfg.Valid() && Sound(cfg, w) && Roomy(cfg, w.state, HolderPc(w))
    requires forall i :: 0 <= i < |events| ==> Obeys(events[i])
    ensures Roomy(cfg, Run(cfg, w, events).state, HolderPc(Run(cfg, w, events)))
    decreases |events|
  {
    hide Next, Sound, Roomy;
    if events == [] {
    } else {
      NextIsSound(cfg, w, events[0]);
      NextKeepsRoom(cfg, w, events[0]);
      RunKeepsRoom(cfg, Next(cfg, w, events[0]), events[1..]);
    }
  }

  /**
   * What this means for the appender: at every moment of every run, two threads are never both
   * inside `write`; an open handle is on file 0 and its tracked size is the file's real length;
   * the file is only opened with the handle closed; and every file with a number above 0 is larger
   * than the limit. As long as no rename and no removal is refused, no rename finds its target.
   */
  lemma EveryMoment(cfg: Config, disk: Disk, events: seq<Event>, t: nat, u: nat)
    requires cfg.Valid() && NoFamilyFiles(cfg, disk)
    ensures var w := Run(cfg, Initial(disk), events);
            && (t in w.threads && u in w.threads && w.threads[t].pc != Outside && w.threads[u].pc != Outside ==> t == u)
            && SizeIsReal(cfg, w.state)
            && (t in w.threads && w.threads[t].pc == Opening ==> w.state.handle == None)
            && (t in w.threads && w.threads[t].pc.Renaming? ==> 0 <= w.threads[t].pc.fileNumber < cfg.Last())
            && (forall j :: 1 <= j <= cfg.Last() && cfg.names[j] in w.state.disk ==>
                  |w.state.disk[cfg.names[j]]| > cfg.maxSize)
            && ((forall i :: 0 <= i < |events| ==> Obeys(events[i])) ==>
                  t in w.threads && w.threads[t].pc.Renaming? ==>
                    cfg.names[w.threads[t].pc.fileNumber + 1] !in w.state.disk)
  {
    hide Run;
    InitialIsSound(cfg, disk);
    RunIsSound(cfg, Initial(disk), events);
    if forall i :: 0 <= i < |events| ==> Obeys(events[i]) {
      RunKeepsRoom(cfg, Initial(disk), events);
    }
  }

  // ---------- files outside the family ----------

  lemma WorkTouchesFamilyOnly(cfg: Config, s: State, pc: Pc, data: string, env: Env, name: string)
    requires cfg.Valid() && Phase(cfg, s, pc) && Busy(pc) && name !in cfg.names
    ensures Content(Work(cfg, s, pc, data, env).0.disk, name) == Content(s.disk, name)
  {
    assert cfg.names[0] in cfg.names && cfg.names[cfg.Last()] in cfg.names;
    if pc.Renaming? {
      assert cfg.names[pc.fileNumber] in cfg.names && cfg.names[pc.fileNumber + 1] in cfg.names;
    }
  }

  lemma NextTouchesFamilyOnly(cfg: Config, w: World, e: Event, name: string)
    requires cfg.Valid() && Sound(cfg, w) && name !in cfg.names
    ensures Content(Next(cfg, w, e).state.disk, name) == Content(w.state.disk, name)
  {
    hide Work, Content, RowText, Fields, Phase;
    if Enabled(w, e) && e.Step? {
      var me := w.threads[e.thread];
      assert w.lock == Some(e.thread);
      WorkTouchesFamilyOnly(cfg, w.state, me.pc, RowText(Fields(Program(w, e.thread)[me.next])), e.env, name);
    }
  }

  /** No run creates, changes or removes a file outside the family. */
  lemma {:induction false} RunTouchesFamilyOnly(cfg: Config, w: World, events: seq<Event>, name: string)
    requires cfg.Valid() && Sound(cfg, w) && name !in cfg.names
    ensures Content(Run(cfg, w, events).state.disk, name) == Content(w.state.disk, name)
    decreases |events|
  {
    if events == [] {
    } else {
      NextIsSound(cfg, w, events[0]);
      NextTouchesFamilyOnly(cfg, w, events[0], name);
      RunTouchesFamilyOnly(cfg, Next(cfg, w, events[0]), events[1..], name);
    }
  }

  lemma {:induction false} AtMostAsMany(names: seq<string>)
    ensures |set n | n in names| <= |names|
  {
    if names == [] {
    } else {
      var rest := names[1..];
      AtMostAsMany(rest);
      assert (set n | n in names) == (set n | n in rest) + {names[0]};
    }
  }

  /** The files a run adds to a directory: never more than max(maxFiles, 1), at any moment. */
  lemma FilesAdded(fileName: string, maxFileSize: nat, maxFiles: int, overwrites: bool,
                   disk: Disk, events: seq<Event>)
    requires NoFamilyFiles(Configured(fileName, maxFileSize, maxFiles, overwrites), disk)
    ensures var cfg := Configured(fileName, maxFileSize, maxFiles, overwrites);
            |Run(cfg, Initial(disk), events).state.disk.Keys - disk.Keys| <= Max(maxFiles, 1)
  {
    var cfg := Configured(fileName, maxFileSize, maxFiles, overwrites);
    var after := Run(cfg, Initial(disk), events).state.disk;
    InitialIsSound(cfg, disk);
    var family := set n | n in cfg.names;
    forall name | name in after.Keys - disk.Keys ensures name in family {
      if name !in cfg.names {
        RunTouchesFamilyOnly(cfg, Initial(disk), events, name);
      }
    }
    AtMostAsMany(cfg.names);
    SubsetSize(after.Keys - disk.Keys, family);
  }

  // ---------- after a failed open ----------

  ghost predicate Inert(cfg: Config, w: World)
    requires cfg.Valid()
  {
    Sound(cfg, w) && GaveUp(w.state) && HolderPc(w) in {Outside, Entered, Appending, Leaving}
  }

  /** A failed open makes the appender inert ... */
  lemma FailedOpenGivesUp(cfg: Config, w: World, t: nat, env: Env)
    requires cfg.Valid() && Sound(cfg, w)
    requires Enabled(w, Step(t, env)) && w.threads[t].pc == Opening && !env.opens
    ensures Inert(cfg, Next(cfg, w, Step(t, env)))
    ensures Next(cfg, w, Step(t, env)).state.disk == w.state.disk
  {
    NextIsSound(cfg, w, Step(t, env));
    assert w.lock == Some(t);
  }

  lemma InertWork(cfg: Config, s: State, pc: Pc, data: string, env: Env)
    requires cfg.Valid() && GaveUp(s) && pc in {Entered, Appending}
    ensures Work(cfg, s, pc, data, env) == (s, if pc == Entered then Appending else Leaving)
  {
  }

  lemma InertStays(cfg: Config, w: World, e: Event)
    requires cfg.Valid() && Inert(cfg, w) && !e.Launch?
    ensures Inert(cfg, Next(cfg, w, e)) && Next(cfg, w, e).state == w.state
    ensures Next(cfg, w, e).history == w.history
  {
    hide Work, RowText, Fields, Phase;
    NextIsSound(cfg, w, e);
    if Enabled(w, e) && e.Step? {
      assert w.lock == Some(e.thread);
      var me := w.threads[e.thread];
      InertWork(cfg, w.state, me.pc, RowText(Fields(Program(w, e.thread)[me.next])), e.env);
    }
  }

  /** ... and until the process starts again no write of any thread changes any file. */
  lemma {:induction false} InertForEver(cfg: Config, w: World, events: seq<Event>)
    requires cfg.Valid() && Inert(cfg, w)
    requires forall i :: 0 <= i < |events| ==> !events[i].Launch?
    ensures Run(cfg, w, events).state == w.state && Run(cfg, w, events).history == w.history
    decreases |events|
  {
    if events == [] {
    } else {
      InertStays(cfg, w, events[0]);
      InertForEver(cfg, Next(cfg, w, events[0]), events[1..]);
    }
  }
}
