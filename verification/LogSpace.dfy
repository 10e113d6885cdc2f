/** How large files get at any moment of any run, crashes inside a write and failing calls included. */
module LogSpace {
  import opened Text
  import opened Files
  import opened CsvFormatter
  import opened RollingAppender
  import opened LogMachine
  import opened LogPhases
  import opened Accounting

  // ---------- runs of rows up to some length ----------

  predicate NoLonger(e: Event, longest: nat)
  {
    e.Launch? ==>
      forall t :: t in e.programs ==>
        forall i :: 0 <= i < |e.programs[t]| ==> |RowText(Fields(e.programs[t][i]))| <= longest
  }

  ghost predicate RowsFit(w: World, longest: nat)
  {
    forall t :: t in w.threads ==>
      forall i :: 0 <= i < |Program(w, t)| ==> |RowText(Fields(Program(w, t)[i]))| <= longest
  }

  lemma NextFits(cfg: Config, w: World, e: Event, longest: nat)
    requires cfg.Valid() && RowsFit(w, longest) && NoLonger(e, longest)
    ensures RowsFit(Next(cfg, w, e), longest)
  {
    hide Work, RowText, Fields, Added;
    var w' := Next(cfg, w, e);
    if !e.Launch? {
      forall t | t in w'.threads ensures t in w.threads && Program(w', t) == Program(w, t) {
      }
    }
  }

  lemma {:induction false} ZeroStays(cfg: Config, disk: Disk, from: int, refused: set<int>)
    requires cfg.Valid() && -1 <= from < cfg.Last() && cfg.names[0] in disk && 0 in refused
    ensures var after := Shifted(cfg, disk, from, refused);
            cfg.names[0] in after && after[cfg.names[0]] == disk[cfg.names[0]]
    decreases from + 1
  {
    if from < 0 {
    } else {
      assert cfg.names[0] != cfg.names[from + 1];
      ZeroStays(cfg, Moved(cfg, disk, from, refused), from - 1, refused);
    }
  }

  // ---------- the invariant ----------

  /** This process has not appended to file 0 yet, or is about to and has seen that it is not full. */
  predicate MayAppend(s: State, pc: Pc)
  {
    s.firstWrite || pc == Opening || pc == Heading || (pc == Appending && s.handle.Some?)
  }

  /** No file is over `high`; file 0 is not over `low` while a record may still be appended to it. */
  ghost predicate Bounded(cfg: Config, s: State, pc: Pc, low: int, high: int)
    requires cfg.Valid()
  {
    && (forall i :: 0 <= i <= cfg.Last() ==> SizeOf(s.disk, cfg.names[i]) <= high)
    && (MayAppend(s, pc) ==> SizeOf(s.disk, cfg.names[0]) <= low)
  }

  lemma MoveKeepsBounds(cfg: Config, s: State, j: int, refused: set<int>, low: int, high: int)
    requires cfg.Valid() && 0 <= j < cfg.Last() && Bounded(cfg, s, Renaming(j), low, high)
    ensures var disk := Moved(cfg, s.disk, j, refused);
            && (forall i :: 0 <= i <= cfg.Last() ==> SizeOf(disk, cfg.names[i]) <= high)
            && (j > 0 ==> SizeOf(disk, cfg.names[0]) == SizeOf(s.disk, cfg.names[0]))
  {
    var after := Moved(cfg, s.disk, j, refused);
    forall i | 0 <= i <= cfg.Last() ensures SizeOf(after, cfg.names[i]) <= high {
      if i == j + 1 {
        assert SizeOf(s.disk, cfg.names[j]) <= high;
      } else if i != j {
        assert cfg.names[i] != cfg.names[j + 1] && cfg.names[i] != cfg.names[j];
        assert SizeOf(after, cfg.names[i]) == SizeOf(s.disk, cfg.names[i]);
      }
    }
    assert cfg.names[0] != cfg.names[j + 1];
  }

  lemma PutKeepsBounds(cfg: Config, s: State, data: string, io: Io, high: int)
    requires cfg.Valid() && SizeIsReal(cfg, s)
    requires forall i :: 0 <= i <= cfg.Last() ==> SizeOf(s.disk, cfg.names[i]) <= high
    requires s.handle.Some? ==> SizeOf(s.disk, cfg.names[0]) + |data| <= high
    ensures var disk := Put(s, data, io).disk;
            && (forall i :: 0 <= i <= cfg.Last() ==> SizeOf(disk, cfg.names[i]) <= high)
            && SizeOf(disk, cfg.names[0]) <= SizeOf(s.disk, cfg.names[0]) + |data|
  {
  }

  /** A roll is about to open file 0 and has not moved it away. */
  predicate StuckAt(cfg: Config, s: State, pc: Pc)
    requires cfg.Valid()
  {
    pc == Opening && !s.firstWrite && cfg.names[0] in s.disk
  }

  /** One step of one thread, whatever the system answers. A roll that gets stuck allows one more record. */
  lemma WorkKeepsBounds(cfg: Config, s: State, pc: Pc, data: string, env: Env, low: int, high: int)
    requires cfg.Valid() && cfg.Last() > 0 && Busy(pc) && Phase(cfg, s, pc)
    requires Bounded(cfg, s, pc, low, high) && 0 <= cfg.maxSize <= low && low + |data| <= high
    ensures var (s', pc') := Work(cfg, s, pc, data, env);
            if StuckAt(cfg, s', pc') then Bounded(cfg, s', pc', high, high) else Bounded(cfg, s', pc', low, high)
  {
    hide RolledAreFull;
    match pc
    case Renaming(j) => MoveKeepsBounds(cfg, s, j, env.refused, low, high);
    case Heading => PutKeepsBounds(cfg, s, cfg.header, env.header, high);
    case Appending => PutKeepsBounds(cfg, s, data, env.record, high);
    case _ =>
  }

  /** How often file 0 gets another record over the limit: a process starts, or a roll gets stuck. */
  predicate Allows(cfg: Config, w: World, e: Event)
    requires cfg.Valid()
  {
    e.Launch? || (Enabled(w, e) && e.Step? && StuckAt(cfg, Next(cfg, w, e).state, HolderPc(Next(cfg, w, e))))
  }

  /** The rolls of a run that left file 0 where it was. */
  function StuckRolls(cfg: Config, w: World, events: seq<Event>): nat
    requires cfg.Valid()
    decreases |events|
  {
    if events == [] then 0
    else
      (if !events[0].Launch? && Allows(cfg, w, events[0]) then 1 else 0)
      + StuckRolls(cfg, Next(cfg, w, events[0]), events[1..])
  }

  function Low(cfg: Config, n: nat, longest: nat): int
  {
    cfg.maxSize + Times(if n == 0 then 0 else n - 1, longest)
  }

  function High(cfg: Config, n: nat, longest: nat): int
  {
    cfg.maxSize + Times(n, longest)
  }

  /** `n` records may be over the limit. */
  ghost predicate InBounds(cfg: Config, w: World, n: nat, longest: nat)
    requires cfg.Valid()
  {
    && n >= |w.started|
    && Bounded(cfg, w.state, HolderPc(w), Low(cfg, n, longest), High(cfg, n, longest))
  }

  lemma LowToHigh(cfg: Config, n: nat, longest: nat)
    ensures cfg.maxSize <= Low(cfg, n, longest) <= High(cfg, n, longest) == Low(cfg, n + 1, longest)
    ensures High(cfg, n, longest) <= High(cfg, n + 1, longest)
    ensures n > 0 ==> Low(cfg, n, longest) + longest == High(cfg, n, longest)
  {
    TimesGrow(n, longest);
    if n > 0 {
      TimesGrow(n - 1, longest);
    }
  }

  lemma StepIsInBounds(cfg: Config, w: World, t: nat, env: Env, n: nat, longest: nat)
    requires cfg.Valid() && cfg.Last() > 0 && Sound(cfg, w) && InBounds(cfg, w, n, longest) && RowsFit(w, longest)
    requires Enabled(w, Step(t, env))
    ensures InBounds(cfg, Next(cfg, w, Step(t, env)), if Allows(cfg, w, Step(t, env)) then n + 1 else n, longest)
  {
    hide Work, RowText, Fields, Phase, Added, Low, High, StuckAt;
    var me := w.threads[t];
    var w' := Next(cfg, w, Step(t, env));
    assert w.lock == Some(t);
    assert w.started != [];
    LowToHigh(cfg, n, longest);
    WorkKeepsBounds(cfg, w.state, me.pc, RowText(Fields(Program(w, t)[me.next])), env,
                    Low(cfg, n, longest), High(cfg, n, longest));
    assert HolderPc(w') == w'.threads[t].pc;
  }

  lemma NextIsInBounds(cfg: Config, w: World, e: Event, n: nat, longest: nat)
    requires cfg.Valid() && cfg.Last() > 0 && Sound(cfg, w) && InBounds(cfg, w, n, longest) && RowsFit(w, longest)
    ensures InBounds(cfg, Next(cfg, w, e), if Allows(cfg, w, e) then n + 1 else n, longest)
  {
    hide Work, RowText, Fields, Phase, Low, High;
    if Enabled(w, e) {
      match e
      case Launch(_) => LowToHigh(cfg, n, longest);
      case Acquire(_) =>
      case Step(t, env) => StepIsInBounds(cfg, w, t, env, n, longest);
      case Release(t) => assert w.lock == Some(t);
    }
  }

  lemma LaunchesAllow(cfg: Config, w: World, e: Event)
    requires cfg.Valid()
    ensures |Next(cfg, w, e).started| == |w.started| + if e.Launch? then 1 else 0
    ensures e.Launch? ==> Allows(cfg, w, e)
  {
  }

  lemma {:induction false} RunIsInBounds(cfg: Config, w: World, events: seq<Event>, n: nat, longest: nat)
    requires cfg.Valid() && cfg.Last() > 0 && Sound(cfg, w) && InBounds(cfg, w, n, longest) && RowsFit(w, longest)
    requires forall k :: 0 <= k < |events| ==> NoLonger(events[k], longest)
    ensures var w' := Run(cfg, w, events);
            InBounds(cfg, w', n + |w'.started| - |w.started| + StuckRolls(cfg, w, events), longest)
    decreases |events|
  {
    hide Sound, InBounds, RowsFit, NoLonger, Allows, Work;
    if events == [] {
    } else {
      var w1 := Next(cfg, w, events[0]);
      NextIsSound(cfg, w, events[0]);
      NextIsInBounds(cfg, w, events[0], n, longest);
      NextFits(cfg, w, events[0], longest);
      LaunchesAllow(cfg, w, events[0]);
      RunIsInBounds(cfg, w1, events[1..], if Allows(cfg, w, events[0]) then n + 1 else n, longest);
    }
  }

  lemma {:induction false} NoneStuck(cfg: Config, w: World, events: seq<Event>)
    requires cfg.Valid() && Sound(cfg, w) && Roomy(cfg, w.state, HolderPc(w))
    requires forall k :: 0 <= k < |events| ==> Obeys(events[k])
    ensures StuckRolls(cfg, w, events) == 0
    decreases |events|
  {
    hide Next, Sound;
    if events == [] {
    } else {
      NextIsSound(cfg, w, events[0]);
      NextKeepsRoom(cfg, w, events[0]);
      NoneStuck(cfg, Next(cfg, w, events[0]), events[1..]);
    }
  }

  /**
   * With more than one file, at every moment of every run - any threads, short and failed calls,
   * refused renames, and processes stopped between any two steps: no file is over the limit by more
   * than the longest row for each process started and for each roll that left file 0 in its place.
   * There is no such roll as long as no rename and no removal is refused.
   */
  lemma EveryFileIsBounded(cfg: Config, disk: Disk, events: seq<Event>, longest: nat, i: nat)
    requires cfg.Valid() && cfg.Last() > 0 && NoFamilyFiles(cfg, disk) && i <= cfg.Last()
    requires forall k :: 0 <= k < |events| ==> NoLonger(events[k], longest)
    ensures var w := Run(cfg, Initial(disk), events);
            SizeOf(w.state.disk, cfg.names[i])
            <= cfg.maxSize + (|w.started| + StuckRolls(cfg, Initial(disk), events)) * longest
    ensures (forall k :: 0 <= k < |events| ==> Obeys(events[k])) ==> StuckRolls(cfg, Initial(disk), events) == 0
  {
    hide Run, StuckRolls;
    InitialIsSound(cfg, disk);
    RunIsInBounds(cfg, Initial(disk), events, 0, longest);
    if forall k :: 0 <= k < |events| ==> Obeys(events[k]) {
      NoneStuck(cfg, Initial(disk), events);
    }
  }

  /**
   * Where the system never lets file 0 be renamed, every write adds to it, however large it is: this
   * one leaves the next one in the same position.
   */
  lemma StuckFileGrows(cfg: Config, s: State, data: string, refused: set<int>)
    requires cfg.Valid() && SizeIsReal(cfg, s) && s.handle.Some? && MustRoll(cfg, s) && 0 in refused
    ensures var s' := Written(cfg, s, data, SUCCESS.(refused := refused));
            && SizeIsReal(cfg, s') && s'.handle.Some? && MustRoll(cfg, s')
            && s'.disk[cfg.names[0]] == s.disk[cfg.names[0]] + data
  {
    ZeroStays(cfg, Removed(cfg, s.disk, refused), cfg.Last() - 1, refused);
    assert cfg.names[0] != cfg.names[cfg.Last()];
    assert data[..|data|] == data;
  }
}
