/**
 * Atomicity: however the threads interleave, whatever the system answers and wherever processes
 * stop, the log is at every moment what one write after the other makes of it, each done from its
 * start to its end, or up to where its process was stopped. So what is proved of sequential runs
 * holds of concurrent ones.
 */
module LogAtomic {
  import opened Text
  import opened Files
  import opened CsvFormatter
  import opened RollingAppender
  import opened LogMachine
  import opened LogPhases
  import opened LogMerge
  import opened Accounting
  import opened LogSpace

  // ---------- one thing after the other ----------

  datatype Act =
    | Done(data: string, env: Env)                  // a whole write
    | Stopped(data: string, env: Env, steps: nat)   // a process stops after some steps of a write; a new one starts
    | Started                                       // a new process starts between two writes

  /** The files as they are, and an appender not yet used. */
  function Fresh(disk: Disk): State
  {
    State(disk, None, 0, true)
  }

  function Enact(cfg: Config, s: State, act: Act): State
    requires cfg.Valid()
  {
    match act
    case Done(data, env) => Written(cfg, s, data, env)
    case Stopped(data, env, steps) => Fresh(First(cfg, s, data, env, steps).0.disk)
    case Started => Fresh(s.disk)
  }

  function Enacted(cfg: Config, s: State, acts: seq<Act>): State
    requires cfg.Valid()
  {
    if acts == [] then s else Enact(cfg, Enacted(cfg, s, acts[..|acts| - 1]), acts[|acts| - 1])
  }

  lemma EnactedOneMore(cfg: Config, s: State, acts: seq<Act>, act: Act)
    requires cfg.Valid()
    ensures Enacted(cfg, s, acts + [act]) == Enact(cfg, Enacted(cfg, s, acts), act)
  {
    assert (acts + [act])[..|acts|] == acts;
  }

  // ---------- reading a run ----------

  /**
   * What is over, in the order in which the mutex was given back; and of the write under way the
   * number of its steps and the answers they got.
   */
  datatype Serial = Serial(acts: seq<Act>, env: Env, steps: nat)

  const NOTHING: Serial := Serial([], SUCCESS, 0)

  /** The row of the record that the write of a thread is about. */
  function RowInHand(w: World, t: nat): string
  {
    if t !in w.threads then ""
    else
      var k := w.threads[t].next - if w.threads[t].pc == Leaving then 1 else 0;
      if 0 <= k < |Program(w, t)| then RowText(Fields(Program(w, t)[k])) else ""
  }

  /** The answers given so far, with the one to the step at `pc`. */
  function Answered(cfg: Config, pc: Pc, e: Env, now: Env): Env
  {
    match pc
    case Unlinking => e.(refused := WithAnswer(e.refused, now.refused, cfg.Last()))
    case Renaming(j) => e.(refused := WithAnswer(e.refused, now.refused, j))
    case Opening => e.(opens := now.opens)
    case Heading => e.(header := now.header)
    case Appending => e.(record := now.record)
    case _ => e
  }

  function WithAnswer(refused: set<int>, now: set<int>, fileNumber: int): set<int>
  {
    if fileNumber in now then refused + {fileNumber} else refused - {fileNumber}
  }

  function Continued(cfg: Config, w: World, x: Serial, e: Event): Serial
  {
    if !Enabled(w, e) then x
    else match e
      case Launch(_) =>
        var act := if w.lock.Some? then Stopped(RowInHand(w, w.lock.value), x.env, x.steps) else Started;
        Serial(if w.started == [] then x.acts else x.acts + [act], SUCCESS, 0)
      case Acquire(_) => Serial(x.acts, SUCCESS, 0)
      case Step(t, env) => Serial(x.acts, Answered(cfg, w.threads[t].pc, x.env, env), x.steps + 1)
      case Release(t) => Serial(x.acts + [Done(RowInHand(w, t), x.env)], SUCCESS, 0)
  }

  /** The whole run read like this. */
  function Transcript(cfg: Config, w: World, x: Serial, events: seq<Event>): Serial
    requires cfg.Valid()
    decreases |events|
  {
    if events == [] then x else Transcript(cfg, Next(cfg, w, events[0]), Continued(cfg, w, x, events[0]), events[1..])
  }

  // ---------- one step of the write under way ----------

  /** The answers already given to a thread at `pc` are the same. */
  ghost predicate Agree(pc: Pc, e: Env, f: Env)
  {
    && (pc.Renaming? ==> forall k :: k > pc.fileNumber ==> (k in e.refused <==> k in f.refused))
    && (pc in {Opening, Heading, Appending, Leaving} ==> forall k :: k >= 0 ==> (k in e.refused <==> k in f.refused))
    && (pc in {Heading, Appending, Leaving} ==> e.opens == f.opens)
    && (pc in {Appending, Leaving} ==> e.header == f.header)
    && (pc == Leaving ==> e.record == f.record)
  }

  /** Whatever the answers still to come, this is where the write stands after its steps. */
  ghost predicate UnderWay(cfg: Config, start: State, s: State, pc: Pc, data: string, env: Env, steps: nat)
    requires cfg.Valid()
  {
    forall f :: Agree(pc, env, f) ==> First(cfg, start, data, f, steps) == (s, pc)
  }

  lemma SameAnswer(cfg: Config, s: State, pc: Pc, data: string, env: Env, now: Env, f: Env)
    requires cfg.Valid() && Busy(pc) && (pc.Renaming? ==> 0 <= pc.fileNumber < cfg.Last())
    requires Agree(Work(cfg, s, pc, data, now).1, Answered(cfg, pc, env, now), f)
    ensures Work(cfg, s, pc, data, f) == Work(cfg, s, pc, data, now) && Agree(pc, env, f)
  {
  }

  lemma WorkKeepsUnderWay(cfg: Config, start: State, s: State, pc: Pc, data: string, env: Env, steps: nat, now: Env)
    requires cfg.Valid() && Busy(pc) && (pc.Renaming? ==> 0 <= pc.fileNumber < cfg.Last())
    requires UnderWay(cfg, start, s, pc, data, env, steps)
    ensures var (s', pc') := Work(cfg, s, pc, data, now);
            UnderWay(cfg, start, s', pc', data, Answered(cfg, pc, env, now), steps + 1)
  {
    hide Work, Agree, Answered;
    var (s', pc') := Work(cfg, s, pc, data, now);
    forall f | Agree(pc', Answered(cfg, pc, env, now), f)
      ensures First(cfg, start, data, f, steps + 1) == (s', pc')
    {
      SameAnswer(cfg, s, pc, data, env, now, f);
    }
  }

  lemma StandsHere(cfg: Config, start: State, s: State, pc: Pc, data: string, env: Env, steps: nat)
    requires cfg.Valid() && UnderWay(cfg, start, s, pc, data, env, steps)
    ensures First(cfg, start, data, env, steps) == (s, pc)
  {
    assert Agree(pc, env, env);
  }

  lemma WriteIsOver(cfg: Config, start: State, s: State, data: string, env: Env, steps: nat)
    requires cfg.Valid() && UnderWay(cfg, start, s, Leaving, data, env, steps)
    ensures s == Written(cfg, start, data, env)
  {
    StandsHere(cfg, start, s, Leaving, data, env, steps);
    AloneAfter(cfg, start, data, env, steps);
    StepsRefineWrite(cfg, start, data, env);
  }

  // ---------- the invariant ----------

  ghost predicate Explained(cfg: Config, disk: Disk, w: World, x: Serial)
    requires cfg.Valid()
  {
    var before := Enacted(cfg, Fresh(disk), x.acts);
    && Sound(cfg, w)
    && (w.started == [] ==> x.acts == [])
    && match w.lock
       case None => w.state == before
       case Some(t) => UnderWay(cfg, before, w.state, HolderPc(w), RowInHand(w, t), x.env, x.steps)
  }

  lemma StepIsExplained(cfg: Config, disk: Disk, w: World, x: Serial, t: nat, env: Env)
    requires cfg.Valid() && Explained(cfg, disk, w, x) && Enabled(w, Step(t, env))
    ensures Explained(cfg, disk, Next(cfg, w, Step(t, env)), Continued(cfg, w, x, Step(t, env)))
  {
    hide Work, UnderWay, RowText, Fields, Phase, Enacted, Answered;
    var me := w.threads[t];
    var w' := Next(cfg, w, Step(t, env));
    NextIsSound(cfg, w, Step(t, env));
    assert w.lock == Some(t);
    assert me.pc.Renaming? ==> 0 <= me.pc.fileNumber < cfg.Last() by {
      RenamesInRange(cfg, w.state, me.pc);
    }
    WorkKeepsUnderWay(cfg, Enacted(cfg, Fresh(disk), x.acts), w.state, me.pc, RowInHand(w, t), x.env, x.steps, env);
    WorkStaysInside(cfg, w.state, me.pc, RowInHand(w, t), env);
    assert Program(w', t) == Program(w, t);
    assert RowInHand(w', t) == RowInHand(w, t);
  }

  lemma ReleaseIsExplained(cfg: Config, disk: Disk, w: World, x: Serial, t: nat)
    requires cfg.Valid() && Explained(cfg, disk, w, x) && Enabled(w, Release(t))
    ensures Explained(cfg, disk, Next(cfg, w, Release(t)), Continued(cfg, w, x, Release(t)))
  {
    hide Work, UnderWay, RowInHand, Phase, Enacted, Written, Program;
    NextIsSound(cfg, w, Release(t));
    assert w.lock == Some(t);
    var before := Enacted(cfg, Fresh(disk), x.acts);
    WriteIsOver(cfg, before, w.state, RowInHand(w, t), x.env, x.steps);
    EnactedOneMore(cfg, Fresh(disk), x.acts, Done(RowInHand(w, t), x.env));
  }

  lemma AcquireIsExplained(cfg: Config, disk: Disk, w: World, x: Serial, t: nat)
    requires cfg.Valid() && Explained(cfg, disk, w, x) && Enabled(w, Acquire(t))
    ensures Explained(cfg, disk, Next(cfg, w, Acquire(t)), Continued(cfg, w, x, Acquire(t)))
  {
    hide Work, RowInHand, Phase, Enacted, Program;
    NextIsSound(cfg, w, Acquire(t));
  }

  lemma LaunchIsExplained(cfg: Config, disk: Disk, w: World, x: Serial, programs: Programs)
    requires cfg.Valid() && Explained(cfg, disk, w, x)
    requires w.started == [] ==> w.state == Fresh(disk)
    ensures Explained(cfg, disk, Next(cfg, w, Launch(programs)), Continued(cfg, w, x, Launch(programs)))
  {
    hide Work, UnderWay, RowInHand, Phase, Program;
    var before := Enacted(cfg, Fresh(disk), x.acts);
    NextIsSound(cfg, w, Launch(programs));
    if w.lock.Some? {
      var data := RowInHand(w, w.lock.value);
      StandsHere(cfg, before, w.state, HolderPc(w), data, x.env, x.steps);
      EnactedOneMore(cfg, Fresh(disk), x.acts, Stopped(data, x.env, x.steps));
    } else {
      EnactedOneMore(cfg, Fresh(disk), x.acts, Started);
    }
  }

  lemma ThreadsNeedProcess(cfg: Config, disk: Disk, w: World, x: Serial)
    requires cfg.Valid() && Explained(cfg, disk, w, x)
    ensures w.started == [] ==> forall t :: t !in w.threads
  {
  }

  lemma NextIsExplained(cfg: Config, disk: Disk, w: World, x: Serial, e: Event)
    requires cfg.Valid() && Explained(cfg, disk, w, x)
    requires w.started == [] ==> w.state == Fresh(disk)
    ensures Explained(cfg, disk, Next(cfg, w, e), Continued(cfg, w, x, e))
    ensures Next(cfg, w, e).started == [] ==> Next(cfg, w, e).state == Fresh(disk)
  {
    hide Explained, RowInHand, Work, Program, RowText, Fields;
    ThreadsNeedProcess(cfg, disk, w, x);
    if Enabled(w, e) {
      match e
      case Launch(programs) => LaunchIsExplained(cfg, disk, w, x, programs);
      case Acquire(t) => AcquireIsExplained(cfg, disk, w, x, t);
      case Step(t, env) => StepIsExplained(cfg, disk, w, x, t, env);
      case Release(t) => ReleaseIsExplained(cfg, disk, w, x, t);
    }
  }

  lemma {:induction false} RunIsExplained(cfg: Config, disk: Disk, w: World, x: Serial, events: seq<Event>)
    requires cfg.Valid() && Explained(cfg, disk, w, x)
    requires w.started == [] ==> w.state == Fresh(disk)
    ensures Explained(cfg, disk, Run(cfg, w, events), Transcript(cfg, w, x, events))
    decreases |events|
  {
    hide Explained, Next, Continued;
    if events == [] {
    } else {
      NextIsExplained(cfg, disk, w, x, events[0]);
      RunIsExplained(cfg, disk, Next(cfg, w, events[0]), Continued(cfg, w, x, events[0]), events[1..]);
    }
  }

  lemma InitialIsExplained(cfg: Config, disk: Disk)
    requires cfg.Valid() && NoFamilyFiles(cfg, disk)
    ensures Explained(cfg, disk, Initial(disk), NOTHING)
  {
    InitialIsSound(cfg, disk);
  }

  /**
   * For every run, any threads and interleaving, any answers of the system and any process stopped
   * at any step: the state is what the writes of the run make of the files there at the start, one
   * after the other in the order of the mutex - whole, or up to where their process was stopped -
   * and then the first steps of the write under way, if there is one.
   */
  lemma WritesAreAtomic(cfg: Config, disk: Disk, events: seq<Event>)
    requires cfg.Valid() && NoFamilyFiles(cfg, disk)
    ensures var w := Run(cfg, Initial(disk), events);
            var x := Transcript(cfg, Initial(disk), NOTHING, events);
            var before := Enacted(cfg, Fresh(disk), x.acts);
            match w.lock
            case None => w.state == before
            case Some(t) => (w.state, HolderPc(w)) == First(cfg, before, RowInHand(w, t), x.env, x.steps)
  {
    hide Run, Transcript, UnderWay, RowInHand;
    InitialIsExplained(cfg, disk);
    RunIsExplained(cfg, disk, Initial(disk), NOTHING, events);
    var w := Run(cfg, Initial(disk), events);
    var x := Transcript(cfg, Initial(disk), NOTHING, events);
    if w.lock.Some? {
      StandsHere(cfg, Enacted(cfg, Fresh(disk), x.acts), w.state, HolderPc(w), RowInHand(w, w.lock.value), x.env, x.steps);
    }
  }

  // ---------- processes stopped between writes only ----------

  /** The process is only stopped while nobody is inside `write`. */
  predicate StopsBetweenWrites(cfg: Config, w: World, events: seq<Event>)
    requires cfg.Valid()
    decreases |events|
  {
    events == []
    || ((events[0].Launch? ==> w.lock == None) && StopsBetweenWrites(cfg, Next(cfg, w, events[0]), events[1..]))
  }

  predicate Uncut(acts: seq<Act>)
  {
    forall i :: 0 <= i < |acts| ==> !acts[i].Stopped?
  }

  function OpOf(act: Act): Op
  {
    if act.Done? then Write(act.data, act.env) else Restart
  }

  function OpsOf(acts: seq<Act>): seq<Op>
  {
    seq(|acts|, i requires 0 <= i < |acts| => OpOf(acts[i]))
  }

  lemma OpsOneMore(acts: seq<Act>, act: Act)
    ensures OpsOf(acts + [act]) == OpsOf(acts) + [OpOf(act)]
  {
  }

  /** Whole writes and restarts do what the ledger says. */
  lemma {:induction false} UncutIsAccount(cfg: Config, disk: Disk, acts: seq<Act>)
    requires cfg.Valid() && Uncut(acts)
    ensures Enacted(cfg, Fresh(disk), acts) == Account(cfg, NewLedger(disk), OpsOf(acts)).state
    decreases |acts|
  {
    hide Written;
    if acts == [] {
      assert OpsOf([]) == [];
    } else {
      var init, last := acts[..|acts| - 1], acts[|acts| - 1];
      assert init + [last] == acts;
      UncutIsAccount(cfg, disk, init);
      OpsOneMore(init, last);
      AccountOneMore(cfg, NewLedger(disk), OpsOf(init), OpOf(last));
    }
  }

  /** The texts of the writes. */
  function Texts(ops: seq<Op>): seq<string>
  {
    if ops == [] then []
    else
      var last := ops[|ops| - 1];
      Texts(ops[..|ops| - 1]) + if last.Write? then [last.data] else []
  }

  function RowTexts(history: seq<Stamped>): seq<string>
  {
    seq(|history|, i requires 0 <= i < |history| =>
      if history[i].row == [] then "" else RowText(history[i].row))
  }

  lemma TextsOneMore(ops: seq<Op>, op: Op)
    ensures Texts(ops + [op]) == Texts(ops) + if op.Write? then [op.data] else []
  {
    assert (ops + [op])[..|ops|] == ops;
  }

  ghost predicate AllInFull(ops: seq<Op>, longest: nat)
  {
    forall i :: 0 <= i < |ops| ==> InFull(ops[i], longest)
  }

  /** The writes are the rows of the history, restarts are counted, and no row is too long. */
  ghost predicate Measured(w: World, x: Serial, longest: nat)
  {
    var ops := OpsOf(x.acts);
    && Uncut(x.acts) && x.env == SUCCESS
    && AllInFull(ops, longest)
    && Restarts(ops) == (if w.started == [] then 0 else |w.started| - 1)
    && RowTexts(w.history) == Texts(ops) + (if HolderPc(w) == Leaving then [RowInHand(w, w.lock.value)] else [])
  }

  lemma ActIsMeasured(acts: seq<Act>, act: Act, longest: nat)
    requires Uncut(acts) && !act.Stopped? && InFull(OpOf(act), longest)
    requires AllInFull(OpsOf(acts), longest)
    ensures var ops := OpsOf(acts + [act]);
            && Uncut(acts + [act])
            && AllInFull(ops, longest)
            && Restarts(ops) == Restarts(OpsOf(acts)) + (if act.Started? then 1 else 0)
            && Texts(ops) == Texts(OpsOf(acts)) + (if act.Done? then [act.data] else [])
  {
    hide Restarts, Texts;
    OpsOneMore(acts, act);
    RestartsOneMore(OpsOf(acts), OpOf(act));
    TextsOneMore(OpsOf(acts), OpOf(act));
  }

  lemma NothingRefused(cfg: Config, pc: Pc)
    ensures Answered(cfg, pc, SUCCESS, SUCCESS) == SUCCESS
  {
    assert forall j: int :: WithAnswer({}, {}, j) == {};
  }

  lemma StepIsMeasured(cfg: Config, w: World, x: Serial, t: nat, longest: nat)
    requires cfg.Valid() && Sound(cfg, w) && Measured(w, x, longest) && w.state.size >= 0
    requires Enabled(w, Step(t, SUCCESS))
    ensures Measured(Next(cfg, w, Step(t, SUCCESS)), Continued(cfg, w, x, Step(t, SUCCESS)), longest)
  {
    hide Work, RowText, Fields, Texts, Restarts, Answered, OpsOf, Uncut;
    var w' := Next(cfg, w, Step(t, SUCCESS));
    var me := w.threads[t];
    assert w.lock == Some(t);
    NothingRefused(cfg, me.pc);
    WorkStaysInside(cfg, w.state, me.pc, RowInHand(w, t), SUCCESS);
    assert Program(w', t) == Program(w, t);
    if me.pc == Appending {
      assert w.state.handle.Some?;
      assert RowTexts(w'.history) == RowTexts(w.history) + [RowInHand(w, t)];
      assert RowTexts(w.history) == Texts(OpsOf(x.acts));
      assert RowInHand(w', t) == RowInHand(w, t);
    } else {
      assert w'.history == w.history;
    }
  }

  lemma ReleaseIsMeasured(cfg: Config, w: World, x: Serial, t: nat, longest: nat)
    requires cfg.Valid() && Sound(cfg, w) && Measured(w, x, longest) && RowsFit(w, longest)
    requires Enabled(w, Release(t))
    ensures Measured(Next(cfg, w, Release(t)), Continued(cfg, w, x, Release(t)), longest)
  {
    hide RowText, Fields, Texts, RowTexts, Restarts, OpsOf, Uncut, Phase;
    assert w.lock == Some(t);
    ActIsMeasured(x.acts, Done(RowInHand(w, t), x.env), longest);
    var texts := Texts(OpsOf(x.acts));
    assert (texts + [RowInHand(w, t)]) + [] == texts + [RowInHand(w, t)];
  }

  lemma NextIsMeasured(cfg: Config, w: World, x: Serial, e: Event, longest: nat)
    requires cfg.Valid() && Sound(cfg, w) && Measured(w, x, longest) && RowsFit(w, longest)
    requires w.state.size >= 0 && Succeeds(e) && (e.Launch? ==> w.lock == None)
    ensures Measured(Next(cfg, w, e), Continued(cfg, w, x, e), longest)
  {
    hide Work, RowText, Fields, Texts, RowTexts, Restarts, OpsOf, Uncut, Phase, RowsFit, RowInHand;
    if Enabled(w, e) {
      match e
      case Step(t, env) => StepIsMeasured(cfg, w, x, t, longest);
      case Launch(_) => ActIsMeasured(x.acts, Started, longest);
      case Release(t) => ReleaseIsMeasured(cfg, w, x, t, longest);
      case Acquire(t) =>
    }
  }

  lemma {:induction false} RunIsMeasured(cfg: Config, w: World, x: Serial, events: seq<Event>, longest: nat)
    requires cfg.Valid() && Sound(cfg, w) && Measured(w, x, longest) && RowsFit(w, longest) && w.state.size >= 0
    requires StopsBetweenWrites(cfg, w, events)
    requires forall i :: 0 <= i < |events| ==> Succeeds(events[i]) && NoLonger(events[i], longest)
    ensures Measured(Run(cfg, w, events), Transcript(cfg, w, x, events), longest)
    decreases |events|
  {
    hide Sound, Next, Continued, Measured, RowsFit, NoLonger;
    if events == [] {
    } else {
      NextIsSound(cfg, w, events[0]);
      NextIsMeasured(cfg, w, x, events[0], longest);
      NextFits(cfg, w, events[0], longest);
      NextNeverGivesUp(cfg, w, events[0]);
      RunIsMeasured(cfg, Next(cfg, w, events[0]), Continued(cfg, w, x, events[0]), events[1..], longest);
    }
  }

  lemma InitialIsMeasured(disk: Disk, longest: nat)
    ensures Measured(Initial(disk), NOTHING, longest) && RowsFit(Initial(disk), longest)
  {
    assert OpsOf([]) == [];
  }

  /**
   * When no call fails and no process is stopped inside a write, these writes are the rows of the
   * history, in its order; so the sequential results hold: files exist without gaps, no file is
   * over the limit by more than the longest row for each process, and the rolls are paid for by the
   * bytes written.
   */
  lemma ConcurrentRunsAreSequential(cfg: Config, disk: Disk, events: seq<Event>, longest: nat, i: nat)
    requires cfg.Valid() && cfg.Last() > 0 && NoFamilyFiles(cfg, disk) && i <= cfg.Last()
    requires StopsBetweenWrites(cfg, Initial(disk), events)
    requires forall k :: 0 <= k < |events| ==> Succeeds(events[k]) && NoLonger(events[k], longest)
    ensures var w := Run(cfg, Initial(disk), events);
            var ops := OpsOf(Transcript(cfg, Initial(disk), NOTHING, events).acts);
            var l := Account(cfg, NewLedger(disk), ops);
            w.lock == None ==>
              && w.state == l.state
              && Texts(ops) == RowTexts(w.history)
              && (i > 0 ==> (cfg.names[i] in w.state.disk <==> i <= l.rolls))
              && SizeOf(w.state.disk, cfg.names[i]) <= cfg.maxSize + Max(|w.started|, 1) * longest
              && l.rolls * cfg.maxSize <= l.written
  {
    hide Run, Transcript, Account, OpsOf, Texts, RowTexts, Restarts, Uncut, InFull, Sound, Enacted;
    var x := Transcript(cfg, Initial(disk), NOTHING, events);
    var ops := OpsOf(x.acts);
    WritesAreAtomic(cfg, disk, events);
    InitialIsMeasured(disk, longest);
    InitialIsSound(cfg, disk);
    RunIsMeasured(cfg, Initial(disk), NOTHING, events, longest);
    UncutIsAccount(cfg, disk, x.acts);
    RetentionAndSpace(cfg, disk, ops, longest, i);
    BytesAreConserved(cfg, disk, ops);
    assert Texts(ops) + [] == Texts(ops);
  }
}
