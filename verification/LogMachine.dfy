/**
 * Any number of threads logging through one appender, one small step at a time, with the process
 * stopping and starting again at any point between two steps.
 */
module LogMachine {
  import opened Text
  import opened Files
  import opened CsvFormatter
  import opened RollingAppender

  // ---------- one write, step by step ----------

  /** Where a thread stands in `write`. */
  datatype Pc =
    | Outside                       // not in `write`, or waiting for the mutex
    | Entered                       // holds the mutex, about to look at the flags
    | Closing                       // roll: about to close
    | Unlinking                     // roll: about to remove the last file
    | Renaming(fileNumber: int)     // roll: about to rename this file to the next number
    | Opening                       // about to open file 0
    | Heading                       // about to write the header
    | Appending                     // about to write the record
    | Leaving                       // about to release the mutex

  function FirstRename(cfg: Config): Pc
  {
    if cfg.Last() > 0 then Renaming(cfg.Last() - 1) else Opening
  }

  /** The next step of the thread that stands at `pc`, and where it stands afterwards. */
  function Work(cfg: Config, s: State, pc: Pc, data: string, env: Env): (State, Pc)
    requires cfg.Valid()
  {
    match pc
    case Outside => (s, pc)
    case Entered => (s, if s.firstWrite then Opening else if MustRoll(cfg, s) then Closing else Appending)
    case Closing => (s.(handle := None), Unlinking)
    case Unlinking => (s.(disk := Removed(cfg, s.disk, env.refused)), FirstRename(cfg))
    case Renaming(j) =>
      if 0 <= j < cfg.Last() then
        (s.(disk := Moved(cfg, s.disk, j, env.refused)), if j == 0 then Opening else Renaming(j - 1))
      else (s, Opening)
    case Opening =>
      var o := Opened(cfg, s, env.opens);
      if o.size == 0 then (o, Heading) else (o.(firstWrite := false), Appending)
    case Heading => (Put(s, cfg.header, env.header).(firstWrite := false), Appending)
    case Appending => (Put(s, data, env.record), Leaving)
    case Leaving => (s, pc)
  }

  function Rank(pc: Pc): nat
  {
    match pc
    case Entered => 7
    case Closing => 6
    case Unlinking => 5
    case Renaming(_) => 4
    case Opening => 3
    case Heading => 2
    case Appending => 1
    case _ => 0
  }

  /** The steps of one write with nobody in between. */
  function Alone(cfg: Config, s: State, pc: Pc, data: string, env: Env): State
    requires cfg.Valid()
    decreases Rank(pc), if pc.Renaming? && pc.fileNumber >= 0 then pc.fileNumber + 1 else 0
  {
    if pc.Outside? || pc.Leaving? then s
    else
      var (s', pc') := Work(cfg, s, pc, data, env);
      Alone(cfg, s', pc', data, env)
  }

  /** The first `n` steps of one write, from the look at the flags on. */
  function First(cfg: Config, s: State, data: string, env: Env, n: nat): (State, Pc)
    requires cfg.Valid()
  {
    if n == 0 then (s, Entered)
    else
      var (s', pc') := First(cfg, s, data, env, n - 1);
      Work(cfg, s', pc', data, env)
  }

  lemma OneStepAlone(cfg: Config, s: State, pc: Pc, data: string, env: Env)
    requires cfg.Valid()
    ensures var (s', pc') := Work(cfg, s, pc, data, env);
            Alone(cfg, s, pc, data, env) == Alone(cfg, s', pc', data, env)
  {
  }

  lemma {:induction false} AloneAfter(cfg: Config, s: State, data: string, env: Env, n: nat)
    requires cfg.Valid()
    ensures var (s', pc') := First(cfg, s, data, env, n);
            Alone(cfg, s, Entered, data, env) == Alone(cfg, s', pc', data, env)
  {
    hide Work;
    if n == 0 {
    } else {
      AloneAfter(cfg, s, data, env, n - 1);
      var (s', pc') := First(cfg, s, data, env, n - 1);
      OneStepAlone(cfg, s', pc', data, env);
    }
  }

  lemma {:induction false} AloneRenames(cfg: Config, s: State, j: int, data: string, env: Env)
    requires cfg.Valid() && 0 <= j < cfg.Last()
    ensures Alone(cfg, s, Renaming(j), data, env)
            == Alone(cfg, s.(disk := Shifted(cfg, s.disk, j, env.refused)), Opening, data, env)
    decreases j
  {
    var next := s.(disk := Moved(cfg, s.disk, j, env.refused));
    if j > 0 {
      AloneRenames(cfg, next, j - 1, data, env);
    } else {
      assert Shifted(cfg, next.disk, -1, env.refused) == next.disk;
      assert Work(cfg, s, Renaming(0), data, env) == (next, Opening);
    }
  }

  lemma AloneOpens(cfg: Config, s: State, data: string, env: Env)
    requires cfg.Valid()
    ensures Alone(cfg, s, Opening, data, env)
            == Put(OpenLogFile(cfg, s, env).(firstWrite := false), data, env.record)
  {
    var (s1, pc1) := Work(cfg, s, Opening, data, env);
    var (s2, pc2) := Work(cfg, s1, pc1, data, env);
    assert Alone(cfg, s, Opening, data, env) == Alone(cfg, s1, pc1, data, env) == Alone(cfg, s2, pc2, data, env);
    if pc1.Heading? {
      var (s3, pc3) := Work(cfg, s2, pc2, data, env);
      assert Alone(cfg, s2, pc2, data, env) == Alone(cfg, s3, pc3, data, env);
    }
  }

  /** Step by step, an undisturbed write does what the appender's method does. */
  lemma StepsRefineWrite(cfg: Config, s: State, data: string, env: Env)
    requires cfg.Valid()
    ensures Alone(cfg, s, Entered, data, env) == Written(cfg, s, data, env)
  {
    var (s1, pc1) := Work(cfg, s, Entered, data, env);
    assert Alone(cfg, s, Entered, data, env) == Alone(cfg, s1, pc1, data, env);
    if pc1.Opening? {
      AloneOpens(cfg, s, data, env);
    } else if pc1.Closing? {
      var s2 := s.(handle := None);
      var s3 := s2.(disk := Removed(cfg, s.disk, env.refused));
      assert Alone(cfg, s, Closing, data, env) == Alone(cfg, s2, Unlinking, data, env);
      assert Alone(cfg, s2, Unlinking, data, env) == Alone(cfg, s3, Renaming(cfg.Last() - 1), data, env);
      AloneRenames(cfg, s3, cfg.Last() - 1, data, env);
      AloneOpens(cfg, AfterShift(cfg, s, env.refused), data, env);
      assert !RollLogFiles(cfg, s, env).firstWrite;
    }
  }

  // ---------- threads, mutex, processes ----------

  /** A thread has to write the records of its program; `next` is the one it is at. */
  datatype Thread = Thread(next: nat, pc: Pc)

  type Programs = map<nat, seq<Record>>

  /** A row in the order of writing, with the process and the thread that wrote it. */
  datatype Stamped = Stamped(process: nat, thread: nat, row: Row)

  datatype World = World(state: State, lock: Option<nat>, threads: map<nat, Thread>,
                         started: seq<Programs>, history: seq<Stamped>)

  datatype Event =
    | Launch(programs: Programs)    // the process stops, wherever it is, and a new one starts
    | Acquire(thread: nat)
    | Step(thread: nat, env: Env)
    | Release(thread: nat)

  /** No process yet, over the files already there. */
  function Initial(disk: Disk): World
  {
    World(State(disk, None, 0, true), None, map[], [], [])
  }

  function Program(w: World, t: nat): seq<Record>
  {
    if w.started != [] && t in w.started[|w.started| - 1] then w.started[|w.started| - 1][t] else []
  }

  predicate Busy(pc: Pc)
  {
    pc != Outside && pc != Leaving
  }

  /** Whether the event can happen; a thread that finds the mutex taken waits. */
  predicate Enabled(w: World, e: Event)
  {
    match e
    case Launch(_) => true
    case Acquire(t) =>
      t in w.threads && w.threads[t].pc == Outside && w.lock == None && w.threads[t].next < |Program(w, t)|
    case Step(t, _) => t in w.threads && Busy(w.threads[t].pc) && w.threads[t].next < |Program(w, t)|
    case Release(t) => t in w.threads && w.threads[t].pc == Leaving
  }

  /** The rows a step adds to the history: the record, if the file took all of it. */
  function Added(w: World, t: nat, env: Env): seq<Stamped>
    requires Enabled(w, Step(t, env))
  {
    var row := Fields(Program(w, t)[w.threads[t].next]);
    if w.threads[t].pc == Appending && w.state.handle.Some? && Accepted(env.record, RowText(row)) == |RowText(row)|
    then [Stamped(|w.started| - 1, t, row)] else []
  }

  /** What the event does; an event that cannot happen does nothing. */
  function Next(cfg: Config, w: World, e: Event): World
    requires cfg.Valid()
  {
    if !Enabled(w, e) then w
    else match e
      case Launch(programs) =>
        World(State(w.state.disk, None, 0, true), None, map t | t in programs :: Thread(0, Outside),
              w.started + [programs], w.history)
      case Acquire(t) =>
        w.(lock := Some(t), threads := w.threads[t := w.threads[t].(pc := Entered)])
      case Step(t, env) =>
        var me := w.threads[t];
        var data := RowText(Fields(Program(w, t)[me.next]));
        var (state, pc) := Work(cfg, w.state, me.pc, data, env);
        w.(state := state,
           threads := w.threads[t := Thread(if me.pc == Appending then me.next + 1 else me.next, pc)],
           history := w.history + Added(w, t, env))
      case Release(t) =>
        w.(lock := None, threads := w.threads[t := w.threads[t].(pc := Outside)])
  }

  function Run(cfg: Config, w: World, events: seq<Event>): World
    requires cfg.Valid()
    decreases |events|
  {
    if events == [] then w else Run(cfg, Next(cfg, w, events[0]), events[1..])
  }

  function Rows(history: seq<Stamped>): seq<Row>
  {
    seq(|history|, i requires 0 <= i < |history| => history[i].row)
  }
}
