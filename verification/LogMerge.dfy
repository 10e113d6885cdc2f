/**
 * The order of writing. Whatever the system answers, the history is a merge of what the threads
 * wrote: each thread's rows come in its own order. Where every call succeeds nothing is left out,
 * and every file starts with the header.
 */
module LogMerge {
  import opened Text
  import opened Files
  import opened CsvFormatter
  import opened RollingAppender
  import opened LogMachine
  import opened LogPhases

  /** Every call of the operating system succeeds in full. */
  predicate Succeeds(e: Event)
  {
    e.Step? ==> e.env == SUCCESS
  }

  /** The rows one thread of one process wrote, in the order of writing. */
  function Mine(history: seq<Stamped>, process: nat, thread: nat): seq<Row>
  {
    if history == [] then []
    else
      var last := history[|history| - 1];
      Mine(history[..|history| - 1], process, thread)
      + if last.process == process && last.thread == thread then [last.row] else []
  }

  function RowsOf(records: seq<Record>): seq<Row>
  {
    seq(|records|, i requires 0 <= i < |records| => Fields(records[i]))
  }

  /** `mine` comes from the first `n` records, in their order; all of them when nothing fails. */
  predicate FromFirst(mine: seq<Row>, records: seq<Record>, n: nat, succeeds: bool)
  {
    && n <= |records|
    && IsSubsequence(mine, RowsOf(records[..n]))
    && (succeeds ==> mine == RowsOf(records[..n]))
  }

  /** `mine` comes from the records, in their order; from the first ones when nothing fails. */
  predicate FromSome(mine: seq<Row>, records: seq<Record>, succeeds: bool)
  {
    IsSubsequence(mine, RowsOf(records)) && (succeeds ==> mine <= RowsOf(records))
  }

  /** Thread `t` of process `p`: not started, running, or of a process that has stopped. */
  ghost predicate InOrder(w: World, p: nat, t: nat, succeeds: bool)
  {
    var mine := Mine(w.history, p, t);
    if p >= |w.started| || t !in w.started[p] then mine == []
    else if p == |w.started| - 1 then
      t in w.threads && FromFirst(mine, w.started[p][t], w.threads[t].next, succeeds)
    else FromSome(mine, w.started[p][t], succeeds)
  }

  lemma MineGrows(history: seq<Stamped>, s: Stamped, process: nat, thread: nat)
    ensures Mine(history + [s], process, thread)
            == Mine(history, process, thread) + if s.process == process && s.thread == thread then [s.row] else []
  {
    assert (history + [s])[..|history|] == history;
  }

  lemma RowsOfStep(records: seq<Record>, n: nat)
    requires n < |records|
    ensures RowsOf(records[..n + 1]) == RowsOf(records[..n]) + [Fields(records[n])]
  {
  }

  lemma FromOneMore(mine: seq<Row>, records: seq<Record>, n: nat, succeeds: bool, added: seq<Row>)
    requires FromFirst(mine, records, n, succeeds) && n < |records|
    requires added == [Fields(records[n])] || (added == [] && !succeeds)
    ensures FromFirst(mine + added, records, n + 1, succeeds)
  {
    RowsOfStep(records, n);
    if added == [] {
      assert mine + added == mine;
      SubsequenceSkip(mine, RowsOf(records[..n]), Fields(records[n]));
    } else {
      SubsequenceKeep(mine, RowsOf(records[..n]), Fields(records[n]));
    }
  }

  lemma SubsequencePrefix<T>(a: seq<T>, b: seq<T>, c: seq<T>)
    requires IsSubsequence(a, b)
    ensures IsSubsequence(a, b + c)
  {
    SubsequenceConcat(a, b, [], c);
    assert a + [] == a;
  }

  lemma FirstAreSome(mine: seq<Row>, records: seq<Record>, n: nat, succeeds: bool)
    requires FromFirst(mine, records, n, succeeds)
    ensures FromSome(mine, records, succeeds)
  {
    hide IsSubsequence, Fields;
    assert RowsOf(records) == RowsOf(records[..n]) + RowsOf(records[n..]);
    SubsequencePrefix(mine, RowsOf(records[..n]), RowsOf(records[n..]));
  }

  lemma NoneOfNone(records: seq<Record>, succeeds: bool)
    ensures FromFirst([], records, 0, succeeds)
  {
    assert RowsOf(records[..0]) == [];
  }

  lemma LaunchKeepsOrder(cfg: Config, w: World, programs: Programs, p: nat, t: nat, succeeds: bool)
    requires cfg.Valid() && InOrder(w, p, t, succeeds)
    ensures InOrder(Next(cfg, w, Launch(programs)), p, t, succeeds)
  {
    hide FromFirst, FromSome, Mine;
    if p == |w.started| && t in programs {
      NoneOfNone(programs[t], succeeds);
    } else if p == |w.started| - 1 && t in w.started[p] {
      FirstAreSome(Mine(w.history, p, t), w.started[p][t], w.threads[t].next, succeeds);
    }
  }

  /** An append adds nothing only where a call failed. */
  lemma SkippedOnlyOnFailure(cfg: Config, w: World, t: nat, env: Env)
    requires cfg.Valid() && Sound(cfg, w) && Enabled(w, Step(t, env))
    requires w.threads[t].pc == Appending && Added(w, t, env) == []
    ensures w.state.size < 0 || env != SUCCESS
  {
    assert w.lock == Some(t);
  }

  lemma StepKeepsOrder(cfg: Config, w: World, u: nat, env: Env, p: nat, t: nat, succeeds: bool)
    requires cfg.Valid() && Sound(cfg, w) && InOrder(w, p, t, succeeds) && Enabled(w, Step(u, env))
    requires succeeds ==> w.state.size >= 0 && env == SUCCESS
    ensures InOrder(Next(cfg, w, Step(u, env)), p, t, succeeds)
  {
    hide Work, Fields, RowText, Mine, FromFirst, FromSome, Phase;
    var w' := Next(cfg, w, Step(u, env));
    var added := Added(w, u, env);
    var mine := Mine(w.history, p, t);
    assert mine + [] == mine;
    if added == [] {
      assert w'.history == w.history;
    } else {
      assert w'.history == w.history + [added[0]];
      MineGrows(w.history, added[0], p, t);
    }
    if p == |w.started| - 1 && t == u && w.threads[t].pc == Appending {
      if added == [] {
        SkippedOnlyOnFailure(cfg, w, t, env);
        FromOneMore(mine, Program(w, t), w.threads[t].next, succeeds, []);
      } else {
        FromOneMore(mine, Program(w, t), w.threads[t].next, succeeds, [added[0].row]);
      }
    }
  }

  lemma NextKeepsOrder(cfg: Config, w: World, e: Event, p: nat, t: nat, succeeds: bool)
    requires cfg.Valid() && Sound(cfg, w) && InOrder(w, p, t, succeeds)
    requires succeeds ==> w.state.size >= 0 && Succeeds(e)
    ensures InOrder(Next(cfg, w, e), p, t, succeeds)
  {
    hide FromFirst, FromSome, Mine, Phase, Work;
    if Enabled(w, e) {
      match e
      case Launch(programs) => LaunchKeepsOrder(cfg, w, programs, p, t, succeeds);
      case Step(u, env) => StepKeepsOrder(cfg, w, u, env, p, t, succeeds);
      case _ =>
    }
  }

  lemma WorkKeepsSize(cfg: Config, s: State, pc: Pc, data: string)
    requires cfg.Valid() && s.size >= 0
    ensures Work(cfg, s, pc, data, SUCCESS).0.size >= 0
  {
  }

  lemma NextNeverGivesUp(cfg: Config, w: World, e: Event)
    requires cfg.Valid() && w.state.size >= 0 && Succeeds(e)
    ensures Next(cfg, w, e).state.size >= 0
  {
    hide Work, RowText, Fields;
    if Enabled(w, e) && e.Step? {
      var me := w.threads[e.thread];
      WorkKeepsSize(cfg, w.state, me.pc, RowText(Fields(Program(w, e.thread)[me.next])));
    }
  }

  lemma {:induction false} RunKeepsOrder(cfg: Config, w: World, events: seq<Event>, p: nat, t: nat, succeeds: bool)
    requires cfg.Valid() && Sound(cfg, w) && InOrder(w, p, t, succeeds)
    requires succeeds ==> w.state.size >= 0 && forall i :: 0 <= i < |events| ==> Succeeds(events[i])
    ensures InOrder(Run(cfg, w, events), p, t, succeeds)
    decreases |events|
  {
    hide InOrder, Sound, Next;
    if events == [] {
    } else {
      NextIsSound(cfg, w, events[0]);
      NextKeepsOrder(cfg, w, events[0], p, t, succeeds);
      if succeeds {
        NextNeverGivesUp(cfg, w, events[0]);
      }
      RunKeepsOrder(cfg, Next(cfg, w, events[0]), events[1..], p, t, succeeds);
    }
  }

  // ---------- processes, one after the other ----------

  /** Rows come from the processes in the order of their start, and from no process still to come. */
  ghost predicate Chronological(w: World)
  {
    && (forall i :: 0 <= i < |w.history| ==> w.history[i].process < |w.started|)
    && (forall i, j :: 0 <= i < j < |w.history| ==> w.history[i].process <= w.history[j].process)
  }

  lemma NextIsChronological(cfg: Config, w: World, e: Event)
    requires cfg.Valid() && Sound(cfg, w) && Chronological(w)
    ensures Chronological(Next(cfg, w, e))
  {
    hide Work, RowText, Fields, Phase;
  }

  lemma {:induction false} RunIsChronological(cfg: Config, w: World, events: seq<Event>)
    requires cfg.Valid() && Sound(cfg, w) && Chronological(w)
    ensures Chronological(Run(cfg, w, events))
    decreases |events|
  {
    hide Next, Sound, Chronological;
    if events == [] {
    } else {
      NextIsSound(cfg, w, events[0]);
      NextIsChronological(cfg, w, events[0]);
      RunIsChronological(cfg, Next(cfg, w, events[0]), events[1..]);
    }
  }

  // ---------- the merge ----------

  lemma NothingWritten(disk: Disk, p: nat, t: nat, succeeds: bool)
    ensures InOrder(Initial(disk), p, t, succeeds)
  {
  }

  /**
   * For every run and every thread of every process: the thread's rows in the history are a
   * subsequence of the rows of its records, so in its own order and each at most once; threads
   * that were never started have none. When no call fails they are exactly its first records, and
   * for the running process exactly those it has written so far. Rows of different processes never mix.
   */
  lemma HistoryIsMerge(cfg: Config, disk: Disk, events: seq<Event>, p: nat, t: nat)
    requires cfg.Valid() && NoFamilyFiles(cfg, disk)
    ensures var w := Run(cfg, Initial(disk), events);
            if p < |w.started| && t in w.started[p]
            then IsSubsequence(Mine(w.history, p, t), RowsOf(w.started[p][t]))
            else Mine(w.history, p, t) == []
    ensures var w := Run(cfg, Initial(disk), events);
            (forall i :: 0 <= i < |events| ==> Succeeds(events[i])) && p < |w.started| && t in w.started[p] ==>
              && Mine(w.history, p, t) <= RowsOf(w.started[p][t])
              && (p == |w.started| - 1 ==>
                    t in w.threads && w.threads[t].next <= |w.started[p][t]|
                    && Mine(w.history, p, t) == RowsOf(w.started[p][t][..w.threads[t].next]))
    ensures var history := Run(cfg, Initial(disk), events).history;
            forall i, j :: 0 <= i < j < |history| ==> history[i].process <= history[j].process
  {
    hide Run, Sound, Mine;
    var succeeds := forall i :: 0 <= i < |events| ==> Succeeds(events[i]);
    var w := Run(cfg, Initial(disk), events);
    InitialIsSound(cfg, disk);
    NothingWritten(disk, p, t, succeeds);
    RunIsChronological(cfg, Initial(disk), events);
    RunKeepsOrder(cfg, Initial(disk), events, p, t, succeeds);
    if p == |w.started| - 1 && t in w.started[p] {
      FirstAreSome(Mine(w.history, p, t), w.started[p][t], w.threads[t].next, succeeds);
    }
  }

  // ---------- the header ----------

  predicate HeadedOrEmpty(cfg: Config, content: string)
  {
    content == "" || cfg.header <= content
  }

  /** Files are empty or start with the header, and only a file 0 not yet written to may be empty. */
  ghost predicate Headed(cfg: Config, s: State, pc: Pc)
    requires cfg.Valid()
  {
    && s.size >= 0
    && (forall i :: 0 <= i < |cfg.names| && cfg.names[i] in s.disk ==> HeadedOrEmpty(cfg, s.disk[cfg.names[i]]))
    && (s.handle.Some? && !s.firstWrite && pc != Heading ==> s.size > 0)
  }

  lemma WorkKeepsHeaders(cfg: Config, s: State, pc: Pc, data: string)
    requires cfg.Valid() && Phase(cfg, s, pc) && Busy(pc) && Headed(cfg, s, pc)
    ensures var (s', pc') := Work(cfg, s, pc, data, SUCCESS); Headed(cfg, s', pc')
  {
    var (s', pc') := Work(cfg, s, pc, data, SUCCESS);
    match pc
    case Heading =>
      assert s.disk[cfg.names[0]] == "" && cfg.header[..|cfg.header|] == cfg.header;
      assert s'.disk[cfg.names[0]] == cfg.header;
    case Appending =>
      assert s.disk[cfg.names[0]] <= s'.disk[cfg.names[0]];
    case _ =>
  }

  lemma NextKeepsHeaders(cfg: Config, w: World, e: Event)
    requires cfg.Valid() && Sound(cfg, w) && Headed(cfg, w.state, HolderPc(w)) && Succeeds(e)
    ensures Headed(cfg, Next(cfg, w, e).state, HolderPc(Next(cfg, w, e)))
  {
    if Enabled(w, e) && e.Step? {
      var me := w.threads[e.thread];
      assert w.lock == Some(e.thread);
      WorkKeepsHeaders(cfg, w.state, me.pc, RowText(Fields(Program(w, e.thread)[me.next])));
    }
  }

  lemma {:induction false} RunKeepsHeaders(cfg: Config, w: World, events: seq<Event>)
    requires cfg.Valid() && Sound(cfg, w) && Headed(cfg, w.state, HolderPc(w))
    requires forall i :: 0 <= i < |events| ==> Succeeds(events[i])
    ensures Headed(cfg, Run(cfg, w, events).state, HolderPc(Run(cfg, w, events)))
    ensures Sound(cfg, Run(cfg, w, events))
    decreases |events|
  {
    if events == [] {
    } else {
      NextIsSound(cfg, w, events[0]);
      NextKeepsHeaders(cfg, w, events[0]);
      RunKeepsHeaders(cfg, Next(cfg, w, events[0]), events[1..]);
    }
  }

  /**
   * When no call fails, and however often the process stops: every file starts with the header,
   * but for a file 0 that is still empty.
   */
  lemma EveryFileIsHeaded(cfg: Config, disk: Disk, events: seq<Event>, i: nat)
    requires cfg.Valid() && NoFamilyFiles(cfg, disk) && i < |cfg.names|
    requires forall k :: 0 <= k < |events| ==> Succeeds(events[k])
    ensures var after := Run(cfg, Initial(disk), events).state.disk;
            cfg.names[i] in after ==>
              cfg.header <= after[cfg.names[i]] || (i == 0 && after[cfg.names[0]] == "")
  {
    InitialIsSound(cfg, disk);
    RunKeepsHeaders(cfg, Initial(disk), events);
  }
}
