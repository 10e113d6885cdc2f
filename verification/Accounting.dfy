/** Bytes and files over runs of whole writes: conservation, amortised rolling, retention, space. */
module Accounting {
  import opened Text
  import opened Files
  import opened Utf8Converter
  import opened RollingAppender
  import opened RollShift
  import opened LogPhases

  datatype Op = Write(data: string, env: Env) | Restart

  /** The appender with a record of what it did so far. */
  datatype Ledger = Ledger(state: State, rolls: nat, written: nat, discarded: nat, restarts: nat)

  function SizeOf(disk: Disk, name: string): nat
  {
    if name in disk then |disk[name]| else 0
  }

  /** Bytes in files 0..count-1. */
  function Bytes(names: seq<string>, disk: Disk, count: nat): nat
    requires count <= |names|
  {
    if count == 0 then 0 else Bytes(names, disk, count - 1) + SizeOf(disk, names[count - 1])
  }

  // ---------- the bytes each call takes ----------

  function PutBytes(s: State, data: string, io: Io): nat
  {
    if s.handle.None? then 0 else Accepted(io, data)
  }

  function OpenBytes(cfg: Config, s: State, env: Env): nat
    requires cfg.Valid()
  {
    var o := Opened(cfg, s, env.opens);
    if o.size == 0 then PutBytes(o, cfg.header, env.header) else 0
  }

  function PrepareBytes(cfg: Config, s: State, env: Env): nat
    requires cfg.Valid()
  {
    if s.firstWrite then OpenBytes(cfg, s, env)
    else if MustRoll(cfg, s) then OpenBytes(cfg, AfterShift(cfg, s, env.refused), env)
    else 0
  }

  /** The bytes of the file that the rename of file `j` replaces. */
  function Replaced(cfg: Config, disk: Disk, j: int, refused: set<int>): nat
    requires cfg.Valid() && 0 <= j < cfg.Last()
  {
    if j !in refused && cfg.names[j] in disk && cfg.overwrites then SizeOf(disk, cfg.names[j + 1]) else 0
  }

  function ReplacedBelow(cfg: Config, disk: Disk, from: int, refused: set<int>): nat
    requires cfg.Valid() && -1 <= from < cfg.Last()
    decreases from + 1
  {
    if from < 0 then 0
    else Replaced(cfg, disk, from, refused) + ReplacedBelow(cfg, Moved(cfg, disk, from, refused), from - 1, refused)
  }

  /** The bytes a roll removes: those of the last file and, after a refusal, of files replaced. */
  function Lost(cfg: Config, disk: Disk, refused: set<int>): nat
    requires cfg.Valid() && cfg.Last() > 0
  {
    (if cfg.Last() in refused then 0 else SizeOf(disk, cfg.names[cfg.Last()]))
    + ReplacedBelow(cfg, Removed(cfg, disk, refused), cfg.Last() - 1, refused)
  }

  /** The write rolls, and file 0 gets out of the way. */
  predicate Rolls(cfg: Config, s: State, env: Env)
    requires cfg.Valid()
  {
    MustRoll(cfg, s) && cfg.names[0] !in AfterShift(cfg, s, env.refused).disk
  }

  function Perform(cfg: Config, l: Ledger, op: Op): Ledger
    requires cfg.Valid()
  {
    match op
    case Restart => l.(state := State(l.state.disk, None, 0, true), restarts := l.restarts + 1)
    case Write(data, env) =>
      Ledger(Written(cfg, l.state, data, env),
             l.rolls + (if Rolls(cfg, l.state, env) then 1 else 0),
             l.written + PrepareBytes(cfg, l.state, env) + PutBytes(Prepared(cfg, l.state, env), data, env.record),
             l.discarded + (if MustRoll(cfg, l.state) then Lost(cfg, l.state.disk, env.refused) else 0),
             l.restarts)
  }

  function Account(cfg: Config, l: Ledger, ops: seq<Op>): Ledger
    requires cfg.Valid()
    decreases |ops|
  {
    if ops == [] then l else Account(cfg, Perform(cfg, l, ops[0]), ops[1..])
  }

  function NewLedger(disk: Disk): Ledger
  {
    Ledger(State(disk, None, 0, true), 0, 0, 0, 0)
  }

  // ---------- sums over a family ----------

  lemma {:induction false} BytesFrame(names: seq<string>, d: Disk, e: Disk, count: nat)
    requires 0 < count <= |names|
    requires forall i :: 1 <= i < count ==> SizeOf(e, names[i]) == SizeOf(d, names[i])
    ensures Bytes(names, e, count) - SizeOf(e, names[0]) == Bytes(names, d, count) - SizeOf(d, names[0])
  {
    if count <= 1 {
    } else {
      BytesFrame(names, d, e, count - 1);
    }
  }

  lemma {:induction false} BytesSame(names: seq<string>, d: Disk, e: Disk, count: nat)
    requires count <= |names|
    requires forall i :: 0 <= i < count ==> SizeOf(e, names[i]) == SizeOf(d, names[i])
    ensures Bytes(names, e, count) == Bytes(names, d, count)
  {
    if count == 0 {
    } else {
      BytesSame(names, d, e, count - 1);
    }
  }

  // ---------- conservation and amortised rolling, whatever the calls return ----------

  /** Handle and size as between two writes. */
  predicate Between(cfg: Config, s: State)
    requires cfg.Valid()
  {
    && SizeIsReal(cfg, s)
    && (if s.firstWrite then s.handle == None else s.handle.Some? || s.size == -1)
  }

  ghost predicate Balanced(cfg: Config, l: Ledger)
    requires cfg.Valid()
  {
    && Between(cfg, l.state)
    && Bytes(cfg.names, l.state.disk, |cfg.names|) + l.discarded == l.written
    && l.rolls * cfg.maxSize + SizeOf(l.state.disk, cfg.names[0]) <= l.written
  }

  lemma PutBalance(cfg: Config, s: State, data: string, io: Io)
    requires cfg.Valid() && SizeIsReal(cfg, s)
    ensures var s' := Put(s, data, io);
            && SizeIsReal(cfg, s') && s'.handle == s.handle && s'.firstWrite == s.firstWrite
            && SizeOf(s'.disk, cfg.names[0]) == SizeOf(s.disk, cfg.names[0]) + PutBytes(s, data, io)
            && Bytes(cfg.names, s'.disk, |cfg.names|) == Bytes(cfg.names, s.disk, |cfg.names|) + PutBytes(s, data, io)
            && (s.handle.None? ==> s' == s)
  {
    var s' := Put(s, data, io);
    BytesFrame(cfg.names, s.disk, s'.disk, |cfg.names|);
  }

  lemma OpenBalance(cfg: Config, s: State, env: Env)
    requires cfg.Valid()
    ensures var s' := OpenLogFile(cfg, s, env);
            && SizeIsReal(cfg, s') && (s'.handle.Some? || s'.size == -1) && s'.firstWrite == s.firstWrite
            && SizeOf(s'.disk, cfg.names[0]) == SizeOf(s.disk, cfg.names[0]) + OpenBytes(cfg, s, env)
            && Bytes(cfg.names, s'.disk, |cfg.names|) == Bytes(cfg.names, s.disk, |cfg.names|) + OpenBytes(cfg, s, env)
  {
    var o := Opened(cfg, s, env.opens);
    BytesFrame(cfg.names, s.disk, o.disk, |cfg.names|);
    PutBalance(cfg, o, cfg.header, env.header);
  }

  lemma {:induction false} BytesMoved(cfg: Config, d: Disk, j: int, refused: set<int>, count: nat)
    requires cfg.Valid() && 0 <= j < cfg.Last() && j + 1 < count <= |cfg.names|
    ensures Bytes(cfg.names, Moved(cfg, d, j, refused), count) + Replaced(cfg, d, j, refused) == Bytes(cfg.names, d, count)
  {
    var e := Moved(cfg, d, j, refused);
    if count > j + 2 {
      BytesMoved(cfg, d, j, refused, count - 1);
      assert SizeOf(e, cfg.names[count - 1]) == SizeOf(d, cfg.names[count - 1]);
    } else {
      BytesSame(cfg.names, d, e, j);
      assert Bytes(cfg.names, d, j + 2) == Bytes(cfg.names, d, j) + SizeOf(d, cfg.names[j]) + SizeOf(d, cfg.names[j + 1]);
      assert Bytes(cfg.names, e, j + 2) == Bytes(cfg.names, e, j) + SizeOf(e, cfg.names[j]) + SizeOf(e, cfg.names[j + 1]);
    }
  }

  lemma {:induction false} BytesBelow(cfg: Config, d: Disk, from: int, refused: set<int>)
    requires cfg.Valid() && -1 <= from < cfg.Last()
    ensures var e := Shifted(cfg, d, from, refused);
            && Bytes(cfg.names, e, |cfg.names|) + ReplacedBelow(cfg, d, from, refused) == Bytes(cfg.names, d, |cfg.names|)
            && (cfg.names[0] in e ==> SizeOf(e, cfg.names[0]) == SizeOf(d, cfg.names[0]))
    decreases from + 1
  {
    if from < 0 {
    } else {
      BytesMoved(cfg, d, from, refused, |cfg.names|);
      BytesBelow(cfg, Moved(cfg, d, from, refused), from - 1, refused);
      assert cfg.names[0] != cfg.names[from + 1];
    }
  }

  lemma ShiftBalance(cfg: Config, s: State, refused: set<int>)
    requires cfg.Valid() && cfg.Last() > 0
    ensures var after := AfterShift(cfg, s, refused).disk;
            && Bytes(cfg.names, after, |cfg.names|) + Lost(cfg, s.disk, refused) == Bytes(cfg.names, s.disk, |cfg.names|)
            && (cfg.names[0] in after ==> SizeOf(after, cfg.names[0]) == SizeOf(s.disk, cfg.names[0]))
  {
    var last := cfg.Last();
    var removed := Removed(cfg, s.disk, refused);
    BytesSame(cfg.names, s.disk, removed, last);
    assert Bytes(cfg.names, removed, last + 1) == Bytes(cfg.names, removed, last) + SizeOf(removed, cfg.names[last]);
    BytesBelow(cfg, removed, last - 1, refused);
    assert cfg.names[0] != cfg.names[last];
  }

  lemma PrepareBalance(cfg: Config, l: Ledger, env: Env)
    requires cfg.Valid() && Balanced(cfg, l)
    ensures var s := Prepared(cfg, l.state, env);
            var written := l.written + PrepareBytes(cfg, l.state, env);
            && SizeIsReal(cfg, s) && !s.firstWrite && (s.handle.Some? || s.size == -1)
            && Bytes(cfg.names, s.disk, |cfg.names|) + l.discarded
               + (if MustRoll(cfg, l.state) then Lost(cfg, l.state.disk, env.refused) else 0) == written
            && (l.rolls + if Rolls(cfg, l.state, env) then 1 else 0) * cfg.maxSize + SizeOf(s.disk, cfg.names[0]) <= written
  {
    hide Lost, Bytes;
    if l.state.firstWrite {
      OpenBalance(cfg, l.state, env);
    } else if MustRoll(cfg, l.state) {
      ShiftBalance(cfg, l.state, env.refused);
      OpenBalance(cfg, AfterShift(cfg, l.state, env.refused), env);
      assert (l.rolls + 1) * cfg.maxSize == l.rolls * cfg.maxSize + cfg.maxSize;
    }
  }

  lemma PerformBalance(cfg: Config, l: Ledger, op: Op)
    requires cfg.Valid() && Balanced(cfg, l)
    ensures Balanced(cfg, Perform(cfg, l, op))
  {
    match op
    case Restart =>
    case Write(data, env) =>
      PrepareBalance(cfg, l, env);
      PutBalance(cfg, Prepared(cfg, l.state, env), data, env.record);
  }

  lemma {:induction false} AccountBalance(cfg: Config, l: Ledger, ops: seq<Op>)
    requires cfg.Valid() && Balanced(cfg, l)
    ensures Balanced(cfg, Account(cfg, l, ops))
    decreases |ops|
  {
    if ops == [] {
    } else {
      PerformBalance(cfg, l, ops[0]);
      AccountBalance(cfg, Perform(cfg, l, ops[0]), ops[1..]);
    }
  }

  lemma {:induction false} NoBytes(names: seq<string>, disk: Disk, count: nat)
    requires count <= |names| && forall i :: 0 <= i < |names| ==> names[i] !in disk
    ensures Bytes(names, disk, count) == 0
  {
    if count == 0 {
    } else {
      NoBytes(names, disk, count - 1);
    }
  }

  /**
   * Over any run, with restarts, short writes, failures and refused renames: the bytes of the
   * family's files and of the files removed or replaced add up to the bytes written, and every roll
   * that moves file 0 is paid for by more than `maxSize` bytes of them.
   */
  lemma BytesAreConserved(cfg: Config, disk: Disk, ops: seq<Op>)
    requires cfg.Valid() && NoFamilyFiles(cfg, disk)
    ensures var l := Account(cfg, NewLedger(disk), ops);
            && Bytes(cfg.names, l.state.disk, |cfg.names|) + l.discarded == l.written
            && l.rolls * cfg.maxSize <= l.written
  {
    NoBytes(cfg.names, disk, |cfg.names|);
    AccountBalance(cfg, NewLedger(disk), ops);
  }

  // ---------- retention and space, when no call fails ----------

  predicate InFull(op: Op, longest: nat)
  {
    op.Write? ==> op.env == SUCCESS && |op.data| <= longest
  }

  function Times(n: nat, longest: nat): nat
  {
    n * longest
  }

  /** The bound for file 0: one record over the limit for each time the process was started. */
  function Bound(cfg: Config, l: Ledger, longest: nat): int
  {
    cfg.maxSize + Times(if l.state.firstWrite then l.restarts else l.restarts + 1, longest)
  }

  ghost predicate Retained(cfg: Config, l: Ledger, longest: nat)
    requires cfg.Valid()
  {
    var disk := l.state.disk;
    && Between(cfg, l.state)
    && (!l.state.firstWrite ==> l.state.handle.Some?)
    && SizeOf(disk, cfg.names[0]) <= Bound(cfg, l, longest)
    && (forall i :: 1 <= i <= cfg.Last() ==> (cfg.names[i] in disk <==> i <= l.rolls))
    && (forall i :: 1 <= i <= cfg.Last() && cfg.names[i] in disk ==>
          cfg.maxSize < |disk[cfg.names[i]]| <= cfg.maxSize + Times(l.restarts + 1, longest))
  }

  lemma TimesGrow(n: nat, longest: nat)
    ensures Times(n + 1, longest) == Times(n, longest) + longest
  {
  }

  lemma OpenSucceeds(cfg: Config, s: State)
    requires cfg.Valid()
    ensures var s' := OpenLogFile(cfg, s, SUCCESS);
            && s'.handle == Some(cfg.names[0]) && SizeIsReal(cfg, s') && s'.firstWrite == s.firstWrite
            && SizeOf(s'.disk, cfg.names[0])
               == (if SizeOf(s.disk, cfg.names[0]) == 0 then |cfg.header| else SizeOf(s.disk, cfg.names[0]))
            && (forall i :: 1 <= i < |cfg.names| ==> Content(s'.disk, cfg.names[i]) == Content(s.disk, cfg.names[i]))
  {
  }

  lemma RollRetains(cfg: Config, l: Ledger, longest: nat)
    requires cfg.Valid() && Retained(cfg, l, longest) && MustRoll(cfg, l.state)
    ensures var s := Prepared(cfg, l.state, SUCCESS);
            && Rolls(cfg, l.state, SUCCESS)
            && s.handle == Some(cfg.names[0]) && SizeIsReal(cfg, s) && !s.firstWrite
            && SizeOf(s.disk, cfg.names[0]) == |cfg.header|
            && (forall i :: 1 <= i <= cfg.Last() ==> (cfg.names[i] in s.disk <==> i <= l.rolls + 1))
            && (forall i :: 1 <= i <= cfg.Last() && cfg.names[i] in s.disk ==>
                  cfg.maxSize < |s.disk[cfg.names[i]]| <= cfg.maxSize + Times(l.restarts + 1, longest))
  {
    var env := SUCCESS;
    var after := AfterShift(cfg, l.state, {});
    var s := Prepared(cfg, l.state, env);
    ShiftedExactly(cfg, Unlinked(l.state.disk, cfg.names[cfg.Last()]), cfg.Last() - 1);
    OpenSucceeds(cfg, after);
    RollIsExactShift(cfg, l.state, env);
    forall i | 1 <= i <= cfg.Last()
      ensures cfg.names[i] in s.disk <==> i <= l.rolls + 1
      ensures cfg.names[i] in s.disk ==>
                cfg.maxSize < |s.disk[cfg.names[i]]| <= cfg.maxSize + Times(l.restarts + 1, longest)
    {
      assert Content(s.disk, cfg.names[(i - 1) + 1]) == Content(l.state.disk, cfg.names[i - 1]);
    }
  }

  lemma PutRetains(cfg: Config, s: State, data: string)
    requires cfg.Valid() && SizeIsReal(cfg, s) && s.handle.Some?
    ensures var s' := Put(s, data, Full);
            && SizeIsReal(cfg, s') && s'.handle == s.handle && s'.firstWrite == s.firstWrite
            && SizeOf(s'.disk, cfg.names[0]) == SizeOf(s.disk, cfg.names[0]) + |data|
            && (forall i :: 1 <= i < |cfg.names| ==> Content(s'.disk, cfg.names[i]) == Content(s.disk, cfg.names[i]))
  {
  }

  lemma WriteRetains(cfg: Config, l: Ledger, s: State, op: Op, longest: nat)
    requires cfg.Valid() && cfg.Last() > 0 && op.Write? && InFull(op, longest)
    requires s == Prepared(cfg, l.state, op.env) && s.handle.Some? && SizeIsReal(cfg, s) && !s.firstWrite
    requires SizeOf(s.disk, cfg.names[0]) + longest <= cfg.maxSize + Times(l.restarts + 1, longest)
    requires var rolls := l.rolls + if Rolls(cfg, l.state, op.env) then 1 else 0;
             forall i :: 1 <= i <= cfg.Last() ==> (cfg.names[i] in s.disk <==> i <= rolls)
    requires forall i :: 1 <= i <= cfg.Last() && cfg.names[i] in s.disk ==>
               cfg.maxSize < |s.disk[cfg.names[i]]| <= cfg.maxSize + Times(l.restarts + 1, longest)
    ensures Retained(cfg, Perform(cfg, l, op), longest)
  {
    hide Times, Prepared, Rolls, Lost;
    var s' := Put(s, op.data, Full);
    PutRetains(cfg, s, op.data);
    assert Perform(cfg, l, op).state == s';
    forall i | 1 <= i <= cfg.Last()
      ensures cfg.names[i] in s'.disk <==> cfg.names[i] in s.disk
      ensures cfg.names[i] in s.disk ==> s'.disk[cfg.names[i]] == s.disk[cfg.names[i]]
    {
      assert Content(s'.disk, cfg.names[i]) == Content(s.disk, cfg.names[i]);
    }
  }

  lemma PerformRetains(cfg: Config, l: Ledger, op: Op, longest: nat)
    requires cfg.Valid() && cfg.Last() > 0 && Retained(cfg, l, longest) && InFull(op, longest)
    ensures Retained(cfg, Perform(cfg, l, op), longest)
  {
    TimesGrow(l.restarts, longest);
    TimesGrow(l.restarts + 1, longest);
    if op.Write? {
      var s := Prepared(cfg, l.state, op.env);
      if l.state.firstWrite {
        OpenSucceeds(cfg, l.state);
      } else if MustRoll(cfg, l.state) {
        RollRetains(cfg, l, longest);
      }
      PutRetains(cfg, s, op.data);
      WriteRetains(cfg, l, s, op, longest);
    }
  }

  lemma {:induction false} AccountRetains(cfg: Config, l: Ledger, ops: seq<Op>, longest: nat)
    requires cfg.Valid() && cfg.Last() > 0 && Retained(cfg, l, longest)
    requires forall i :: 0 <= i < |ops| ==> InFull(ops[i], longest)
    ensures Retained(cfg, Account(cfg, l, ops), longest)
    decreases |ops|
  {
    if ops == [] {
    } else {
      PerformRetains(cfg, l, ops[0], longest);
      AccountRetains(cfg, Perform(cfg, l, ops[0]), ops[1..], longest);
    }
  }

  lemma {:induction false} AccountOneMore(cfg: Config, l: Ledger, ops: seq<Op>, op: Op)
    requires cfg.Valid()
    ensures Account(cfg, l, ops + [op]) == Perform(cfg, Account(cfg, l, ops), op)
    decreases |ops|
  {
    if ops == [] {
      assert ops + [op] == [op] && [op][1..] == [];
    } else {
      AccountOneMore(cfg, Perform(cfg, l, ops[0]), ops[1..], op);
      assert (ops + [op])[1..] == ops[1..] + [op];
    }
  }

  /** How often the process was started again. */
  function Restarts(ops: seq<Op>): nat
  {
    if ops == [] then 0 else Restarts(ops[..|ops| - 1]) + if ops[|ops| - 1].Restart? then 1 else 0
  }

  lemma RestartsOneMore(ops: seq<Op>, op: Op)
    ensures Restarts(ops + [op]) == Restarts(ops) + if op.Restart? then 1 else 0
  {
    assert (ops + [op])[..|ops|] == ops;
  }

  lemma {:induction false} RestartsCounted(cfg: Config, l: Ledger, ops: seq<Op>)
    requires cfg.Valid()
    ensures Account(cfg, l, ops).restarts == l.restarts + Restarts(ops)
    decreases |ops|
  {
    if ops == [] {
    } else {
      var init, last := ops[..|ops| - 1], ops[|ops| - 1];
      assert init + [last] == ops;
      RestartsCounted(cfg, l, init);
      AccountOneMore(cfg, l, init, last);
    }
  }

  /**
   * With more than one file and no failing call: after `rolls` rolls exactly the files
   * 1..min(rolls, last) exist besides file 0, each over the limit, and no file is over the limit
   * by more than the longest record for each time the process was started. So in one process no
   * file exceeds the limit by more than one record.
   */
  lemma RetentionAndSpace(cfg: Config, disk: Disk, ops: seq<Op>, longest: nat, i: nat)
    requires cfg.Valid() && cfg.Last() > 0 && NoFamilyFiles(cfg, disk) && i <= cfg.Last()
    requires forall k :: 0 <= k < |ops| ==> InFull(ops[k], longest)
    ensures var l := Account(cfg, NewLedger(disk), ops);
            && (i > 0 ==> (cfg.names[i] in l.state.disk <==> i <= l.rolls))
            && (i > 0 && cfg.names[i] in l.state.disk ==> |l.state.disk[cfg.names[i]]| > cfg.maxSize)
            && SizeOf(l.state.disk, cfg.names[i]) <= cfg.maxSize + (Restarts(ops) + 1) * longest
  {
    var l := Account(cfg, NewLedger(disk), ops);
    AccountRetains(cfg, NewLedger(disk), ops, longest);
    RestartsCounted(cfg, NewLedger(disk), ops);
    TimesGrow(l.restarts, longest);
    assert Times(l.restarts + 1, longest) == (Restarts(ops) + 1) * longest;
  }

  // ---------- where one write ends up ----------

  lemma RollLands(cfg: Config, s: State, i: int)
    requires cfg.Valid() && Between(cfg, s) && MustRoll(cfg, s) && 0 <= i < cfg.Last()
    ensures var s' := Prepared(cfg, s, SUCCESS);
            && s'.handle == Some(cfg.names[0]) && Content(s'.disk, cfg.names[0]) == Some(cfg.header)
            && Content(s'.disk, cfg.names[i + 1]) == Content(s.disk, cfg.names[i])
  {
    RollIsExactShift(cfg, s, SUCCESS);
    assert cfg.header[..|cfg.header|] == cfg.header;
  }

  lemma FirstOpenLands(cfg: Config, s: State, i: int)
    requires cfg.Valid() && s.firstWrite && 0 <= i <= cfg.Last()
    ensures var zero, s' := Content(s.disk, cfg.names[0]), Prepared(cfg, s, SUCCESS);
            && s'.handle == Some(cfg.names[0])
            && Content(s'.disk, cfg.names[0]) == (if zero == None || zero == Some("") then Some(cfg.header) else zero)
            && (i > 0 ==> Content(s'.disk, cfg.names[i]) == Content(s.disk, cfg.names[i]))
  {
    assert cfg.header[..|cfg.header|] == cfg.header && "" + cfg.header == cfg.header;
    assert i > 0 ==> cfg.names[0] != cfg.names[i];
  }

  /**
   * A write in which nothing fails, in full: the first one of a process appends to file 0, however
   * large it is, after the header if the file is new; a later one rolls exactly when there is more
   * than one file and file 0 is over the limit, and appends otherwise; and after an open that
   * failed nothing is written.
   */
  lemma WriteLands(cfg: Config, s: State, data: string, i: int)
    requires cfg.Valid() && Between(cfg, s) && 0 <= i <= cfg.Last()
    ensures var zero, after := Content(s.disk, cfg.names[0]), Written(cfg, s, data, SUCCESS).disk;
            var rolls := cfg.Last() > 0 && !s.firstWrite && s.handle.Some? && |zero.value| > cfg.maxSize;
            && Content(after, cfg.names[0])
               == (if !s.firstWrite && s.handle.None? then zero
                   else if rolls || zero == None || zero == Some("") then Some(
                     if s.firstWrite || rolls then cfg.header + data else data)
                   else Some(zero.value + data))
            && (i > 0 ==> Content(after, cfg.names[i]) == Content(s.disk, cfg.names[if rolls then i - 1 else i]))
  {
    hide RollLogFiles;
    assert data[..|data|] == data && "" + data == data;
    assert i > 0 ==> cfg.names[0] != cfg.names[i];
    if s.firstWrite {
      FirstOpenLands(cfg, s, i);
    } else if MustRoll(cfg, s) {
      RollLands(cfg, s, if i > 0 then i - 1 else 0);
    }
  }

  lemma NewFileHeaded(cfg: Config, s: State, data: string)
    requires cfg.Valid() && s.firstWrite && cfg.names[0] !in s.disk
    ensures Content(Written(cfg, s, data, SUCCESS).disk, cfg.names[0]) == Some(cfg.header + data)
  {
    assert cfg.header[..|cfg.header|] == cfg.header && "" + cfg.header == cfg.header;
    assert data[..|data|] == data;
  }

  lemma MarkAndHeader()
    ensures FILE_HEADER
            == [0xEF as char, 0xBB as char, 0xBF as char] + "Date;Time;Severity;TID;This;Function;Message\n"
  {
    assert BOM == [0xEF as char, 0xBB as char, 0xBF as char];
  }

  /**
   * The first write into a directory without the log: file 0 starts with the bytes 0xEF, 0xBB, 0xBF
   * and the header line.
   */
  lemma NewFileStarts(fileName: string, maxFileSize: nat, maxFiles: int, overwrites: bool, disk: Disk, data: string)
    requires NoFamilyFiles(Configured(fileName, maxFileSize, maxFiles, overwrites), disk)
    ensures var cfg := Configured(fileName, maxFileSize, maxFiles, overwrites);
            Content(Written(cfg, State(disk, None, 0, true), data, SUCCESS).disk, cfg.names[0])
            == Some([0xEF as char, 0xBB as char, 0xBF as char]
                    + "Date;Time;Severity;TID;This;Function;Message\n" + data)
  {
    var cfg := Configured(fileName, maxFileSize, maxFiles, overwrites);
    var s := State(disk, None, 0, true);
    assert cfg.names[0] !in disk;
    NewFileHeaded(cfg, s, data);
    MarkAndHeader();
  }
}
