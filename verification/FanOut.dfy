/** Delivery through nested loggers (Logger.h): exactly what, in which order, and after changes. */
module FanOut {
  import opened Text
  import opened CsvFormatter
  import opened LoggerGraph

  /** What a target delivers on its own; a logger that is not admitted, nothing. */
  ghost function DeliveredBy(g: Graph, t: Target, record: Record): seq<Delivery>
    requires t.Nested? && Admits(g, t.logger, record.severity.Rank()) ==>
               Acyclic(g, record.severity.Rank(), t.logger)
  {
    match t
    case Leaf(appender) => [Delivery(appender, record)]
    case Nested(m) => if Admits(g, m, record.severity.Rank()) then Deliveries(g, m, record) else []
  }

  // ---------- loggers as objects ----------

  /** The calls of `write` that reached appenders, in order. */
  class Journal {
    var deliveries: seq<Delivery>

    constructor ()
      ensures deliveries == []
    {
      deliveries := [];
    }
  }

  datatype IAppender = Sink(appender: nat) | Sub(logger: Logger)

  class Logger {
    const id: nat
    var maxSeverity: int
    var appenders: seq<IAppender>

    constructor (id: nat, maxSeverity: int)
      ensures this.id == id && this.maxSeverity == maxSeverity && appenders == []
    {
      this.id := id;
      this.maxSeverity := maxSeverity;
      this.appenders := [];
    }

    method AddAppender(appender: IAppender)
      requires appender != Sub(this)
      modifies this`appenders
      ensures appenders == old(appenders) + [appender]
    {
      appenders := appenders + [appender];
    }

    method SetMaxSeverity(severity: int)
      modifies this`maxSeverity
      ensures maxSeverity == severity
    {
      maxSeverity := severity;
    }

    predicate CheckSeverity(severity: int)
      reads this
    {
      severity <= maxSeverity
    }

    /** `write`: what a logger does as an appender of another one. */
    method Write(record: Record, journal: Journal, ghost world: map<nat, Logger>, ghost g: Graph)
      requires Depicts(world, g) && id in world && world[id] == this
      requires Admits(g, id, record.severity.Rank()) ==> Acyclic(g, record.severity.Rank(), id)
      modifies journal
      ensures journal.deliveries == old(journal.deliveries) + DeliveredBy(g, Nested(id), record)
      decreases if Admits(g, id, record.severity.Rank()) then |Below(g, record.severity.Rank(), id)| + 1 else 0, 1
    {
      if CheckSeverity(record.severity.Rank()) {
        Forward(record, journal, world, g);
      } else {
        assert old(journal.deliveries) + [] == journal.deliveries;
      }
    }

    /** `operator+=`: no severity check of its own. */
    method Forward(record: Record, journal: Journal, ghost world: map<nat, Logger>, ghost g: Graph)
      requires Depicts(world, g) && id in world && world[id] == this
      requires Acyclic(g, record.severity.Rank(), id)
      modifies journal
      ensures journal.deliveries == old(journal.deliveries) + Deliveries(g, id, record)
      decreases |Below(g, record.severity.Rank(), id)| + 1, 0
    {
      ghost var severity := record.severity.Rank();
      for it := 0 to |appenders|
        invariant journal.deliveries + DeliveriesFrom(g, id, it, record)
                  == old(journal.deliveries) + Deliveries(g, id, record)
      {
        ghost var before := journal.deliveries;
        Assoc(before, Here(g, id, it, record), DeliveriesFrom(g, id, it + 1, record));
        assert ToTarget(appenders[it]) == g[id].targets[it];
        match appenders[it] {
          case Sink(appender) =>
            journal.deliveries := journal.deliveries + [Delivery(appender, record)];
          case Sub(logger) =>
            if Enters(g, severity, id, it) {
              EnteredIsSmaller(g, severity, id, it);
            }
            logger.Write(record, journal, world, g);
        }
        assert journal.deliveries == before + Here(g, id, it, record);
      }
    }
  }

  function ToTarget(a: IAppender): Target
  {
    match a
    case Sink(appender) => Leaf(appender)
    case Sub(logger) => Nested(logger.id)
  }

  /** The graph `g` shows the loggers of `world` as they are now. */
  ghost predicate Depicts(world: map<nat, Logger>, g: Graph)
    reads world.Values
  {
    && world.Keys == g.Keys
    && forall l :: l in world ==>
         && world[l].id == l
         && g[l].maxSeverity == world[l].maxSeverity
         && |g[l].targets| == |world[l].appenders|
         && forall i :: 0 <= i < |g[l].targets| ==>
              && g[l].targets[i] == ToTarget(world[l].appenders[i])
              && (world[l].appenders[i].Sub? ==>
                    var m := world[l].appenders[i].logger; m.id in world && world[m.id] == m)
  }

  // ---------- which deliveries, and in which order ----------

  /** The appender that the last entry of a path names, at the logger the entries before it reach. */
  function PathTo(g: Graph, severity: int, logger: nat, path: seq<nat>): Option<nat>
  {
    if path == [] then None
    else
      var at, i := LoggerAt(g, severity, logger, path[..|path| - 1]), path[|path| - 1];
      if at.Some? && at.value in g && i < |g[at.value].targets| && g[at.value].targets[i].Leaf?
      then Some(g[at.value].targets[i].appender) else None
  }

  /** The same path seen from its first entry. */
  lemma PathFromFirst(g: Graph, severity: int, logger: nat, p: seq<nat>)
    requires p != []
    ensures PathTo(g, severity, logger, p)
            == if logger !in g || p[0] >= |g[logger].targets| then None
               else match g[logger].targets[p[0]]
                 case Leaf(appender) => if |p| == 1 then Some(appender) else None
                 case Nested(m) => if Admits(g, m, severity) then PathTo(g, severity, m, p[1..]) else None
  {
    if |p| > 1 {
      var front := p[..|p| - 1];
      assert front[0] == p[0] && front[1..] == p[1..][..|p[1..]| - 1];
      assert p[1..][|p[1..]| - 1] == p[|p| - 1];
    }
  }

  /** The order of paths that takes earlier entries first, at the first logger where they part. */
  predicate Precedes(p: seq<nat>, q: seq<nat>)
    decreases |p|
  {
    if p == [] || q == [] then p == [] && q != []
    else p[0] < q[0] || (p[0] == q[0] && Precedes(p[1..], q[1..]))
  }

  predicate Ordered(paths: seq<seq<nat>>)
  {
    forall a, b :: 0 <= a < b < |paths| ==> Precedes(paths[a], paths[b])
  }

  /** `paths` lists the admitting paths through entries lo..hi-1, one for each delivery, in its order. */
  ghost predicate Explains(g: Graph, logger: nat, lo: nat, hi: nat, record: Record,
                           paths: seq<seq<nat>>, deliveries: seq<Delivery>)
  {
    var severity := record.severity.Rank();
    && |paths| == |deliveries|
    && (forall k :: 0 <= k < |paths| ==>
          && paths[k] != [] && lo <= paths[k][0] < hi
          && PathTo(g, severity, logger, paths[k]) == Some(deliveries[k].appender)
          && deliveries[k].record == record)
    && Ordered(paths)
    && (forall p :: p != [] && lo <= p[0] < hi && PathTo(g, severity, logger, p).Some? ==> p in paths)
  }

  function Prefixed(i: nat, paths: seq<seq<nat>>): (r: seq<seq<nat>>)
    ensures |r| == |paths| && forall k :: 0 <= k < |r| ==> r[k] == [i] + paths[k] && r[k][1..] == paths[k]
  {
    seq(|paths|, k requires 0 <= k < |paths| => [i] + paths[k])
  }

  lemma ExplainLeaf(g: Graph, logger: nat, i: nat, record: Record)
    requires logger in g && i < |g[logger].targets| && g[logger].targets[i].Leaf?
    ensures Explains(g, logger, i, i + 1, record, [[i]], [Delivery(g[logger].targets[i].appender, record)])
  {
    forall p | p != [] && i <= p[0] < i + 1 && PathTo(g, record.severity.Rank(), logger, p).Some?
      ensures p in [[i]]
    {
      assert p == [i];
    }
  }

  lemma EmptyPath(g: Graph, severity: int, logger: nat)
    ensures PathTo(g, severity, logger, []) == None
  {
  }

  lemma PrefixedOrdered(i: nat, paths: seq<seq<nat>>)
    requires Ordered(paths)
    ensures Ordered(Prefixed(i, paths))
  {
  }

  lemma PathThrough(g: Graph, severity: int, logger: nat, i: nat, p: seq<nat>)
    requires Enters(g, severity, logger, i)
    ensures PathTo(g, severity, logger, [i] + p) == PathTo(g, severity, g[logger].targets[i].logger, p)
  {
    hide LoggerAt;
    PathFromFirst(g, severity, logger, [i] + p);
    assert ([i] + p)[1..] == p;
  }

  lemma ExplainNested(g: Graph, logger: nat, i: nat, record: Record, inner: seq<seq<nat>>, through: seq<Delivery>)
    requires logger in g && i < |g[logger].targets| && g[logger].targets[i].Nested?
    requires var m := g[logger].targets[i].logger;
             && Admits(g, m, record.severity.Rank())
             && Explains(g, m, 0, |g[m].targets|, record, inner, through)
    ensures Explains(g, logger, i, i + 1, record, Prefixed(i, inner), through)
  {
    var severity := record.severity.Rank();
    var m := g[logger].targets[i].logger;
    var paths := Prefixed(i, inner);
    hide PathTo, Precedes;
    forall k | 0 <= k < |inner| ensures PathTo(g, severity, logger, paths[k]) == PathTo(g, severity, m, inner[k]) {
      PathThrough(g, severity, logger, i, inner[k]);
    }
    PrefixedOrdered(i, inner);
    forall p | p != [] && i <= p[0] < i + 1 && PathTo(g, severity, logger, p).Some? ensures p in paths {
      var tail := p[1..];
      assert p == [i] + tail;
      PathThrough(g, severity, logger, i, tail);
      EmptyPath(g, severity, m);
      assert tail in inner by {
        assert tail != [] && PathTo(g, severity, m, tail).Some?;
        PathFromFirst(g, severity, m, tail);
      }
      var k :| 0 <= k < |inner| && inner[k] == tail;
      assert paths[k] == [i] + tail == p;
    }
  }

  lemma ExplainClosed(g: Graph, logger: nat, i: nat, record: Record)
    requires logger in g && i < |g[logger].targets| && g[logger].targets[i].Nested?
    requires !Admits(g, g[logger].targets[i].logger, record.severity.Rank())
    ensures Explains(g, logger, i, i + 1, record, [], [])
  {
  }

  lemma EarlierEntry(p: seq<nat>, q: seq<nat>)
    requires p != [] && q != [] && p[0] < q[0]
    ensures Precedes(p, q)
  {
  }

  lemma BothOrdered(a: seq<seq<nat>>, b: seq<seq<nat>>, mid: nat)
    requires Ordered(a) && Ordered(b)
    requires forall k :: 0 <= k < |a| ==> a[k] != [] && a[k][0] < mid
    requires forall k :: 0 <= k < |b| ==> b[k] != [] && mid <= b[k][0]
    ensures Ordered(a + b)
  {
    hide Precedes;
    forall k, l | 0 <= k < l < |a + b| ensures Precedes((a + b)[k], (a + b)[l]) {
      if k < |a| && l >= |a| {
        EarlierEntry((a + b)[k], (a + b)[l]);
      }
    }
  }

  /** Paths through neighbouring entries, put side by side. */
  lemma ExplainBoth(g: Graph, logger: nat, lo: nat, mid: nat, hi: nat, record: Record,
                    a: seq<seq<nat>>, da: seq<Delivery>, b: seq<seq<nat>>, db: seq<Delivery>)
    requires lo <= mid <= hi
    requires Explains(g, logger, lo, mid, record, a, da) && Explains(g, logger, mid, hi, record, b, db)
    ensures Explains(g, logger, lo, hi, record, a + b, da + db)
  {
    hide PathTo, Ordered;
    BothOrdered(a, b, mid);
    forall p | p != [] && lo <= p[0] < hi && PathTo(g, record.severity.Rank(), logger, p).Some?
      ensures p in a + b
    {
      assert p in a || p in b;
    }
    forall k | 0 <= k < |a + b|
      ensures (a + b)[k] != [] && lo <= (a + b)[k][0] < hi
      ensures PathTo(g, record.severity.Rank(), logger, (a + b)[k]) == Some((da + db)[k].appender)
      ensures (da + db)[k].record == record
    {
      if k < |a| {
        assert (a + b)[k] == a[k] && (da + db)[k] == da[k];
      } else {
        assert (a + b)[k] == b[k - |a|] && (da + db)[k] == db[k - |a|];
      }
    }
  }

  lemma ExplainNothing(g: Graph, logger: nat, i: nat, record: Record)
    ensures Explains(g, logger, i, i, record, [], [])
  {
  }

  /**
   * A delivery for every path on which every nested logger admits the severity, no other, and in
   * the order of the paths: an appender gets one copy for each such path to it.
   */
  lemma {:induction false} DeliveriesFollowPaths(g: Graph, logger: nat, i: nat, record: Record)
    returns (paths: seq<seq<nat>>)
    requires Acyclic(g, record.severity.Rank(), logger) && logger in g && i <= |g[logger].targets|
    ensures Explains(g, logger, i, |g[logger].targets|, record, paths, DeliveriesFrom(g, logger, i, record))
    decreases |Below(g, record.severity.Rank(), logger)|, |g[logger].targets| - i
  {
    hide Explains, Acyclic;
    var n := |g[logger].targets|;
    if i == n {
      paths := [];
      ExplainNothing(g, logger, i, record);
    } else {
      var rest := DeliveriesFollowPaths(g, logger, i + 1, record);
      var front: seq<seq<nat>>;
      match g[logger].targets[i] {
        case Leaf(appender) =>
          ExplainLeaf(g, logger, i, record);
          front := [[i]];
        case Nested(m) =>
          if Enters(g, record.severity.Rank(), logger, i) {
            EnteredIsSmaller(g, record.severity.Rank(), logger, i);
            var inner := DeliveriesFollowPaths(g, m, 0, record);
            ExplainNested(g, logger, i, record, inner, DeliveriesFrom(g, m, 0, record));
            front := Prefixed(i, inner);
          } else {
            ExplainClosed(g, logger, i, record);
            front := [];
          }
      }
      ExplainBoth(g, logger, i, i + 1, n, record, front, Here(g, logger, i, record),
                  rest, DeliveriesFrom(g, logger, i + 1, record));
      paths := front + rest;
    }
  }

  lemma HasMember(a: seq<seq<nat>>)
    ensures a != [] ==> exists p :: p in a
  {
    if a != [] {
      assert a[0] in a;
    }
  }

  lemma {:induction false} NotBoth(p: seq<nat>, q: seq<nat>)
    ensures !(Precedes(p, q) && Precedes(q, p))
    ensures p == q ==> !Precedes(p, q)
    decreases |p|
  {
    if p == [] || q == [] {
    } else {
      NotBoth(p[1..], q[1..]);
    }
  }

  lemma TailHas(a: seq<seq<nat>>, p: seq<nat>)
    requires a != [] && Ordered(a)
    ensures p in a[1..] <==> p in a && p != a[0]
  {
    NotBoth(a[0], a[0]);
    if p in a[1..] {
      var k :| 0 <= k < |a[1..]| && a[1..][k] == p;
      assert Precedes(a[0], a[k + 1]);
    }
    if p in a && p != a[0] {
      var k :| 0 <= k < |a| && a[k] == p;
      assert a[1..][k - 1] == p;
    }
  }

  /** No other sequence of paths fits: order and completeness leave no choice. */
  lemma {:induction false} OrderedListsEqual(a: seq<seq<nat>>, b: seq<seq<nat>>)
    requires Ordered(a) && Ordered(b)
    requires forall p :: p in a <==> p in b
    ensures a == b
    decreases |a|
  {
    HasMember(a);
    HasMember(b);
    if a == [] || b == [] {
    } else {
      assert a[0] in b && b[0] in a;
      var k :| 0 <= k < |b| && b[k] == a[0];
      var l :| 0 <= l < |a| && a[l] == b[0];
      NotBoth(b[0], a[0]);
      assert a[0] == b[0];
      forall p ensures p in a[1..] <==> p in b[1..] {
        TailHas(a, p);
        TailHas(b, p);
      }
      OrderedListsEqual(a[1..], b[1..]);
      assert a == [a[0]] + a[1..] && b == [b[0]] + b[1..];
    }
  }

  /**
   * The deliveries of operator+= without any recursion over loggers: list the admitting paths in
   * order, and each one is a delivery to the appender it leads to.
   */
  lemma DeliveriesAreExactly(g: Graph, logger: nat, record: Record, paths: seq<seq<nat>>)
    requires Acyclic(g, record.severity.Rank(), logger) && logger in g
    requires Ordered(paths)
    requires forall p :: p in paths <==> PathTo(g, record.severity.Rank(), logger, p).Some?
    ensures var all := Deliveries(g, logger, record);
            && |all| == |paths|
            && forall k :: 0 <= k < |paths| ==>
                 PathTo(g, record.severity.Rank(), logger, paths[k]) == Some(all[k].appender) && all[k].record == record
  {
    var found := DeliveriesFollowPaths(g, logger, 0, record);
    forall p ensures p in found <==> p in paths {
    }
    OrderedListsEqual(found, paths);
  }

  // ---------- changing the graph ----------

  /** `low` is `high` with some maximum severities lowered. */
  ghost predicate Lowered(low: Graph, high: Graph)
  {
    low.Keys == high.Keys
    && forall l :: l in high ==> low[l].targets == high[l].targets && low[l].maxSeverity <= high[l].maxSeverity
  }

  lemma {:induction false} LoweredReachesLess(low: Graph, high: Graph, severity: int, logger: nat, p: seq<nat>)
    requires Lowered(low, high) && LoggerAt(low, severity, logger, p).Some?
    ensures LoggerAt(high, severity, logger, p) == LoggerAt(low, severity, logger, p)
    decreases |p|
  {
    if p == [] {
    } else {
      LoweredReachesLess(low, high, severity, low[logger].targets[p[0]].logger, p[1..]);
    }
  }

  /** Lowering a severity closes no cycle. */
  lemma LoweredStaysAcyclic(low: Graph, high: Graph, severity: int, logger: nat)
    requires Lowered(low, high) && Acyclic(high, severity, logger)
    ensures Acyclic(low, severity, logger)
  {
    forall p: seq<nat>, q: seq<nat> | q != [] && LoggerAt(low, severity, logger, p).Some?
      ensures LoggerAt(low, severity, logger, p + q) != LoggerAt(low, severity, logger, p)
    {
      LoweredReachesLess(low, high, severity, logger, p);
      if LoggerAt(low, severity, logger, p + q).Some? {
        LoweredReachesLess(low, high, severity, logger, p + q);
      }
    }
  }

  lemma EmptySubsequence<T>(a: seq<T>)
    ensures IsSubsequence([], a)
  {
  }

  /** Lowering severities only leaves deliveries out; the others keep their order. */
  lemma {:induction false} LoweringLeavesOut(low: Graph, high: Graph, logger: nat, i: nat, record: Record)
    requires Lowered(low, high) && logger in high && i <= |high[logger].targets|
    requires Acyclic(high, record.severity.Rank(), logger) && Acyclic(low, record.severity.Rank(), logger)
    ensures IsSubsequence(DeliveriesFrom(low, logger, i, record), DeliveriesFrom(high, logger, i, record))
    decreases |Below(high, record.severity.Rank(), logger)|, |high[logger].targets| - i
  {
    hide IsSubsequence, Acyclic;
    if i == |high[logger].targets| {
      SubsequenceReflexive<Delivery>([]);
    } else {
      var severity := record.severity.Rank();
      LoweringLeavesOut(low, high, logger, i + 1, record);
      if high[logger].targets[i].Leaf? {
        SubsequenceReflexive(Here(high, logger, i, record));
      } else if Enters(low, severity, logger, i) {
        EnteredIsSmaller(high, severity, logger, i);
        EnteredIsSmaller(low, severity, logger, i);
        LoweringLeavesOut(low, high, high[logger].targets[i].logger, 0, record);
      } else {
        EmptySubsequence(Here(high, logger, i, record));
      }
      SubsequenceConcat(Here(low, logger, i, record), Here(high, logger, i, record),
                        DeliveriesFrom(low, logger, i + 1, record), DeliveriesFrom(high, logger, i + 1, record));
    }
  }

  ghost predicate AcyclicForAll(g: Graph, logger: nat, records: seq<Record>)
  {
    forall k :: 0 <= k < |records| ==> Acyclic(g, records[k].severity.Rank(), logger)
  }

  /** All deliveries of a run of records given to one logger by operator+=. */
  ghost function Trace(g: Graph, logger: nat, records: seq<Record>): seq<Delivery>
    requires AcyclicForAll(g, logger, records) && logger in g
  {
    if records == [] then []
    else Trace(g, logger, records[..|records| - 1]) + Deliveries(g, logger, records[|records| - 1])
  }

  /** The same over a whole run of records. */
  lemma {:induction false} LoweringLeavesOutOfRuns(low: Graph, high: Graph, logger: nat, records: seq<Record>)
    requires Lowered(low, high) && logger in high && AcyclicForAll(high, logger, records)
    ensures AcyclicForAll(low, logger, records)
    ensures IsSubsequence(Trace(low, logger, records), Trace(high, logger, records))
  {
    hide Acyclic;
    forall k | 0 <= k < |records| ensures Acyclic(low, records[k].severity.Rank(), logger) {
      LoweredStaysAcyclic(low, high, records[k].severity.Rank(), logger);
    }
    if records == [] {
    } else {
      var init, last := records[..|records| - 1], records[|records| - 1];
      LoweringLeavesOutOfRuns(low, high, logger, init);
      LoweringLeavesOut(low, high, logger, 0, last);
      SubsequenceConcat(Trace(low, logger, init), Trace(high, logger, init),
                        Deliveries(low, logger, last), Deliveries(high, logger, last));
    }
  }

  /** The graph after `addAppender` on one logger. */
  function WithTarget(g: Graph, logger: nat, t: Target): Graph
    requires logger in g
  {
    g[logger := Node(g[logger].maxSeverity, g[logger].targets + [t])]
  }

  lemma {:induction false} WithTargetReachesMore(g: Graph, severity: int, logger: nat, t: Target, l: nat, p: seq<nat>)
    requires logger in g && LoggerAt(g, severity, l, p).Some?
    ensures LoggerAt(WithTarget(g, logger, t), severity, l, p) == LoggerAt(g, severity, l, p)
    decreases |p|
  {
    if p == [] {
    } else {
      WithTargetReachesMore(g, severity, logger, t, g[l].targets[p[0]].logger, p[1..]);
    }
  }

  /** Without the new entry there are no more cycles than with it. */
  lemma WithoutTargetAcyclic(g: Graph, severity: int, logger: nat, t: Target, l: nat)
    requires logger in g && Acyclic(WithTarget(g, logger, t), severity, l)
    ensures Acyclic(g, severity, l)
  {
    forall p: seq<nat>, q: seq<nat> | q != [] && LoggerAt(g, severity, l, p).Some?
      ensures LoggerAt(g, severity, l, p + q) != LoggerAt(g, severity, l, p)
    {
      WithTargetReachesMore(g, severity, logger, t, l, p);
      if LoggerAt(g, severity, l, p + q).Some? {
        WithTargetReachesMore(g, severity, logger, t, l, p + q);
      }
    }
  }

  /** Nested calls from `l` never reach `logger`. */
  ghost predicate Misses(g: Graph, severity: int, l: nat, logger: nat)
  {
    forall p: seq<nat> :: LoggerAt(g, severity, l, p) != Some(logger)
  }

  lemma EnteredMisses(g: Graph, severity: int, l: nat, i: nat, logger: nat)
    requires Enters(g, severity, l, i)
    requires Misses(g, severity, l, logger) || (l == logger && Acyclic(g, severity, l))
    ensures Misses(g, severity, g[l].targets[i].logger, logger)
  {
    forall p: seq<nat> ensures LoggerAt(g, severity, g[l].targets[i].logger, p) != Some(logger) {
      StepDown(g, severity, l, i, p);
      if l == logger {
        assert LoggerAt(g, severity, l, []) == Some(l);
        assert [] + ([i] + p) == [i] + p;
      }
    }
  }

  /** A logger that does not reach the changed one delivers what it delivered before. */
  lemma {:induction false} MissedUnchanged(g: Graph, logger: nat, t: Target, l: nat, i: nat, record: Record)
    requires logger in g && l in g && i <= |g[l].targets|
    requires Misses(WithTarget(g, logger, t), record.severity.Rank(), l, logger)
    requires Acyclic(g, record.severity.Rank(), l) && Acyclic(WithTarget(g, logger, t), record.severity.Rank(), l)
    ensures l != logger && DeliveriesFrom(WithTarget(g, logger, t), l, i, record) == DeliveriesFrom(g, l, i, record)
    decreases |Below(g, record.severity.Rank(), l)|, |g[l].targets| - i
  {
    var more, severity := WithTarget(g, logger, t), record.severity.Rank();
    assert LoggerAt(more, severity, l, []) != Some(logger);
    if i == |g[l].targets| {
    } else {
      MissedUnchanged(g, logger, t, l, i + 1, record);
      if Enters(g, severity, l, i) {
        EnteredMisses(more, severity, l, i, logger);
        EnteredIsSmaller(g, severity, l, i);
        EnteredIsSmaller(more, severity, l, i);
        MissedUnchanged(g, logger, t, g[l].targets[i].logger, 0, record);
      }
    }
  }

  lemma HereUnchanged(g: Graph, logger: nat, t: Target, i: nat, record: Record)
    requires logger in g && i < |g[logger].targets|
    requires Acyclic(g, record.severity.Rank(), logger)
    requires Acyclic(WithTarget(g, logger, t), record.severity.Rank(), logger)
    ensures Here(WithTarget(g, logger, t), logger, i, record) == Here(g, logger, i, record)
  {
    var more, severity := WithTarget(g, logger, t), record.severity.Rank();
    assert more[logger].targets[i] == g[logger].targets[i];
    if Enters(g, severity, logger, i) {
      EnteredMisses(more, severity, logger, i, logger);
      EnteredIsSmaller(g, severity, logger, i);
      EnteredIsSmaller(more, severity, logger, i);
      MissedUnchanged(g, logger, t, g[logger].targets[i].logger, 0, record);
    }
  }

  /**
   * What `write` adds is empty exactly for severities after the limit, in their order, and for
   * loggers that deliver nothing anyway.
   */
  lemma WriteAddsNothingExactly(g: Graph, logger: nat, record: Record, i: nat, j: nat)
    requires i < |SEVERITIES| && j < |SEVERITIES| && record.severity == SEVERITIES[j]
    requires logger in g && g[logger].maxSeverity == i
    requires j <= i ==> Acyclic(g, record.severity.Rank(), logger)
    ensures Admits(g, logger, record.severity.Rank()) <==> j <= i
    ensures DeliveredBy(g, Nested(logger), record) == [] <==> j > i || Deliveries(g, logger, record) == []
    ensures j <= i ==> DeliveredBy(g, Nested(logger), record) == Deliveries(g, logger, record)
  {
    AdmitsByOrder(g, logger, i, j);
  }

  /** The new entry, on its own, delivers in the old graph what it delivers in the new one. */
  lemma NewEntryDelivers(g: Graph, logger: nat, t: Target, record: Record)
    requires logger in g && Acyclic(WithTarget(g, logger, t), record.severity.Rank(), logger)
    ensures t.Nested? && Admits(g, t.logger, record.severity.Rank()) ==>
              Acyclic(g, record.severity.Rank(), t.logger)
    ensures Here(WithTarget(g, logger, t), logger, |g[logger].targets|, record) == DeliveredBy(g, t, record)
  {
    var more, severity, n := WithTarget(g, logger, t), record.severity.Rank(), |g[logger].targets|;
    assert more[logger].targets[n] == t;
    if Enters(more, severity, logger, n) {
      EnteredMisses(more, severity, logger, n, logger);
      EnteredIsSmaller(more, severity, logger, n);
      WithoutTargetAcyclic(g, severity, logger, t, t.logger);
      assert LoggerAt(more, severity, t.logger, []) != Some(logger);
      MissedUnchanged(g, logger, t, t.logger, 0, record);
    }
  }

  lemma {:induction false} AddedComesLastFrom(g: Graph, logger: nat, t: Target, i: nat, record: Record)
    requires logger in g && i <= |g[logger].targets|
    requires Acyclic(g, record.severity.Rank(), logger)
    requires Acyclic(WithTarget(g, logger, t), record.severity.Rank(), logger)
    ensures DeliveriesFrom(WithTarget(g, logger, t), logger, i, record)
            == DeliveriesFrom(g, logger, i, record) + Here(WithTarget(g, logger, t), logger, |g[logger].targets|, record)
    decreases |g[logger].targets| - i
  {
    hide Acyclic;
    var more, n := WithTarget(g, logger, t), |g[logger].targets|;
    if i == n {
      assert DeliveriesFrom(more, logger, n + 1, record) == [];
    } else {
      AddedComesLastFrom(g, logger, t, i + 1, record);
      HereUnchanged(g, logger, t, i, record);
      Assoc(Here(g, logger, i, record), DeliveriesFrom(g, logger, i + 1, record), Here(more, logger, n, record));
    }
  }

  /**
   * As long as the new entry closes no cycle, an added appender is served last, nothing before it
   * changes, and it delivers what it would deliver on its own.
   */
  lemma AddedAppenderComesLast(g: Graph, logger: nat, t: Target, record: Record)
    requires logger in g && Acyclic(WithTarget(g, logger, t), record.severity.Rank(), logger)
    ensures Acyclic(g, record.severity.Rank(), logger)
    ensures t.Nested? && Admits(g, t.logger, record.severity.Rank()) ==>
              Acyclic(g, record.severity.Rank(), t.logger)
    ensures Deliveries(WithTarget(g, logger, t), logger, record)
            == Deliveries(g, logger, record) + DeliveredBy(g, t, record)
  {
    WithoutTargetAcyclic(g, record.severity.Rank(), logger, t, logger);
    NewEntryDelivers(g, logger, t, record);
    AddedComesLastFrom(g, logger, t, 0, record);
  }
}
