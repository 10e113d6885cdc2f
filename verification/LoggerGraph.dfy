/** Loggers that hold appenders and other loggers (Logger.h), as a graph, and when delivery ends. */
module LoggerGraph {
  import opened Text
  import opened CsvFormatter

  /** An entry of a logger's list: an appender that writes, or another logger. */
  datatype Target = Leaf(appender: nat) | Nested(logger: nat)

  datatype Node = Node(maxSeverity: int, targets: seq<Target>)

  type Graph = map<nat, Node>

  /** One call of `write` on an appender that is not a logger. */
  datatype Delivery = Delivery(appender: nat, record: Record)

  predicate Admits(g: Graph, logger: nat, severity: int)
  {
    logger in g && severity <= g[logger].maxSeverity
  }

  /**
   * The logger that calls nested along a path reach: a path gives the entry taken in each logger's
   * list, and every logger on it but the first has to admit the severity.
   */
  function LoggerAt(g: Graph, severity: int, logger: nat, path: seq<nat>): Option<nat>
    decreases |path|
  {
    if path == [] then Some(logger)
    else if logger !in g || path[0] >= |g[logger].targets| then None
    else match g[logger].targets[path[0]]
      case Leaf(_) => None
      case Nested(m) => if Admits(g, m, severity) then LoggerAt(g, severity, m, path[1..]) else None
  }

  // ---------- the order of severities ----------

  /** A logger with the limit at place `i` admits exactly the severities up to that place. */
  lemma AdmitsByOrder(g: Graph, logger: nat, i: nat, j: nat)
    requires i < |SEVERITIES| && j < |SEVERITIES| && logger in g && g[logger].maxSeverity == i
    ensures Admits(g, logger, SEVERITIES[j].Rank()) <==> j <= i
  {
    assert SEVERITIES[j].Rank() == j;
  }

  /** The loggers that stand on a path, whatever they admit. */
  function Passed(g: Graph, logger: nat, path: seq<nat>): Option<seq<nat>>
    decreases |path|
  {
    if path == [] then Some([])
    else if logger !in g || path[0] >= |g[logger].targets| then None
    else match g[logger].targets[path[0]]
      case Leaf(_) => None
      case Nested(m) =>
        match Passed(g, m, path[1..])
        case None => None
        case Some(rest) => Some([m] + rest)
  }

  /**
   * A record with the severity at place `j` gets along a path exactly when no logger on it, after
   * the first, has a limit before that place.
   */
  lemma {:induction false} PathOpensExactly(g: Graph, j: nat, logger: nat, path: seq<nat>)
    requires j < |SEVERITIES|
    ensures var passed := Passed(g, logger, path);
            LoggerAt(g, SEVERITIES[j].Rank(), logger, path).Some?
            <==> passed.Some? && forall m :: m in passed.value ==> m in g && j <= g[m].maxSeverity
    decreases |path|
  {
    assert SEVERITIES[j].Rank() == j;
    if path == [] {
    } else if logger in g && path[0] < |g[logger].targets| && g[logger].targets[path[0]].Nested? {
      var m := g[logger].targets[path[0]].logger;
      PathOpensExactly(g, j, m, path[1..]);
      if Passed(g, logger, path).Some? {
        assert Passed(g, logger, path).value == [m] + Passed(g, m, path[1..]).value;
        assert m in Passed(g, logger, path).value;
      }
    }
  }

  // ---------- cycles ----------

  /** No nested call starting at this logger comes back to a logger it has passed. */
  ghost predicate Acyclic(g: Graph, severity: int, logger: nat)
  {
    forall p: seq<nat>, q: seq<nat> :: q != [] && LoggerAt(g, severity, logger, p).Some? ==>
      LoggerAt(g, severity, logger, p + q) != LoggerAt(g, severity, logger, p)
  }

  lemma {:induction false} LoggerAtConcat(g: Graph, severity: int, logger: nat, p: seq<nat>, q: seq<nat>)
    ensures LoggerAt(g, severity, logger, p + q)
            == var mid := LoggerAt(g, severity, logger, p);
               if mid.Some? then LoggerAt(g, severity, mid.value, q) else None
    decreases |p|
  {
    if p == [] {
      assert p + q == q;
    } else {
      assert (p + q)[1..] == p[1..] + q;
      if logger in g && p[0] < |g[logger].targets| && g[logger].targets[p[0]].Nested? {
        LoggerAtConcat(g, severity, g[logger].targets[p[0]].logger, p[1..], q);
      }
    }
  }

  // ---------- why delivery ends ----------

  ghost predicate Leads(g: Graph, severity: int, logger: nat, m: nat)
  {
    exists p: seq<nat> :: p != [] && LoggerAt(g, severity, logger, p) == Some(m)
  }

  /** The loggers that nested calls from this one can reach. */
  ghost function Below(g: Graph, severity: int, logger: nat): set<nat>
  {
    set m | m in g && Leads(g, severity, logger, m)
  }

  /** The entry leads to a logger that takes records of this severity. */
  predicate Enters(g: Graph, severity: int, logger: nat, i: nat)
  {
    logger in g && i < |g[logger].targets| && g[logger].targets[i].Nested?
    && Admits(g, g[logger].targets[i].logger, severity)
  }

  lemma StepDown(g: Graph, severity: int, logger: nat, i: nat, p: seq<nat>)
    requires Enters(g, severity, logger, i)
    ensures LoggerAt(g, severity, logger, [i] + p) == LoggerAt(g, severity, g[logger].targets[i].logger, p)
  {
    assert ([i] + p)[1..] == p;
  }

  /** A nested logger starts nothing endless either, and there are fewer loggers below it. */
  lemma EnteredIsSmaller(g: Graph, severity: int, logger: nat, i: nat)
    requires Acyclic(g, severity, logger) && Enters(g, severity, logger, i)
    ensures var m := g[logger].targets[i].logger;
            Acyclic(g, severity, m) && |Below(g, severity, m)| < |Below(g, severity, logger)|
  {
    var m := g[logger].targets[i].logger;
    forall p: seq<nat>, q: seq<nat> | q != [] && LoggerAt(g, severity, m, p).Some?
      ensures LoggerAt(g, severity, m, p + q) != LoggerAt(g, severity, m, p)
    {
      StepDown(g, severity, logger, i, p);
      StepDown(g, severity, logger, i, p + q);
      assert [i] + (p + q) == ([i] + p) + q;
    }
    forall n | n in Below(g, severity, m) ensures n in Below(g, severity, logger) && n != m {
      var p: seq<nat> :| p != [] && LoggerAt(g, severity, m, p) == Some(n);
      StepDown(g, severity, logger, i, p);
      assert LoggerAt(g, severity, m, [] + p) == Some(n) by {
        assert [] + p == p;
      }
      assert LoggerAt(g, severity, m, []) == Some(m);
    }
    StepDown(g, severity, logger, i, []);
    assert m in Below(g, severity, logger);
    SmallerSet(Below(g, severity, m), Below(g, severity, logger), m);
  }

  lemma {:induction false} PathsAreShort(g: Graph, severity: int, logger: nat, p: seq<nat>)
    requires Acyclic(g, severity, logger) && LoggerAt(g, severity, logger, p).Some?
    ensures |p| <= |Below(g, severity, logger)| <= |g|
    decreases |p|
  {
    SubsetSize(Below(g, severity, logger), g.Keys);
    if p == [] {
    } else {
      EnteredIsSmaller(g, severity, logger, p[0]);
      PathsAreShort(g, severity, g[logger].targets[p[0]].logger, p[1..]);
    }
  }

  function Repeated(q: seq<nat>, n: nat): seq<nat>
  {
    if n == 0 then [] else q + Repeated(q, n - 1)
  }

  /** A cycle can be run through as often as one likes. */
  lemma {:induction false} CycleRepeats(g: Graph, severity: int, logger: nat, q: seq<nat>, n: nat)
    requires q != [] && LoggerAt(g, severity, logger, q) == Some(logger)
    ensures |Repeated(q, n)| >= n && LoggerAt(g, severity, logger, Repeated(q, n)) == Some(logger)
  {
    if n == 0 {
    } else {
      CycleRepeats(g, severity, logger, q, n - 1);
      LoggerAtConcat(g, severity, logger, q, Repeated(q, n - 1));
    }
  }

  /**
   * Delivery from a logger ends if and only if it starts no cycle of admitting loggers: the calls
   * nest no deeper than there are loggers exactly when no call comes back to a logger it has
   * passed. Cycles that no record of this severity can reach do not matter.
   */
  lemma EndsExactlyWithoutCycle(g: Graph, severity: int, logger: nat)
    ensures Acyclic(g, severity, logger)
            <==> forall p: seq<nat> :: LoggerAt(g, severity, logger, p).Some? ==> |p| <= |g|
  {
    if Acyclic(g, severity, logger) {
      forall p: seq<nat> | LoggerAt(g, severity, logger, p).Some? ensures |p| <= |g| {
        PathsAreShort(g, severity, logger, p);
      }
    } else {
      var p: seq<nat>, q: seq<nat> :| q != [] && LoggerAt(g, severity, logger, p).Some?
        && LoggerAt(g, severity, logger, p + q) == LoggerAt(g, severity, logger, p);
      var l := LoggerAt(g, severity, logger, p).value;
      LoggerAtConcat(g, severity, logger, p, q);
      CycleRepeats(g, severity, l, q, |g| + 1);
      LoggerAtConcat(g, severity, logger, p, Repeated(q, |g| + 1));
      assert LoggerAt(g, severity, logger, p + Repeated(q, |g| + 1)).Some?;
    }
  }

  /** Two loggers in each other's lists: neither is its own appender, and calls nest to any depth. */
  lemma MutualLoggers(severity: int, depth: nat) returns (p: seq<nat>)
    ensures var g := map[0 := Node(severity, [Nested(1)]), 1 := Node(severity, [Nested(0)])];
            |p| >= depth && LoggerAt(g, severity, 0, p) == Some(0) && !Acyclic(g, severity, 0)
  {
    var g := map[0 := Node(severity, [Nested(1)]), 1 := Node(severity, [Nested(0)])];
    assert [0, 0][1..] == [0] && [0][1..] == [];
    assert LoggerAt(g, severity, 1, [0]) == Some(0);
    assert LoggerAt(g, severity, 0, [] + [0, 0]) == Some(0) by {
      assert [] + [0, 0] == [0, 0];
    }
    assert LoggerAt(g, severity, 0, []) == Some(0);
    CycleRepeats(g, severity, 0, [0, 0], depth);
    p := Repeated([0, 0], depth);
  }

  // ---------- what is delivered ----------

  /** What a logger's list from entry `i` on delivers, from left to right, nested loggers in place. */
  ghost function DeliveriesFrom(g: Graph, logger: nat, i: nat, record: Record): seq<Delivery>
    requires Acyclic(g, record.severity.Rank(), logger) && logger in g && i <= |g[logger].targets|
    decreases |Below(g, record.severity.Rank(), logger)|, |g[logger].targets| - i
  {
    if i == |g[logger].targets| then [] else Here(g, logger, i, record) + DeliveriesFrom(g, logger, i + 1, record)
  }

  /** What entry `i` delivers. */
  ghost function Here(g: Graph, logger: nat, i: nat, record: Record): seq<Delivery>
    requires Acyclic(g, record.severity.Rank(), logger) && logger in g && i < |g[logger].targets|
    decreases |Below(g, record.severity.Rank(), logger)|, |g[logger].targets| - i, 0
  {
    match g[logger].targets[i]
    case Leaf(appender) => [Delivery(appender, record)]
    case Nested(m) =>
      if Enters(g, record.severity.Rank(), logger, i) then
        EnteredIsSmaller(g, record.severity.Rank(), logger, i);
        DeliveriesFrom(g, m, 0, record)
      else []
  }

  /** Everything operator+= of a logger delivers. */
  ghost function Deliveries(g: Graph, logger: nat, record: Record): seq<Delivery>
    requires Acyclic(g, record.severity.Rank(), logger) && logger in g
  {
    DeliveriesFrom(g, logger, 0, record)
  }
}
