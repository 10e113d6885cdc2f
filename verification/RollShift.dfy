/** One roll moves every file of the family up by one number and loses only the last. */
module RollShift {
  import opened Text
  import opened Files
  import opened RollingAppender

  function Content(disk: Disk, name: string): Option<string>
  {
    if name in disk then Some(disk[name]) else None
  }

  lemma NotBelow(cfg: Config, k: int)
    requires cfg.Valid() && 0 <= k < |cfg.names|
    ensures cfg.names[k] !in cfg.names[..k]
  {
  }

  // ---------- with any refusals ----------

  /**
   * File `j` stays where it is when the files from `from` down are renamed: its rename is refused,
   * or fails on a target that stays.
   */
  predicate Held(cfg: Config, disk: Disk, j: int, from: int, refused: set<int>)
    requires cfg.Valid() && 0 <= j <= from < cfg.Last()
    decreases from - j
  {
    && cfg.names[j] in disk
    && (j in refused
        || (!cfg.overwrites
            && if j == from then cfg.names[from + 1] in disk else Held(cfg, disk, j + 1, from, refused)))
  }

  predicate Goes(cfg: Config, disk: Disk, j: int, from: int, refused: set<int>)
    requires cfg.Valid() && 0 <= j <= from < cfg.Last()
  {
    cfg.names[j] in disk && !Held(cfg, disk, j, from, refused)
  }

  /** What file `k` holds after the renames: the file below, or what it held, or it is missing. */
  function After(cfg: Config, disk: Disk, k: int, from: int, refused: set<int>): Option<string>
    requires cfg.Valid() && 0 <= k <= from + 1 <= cfg.Last()
  {
    if k > 0 && Goes(cfg, disk, k - 1, from, refused) then Content(disk, cfg.names[k - 1])
    else if k <= from && !Held(cfg, disk, k, from, refused) then None
    else Content(disk, cfg.names[k])
  }

  lemma HeldFirst(cfg: Config, disk: Disk, from: int, refused: set<int>)
    requires cfg.Valid() && 0 <= from < cfg.Last()
    ensures var next := Moved(cfg, disk, from, refused);
            && Content(next, cfg.names[from])
               == (if Held(cfg, disk, from, from, refused) then Content(disk, cfg.names[from]) else None)
            && (cfg.names[from] in next <==> Held(cfg, disk, from, from, refused))
            && Content(next, cfg.names[from + 1]) == After(cfg, disk, from + 1, from, refused)
            && (forall name :: name != cfg.names[from] && name != cfg.names[from + 1] ==>
                  Content(next, name) == Content(disk, name))
  {
    assert cfg.names[from] != cfg.names[from + 1];
  }

  lemma {:induction false} HeldBelow(cfg: Config, disk: Disk, j: int, from: int, refused: set<int>)
    requires cfg.Valid() && 0 <= j < from < cfg.Last()
    ensures Held(cfg, Moved(cfg, disk, from, refused), j, from - 1, refused) <==> Held(cfg, disk, j, from, refused)
    decreases from - j
  {
    hide Moved;
    HeldFirst(cfg, disk, from, refused);
    assert cfg.names[j] != cfg.names[from] && cfg.names[j] != cfg.names[from + 1];
    assert Content(Moved(cfg, disk, from, refused), cfg.names[j]) == Content(disk, cfg.names[j]);
    if j < from - 1 {
      HeldBelow(cfg, disk, j + 1, from, refused);
    }
  }

  lemma AfterBelow(cfg: Config, disk: Disk, k: int, from: int, refused: set<int>)
    requires cfg.Valid() && 0 <= k <= from < cfg.Last()
    ensures After(cfg, Moved(cfg, disk, from, refused), k, from - 1, refused) == After(cfg, disk, k, from, refused)
  {
    hide Moved, Held;
    var next := Moved(cfg, disk, from, refused);
    HeldFirst(cfg, disk, from, refused);
    if k > 0 {
      HeldBelow(cfg, disk, k - 1, from, refused);
      assert cfg.names[k - 1] != cfg.names[from] && cfg.names[k - 1] != cfg.names[from + 1];
      assert Content(next, cfg.names[k - 1]) == Content(disk, cfg.names[k - 1]);
    }
    if k < from {
      HeldBelow(cfg, disk, k, from, refused);
      assert cfg.names[k] != cfg.names[from] && cfg.names[k] != cfg.names[from + 1];
      assert Content(next, cfg.names[k]) == Content(disk, cfg.names[k]);
    }
  }

  lemma AfterNothing(cfg: Config, disk: Disk, refused: set<int>)
    requires cfg.Valid()
    ensures After(cfg, disk, 0, -1, refused) == Content(disk, cfg.names[0])
  {
  }

  /** The renames from `from` down, whatever is refused and whether or not rename overwrites. */
  lemma {:induction false} ShiftedWithRefusals(cfg: Config, disk: Disk, from: int, refused: set<int>)
    requires cfg.Valid() && -1 <= from < cfg.Last()
    ensures var after := Shifted(cfg, disk, from, refused);
            && (forall k :: 0 <= k <= from + 1 ==> Content(after, cfg.names[k]) == After(cfg, disk, k, from, refused))
            && (forall name :: name !in cfg.names[..from + 2] ==> Content(after, name) == Content(disk, name))
    decreases from + 1
  {
    hide Moved, After, Held;
    if from < 0 {
      assert After(cfg, disk, 0, -1, refused) == Content(disk, cfg.names[0]) by {
        AfterNothing(cfg, disk, refused);
      }
    } else {
      var next := Moved(cfg, disk, from, refused);
      ShiftedWithRefusals(cfg, next, from - 1, refused);
      HeldFirst(cfg, disk, from, refused);
      forall k | 0 <= k <= from ensures After(cfg, next, k, from - 1, refused) == After(cfg, disk, k, from, refused) {
        AfterBelow(cfg, disk, k, from, refused);
      }
      NotBelow(cfg, from + 1);
      forall name | name !in cfg.names[..from + 2]
        ensures name !in cfg.names[..from + 1] && Content(next, name) == Content(disk, name)
      {
        assert cfg.names[from] in cfg.names[..from + 2] && cfg.names[from + 1] in cfg.names[..from + 2];
      }
    }
  }

  lemma {:induction false} NothingHeld(cfg: Config, disk: Disk, j: int, from: int)
    requires cfg.Valid() && 0 <= j <= from < cfg.Last() && cfg.names[from + 1] !in disk
    ensures !Held(cfg, disk, j, from, {})
    decreases from - j
  {
    if j < from {
      NothingHeld(cfg, disk, j + 1, from);
    }
  }

  /** The renames from `from` down, nothing refused and the first target absent: an exact shift. */
  lemma ShiftedExactly(cfg: Config, disk: Disk, from: int)
    requires cfg.Valid() && -1 <= from < cfg.Last()
    requires cfg.names[from + 1] !in disk
    ensures var after := Shifted(cfg, disk, from, {});
            && cfg.names[0] !in after
            && (forall j :: 0 <= j <= from ==> Content(after, cfg.names[j + 1]) == Content(disk, cfg.names[j]))
            && (forall name :: name !in cfg.names[..from + 2] ==> Content(after, name) == Content(disk, name))
  {
    hide Shifted, Held;
    var after := Shifted(cfg, disk, from, {});
    ShiftedWithRefusals(cfg, disk, from, {});
    assert Content(after, cfg.names[0]) == After(cfg, disk, 0, from, {});
    if from >= 0 {
      NothingHeld(cfg, disk, 0, from);
    }
    forall j | 0 <= j <= from ensures Content(after, cfg.names[j + 1]) == Content(disk, cfg.names[j]) {
      assert Content(after, cfg.names[j + 1]) == After(cfg, disk, j + 1, from, {});
      NothingHeld(cfg, disk, j, from);
      if j < from {
        NothingHeld(cfg, disk, j + 1, from);
      }
    }
  }

  /** No rename of a roll meets an existing target, so it does not matter whether rename overwrites. */
  lemma {:induction false} OverwritingIrrelevant(cfg: Config, disk: Disk, from: int, other: bool)
    requires cfg.Valid() && -1 <= from < cfg.Last()
    requires cfg.names[from + 1] !in disk
    ensures Shifted(cfg, disk, from, {}) == Shifted(cfg.(overwrites := other), disk, from, {})
    decreases from + 1
  {
    if from < 0 {
    } else {
      OverwritingIrrelevant(cfg, Renamed(disk, cfg.names[from], cfg.names[from + 1], cfg.overwrites), from - 1, other);
    }
  }

  /**
   * A whole roll, with any numbers missing: new file j+1 is old file j (present or not), the old
   * last file is gone, file 0 is fresh and holds the accepted part of the header, or is missing
   * when the open failed, and no other file changes.
   */
  lemma RollIsExactShift(cfg: Config, s: State, env: Env)
    requires cfg.Valid() && cfg.Last() > 0 && env.refused == {}
    ensures var after := RollLogFiles(cfg, s, env).disk;
            && (forall j :: 0 <= j < cfg.Last() ==> Content(after, cfg.names[j + 1]) == Content(s.disk, cfg.names[j]))
            && Content(after, cfg.names[0])
               == (if env.opens then Some(cfg.header[..Accepted(env.header, cfg.header)]) else None)
            && (forall name :: name !in cfg.names ==> Content(after, name) == Content(s.disk, name))
  {
    var unlinked := Unlinked(s.disk, cfg.names[cfg.Last()]);
    ShiftedExactly(cfg, unlinked, cfg.Last() - 1);
    assert cfg.names[..cfg.Last() + 1] == cfg.names;
    var shifted := Shifted(cfg, unlinked, cfg.Last() - 1, {});
    if env.opens {
      var text := cfg.header[..Accepted(env.header, cfg.header)];
      assert "" + text == text;
      assert RollLogFiles(cfg, s, env).disk == shifted[cfg.names[0] := text];
    }
    forall name | name !in cfg.names
      ensures Content(RollLogFiles(cfg, s, env).disk, name) == Content(s.disk, name)
    {
      assert name !in cfg.names[..cfg.Last() + 1];
      assert Content(unlinked, name) == Content(s.disk, name);
    }
    forall j | 0 <= j < cfg.Last()
      ensures Content(RollLogFiles(cfg, s, env).disk, cfg.names[j + 1]) == Content(s.disk, cfg.names[j])
    {
      assert Content(unlinked, cfg.names[j]) == Content(s.disk, cfg.names[j]);
    }
  }

  /** What a roll leaves before it opens file 0, whatever the system refuses: the content of every number. */
  lemma RollWithRefusals(cfg: Config, s: State, refused: set<int>, k: int, name: string)
    requires cfg.Valid() && cfg.Last() > 0 && 0 <= k <= cfg.Last() && name !in cfg.names
    ensures var removed, after := Removed(cfg, s.disk, refused), AfterShift(cfg, s, refused).disk;
            && Content(after, cfg.names[k]) == After(cfg, removed, k, cfg.Last() - 1, refused)
            && Content(after, name) == Content(s.disk, name)
  {
    hide Shifted, After;
    assert cfg.names[..cfg.Last() + 1] == cfg.names;
    assert cfg.names[cfg.Last()] in cfg.names;
    ShiftedWithRefusals(cfg, Removed(cfg, s.disk, refused), cfg.Last() - 1, refused);
  }

  /** The same roll where rename overwrites and where it fails on an existing target. */
  lemma RollSameOnBothSystems(cfg: Config, s: State, env: Env, other: bool)
    requires cfg.Valid() && cfg.Last() > 0 && env.refused == {}
    ensures RollLogFiles(cfg, s, env) == RollLogFiles(cfg.(overwrites := other), s, env)
  {
    OverwritingIrrelevant(cfg, Unlinked(s.disk, cfg.names[cfg.Last()]), cfg.Last() - 1, other);
  }
}
