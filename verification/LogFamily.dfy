/**
 * Reading a family of files from the last number down to 0, as text or decoded: what the steps of
 * the appender do to it, and exactly which renames may lose something in the middle.
 */
module LogFamily {
  import opened Text
  import opened Files
  import opened FileNames
  import opened RollingAppender
  import opened RollShift

  /** What one file contributes; a missing one, nothing. */
  function Part<T>(read: string -> seq<T>, disk: Disk, name: string): seq<T>
  {
    if name in disk then read(disk[name]) else []
  }

  /** Files `count - 1`, ..., 1, 0 in this order. */
  function Gather<T>(read: string -> seq<T>, names: seq<string>, disk: Disk, count: nat): seq<T>
    requires count <= |names|
  {
    if count == 0 then [] else Part(read, disk, names[count - 1]) + Gather(read, names, disk, count - 1)
  }

  /** The files `count - 1`, ..., `from` only. */
  function Upper<T>(read: string -> seq<T>, names: seq<string>, disk: Disk, from: nat, count: nat): seq<T>
    requires from <= count <= |names|
  {
    if count == from then [] else Part(read, disk, names[count - 1]) + Upper(read, names, disk, from, count - 1)
  }

  lemma {:induction false} GatherSplit<T>(read: string -> seq<T>, names: seq<string>, d: Disk, from: nat, count: nat)
    requires from <= count <= |names|
    ensures Gather(read, names, d, count) == Upper(read, names, d, from, count) + Gather(read, names, d, from)
    decreases count
  {
    hide Part;
    if count == from {
    } else {
      GatherSplit(read, names, d, from, count - 1);
      Assoc(Part(read, d, names[count - 1]), Upper(read, names, d, from, count - 1), Gather(read, names, d, from));
    }
  }

  lemma {:induction false} UpperSame<T>(read: string -> seq<T>, names: seq<string>, d: Disk, e: Disk,
                                        from: nat, count: nat)
    requires from <= count <= |names|
    requires forall i :: from <= i < count ==> Content(d, names[i]) == Content(e, names[i])
    ensures Upper(read, names, d, from, count) == Upper(read, names, e, from, count)
    decreases count
  {
    if count == from {
    } else {
      assert Content(d, names[count - 1]) == Content(e, names[count - 1]);
      UpperSame(read, names, d, e, from, count - 1);
    }
  }

  lemma {:induction false} UpperHolds<T>(read: string -> seq<T>, names: seq<string>, d: Disk, from: nat, count: nat)
    requires from <= count <= |names|
    ensures Upper(read, names, d, from, count) == [] <==> forall i :: from <= i < count ==> Part(read, d, names[i]) == []
    ensures forall x :: x in Upper(read, names, d, from, count) ==>
              exists i :: from <= i < count && x in Part(read, d, names[i])
    decreases count
  {
    hide Part;
    if count == from {
    } else {
      UpperHolds(read, names, d, from, count - 1);
    }
  }

  /** Two disks that agree on the files from number `from` on have the same beginning. */
  lemma GatherTop<T>(read: string -> seq<T>, names: seq<string>, d: Disk, e: Disk, from: nat)
    requires from <= |names|
    requires forall i :: from <= i < |names| ==> Content(d, names[i]) == Content(e, names[i])
    ensures var top := Upper(read, names, d, from, |names|);
            && Gather(read, names, d, |names|) == top + Gather(read, names, d, from)
            && Gather(read, names, e, |names|) == top + Gather(read, names, e, from)
  {
    UpperSame(read, names, d, e, from, |names|);
    GatherSplit(read, names, d, from, |names|);
    GatherSplit(read, names, e, from, |names|);
  }

  lemma GatherBelow<T>(read: string -> seq<T>, names: seq<string>, d: Disk, e: Disk, count: nat)
    requires count <= |names|
    requires forall i :: 0 <= i < count ==> Content(d, names[i]) == Content(e, names[i])
    ensures Gather(read, names, d, count) == Gather(read, names, e, count)
  {
    UpperSame(read, names, d, e, 0, count);
    GatherSplit(read, names, d, 0, count);
    GatherSplit(read, names, e, 0, count);
  }

  lemma {:induction false} GatherOfNothing<T>(read: string -> seq<T>, names: seq<string>, d: Disk, count: nat)
    requires count <= |names| && forall i :: 0 <= i < |names| ==> names[i] !in d
    ensures Gather(read, names, d, count) == []
  {
    if count == 0 {
    } else {
      GatherOfNothing(read, names, d, count - 1);
    }
  }

  lemma {:induction false} GatherNotEmpty<T>(read: string -> seq<T>, names: seq<string>, d: Disk, count: nat, i: nat)
    requires i < count <= |names| && Part(read, d, names[i]) != []
    ensures Gather(read, names, d, count) != []
  {
    hide Part;
    if count - 1 == i {
    } else {
      GatherNotEmpty(read, names, d, count - 1, i);
    }
  }

  /** Only file 0 changes, and it grows at its end. */
  lemma GatherGrows<T>(read: string -> seq<T>, names: seq<string>, d: Disk, e: Disk, more: seq<T>)
    requires |names| > 0
    requires forall i :: 1 <= i < |names| ==> Content(d, names[i]) == Content(e, names[i])
    requires Part(read, e, names[0]) == Part(read, d, names[0]) + more
    ensures Gather(read, names, e, |names|) == Gather(read, names, d, |names|) + more
  {
    hide Upper, Part;
    GatherTop(read, names, d, e, 1);
    assert Gather(read, names, d, 1) == Part(read, d, names[0]) + Gather(read, names, d, 0);
    assert Gather(read, names, e, 1) == Part(read, e, names[0]) + Gather(read, names, e, 0);
    Assoc(Upper(read, names, d, 1, |names|), Gather(read, names, d, 1), more);
  }

  /** Removing the last file drops exactly what it contributed, from the front. */
  lemma GatherUnlinked<T>(read: string -> seq<T>, names: seq<string>, d: Disk)
    requires |names| > 0 && Distinct(names)
    ensures var last := names[|names| - 1];
            Gather(read, names, d, |names|) == Part(read, d, last) + Gather(read, names, Unlinked(d, last), |names|)
  {
    var last := |names| - 1;
    var e := Unlinked(d, names[last]);
    GatherBelow(read, names, d, e, last);
    assert [] + Gather(read, names, e, last) == Gather(read, names, e, last);
  }

  lemma RemoveKeepsSuffix<T>(read: string -> seq<T>, cfg: Config, d: Disk, refused: set<int>)
    requires cfg.Valid()
    ensures IsSuffix(Gather(read, cfg.names, Removed(cfg, d, refused), |cfg.names|),
                     Gather(read, cfg.names, d, |cfg.names|))
  {
    hide Gather;
    var last := cfg.names[cfg.Last()];
    GatherUnlinked(read, cfg.names, d);
    SuffixOfConcat(Part(read, d, last), Gather(read, cfg.names, Unlinked(d, last), |cfg.names|));
  }

  // ---------- renaming one file ----------

  /** Two neighbours and what is below them. */
  lemma GatherPair<T>(read: string -> seq<T>, names: seq<string>, d: Disk, j: nat)
    requires j + 1 < |names|
    ensures Gather(read, names, d, j + 2)
            == Part(read, d, names[j + 1]) + (Part(read, d, names[j]) + Gather(read, names, d, j))
  {
  }

  lemma PartsOfMoved<T>(read: string -> seq<T>, names: seq<string>, d: Disk, j: nat)
    requires j + 1 < |names| && Distinct(names) && names[j] in d
    ensures var e := (d - {names[j]})[names[j + 1] := d[names[j]]];
            Part(read, e, names[j + 1]) == Part(read, d, names[j]) && Part(read, e, names[j]) == []
  {
  }

  /** A file moves up by one number: what the target held is dropped, at its place. */
  lemma GatherMoved<T>(read: string -> seq<T>, names: seq<string>, d: Disk, j: nat) returns (below: seq<T>)
    requires j + 1 < |names| && Distinct(names) && names[j] in d
    ensures var e := (d - {names[j]})[names[j + 1] := d[names[j]]];
            var top := Upper(read, names, d, j + 2, |names|);
            && Gather(read, names, d, |names|) == top + (Part(read, d, names[j + 1]) + below)
            && Gather(read, names, e, |names|) == top + below
  {
    hide Part, Upper;
    var e := (d - {names[j]})[names[j + 1] := d[names[j]]];
    below := Part(read, d, names[j]) + Gather(read, names, d, j);
    GatherTop(read, names, d, e, j + 2);
    GatherPair(read, names, d, j);
    GatherPair(read, names, e, j);
    GatherBelow(read, names, d, e, j);
    PartsOfMoved(read, names, d, j);
    assert [] + Gather(read, names, d, j) == Gather(read, names, d, j);
  }

  /**
   * The rename of file `j` replaces a file that stands between others: the source is there, so is
   * the target, rename replaces it, and there is an older file still.
   */
  ghost predicate ReplacesInside(cfg: Config, present: set<string>, j: int, refused: set<int>)
    requires cfg.Valid() && 0 <= j < cfg.Last()
  {
    && j !in refused && cfg.overwrites && cfg.names[j] in present && cfg.names[j + 1] in present
    && exists k :: j + 1 < k <= cfg.Last() && cfg.names[k] in present
  }

  /** Whatever is read: any other rename drops at most the oldest; with a free target, nothing. */
  lemma MoveKeepsSuffix<T>(read: string -> seq<T>, cfg: Config, d: Disk, j: int, refused: set<int>)
    requires cfg.Valid() && 0 <= j < cfg.Last() && !ReplacesInside(cfg, d.Keys, j, refused)
    ensures IsSuffix(Gather(read, cfg.names, Moved(cfg, d, j, refused), |cfg.names|),
                     Gather(read, cfg.names, d, |cfg.names|))
    ensures cfg.names[j + 1] !in d ==>
              Gather(read, cfg.names, Moved(cfg, d, j, refused), |cfg.names|) == Gather(read, cfg.names, d, |cfg.names|)
  {
    hide Gather;
    if Moved(cfg, d, j, refused) != d {
      var below := GatherMoved(read, cfg.names, d, j);
      var top := Upper(read, cfg.names, d, j + 2, |cfg.names|);
      if cfg.names[j + 1] in d {
        UpperHolds(read, cfg.names, d, j + 2, |cfg.names|);
        forall i | j + 2 <= i < |cfg.names| ensures Part(read, d, cfg.names[i]) == [] {
          assert cfg.names[i] !in d.Keys;
        }
        assert top + below == below;
        assert top + (Part(read, d, cfg.names[j + 1]) + below) == Part(read, d, cfg.names[j + 1]) + below;
        SuffixOfConcat(Part(read, d, cfg.names[j + 1]), below);
      } else {
        assert [] + below == below;
      }
    }
  }

  function Raw(content: string): string
  {
    content
  }

  /** The bytes of the family's files, oldest first. */
  function FamilyText(cfg: Config, disk: Disk): string
  {
    Gather(Raw, cfg.names, disk, |cfg.names|)
  }

  /** Files that tell the target of the rename of file `j` from all others. */
  function Marked(cfg: Config, present: set<string>, j: int): Disk
    requires cfg.Valid() && 0 <= j < cfg.Last()
  {
    map name | name in present :: if name == cfg.names[j + 1] then "b" else "a"
  }

  lemma LostInside(top: string, below: string)
    requires top != "" && 'b' !in top
    ensures !IsSuffix(top + below, top + ("b" + below))
  {
    var before, after := top + ("b" + below), top + below;
    assert before[1..][|top| - 1] == 'b';
    assert after[|top| - 1] == top[|top| - 1] != 'b';
    assert |before| == |after| + 1;
  }

  lemma MarkedIsLost(cfg: Config, present: set<string>, j: int, refused: set<int>)
    requires cfg.Valid() && 0 <= j < cfg.Last() && ReplacesInside(cfg, present, j, refused)
    ensures var d := Marked(cfg, present, j);
            !IsSuffix(FamilyText(cfg, Moved(cfg, d, j, refused)), FamilyText(cfg, d))
  {
    hide Gather, Upper, IsSuffix;
    var d := Marked(cfg, present, j);
    assert cfg.names[j] != cfg.names[j + 1];
    var below := GatherMoved(Raw, cfg.names, d, j);
    var top := Upper(Raw, cfg.names, d, j + 2, |cfg.names|);
    UpperHolds(Raw, cfg.names, d, j + 2, |cfg.names|);
    var k :| j + 1 < k <= cfg.Last() && cfg.names[k] in present;
    assert Part(Raw, d, cfg.names[k]) == "a";
    assert 'b' !in top by {
      forall i | j + 2 <= i < |cfg.names| ensures 'b' !in Part(Raw, d, cfg.names[i]) {
        assert cfg.names[i] != cfg.names[j + 1];
      }
    }
    LostInside(top, below);
  }

  lemma TextKeepsSuffix(cfg: Config, d: Disk, j: int, refused: set<int>)
    requires cfg.Valid() && 0 <= j < cfg.Last() && !ReplacesInside(cfg, d.Keys, j, refused)
    ensures IsSuffix(FamilyText(cfg, Moved(cfg, d, j, refused)), FamilyText(cfg, d))
  {
    MoveKeepsSuffix(Raw, cfg, d, j, refused);
  }

  /**
   * For the files present, whatever they hold: a rename keeps a suffix of the text if and only if
   * it does not replace a file between others.
   */
  lemma MoveIsSafeExactly(cfg: Config, present: set<string>, j: int, refused: set<int>)
    requires cfg.Valid() && 0 <= j < cfg.Last()
    ensures (forall d: Disk :: d.Keys == present ==>
               IsSuffix(FamilyText(cfg, Moved(cfg, d, j, refused)), FamilyText(cfg, d)))
            <==> !ReplacesInside(cfg, present, j, refused)
  {
    hide IsSuffix, FamilyText, Moved, ReplacesInside;
    if ReplacesInside(cfg, present, j, refused) {
      MarkedIsLost(cfg, present, j, refused);
      assert Marked(cfg, present, j).Keys == present;
    } else {
      forall d: Disk | d.Keys == present
        ensures IsSuffix(FamilyText(cfg, Moved(cfg, d, j, refused)), FamilyText(cfg, d))
      {
        TextKeepsSuffix(cfg, d, j, refused);
      }
    }
  }

  lemma TextKeepsSuffixRemoved(cfg: Config, d: Disk, refused: set<int>)
    requires cfg.Valid()
    ensures IsSuffix(FamilyText(cfg, Removed(cfg, d, refused)), FamilyText(cfg, d))
  {
    RemoveKeepsSuffix(Raw, cfg, d, refused);
  }
}
