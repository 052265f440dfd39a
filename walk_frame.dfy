/**
 * What a walk may change. A walk into `dst` touches only `dst`, the
 * directories above it (which `os.MkdirAll` may create) and what lies below
 * it; it removes a path that existed before only in delete mode or when the
 * path is a staged temporary name; the two overwriting generations remove
 * nothing at all; and the mirror engine creates files only under temporary
 * names.
 */
module WalkFrame {
  import opened Wrappers
  import opened Paths
  import opened Fs
  import opened Walk
  import PathFacts

  /** `k` lies where a walk into `dst` may write: `dst`, one of its ancestors, or below it. */
  predicate InRegion(dst: Path, k: Path) {
    k == dst || k in Ancestors(dst) || IsUnder(dst, k)
  }

  /** The changes from `d` to `d'` are those a walk into `dst` is allowed to make. */
  ghost predicate Confined(c: Config, dst: Path, d: Disk, d': Disk) {
    && d'.faults == d.faults
    && d.created <= d'.created
    && KeptOutside(dst, d, d')
    && LostOnly(c, dst, d, d')
    && (c.flavor != Mirror ==> d.nodes.Keys <= d'.nodes.Keys)
    && (c.flavor == Mirror ==> CreatedTemps(d, d'))
  }

  /** Nothing outside the region of `dst` changes. */
  ghost predicate KeptOutside(dst: Path, d: Disk, d': Disk) {
    forall k :: !InRegion(dst, k) ==> Lookup(d', k) == Lookup(d, k)
  }

  /** What is removed lies strictly below `dst`, and only delete mode removes anything besides temporary files. */
  ghost predicate LostOnly(c: Config, dst: Path, d: Disk, d': Disk) {
    forall k :: k in d.nodes && k !in d'.nodes ==> k != dst && IsUnder(dst, k) && (Pruning(c) || IsTemp(k))
  }

  /** Every path recorded as created since `d` is a temporary file. */
  ghost predicate CreatedTemps(d: Disk, d': Disk) {
    forall i :: |d.created| <= i < |d'.created| ==> IsTemp(d'.created[i])
  }

  /** A source root made only of separators (the file-system root) is a directory, as on every Unix system. */
  predicate RootIsDir(d: Disk, src: Path) {
    TrimSeps(src) != [] || src !in d.nodes || d.nodes[src] == Dir
  }

  lemma ConfinedTrans(c: Config, dst: Path, d1: Disk, d2: Disk, d3: Disk)
    requires Confined(c, dst, d1, d2) && Confined(c, dst, d2, d3)
    ensures Confined(c, dst, d1, d3)
  {
    if c.flavor == Mirror {
      forall i | |d1.created| <= i < |d3.created| ensures IsTemp(d3.created[i]) {
        if i < |d2.created| {
          assert d3.created[i] == d2.created[i];
        }
      }
    }
  }

  /** A child directory's region lies inside its parent's. */
  lemma {:induction false} ChildRegionWithin(dst: Path, m: string, k: Path)
    requires ValidName(m)
    requires InRegion(Join(dst, m), k)
    ensures InRegion(dst, k)
  {
    PathFacts.JoinName(dst, m);
    var t := TrimSeps(dst);
    var j := Join(dst, m);
    forall q | |t| < q < |j| ensures j[q] != Separator {
      assert j[q] == m[q - |t| - 1];
    }
    if k == j {
    } else if k in Ancestors(j) {
      var i :| 0 < i < |j| && j[i] == Separator && k == j[..i];
      assert i <= |t|;
      if i < |t| {
        assert dst[i] == t[i] == j[i];
        assert k == dst[..i];
      } else {
        assert k == t;
        if |t| < |dst| {
          assert dst[|t|] == Separator;
          assert t == dst[..|t|];
        } else {
          assert t == dst;
        }
      }
    } else {
      assert HasPrefix(k, j + [Separator]);
      assert k[..|t| + 1] == (j + [Separator])[..|t| + 1] == t + [Separator];
    }
  }

  /** The target of a file copy and its temporary name lie below the destination directory. */
  lemma {:induction false} FileTargetsUnder(dst: Path, m: string)
    requires ValidName(m)
    ensures IsUnder(dst, Join(dst, m))
    ensures IsUnder(dst, Join(dst, m) + TempFileExt)
    ensures IsTemp(Join(dst, m) + TempFileExt)
  {
    PathFacts.JoinName(dst, m);
    var t := TrimSeps(dst);
    var j := Join(dst, m);
    assert (j + TempFileExt)[..|t| + 1] == j[..|t| + 1] == t + [Separator];
    assert (j + TempFileExt)[|j + TempFileExt| - |TempFileExt|..] == TempFileExt;
  }

  lemma ConfinedWiden(c: Config, dst: Path, m: string, d: Disk, d': Disk)
    requires ValidName(m)
    requires Confined(c, Join(dst, m), d, d')
    ensures Confined(c, dst, d, d')
  {
    forall k | k in d.nodes && k !in d'.nodes ensures k != dst && IsUnder(dst, k) {
      PathFacts.BelowChildNotParent(dst, m, k);
    }
    forall k | !InRegion(dst, k) ensures Lookup(d', k) == Lookup(d, k) {
      if InRegion(Join(dst, m), k) {
        ChildRegionWithin(dst, m, k);
      }
    }
  }

  lemma EnsureDestinationConfined(c: Config, d: Disk, dst: Path)
    requires EnsureDestination(d, dst).Ok?
    ensures Confined(c, dst, d, EnsureDestination(d, dst).value)
  {
  }

  /** Staging changes the target and its temporary name and nothing else. */
  lemma StageTouchesOnly(c: Config, d: Disk, src: Path, target: Path)
    ensures forall k :: k != target && k != target + TempFileExt ==> Lookup(Stage(c, d, src, target).disk, k) == Lookup(d, k)
  {
    var o := Stage(c, d, src, target);
    if o.err.None? {
      forall k | k != target && k != target + TempFileExt ensures Lookup(o.disk, k) == Lookup(d, k) {
        assert k in o.disk.nodes <==> k in d.nodes;
      }
    }
  }

  lemma {:induction false} StageConfined(c: Config, d: Disk, src: Path, dst: Path)
    requires c.flavor == Mirror && ValidName(Base(src))
    ensures Confined(c, dst, d, Stage(c, d, src, Join(dst, Base(src))).disk)
  {
    var target := Join(dst, Base(src));
    var tmp := target + TempFileExt;
    FileTargetsUnder(dst, Base(src));
    StageTouchesOnly(c, d, src, target);
    var o := Stage(c, d, src, target);
    assert forall k :: !InRegion(dst, k) ==> k != target && k != tmp;
    forall k | k in d.nodes && k !in o.disk.nodes ensures IsTemp(k) && k != dst {
      assert Lookup(o.disk, k) != Lookup(d, k);
      assert tmp[..|target|] == target;
      PathFacts.ChildPrefixNotParent(dst, Base(src), k);
    }
    assert o.disk.created == d.created || o.disk.created == d.created + [tmp];
  }

  lemma {:induction false} OverwriteConfined(c: Config, d: Disk, src: Path, dst: Path)
    requires c.flavor != Mirror && ValidName(Base(src))
    ensures Confined(c, dst, d, CopyFile(c.oracle, d, src, Join(dst, Base(src)), c.flavor == Verified).disk)
  {
    FileTargetsUnder(dst, Base(src));
  }

  lemma {:induction false} CopyOneFileConfined(c: Config, d: Disk, src: Path, dst: Path)
    requires TrimSeps(src) != []
    ensures Confined(c, dst, d, CopyOneFile(c, d, src, dst).disk)
  {
    var target := Join(dst, Base(src));
    if c.flavor == Mirror {
      StageConfined(c, d, src, dst);
    } else {
      OverwriteConfined(c, d, src, dst);
    }
  }

  lemma RemoveExtraneousConfined(c: Config, d: Disk, dst: Path, m: string, isDir: bool)
    requires Pruning(c) && ValidName(m)
    requires RemoveExtraneous(d, Join(dst, m), isDir).Ok?
    ensures Confined(c, dst, d, RemoveExtraneous(d, Join(dst, m), isDir).value)
  {
    var p := Join(dst, m);
    var d' := RemoveExtraneous(d, p, isDir).value;
    PathFacts.JoinName(dst, m);
    forall k | !InRegion(dst, k) ensures Lookup(d', k) == Lookup(d, k) {
      if k in d.nodes && k !in d'.nodes {
        assert k == p || IsUnder(p, k);
        ChildRegionWithin(dst, m, k);
      }
    }
    forall k | k in d.nodes && k !in d'.nodes ensures k != dst && IsUnder(dst, k) {
      PathFacts.BelowChildNotParent(dst, m, k);
    }
  }

  lemma {:induction false} PruneEntriesConfined(c: Config, d: Disk, dst: Path, es: seq<Entry>, wanted: set<Path>)
    requires Pruning(c)
    requires forall i :: 0 <= i < |es| ==> ValidName(es[i].name)
    ensures Confined(c, dst, d, PruneEntries(c, d, dst, es, wanted).disk)
    decreases |es|
  {
    if es == [] {
    } else {
      var p := Join(dst, es[0].name);
      if p !in d.nodes || DstKey(c, dst, es[0].name) in wanted {
        PruneEntriesConfined(c, d, dst, es[1..], wanted);
      } else if RemoveExtraneous(d, p, es[0].isDir).Ok? {
        var d' := RemoveExtraneous(d, p, es[0].isDir).value;
        RemoveExtraneousConfined(c, d, dst, es[0].name, es[0].isDir);
        PruneEntriesConfined(c, d', dst, es[1..], wanted);
        ConfinedTrans(c, dst, d, d', PruneEntries(c, d', dst, es[1..], wanted).disk);
      }
    }
  }

  lemma {:induction false} CopyConfined(c: Config, d: Disk, src: Path, dst: Path, fuel: nat)
    requires RootIsDir(d, src)
    ensures Confined(c, dst, d, Copy(c, d, src, dst, fuel).disk)
    decreases fuel, 2, 0
  {
    if fuel == 0 || (c.flavor == Plain && src !in d.nodes) || EnsureDestination(d, dst).Err? {
    } else {
      var d1 := EnsureDestination(d, dst).value;
      EnsureDestinationConfined(c, d, dst);
      if src !in d1.nodes {
      } else if d1.nodes[src] == Dir {
        DirBranchConfined(c, d, d1, src, dst, fuel);
      } else {
        assert TrimSeps(src) != [];
        CopyUnfoldFile(c, d, d1, src, dst, fuel);
        CopyOneFileConfined(c, d1, src, dst);
        ConfinedTrans(c, dst, d, d1, CopyOneFile(c, d1, src, dst).disk);
      }
    }
  }

  lemma {:induction false} DirBranchConfined(c: Config, d: Disk, d1: Disk, src: Path, dst: Path, fuel: nat)
    requires fuel > 0 && (c.flavor == Plain ==> src in d.nodes)
    requires EnsureDestination(d, dst) == Ok(d1) && src in d1.nodes && d1.nodes[src] == Dir
    ensures Confined(c, dst, d, Copy(c, d, src, dst, fuel).disk)
    decreases fuel, 1, 2
  {
    var f := fuel - 1;
    DirStepConfined(c, d, d1, src, dst, f);
    CopyUnfoldDir(c, d, d1, src, dst, fuel, f);
  }

  lemma {:induction false} DirStepConfined(c: Config, d: Disk, d1: Disk, src: Path, dst: Path, fuel: nat)
    requires EnsureDestination(d, dst) == Ok(d1)
    ensures Confined(c, dst, d, CopyDir(c, d1, src, dst, fuel).disk)
    decreases fuel + 1, 1, 1
  {
    EnsureDestinationConfined(c, d, dst);
    CopyDirConfined(c, d1, src, dst, fuel);
    ConfinedTrans(c, dst, d, d1, CopyDir(c, d1, src, dst, fuel).disk);
  }

  lemma {:induction false} CopyDirConfined(c: Config, d: Disk, src: Path, dst: Path, fuel: nat)
    ensures Confined(c, dst, d, CopyDir(c, d, src, dst, fuel).disk)
    decreases fuel + 1, 1, 0
  {
    match ReadDir(d, src)
    case Err(_) =>
    case Ok(es) =>
      var p := Children(c, d, src, dst, es, {}, fuel);
      ChildrenConfined(c, d, src, dst, es, {}, fuel);
      if p.err.None? && Pruning(c) {
        match ReadDir(p.disk, dst)
        case Err(_) =>
        case Ok(des) =>
          PruneEntriesConfined(c, p.disk, dst, des, p.wanted);
          ConfinedTrans(c, dst, d, p.disk, CopyDir(c, d, src, dst, fuel).disk);
      }
  }

  lemma {:induction false} ChildrenConfined(c: Config, d: Disk, src: Path, dst: Path, es: seq<Entry>, wanted: set<Path>, fuel: nat)
    requires forall i :: 0 <= i < |es| ==> ValidName(es[i].name)
    ensures Confined(c, dst, d, Children(c, d, src, dst, es, wanted, fuel).disk)
    decreases fuel + 1, 0, |es|
  {
    if es == [] {
    } else {
      var m := es[0].name;
      var srcPath := Join(src, m);
      PathFacts.JoinName(src, m);
      match Lookup(d, srcPath)
      case None =>
      case Some(n) =>
        var dstPath := if n == Dir then Join(dst, m) else dst;
        var o := Copy(c, d, srcPath, dstPath, fuel);
        CopyConfined(c, d, srcPath, dstPath, fuel);
        if n == Dir {
          ConfinedWiden(c, dst, m, d, o.disk);
        }
        if o.err.None? {
          var wanted' := if Pruning(c) then wanted + {RelativePath(c.absSrc, srcPath)} else wanted;
          ChildrenConfined(c, o.disk, src, dst, es[1..], wanted', fuel);
          ConfinedTrans(c, dst, d, o.disk, Children(c, d, src, dst, es, wanted, fuel).disk);
        }
    }
  }

  lemma AncestorsArePrefixes(p: Path)
    ensures forall a :: a in Ancestors(p) ==> HasPrefix(p, a)
  {
    forall a | a in Ancestors(p) ensures HasPrefix(p, a) {
      var i :| 0 < i < |p| && p[i] == Separator && a == p[..i];
    }
  }

  lemma PrefixTrans(a: string, b: string, c: string)
    ensures HasPrefix(a, b) && HasPrefix(b, c) ==> HasPrefix(a, c)
  {
    if HasPrefix(a, b) && HasPrefix(b, c) {
      assert a[..|c|] == b[..|c|];
    }
  }

  lemma PrefixesComparable(s: string, x: string, y: string)
    ensures HasPrefix(s, x) && HasPrefix(s, y) && |x| <= |y| ==> HasPrefix(y, x)
  {
    if HasPrefix(s, x) && HasPrefix(s, y) && |x| <= |y| {
      assert y[..|x|] == s[..|x|];
    }
  }

  /**
   * The source tree is left alone by any walk whose destination neither has
   * the source as a prefix (what `Sync` checks) nor is a prefix of it.
   */
  lemma {:induction false} OutsideRegion(src: Path, dst: Path, k: Path)
    requires !HasPrefix(dst, src) && !HasPrefix(src, TrimSeps(dst))
    requires HasPrefix(k, src)
    ensures !InRegion(dst, k)
  {
    var t := TrimSeps(dst);
    var u := t + [Separator];
    AncestorsArePrefixes(dst);
    PrefixTrans(dst, k, src);
    PrefixTrans(dst, t, src);
    PrefixTrans(src, u, t);
    PrefixesComparable(k, src, u);
    PrefixesComparable(k, u, src);
    PrefixesComparable(u, src, t);
  }

  lemma SourceUntouched(c: Config, d: Disk, src: Path, dst: Path, fuel: nat)
    requires RootIsDir(d, src)
    requires !HasPrefix(dst, src) && !HasPrefix(src, TrimSeps(dst))
    ensures forall k :: HasPrefix(k, src) ==> Lookup(Copy(c, d, src, dst, fuel).disk, k) == Lookup(d, k)
  {
    CopyConfined(c, d, src, dst, fuel);
    forall k | HasPrefix(k, src) ensures Lookup(Copy(c, d, src, dst, fuel).disk, k) == Lookup(d, k) {
      OutsideRegion(src, dst, k);
    }
  }
}
