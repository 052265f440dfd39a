/**
 * What a successful walk leaves behind: every regular file below the source
 * root has a target at the matching position below the destination root,
 * holding the source's bytes, or, in the mirror engine, one the oracle calls
 * the same. The walk's own writes never disturb what an earlier sibling
 * left, because the listing is sorted and each child writes only to its own
 * name, its own temporary name and below its own directory.
 */
module WalkMirror {
  import opened Wrappers
  import opened Paths
  import opened Fs
  import opened Walk
  import opened WalkFrame
  import WalkFacts
  import PathFacts
  import NameOrder

  /** The readable file at `src` has a copy at `target`, or the mirror engine's oracle calls the two the same. */
  ghost predicate Holds(c: Config, d: Disk, src: Path, target: Path) {
    && src in d.nodes
    && d.nodes[src].File?
    && src !in d.faults.unreadable
    && target in d.nodes
    && (d.nodes[target] == d.nodes[src] || (c.flavor == Mirror && Same(c.oracle, d, src, target) == Ok(true)))
  }

  /**
   * The tree at `src` is reflected at `dst`: a readable directory by an
   * existing `dst` and by each of its children (a subdirectory at
   * `dst/name`, anything else inside `dst`), and in delete mode by `dst`
   * being a directory with no child the source lacks; a file by a copy at
   * `dst/Base(src)`.
   */
  ghost predicate Reflects(c: Config, d: Disk, src: Path, dst: Path, fuel: nat)
    decreases fuel
  {
    && fuel > 0
    && src in d.nodes
    && if d.nodes[src] == Dir then
         && dst in d.nodes
         && src !in d.faults.unreadable
         && (Pruning(c) ==> d.nodes[dst] == Dir && NoExtraChild(d, src, dst))
         && forall m :: ValidName(m) && Join(src, m) in d.nodes ==>
           Reflects(c, d, Join(src, m), if d.nodes[Join(src, m)] == Dir then Join(dst, m) else dst, fuel - 1)
       else
         Holds(c, d, src, Join(dst, Base(src)))
  }

  /** Every child of `dst` has a child of `src` with its name. */
  ghost predicate NoExtraChild(d: Disk, src: Path, dst: Path) {
    forall m :: ValidName(m) && Join(dst, m) in d.nodes ==> Join(src, m) in d.nodes
  }

  /** The child `m` of `src` is reflected where the walk puts it. */
  ghost predicate ChildReflects(c: Config, d: Disk, src: Path, dst: Path, m: string, fuel: nat) {
    var p := Join(src, m);
    p in d.nodes && Reflects(c, d, p, if d.nodes[p] == Dir then Join(dst, m) else dst, fuel)
  }

  /** No path a walk into `dst` may write lies in the tree at `src`. */
  ghost predicate Apart(src: Path, dst: Path) {
    forall k :: HasPrefix(k, TrimSeps(src)) ==> !InRegion(dst, k)
  }

  /** `src` and `dst` sit at the same position `r` below the two roots of the run. */
  predicate Position(c: Config, src: Path, dst: Path, r: Path) {
    && TrimSeps(src) == TrimSeps(c.absSrc) + r
    && TrimSeps(dst) == TrimSeps(c.absDst) + r
    && (r == [] || r[0] == Separator)
  }

  /** `k` is `dst/m` or lies below it. */
  predicate AtOrBelow(dst: Path, m: string, k: Path) {
    k == Join(dst, m) || IsUnder(Join(dst, m), k)
  }

  /** What copying the child `m` of a directory into `dst` may write. */
  predicate Touched(dst: Path, m: string, k: Path) {
    InRegion(Join(dst, m), k) || k == Join(dst, m) + TempFileExt || k == dst || k in Ancestors(dst)
  }

  /** `filepath.Join(root, ns[0], …, ns[|ns| - 1])`. */
  function JoinAll(root: Path, ns: seq<string>): (p: Path)
    ensures ns == [] ==> p == root
    decreases |ns|
  {
    if ns == [] then root else JoinAll(Join(root, ns[0]), ns[1..])
  }

  // Path shapes

  /** The first component of a relative path: everything before its first separator. */
  function FirstName(s: string): (h: string)
    ensures h != [] ==> s != [] && s[0] != Separator
    decreases |s|
  {
    if s == [] || s[0] == Separator then [] else [s[0]] + FirstName(s[1..])
  }

  lemma {:induction false} FirstNameOf(m: string, rest: string)
    requires Separator !in m
    requires rest == [] || rest[0] == Separator
    ensures FirstName(m + rest) == m
    decreases |m|
  {
    if m != [] {
      assert (m + rest)[1..] == m[1..] + rest;
      assert m[0] in m;
      FirstNameOf(m[1..], rest);
    } else {
      assert m + rest == rest;
    }
  }

  /** A path at or below `dst/m` continues, after `dst` and a separator, with the name `m`. */
  lemma {:induction false} BranchName(dst: Path, m: string, k: Path)
    requires ValidName(m) && AtOrBelow(dst, m, k)
    ensures |k| > |TrimSeps(dst)| + 1 && FirstName(k[|TrimSeps(dst)| + 1..]) == m
  {
    PathFacts.JoinName(dst, m);
    var t := TrimSeps(dst);
    var j := Join(dst, m);
    var rest := if k == j then [] else k[|j|..];
    if k != j {
      assert IsUnder(j, k);
      BelowSplits(j, k);
    }
    assert k == (t + [Separator]) + (m + rest);
    FirstNameOf(m, rest);
  }

  /** A path that starts with `j` and a separator is `j`, the separator and the rest. */
  lemma BelowSplits(j: Path, k: Path)
    requires HasPrefix(k, j + [Separator])
    ensures |k| > |j| && k == j + k[|j|..] && k[|j|] == Separator
  {
    var u := j + [Separator];
    assert k[..|j|] == u[..|j|] == j;
    assert k[|j|] == k[..|u|][|j|] == u[|j|];
    assert k == k[..|j|] + k[|j|..];
  }

  /** A path at or below two children of `dst` names the same child twice. */
  lemma SameBranch(dst: Path, m: string, n: string, k: Path)
    requires ValidName(m) && ValidName(n)
    requires AtOrBelow(dst, m, k) && AtOrBelow(dst, n, k)
    ensures m == n
  {
    BranchName(dst, m, k);
    BranchName(dst, n, k);
  }

  /** Nothing at or below `dst/m` is at or below `dst/n` for another name `n`. */
  lemma BranchesApart(dst: Path, m: string, n: string, k: Path)
    requires ValidName(m) && ValidName(n) && m != n
    requires AtOrBelow(dst, m, k)
    ensures !AtOrBelow(dst, n, k)
  {
    if AtOrBelow(dst, n, k) {
      SameBranch(dst, m, n, k);
    }
  }

  /** Nothing at or below `dst/m` is `dst` or a directory above it. */
  lemma {:induction false} BranchOffParent(dst: Path, m: string, k: Path)
    requires ValidName(m)
    requires AtOrBelow(dst, m, k)
    ensures k != dst && k !in Ancestors(dst)
  {
    var t := TrimSeps(dst);
    var l := |t| + 1;
    BranchName(dst, m, k);
    assert k[l] == k[l..][0];
    assert |k| <= |dst| ==> dst[..|k|][l] == Separator;
    AncestorsArePrefixes(dst);
  }

  /** Nothing at or below `dst/m` is a directory above a sibling `dst/n`. */
  lemma {:induction false} BranchOffSibling(dst: Path, m: string, n: string, k: Path)
    requires ValidName(m) && ValidName(n)
    requires AtOrBelow(dst, m, k)
    ensures k !in Ancestors(Join(dst, n))
  {
    var t := TrimSeps(dst);
    var l := |t| + 1;
    BranchName(dst, m, k);
    PathFacts.JoinName(dst, n);
    var j := Join(dst, n);
    forall i | l <= i < |j| ensures j[i] != Separator {
      assert j[i] == n[i - l];
      assert n[i - l] in n;
    }
    forall a | a in Ancestors(j) ensures |a| <= |t| {
      var i :| 0 < i < |j| && j[i] == Separator && a == j[..i];
    }
  }

  /** `dst/m` plus the temporary extension is the child of `dst` with the extended name. */
  lemma TempChild(dst: Path, m: string)
    requires ValidName(m)
    ensures ValidName(m + TempFileExt) && Join(dst, m) + TempFileExt == Join(dst, m + TempFileExt)
  {
    WalkFacts.TempName(m);
    PathFacts.JoinName(dst, m);
    PathFacts.JoinName(dst, m + TempFileExt);
    PathFacts.AppendAssoc(TrimSeps(dst) + [Separator], m, TempFileExt);
  }

  /** Copying a later sibling `m` writes nothing at or below an earlier sibling `m0`. */
  lemma {:induction false} NotTouched(dst: Path, m0: string, m: string, k: Path)
    requires ValidName(m0) && ValidName(m) && m0 != m && NameOrder.LexLeq(m0, m)
    requires AtOrBelow(dst, m0, k)
    ensures !Touched(dst, m, k)
  {
    BranchesApart(dst, m0, m, k);
    BranchOffParent(dst, m0, k);
    BranchOffSibling(dst, m0, m, k);
    TempChild(dst, m);
    NameOrder.ExtensionAfter(m, TempFileExt);
    BranchesApart(dst, m0, m + TempFileExt, k);
  }

  /** The children of `src` lie in its tree; the region of `dst/m` lies in that of `dst`. */
  lemma {:induction false} ApartChild(src: Path, dst: Path, m: string)
    requires ValidName(m) && Apart(src, dst)
    ensures Apart(Join(src, m), dst) && Apart(Join(src, m), Join(dst, m))
  {
    PathFacts.JoinName(src, m);
    forall k | HasPrefix(k, TrimSeps(Join(src, m)))
      ensures !InRegion(dst, k) && !InRegion(Join(dst, m), k)
    {
      PrefixTrans(k, Join(src, m), TrimSeps(src));
      if InRegion(Join(dst, m), k) {
        ChildRegionWithin(dst, m, k);
      }
    }
  }

  /** The source root is not the file-system root: that would put every path in its tree. */
  lemma ApartNotRoot(src: Path, dst: Path)
    requires Apart(src, dst)
    ensures TrimSeps(src) != []
  {
    if TrimSeps(src) == [] {
      assert HasPrefix(dst, TrimSeps(src));
    }
  }

  /**
   * The condition `Sync` checks (the destination does not extend the source)
   * together with the destination not being above the source keeps the two
   * trees apart.
   */
  lemma ApartWhenDisjoint(src: Path, dst: Path)
    requires src == TrimSeps(src)
    requires !HasPrefix(dst, src) && !HasPrefix(src, TrimSeps(dst))
    ensures Apart(src, dst)
  {
    forall k | HasPrefix(k, TrimSeps(src)) ensures !InRegion(dst, k) {
      OutsideRegion(src, dst, k);
    }
  }

  // Frames

  /** The oracle's verdict on two files depends only on those two files and the faults. */
  lemma SameFrame(o: Oracle, d: Disk, d': Disk, a: Path, b: Path)
    requires d'.faults == d.faults
    requires Lookup(d', a) == Lookup(d, a) && Lookup(d', b) == Lookup(d, b)
    ensures Same(o, d, a, b) == Ok(true) ==> Same(o, d', a, b) == Ok(true)
  {
  }

  /** Reflection survives any change that leaves the source tree, the faults and the targets alone. */
  lemma {:induction false} ReflectsFrame(c: Config, d: Disk, d': Disk, src: Path, dst: Path, fuel: nat)
    requires Reflects(c, d, src, dst, fuel)
    requires d'.faults == d.faults
    requires forall k :: HasPrefix(k, TrimSeps(src)) ==> Lookup(d', k) == Lookup(d, k)
    requires d.nodes[src] == Dir ==> forall k :: (k == dst || IsUnder(dst, k)) ==> Lookup(d', k) == Lookup(d, k)
    requires d.nodes[src] != Dir ==> Lookup(d', Join(dst, Base(src))) == Lookup(d, Join(dst, Base(src)))
    ensures Reflects(c, d', src, dst, fuel)
    decreases fuel
  {
    assert HasPrefix(src, TrimSeps(src));
    if d.nodes[src] == Dir {
      assert Lookup(d', dst) == Lookup(d, dst);
      if Pruning(c) {
        NoExtraChildFrame(d, d', src, dst);
      }
      forall m | ValidName(m) && Join(src, m) in d'.nodes
        ensures Reflects(c, d', Join(src, m), if d'.nodes[Join(src, m)] == Dir then Join(dst, m) else dst, fuel - 1)
      {
        var p := Join(src, m);
        FrameToChild(d, d', src, dst, m);
        var q := if d.nodes[p] == Dir then Join(dst, m) else dst;
        ReflectsFrame(c, d, d', p, q, fuel - 1);
      }
    } else {
      SameFrame(c.oracle, d, d', src, Join(dst, Base(src)));
    }
  }

  /** The hypotheses of `ReflectsFrame` carry over from a directory to its child `m`. */
  lemma FrameToChild(d: Disk, d': Disk, src: Path, dst: Path, m: string)
    requires ValidName(m)
    requires forall k :: HasPrefix(k, TrimSeps(src)) ==> Lookup(d', k) == Lookup(d, k)
    requires forall k :: (k == dst || IsUnder(dst, k)) ==> Lookup(d', k) == Lookup(d, k)
    ensures Lookup(d', Join(src, m)) == Lookup(d, Join(src, m)) && Base(Join(src, m)) == m
    ensures forall k :: HasPrefix(k, TrimSeps(Join(src, m))) ==> Lookup(d', k) == Lookup(d, k)
    ensures forall k :: (k == Join(dst, m) || IsUnder(Join(dst, m), k)) ==> Lookup(d', k) == Lookup(d, k)
  {
    var p := Join(src, m);
    PathFacts.JoinName(src, m);
    PathFacts.JoinName(dst, m);
    assert HasPrefix(p, TrimSeps(src));
    forall k | HasPrefix(k, TrimSeps(p)) ensures Lookup(d', k) == Lookup(d, k) {
      PrefixTrans(k, p, TrimSeps(src));
    }
    PathFacts.UnderChildIsUnder(dst, m);
  }

  /** Having no extra child survives any change that leaves the two trees alone. */
  lemma NoExtraChildFrame(d: Disk, d': Disk, src: Path, dst: Path)
    requires NoExtraChild(d, src, dst)
    requires forall k :: HasPrefix(k, TrimSeps(src)) ==> Lookup(d', k) == Lookup(d, k)
    requires forall k :: IsUnder(dst, k) ==> Lookup(d', k) == Lookup(d, k)
    ensures NoExtraChild(d', src, dst)
  {
    forall m | ValidName(m) && Join(dst, m) in d'.nodes ensures Join(src, m) in d'.nodes {
      PathFacts.JoinName(dst, m);
      PathFacts.JoinName(src, m);
      SourceChildKept(d, d', src, m);
    }
  }

  /** A child of `src` is kept by any change that leaves the tree at `src` alone. */
  lemma SourceChildKept(d: Disk, d': Disk, src: Path, m: string)
    requires ValidName(m) && Join(src, m) in d.nodes
    requires forall k :: HasPrefix(k, TrimSeps(src)) ==> Lookup(d', k) == Lookup(d, k)
    ensures Join(src, m) in d'.nodes
  {
    PathFacts.JoinName(src, m);
    assert HasPrefix(Join(src, m), TrimSeps(src));
  }

  /** Copying one non-directory writes only the destination and its ancestors, the target and its temporary name. */
  lemma FileCopyTouches(c: Config, d: Disk, src: Path, dst: Path, fuel: nat, k: Path)
    requires src in d.nodes && d.nodes[src] != Dir
    requires k != dst && k !in Ancestors(dst) && k != Join(dst, Base(src)) && k != Join(dst, Base(src)) + TempFileExt
    ensures Lookup(Copy(c, d, src, dst, fuel).disk, k) == Lookup(d, k)
  {
    if fuel > 0 && EnsureDestination(d, dst).Ok? {
      var d1 := EnsureDestination(d, dst).value;
      assert Lookup(d1, k) == Lookup(d, k);
      if src in d1.nodes && d1.nodes[src] != Dir {
        CopyUnfoldFile(c, d, d1, src, dst, fuel);
        OneFileTouches(c, d1, src, dst, k);
      }
    }
  }

  /** Copying one file writes only its target and the target's temporary name. */
  lemma OneFileTouches(c: Config, d: Disk, src: Path, dst: Path, k: Path)
    requires k != Join(dst, Base(src)) && k != Join(dst, Base(src)) + TempFileExt
    ensures Lookup(CopyOneFile(c, d, src, dst).disk, k) == Lookup(d, k)
  {
    StageTouchesOnly(c, d, src, Join(dst, Base(src)));
  }

  /** The loop over a listing leaves alone every path no remaining child may write. */
  lemma {:induction false} ChildrenFrame(c: Config, d: Disk, src: Path, dst: Path, es: seq<Entry>, wanted: set<Path>, fuel: nat, k: Path)
    requires forall j :: 0 <= j < |es| ==> ValidName(es[j].name) && !Touched(dst, es[j].name, k)
    ensures Lookup(Children(c, d, src, dst, es, wanted, fuel).disk, k) == Lookup(d, k)
    decreases |es|
  {
    if es != [] {
      var m := es[0].name;
      var p := Join(src, m);
      PathFacts.JoinName(src, m);
      if p !in d.nodes {
        assert Children(c, d, src, dst, es, wanted, fuel).disk == d;
      } else {
        var q := if d.nodes[p] == Dir then Join(dst, m) else dst;
        var o := Copy(c, d, p, q, fuel);
        if d.nodes[p] == Dir {
          CopyConfined(c, d, p, q, fuel);
        } else {
          FileCopyTouches(c, d, p, dst, fuel, k);
        }
        if o.err.None? {
          var wanted' := if Pruning(c) then wanted + {RelativePath(c.absSrc, p)} else wanted;
          assert Children(c, d, src, dst, es, wanted, fuel).disk == Children(c, o.disk, src, dst, es[1..], wanted', fuel).disk;
          TailShifts(es);
          ChildrenFrame(c, o.disk, src, dst, es[1..], wanted', fuel, k);
        } else {
          assert Children(c, d, src, dst, es, wanted, fuel).disk == o.disk;
        }
      }
    }
  }

  /** A prune pass keeps a path unless it is, or lies below, a listed child that is not wanted. */
  lemma {:induction false} PruneEntriesSpares(c: Config, d: Disk, dst: Path, es: seq<Entry>, wanted: set<Path>, k: Path)
    requires k in d.nodes
    requires forall j :: 0 <= j < |es| ==>
               DstKey(c, dst, es[j].name) in wanted || (k != Join(dst, es[j].name) && !IsUnder(Join(dst, es[j].name), k))
    ensures k in PruneEntries(c, d, dst, es, wanted).disk.nodes
    decreases |es|
  {
    if es != [] {
      var p := Join(dst, es[0].name);
      TailShifts(es);
      if p !in d.nodes || DstKey(c, dst, es[0].name) in wanted {
        PruneEntriesSpares(c, d, dst, es[1..], wanted, k);
      } else if RemoveExtraneous(d, p, es[0].isDir).Ok? {
        PruneEntriesSpares(c, RemoveExtraneous(d, p, es[0].isDir).value, dst, es[1..], wanted, k);
      }
    }
  }

  // The walk

  /** After a successful `copy(src, dst)`, the tree at `src` is reflected at `dst`. */
  lemma {:induction false} CopyReflects(c: Config, d: Disk, src: Path, dst: Path, fuel: nat, r: Path)
    requires Apart(src, dst)
    requires Pruning(c) && Lookup(d, src) == Some(Dir) ==> Position(c, src, dst, r)
    requires Copy(c, d, src, dst, fuel).err.None?
    ensures Reflects(c, Copy(c, d, src, dst, fuel).disk, src, dst, fuel)
    decreases fuel, 2, 0
  {
    ApartNotRoot(src, dst);
    assert HasPrefix(src, TrimSeps(src));
    var f := fuel - 1;
    var d1 := EnsureDestination(d, dst).value;
    EnsureDestinationConfined(c, d, dst);
    if d1.nodes[src] == Dir {
      CopyUnfoldDir(c, d, d1, src, dst, fuel, f);
      CopyDirReflects(c, d1, src, dst, f, r);
    } else {
      CopyUnfoldFile(c, d, d1, src, dst, fuel);
      CopyOneFileConfined(c, d1, src, dst);
    }
  }

  /** A directory whose every child is reflected is reflected itself. */
  lemma ReflectsFromChildren(c: Config, d: Disk, src: Path, dst: Path, fuel: nat)
    requires src in d.nodes && d.nodes[src] == Dir && src !in d.faults.unreadable && dst in d.nodes
    requires Pruning(c) ==> d.nodes[dst] == Dir && NoExtraChild(d, src, dst)
    requires forall m :: ValidName(m) && Join(src, m) in d.nodes ==> ChildReflects(c, d, src, dst, m, fuel)
    ensures Reflects(c, d, src, dst, fuel + 1)
  {
  }

  /**
   * Every child of a directory is listed, so what holds of the listed
   * children in a state that kept the directory's tree holds of all of them.
   */
  lemma {:induction false} ListedChildren(d: Disk, src: Path, es: seq<Entry>, m: string)
    requires ReadDir(d, src) == Ok(es)
    requires ValidName(m) && Join(src, m) in d.nodes
    ensures exists i :: 0 <= i < |es| && es[i].name == m
  {
  }

  /** After a successful directory step, every child of `src` is reflected. */
  lemma {:induction false} CopyDirReflects(c: Config, d: Disk, src: Path, dst: Path, fuel: nat, r: Path)
    requires Apart(src, dst)
    requires src in d.nodes && d.nodes[src] == Dir && dst in d.nodes
    requires Pruning(c) ==> Position(c, src, dst, r)
    requires CopyDir(c, d, src, dst, fuel).err.None?
    ensures Reflects(c, CopyDir(c, d, src, dst, fuel).disk, src, dst, fuel + 1)
    decreases fuel + 1, 1, 1
  {
    var es := ReadDir(d, src).value;
    var o := CopyDir(c, d, src, dst, fuel);
    CopyDirListed(c, d, src, dst, fuel, r);
    CopyDirConfined(c, d, src, dst, fuel);
    KeptOutsideRegion(src, dst, d, o.disk);
    ListedReflect(c, d, o.disk, src, dst, es, fuel);
    if Pruning(c) {
      PrunedHasNoExtras(c, d, src, dst, fuel, r);
    }
    ReflectsFromChildren(c, o.disk, src, dst, fuel);
  }

  /**
   * Delete mode: after a successful directory step, `dst` is a directory
   * and every child it has is named after a child of `src`.
   */
  lemma PrunedHasNoExtras(c: Config, d: Disk, src: Path, dst: Path, fuel: nat, r: Path)
    requires Pruning(c) && Position(c, src, dst, r) && Apart(src, dst)
    requires CopyDir(c, d, src, dst, fuel).err.None?
    ensures var d' := CopyDir(c, d, src, dst, fuel).disk;
            Lookup(d', dst) == Some(Dir) && NoExtraChild(d', src, dst)
  {
    var es := ReadDir(d, src).value;
    var p := Children(c, d, src, dst, es, {}, fuel);
    var d' := CopyDir(c, d, src, dst, fuel).disk;
    WalkFacts.DeleteModePrunesExactly(c, d, src, dst, r, fuel);
    assert d' == Prune(c, p.disk, dst, p.wanted).disk;
    PruneKeepsDestination(c, p.disk, dst, p.wanted);
    CopyDirConfined(c, d, src, dst, fuel);
    KeptOutsideRegion(src, dst, d, d');
    ExactPruneNoExtras(d, p.disk, d', src, dst, es);
  }

  /** A prune pass never removes the directory it lists. */
  lemma PruneKeepsDestination(c: Config, d: Disk, dst: Path, wanted: set<Path>)
    requires Pruning(c) && ReadDir(d, dst).Ok?
    ensures Lookup(Prune(c, d, dst, wanted).disk, dst) == Some(Dir)
  {
    PruneEntriesConfined(c, d, dst, ReadDir(d, dst).value, wanted);
  }

  /**
   * A pass that kept exactly the listed destination children named after a
   * source child, and added nothing, leaves no extra child.
   */
  lemma ExactPruneNoExtras(d: Disk, dp: Disk, d': Disk, src: Path, dst: Path, es: seq<Entry>)
    requires ReadDir(d, src) == Ok(es) && ReadDir(dp, dst).Ok?
    requires var des := ReadDir(dp, dst).value;
             forall j :: 0 <= j < |des| ==>
               (Join(dst, des[j].name) in d'.nodes <==> exists i :: 0 <= i < |es| && es[i].name == des[j].name)
    requires forall k :: k in d'.nodes ==> k in dp.nodes
    requires forall k :: HasPrefix(k, TrimSeps(src)) ==> Lookup(d', k) == Lookup(d, k)
    ensures NoExtraChild(d', src, dst)
  {
    forall m | ValidName(m) && Join(dst, m) in d'.nodes ensures Join(src, m) in d'.nodes {
      KeptChildNamed(dp, d', dst, es, m);
      var i :| 0 <= i < |es| && es[i].name == m;
      assert Join(src, es[i].name) in d.nodes;
      SourceChildKept(d, d', src, m);
    }
  }

  /** A listed destination child that the pass kept shares its name with a source child. */
  lemma KeptChildNamed(dp: Disk, d': Disk, dst: Path, es: seq<Entry>, m: string)
    requires ReadDir(dp, dst).Ok?
    requires var des := ReadDir(dp, dst).value;
             forall j :: 0 <= j < |des| ==>
               (Join(dst, des[j].name) in d'.nodes <==> exists i :: 0 <= i < |es| && es[i].name == des[j].name)
    requires forall k :: k in d'.nodes ==> k in dp.nodes
    requires ValidName(m) && Join(dst, m) in d'.nodes
    ensures exists i :: 0 <= i < |es| && es[i].name == m
  {
    var des := ReadDir(dp, dst).value;
    ListedChildren(dp, dst, des, m);
  }

  /** After a successful directory step, every listed child of `src` is reflected. */
  lemma {:induction false} CopyDirListed(c: Config, d: Disk, src: Path, dst: Path, fuel: nat, r: Path)
    requires Apart(src, dst)
    requires src in d.nodes && d.nodes[src] == Dir
    requires Pruning(c) ==> Position(c, src, dst, r)
    requires CopyDir(c, d, src, dst, fuel).err.None?
    ensures ReadDir(d, src).Ok?
    ensures forall i :: 0 <= i < |ReadDir(d, src).value| ==>
      ChildReflects(c, CopyDir(c, d, src, dst, fuel).disk, src, dst, ReadDir(d, src).value[i].name, fuel)
    decreases fuel + 1, 1, 0
  {
    var es := ReadDir(d, src).value;
    var p := Children(c, d, src, dst, es, {}, fuel);
    var o := CopyDir(c, d, src, dst, fuel);
    assert p.err.None? && (!Pruning(c) ==> o.disk == p.disk);
    ChildrenReflect(c, d, src, dst, es, {}, fuel, r);
    if Pruning(c) {
      var des := ReadDir(p.disk, dst).value;
      assert o.disk == PruneEntries(c, p.disk, dst, des, p.wanted).disk;
      WalkFacts.ChildrenWanted(c, d, src, dst, es, {}, fuel);
      forall i | 0 <= i < |es| ensures ChildReflects(c, o.disk, src, dst, es[i].name, fuel) {
        WalkFacts.KeyAmongSourceKeys(c, src, dst, r, es, es[i].name);
        PruneKeepsChild(c, p.disk, src, dst, des, p.wanted, es[i].name, fuel);
      }
    }
  }

  /**
   * Every child of a directory is listed, so what holds of the listed
   * children in a state that kept the directory's tree holds of all of them.
   */
  lemma {:induction false} ListedReflect(c: Config, d: Disk, d': Disk, src: Path, dst: Path, es: seq<Entry>, fuel: nat)
    requires ReadDir(d, src) == Ok(es)
    requires forall k :: HasPrefix(k, TrimSeps(src)) ==> Lookup(d', k) == Lookup(d, k)
    requires forall i :: 0 <= i < |es| ==> ChildReflects(c, d', src, dst, es[i].name, fuel)
    ensures forall m :: ValidName(m) && Join(src, m) in d'.nodes ==> ChildReflects(c, d', src, dst, m, fuel)
  {
    forall m | ValidName(m) && Join(src, m) in d'.nodes ensures ChildReflects(c, d', src, dst, m, fuel) {
      PathFacts.JoinName(src, m);
      assert HasPrefix(Join(src, m), TrimSeps(src));
      ListedChildren(d, src, es, m);
    }
  }

  /** What a walk into `dst` leaves alone includes the whole tree at `src` when the two are apart. */
  lemma KeptOutsideRegion(src: Path, dst: Path, d: Disk, d': Disk)
    requires Apart(src, dst)
    requires forall k :: !InRegion(dst, k) ==> Lookup(d', k) == Lookup(d, k)
    ensures forall k :: HasPrefix(k, TrimSeps(src)) ==> Lookup(d', k) == Lookup(d, k)
  {
  }

  /**
   * A child's reflection survives any change that keeps the faults, the
   * parent's source tree and everything at or below `dst/m`.
   */
  lemma ChildKept(c: Config, d: Disk, d': Disk, src: Path, dst: Path, m: string, fuel: nat)
    requires ValidName(m) && ChildReflects(c, d, src, dst, m, fuel)
    requires d'.faults == d.faults
    requires forall k :: HasPrefix(k, TrimSeps(src)) ==> Lookup(d', k) == Lookup(d, k)
    requires forall k :: AtOrBelow(dst, m, k) ==> Lookup(d', k) == Lookup(d, k)
    ensures ChildReflects(c, d', src, dst, m, fuel)
  {
    var sp := Join(src, m);
    PathFacts.JoinName(src, m);
    forall k | HasPrefix(k, TrimSeps(sp)) ensures Lookup(d', k) == Lookup(d, k) {
      PrefixTrans(k, sp, TrimSeps(src));
    }
    assert HasPrefix(sp, TrimSeps(src));
    ReflectsFrame(c, d, d', sp, if d.nodes[sp] == Dir then Join(dst, m) else dst, fuel);
  }

  /** A prune pass that wants `m` leaves everything at or below `dst/m` alone. */
  lemma PruneKeepsBranch(c: Config, d: Disk, dst: Path, des: seq<Entry>, wanted: set<Path>, m: string, k: Path)
    requires ValidName(m) && forall j :: 0 <= j < |des| ==> ValidName(des[j].name)
    requires DstKey(c, dst, m) in wanted
    requires AtOrBelow(dst, m, k)
    ensures Lookup(PruneEntries(c, d, dst, des, wanted).disk, k) == Lookup(d, k)
  {
    if k in d.nodes {
      forall j | 0 <= j < |des|
        ensures DstKey(c, dst, des[j].name) in wanted || (k != Join(dst, des[j].name) && !IsUnder(Join(dst, des[j].name), k))
      {
        if des[j].name != m {
          BranchesApart(dst, m, des[j].name, k);
        }
      }
      PruneEntriesSpares(c, d, dst, des, wanted, k);
    }
  }

  /** A prune pass that wants the child `m` keeps its reflection. */
  lemma {:induction false} PruneKeepsChild(c: Config, d: Disk, src: Path, dst: Path, des: seq<Entry>, wanted: set<Path>, m: string, fuel: nat)
    requires Apart(src, dst) && ValidName(m)
    requires forall j :: 0 <= j < |des| ==> ValidName(des[j].name)
    requires DstKey(c, dst, m) in wanted
    requires ChildReflects(c, d, src, dst, m, fuel)
    ensures ChildReflects(c, PruneEntries(c, d, dst, des, wanted).disk, src, dst, m, fuel)
  {
    var od := PruneEntries(c, d, dst, des, wanted).disk;
    forall k | HasPrefix(k, TrimSeps(src)) ensures Lookup(od, k) == Lookup(d, k) {
      assert !InRegion(dst, k);
    }
    forall k | AtOrBelow(dst, m, k) ensures Lookup(od, k) == Lookup(d, k) {
      PruneKeepsBranch(c, d, dst, des, wanted, m, k);
    }
    ChildKept(c, d, od, src, dst, m, fuel);
  }

  /** After a successful loop over a sorted listing, every listed child is reflected. */
  lemma {:induction false} ChildrenReflect(c: Config, d: Disk, src: Path, dst: Path, es: seq<Entry>, wanted: set<Path>, fuel: nat, r: Path)
    requires Apart(src, dst)
    requires Pruning(c) ==> Position(c, src, dst, r)
    requires forall i :: 0 <= i < |es| ==> ValidName(es[i].name)
    requires forall i, j :: 0 <= i < j < |es| ==> es[i].name != es[j].name && NameOrder.LexLeq(es[i].name, es[j].name)
    requires Children(c, d, src, dst, es, wanted, fuel).err.None?
    ensures forall i :: 0 <= i < |es| ==> ChildReflects(c, Children(c, d, src, dst, es, wanted, fuel).disk, src, dst, es[i].name, fuel)
    decreases fuel + 1, 0, |es|
  {
    if es != [] {
      var m := es[0].name;
      var sp := Join(src, m);
      FirstReflects(c, d, src, dst, es, wanted, fuel, r);
      var q := if d.nodes[sp] == Dir then Join(dst, m) else dst;
      var o := Copy(c, d, sp, q, fuel);
      var wanted' := if Pruning(c) then wanted + {RelativePath(c.absSrc, sp)} else wanted;
      var rest := es[1..];
      ChildrenStep(c, d, src, dst, es, wanted, fuel);
      ListingTail(es);
      ChildrenReflect(c, o.disk, src, dst, rest, wanted', fuel, r);
      EveryChild(c, Children(c, d, src, dst, es, wanted, fuel).disk, src, dst, es, fuel);
    }
  }

  /** After a successful loop over a sorted listing, the first child is reflected. */
  lemma {:induction false} FirstReflects(c: Config, d: Disk, src: Path, dst: Path, es: seq<Entry>, wanted: set<Path>, fuel: nat, r: Path)
    requires Apart(src, dst)
    requires Pruning(c) ==> Position(c, src, dst, r)
    requires forall i :: 0 <= i < |es| ==> ValidName(es[i].name)
    requires forall i, j :: 0 <= i < j < |es| ==> es[i].name != es[j].name && NameOrder.LexLeq(es[i].name, es[j].name)
    requires es != [] && Children(c, d, src, dst, es, wanted, fuel).err.None?
    ensures Join(src, es[0].name) in d.nodes
    ensures ChildReflects(c, Children(c, d, src, dst, es, wanted, fuel).disk, src, dst, es[0].name, fuel)
    decreases fuel + 1, 0, |es|, 0
  {
    var m := es[0].name;
    var sp := Join(src, m);
    PathFacts.JoinName(src, m);
    var n := d.nodes[sp];
    var q := if n == Dir then Join(dst, m) else dst;
    ChildrenStep(c, d, src, dst, es, wanted, fuel);
    ApartChild(src, dst, m);
    if Pruning(c) && n == Dir {
      PathFacts.ChildPosition(c.absSrc, src, r, m);
      PathFacts.ChildPosition(c.absDst, dst, r, m);
    }
    CopyReflects(c, d, sp, q, fuel, r + [Separator] + m);
    ChildFramed(c, d, src, dst, es, wanted, fuel);
  }

  /** A successful first step of the loop hands over to the loop over the remaining children. */
  lemma ChildrenStep(c: Config, d: Disk, src: Path, dst: Path, es: seq<Entry>, wanted: set<Path>, fuel: nat)
    requires es != [] && Children(c, d, src, dst, es, wanted, fuel).err.None?
    ensures Join(src, es[0].name) in d.nodes
    ensures var sp := Join(src, es[0].name);
            var q := if d.nodes[sp] == Dir then Join(dst, es[0].name) else dst;
            var o := Copy(c, d, sp, q, fuel);
            && o.err.None?
            && Children(c, d, src, dst, es, wanted, fuel)
               == Children(c, o.disk, src, dst, es[1..], if Pruning(c) then wanted + {RelativePath(c.absSrc, sp)} else wanted, fuel)
  {
  }

  /** The tail of a sorted listing of entry names is one too. */
  lemma ListingTail(es: seq<Entry>)
    requires es != [] && forall i :: 0 <= i < |es| ==> ValidName(es[i].name)
    requires forall i, j :: 0 <= i < j < |es| ==> es[i].name != es[j].name && NameOrder.LexLeq(es[i].name, es[j].name)
    ensures forall i :: 0 <= i < |es[1..]| ==> ValidName(es[1..][i].name)
    ensures forall i, j :: 0 <= i < j < |es[1..]| ==> es[1..][i].name != es[1..][j].name && NameOrder.LexLeq(es[1..][i].name, es[1..][j].name)
  {
    TailShifts(es);
  }

  /** Each entry of the tail of a listing is the entry one place further on. */
  lemma TailShifts<T>(es: seq<T>)
    requires es != []
    ensures forall j :: 0 <= j < |es[1..]| ==> es[1..][j] == es[j + 1]
  {
    forall j | 0 <= j < |es[1..]| ensures es[1..][j] == es[j + 1] {
    }
  }

  /** What holds of the first child and of each later one holds of every child. */
  lemma EveryChild(c: Config, d: Disk, src: Path, dst: Path, es: seq<Entry>, fuel: nat)
    requires es != [] && ChildReflects(c, d, src, dst, es[0].name, fuel)
    requires forall i :: 0 <= i < |es[1..]| ==> ChildReflects(c, d, src, dst, es[1..][i].name, fuel)
    ensures forall i :: 0 <= i < |es| ==> ChildReflects(c, d, src, dst, es[i].name, fuel)
  {
    forall i | 0 < i < |es| ensures ChildReflects(c, d, src, dst, es[i].name, fuel) {
      assert es[i].name == es[1..][i - 1].name;
    }
  }

  /** The loop over later siblings leaves the source tree, and everything at or below an earlier sibling's target, alone. */
  lemma ChildrenKeep(c: Config, d: Disk, src: Path, dst: Path, es: seq<Entry>, wanted: set<Path>, fuel: nat, m: string)
    requires Apart(src, dst) && ValidName(m)
    requires forall j :: 0 <= j < |es| ==> ValidName(es[j].name) && m != es[j].name && NameOrder.LexLeq(m, es[j].name)
    ensures var d' := Children(c, d, src, dst, es, wanted, fuel).disk;
            && (forall k :: HasPrefix(k, TrimSeps(src)) ==> Lookup(d', k) == Lookup(d, k))
            && (forall k :: AtOrBelow(dst, m, k) ==> Lookup(d', k) == Lookup(d, k))
  {
    var d' := Children(c, d, src, dst, es, wanted, fuel).disk;
    ChildrenConfined(c, d, src, dst, es, wanted, fuel);
    KeptOutsideRegion(src, dst, d, d');
    forall k | AtOrBelow(dst, m, k) ensures Lookup(d', k) == Lookup(d, k) {
      forall j | 0 <= j < |es| ensures ValidName(es[j].name) && !Touched(dst, es[j].name, k) {
        NotTouched(dst, m, es[j].name, k);
      }
      ChildrenFrame(c, d, src, dst, es, wanted, fuel, k);
    }
  }

  /** The first child's reflection survives the loop over its later siblings. */
  lemma {:induction false} ChildFramed(c: Config, d: Disk, src: Path, dst: Path, es: seq<Entry>, wanted: set<Path>, fuel: nat)
    requires es != [] && Apart(src, dst)
    requires forall i :: 0 <= i < |es| ==> ValidName(es[i].name)
    requires forall j :: 0 < j < |es| ==> es[0].name != es[j].name && NameOrder.LexLeq(es[0].name, es[j].name)
    requires Join(src, es[0].name) in d.nodes
    requires var sp := Join(src, es[0].name);
             var q := if d.nodes[sp] == Dir then Join(dst, es[0].name) else dst;
             Copy(c, d, sp, q, fuel).err.None? && Reflects(c, Copy(c, d, sp, q, fuel).disk, sp, q, fuel)
    ensures ChildReflects(c, Children(c, d, src, dst, es, wanted, fuel).disk, src, dst, es[0].name, fuel)
  {
    var m := es[0].name;
    var sp := Join(src, m);
    var q := if d.nodes[sp] == Dir then Join(dst, m) else dst;
    var o := Copy(c, d, sp, q, fuel);
    var wanted' := if Pruning(c) then wanted + {RelativePath(c.absSrc, sp)} else wanted;
    var rest := es[1..];
    assert Children(c, d, src, dst, es, wanted, fuel).disk == Children(c, o.disk, src, dst, rest, wanted', fuel).disk;
    assert forall j :: 0 <= j < |rest| ==> rest[j] == es[j + 1];
    FirstChildReflects(c, d, src, dst, m, fuel);
    ChildrenKeep(c, o.disk, src, dst, rest, wanted', fuel, m);
    ChildKept(c, o.disk, Children(c, o.disk, src, dst, rest, wanted', fuel).disk, src, dst, m, fuel);
  }

  /** Right after its own copy, a child is reflected where the walk put it. */
  lemma FirstChildReflects(c: Config, d: Disk, src: Path, dst: Path, m: string, fuel: nat)
    requires Apart(src, dst) && ValidName(m)
    requires Join(src, m) in d.nodes
    requires var sp := Join(src, m);
             var q := if d.nodes[sp] == Dir then Join(dst, m) else dst;
             Copy(c, d, sp, q, fuel).err.None? && Reflects(c, Copy(c, d, sp, q, fuel).disk, sp, q, fuel)
    ensures var sp := Join(src, m);
            var q := if d.nodes[sp] == Dir then Join(dst, m) else dst;
            ChildReflects(c, Copy(c, d, sp, q, fuel).disk, src, dst, m, fuel)
  {
    var sp := Join(src, m);
    var q := if d.nodes[sp] == Dir then Join(dst, m) else dst;
    var o := Copy(c, d, sp, q, fuel);
    ApartChild(src, dst, m);
    ApartNotRoot(sp, q);
    CopyConfined(c, d, sp, q, fuel);
    KeptOutsideRegion(sp, q, d, o.disk);
    PathFacts.JoinName(src, m);
    assert HasPrefix(sp, TrimSeps(sp));
  }

  /** The first `j + 1` names below `root` are the first `j` of the rest below `root/ns[0]`. */
  lemma PrefixesShift(root: Path, ns: seq<string>, j: nat)
    requires j < |ns|
    ensures JoinAll(root, ns[..j + 1]) == JoinAll(Join(root, ns[0]), ns[1..][..j])
  {
    assert ns[..j + 1][1..] == ns[1..][..j];
  }

  /** A chain of directories from `root` along `ns` is one from `root/ns[0]` along the rest. */
  lemma DirsAlongRest(d: Disk, root: Path, ns: seq<string>)
    requires |ns| > 1
    requires forall j :: 0 <= j < |ns| ==> Lookup(d, JoinAll(root, ns[..j])) == Some(Dir)
    ensures forall j :: 0 <= j < |ns| - 1 ==> Lookup(d, JoinAll(Join(root, ns[0]), ns[1..][..j])) == Some(Dir)
  {
    forall j | 0 <= j < |ns| - 1 ensures Lookup(d, JoinAll(Join(root, ns[0]), ns[1..][..j])) == Some(Dir) {
      PrefixesShift(root, ns, j);
    }
  }

  /** The same for a chain that leaves out `root` itself. */
  lemma DirsBelowRest(d: Disk, root: Path, ns: seq<string>)
    requires |ns| > 1
    requires forall j :: 0 < j < |ns| ==> Lookup(d, JoinAll(root, ns[..j])) == Some(Dir)
    ensures forall j :: 0 < j < |ns| - 1 ==> Lookup(d, JoinAll(Join(root, ns[0]), ns[1..][..j])) == Some(Dir)
  {
    forall j | 0 < j < |ns| - 1 ensures Lookup(d, JoinAll(Join(root, ns[0]), ns[1..][..j])) == Some(Dir) {
      PrefixesShift(root, ns, j);
    }
  }

  /** In a reflected directory, a child directory is reflected at `dst/name`. */
  lemma DirChildReflects(c: Config, d: Disk, src: Path, dst: Path, fuel: nat, m: string)
    requires Reflects(c, d, src, dst, fuel) && d.nodes[src] == Dir
    requires ValidName(m) && Join(src, m) in d.nodes && d.nodes[Join(src, m)] == Dir
    ensures fuel > 0 && Reflects(c, d, Join(src, m), Join(dst, m), fuel - 1)
  {
  }

  /** In a reflected directory, a child that is not a directory is held at `dst/name`. */
  lemma FileChildHolds(c: Config, d: Disk, src: Path, dst: Path, fuel: nat, m: string)
    requires Reflects(c, d, src, dst, fuel) && d.nodes[src] == Dir
    requires ValidName(m) && Join(src, m) in d.nodes && d.nodes[Join(src, m)] != Dir
    ensures Holds(c, d, Join(src, m), Join(dst, m))
  {
    PathFacts.JoinName(src, m);
  }

  /**
   * The flat form: after a successful walk from a directory, a regular file
   * reached from `src` through the names `ns` (each step a directory) has
   * its target at the same names below `dst`.
   */
  lemma {:induction false} FileLandsAtJoinedPosition(c: Config, d: Disk, src: Path, dst: Path, fuel: nat, ns: seq<string>)
    requires Reflects(c, d, src, dst, fuel)
    requires ns != [] && forall j :: 0 <= j < |ns| ==> ValidName(ns[j])
    requires forall j :: 0 <= j < |ns| ==> Lookup(d, JoinAll(src, ns[..j])) == Some(Dir)
    requires JoinAll(src, ns) in d.nodes && d.nodes[JoinAll(src, ns)].File?
    ensures Holds(c, d, JoinAll(src, ns), JoinAll(dst, ns))
    decreases |ns|
  {
    var m := ns[0];
    var p := Join(src, m);
    assert JoinAll(src, ns[..0]) == src;
    assert JoinAll(src, ns) == JoinAll(p, ns[1..]);
    assert JoinAll(dst, ns) == JoinAll(Join(dst, m), ns[1..]);
    if |ns| == 1 {
      assert p == JoinAll(src, ns);
      assert JoinAll(dst, ns) == Join(dst, m);
      FileChildHolds(c, d, src, dst, fuel, m);
    } else {
      assert JoinAll(src, ns[..1]) == p;
      DirChildReflects(c, d, src, dst, fuel, m);
      var ns' := ns[1..];
      DirsAlongRest(d, src, ns);
      FileLandsAtJoinedPosition(c, d, p, Join(dst, m), fuel - 1, ns');
    }
  }

  /**
   * Every path, not only regular files: whatever is reached from a reflected
   * `src` through directories by the names `ns` has a counterpart at the
   * same names below `dst`.
   */
  lemma {:induction false} ReachedHasCounterpart(c: Config, d: Disk, src: Path, dst: Path, fuel: nat, ns: seq<string>)
    requires Reflects(c, d, src, dst, fuel)
    requires ns != [] && forall j :: 0 <= j < |ns| ==> ValidName(ns[j])
    requires forall j :: 0 <= j < |ns| ==> Lookup(d, JoinAll(src, ns[..j])) == Some(Dir)
    requires JoinAll(src, ns) in d.nodes
    ensures JoinAll(dst, ns) in d.nodes
    decreases |ns|
  {
    var m := ns[0];
    var p := Join(src, m);
    var ns' := ns[1..];
    assert JoinAll(src, ns[..0]) == src;
    assert JoinAll(src, ns) == JoinAll(p, ns');
    assert JoinAll(dst, ns) == JoinAll(Join(dst, m), ns');
    if |ns| == 1 {
      assert p == JoinAll(src, ns);
      ChildHasCounterpart(c, d, src, dst, fuel, m);
    } else {
      assert JoinAll(src, ns[..1]) == p;
      DirsAlongRest(d, src, ns);
      DirChildReflects(c, d, src, dst, fuel, m);
      ReachedHasCounterpart(c, d, p, Join(dst, m), fuel - 1, ns');
    }
  }

  /** In a reflected directory, every child has a counterpart with its name below `dst`. */
  lemma ChildHasCounterpart(c: Config, d: Disk, src: Path, dst: Path, fuel: nat, m: string)
    requires Reflects(c, d, src, dst, fuel) && d.nodes[src] == Dir
    requires ValidName(m) && Join(src, m) in d.nodes
    ensures Join(dst, m) in d.nodes
  {
    PathFacts.JoinName(src, m);
  }

  /** In a reflected directory, a child whose counterpart is a directory is a directory itself. */
  lemma DirCounterpartMeansDir(c: Config, d: Disk, src: Path, dst: Path, fuel: nat, m: string)
    requires Reflects(c, d, src, dst, fuel) && d.nodes[src] == Dir
    requires ValidName(m) && Join(src, m) in d.nodes && Lookup(d, Join(dst, m)) == Some(Dir)
    ensures d.nodes[Join(src, m)] == Dir
  {
    PathFacts.JoinName(src, m);
  }

  /**
   * Delete mode: whatever lies below a reflected `dst`, reached through
   * directories by the names `ns`, has a counterpart at the same names
   * below `src`.
   */
  lemma {:induction false} CounterpartHasSource(c: Config, d: Disk, src: Path, dst: Path, fuel: nat, ns: seq<string>)
    requires Pruning(c) && Reflects(c, d, src, dst, fuel) && Lookup(d, src) == Some(Dir)
    requires ns != [] && forall j :: 0 <= j < |ns| ==> ValidName(ns[j])
    requires forall j :: 0 < j < |ns| ==> Lookup(d, JoinAll(dst, ns[..j])) == Some(Dir)
    requires JoinAll(dst, ns) in d.nodes
    ensures JoinAll(src, ns) in d.nodes
    decreases |ns|
  {
    var m := ns[0];
    var p := Join(src, m);
    var t := Join(dst, m);
    var ns' := ns[1..];
    assert JoinAll(src, ns) == JoinAll(p, ns');
    assert JoinAll(dst, ns) == JoinAll(t, ns');
    if |ns| == 1 {
      assert t == JoinAll(dst, ns);
    } else {
      assert JoinAll(dst, ns[..1]) == t;
      assert p in d.nodes;
      DirCounterpartMeansDir(c, d, src, dst, fuel, m);
      DirChildReflects(c, d, src, dst, fuel, m);
      DirsBelowRest(d, dst, ns);
      CounterpartHasSource(c, d, p, t, fuel - 1, ns');
    }
  }

  /**
   * After a successful `copy`, every path reached from the source root
   * through directories, directories included, has its counterpart below
   * the destination root.
   */
  lemma CopyReachesEveryPath(c: Config, d: Disk, src: Path, dst: Path, fuel: nat, ns: seq<string>)
    requires Apart(src, dst)
    requires Pruning(c) ==> Position(c, src, dst, [])
    requires Copy(c, d, src, dst, fuel).err.None?
    requires var d' := Copy(c, d, src, dst, fuel).disk;
             && ns != [] && (forall j :: 0 <= j < |ns| ==> ValidName(ns[j]))
             && (forall j :: 0 <= j < |ns| ==> Lookup(d', JoinAll(src, ns[..j])) == Some(Dir))
             && JoinAll(src, ns) in d'.nodes
    ensures JoinAll(dst, ns) in Copy(c, d, src, dst, fuel).disk.nodes
  {
    CopyReflects(c, d, src, dst, fuel, []);
    ReachedHasCounterpart(c, Copy(c, d, src, dst, fuel).disk, src, dst, fuel, ns);
  }

  /**
   * Delete mode, from a source directory: after a successful `copy`,
   * nothing below the destination root, reached through directories, lacks
   * a counterpart below the source root. With `CopyReachesEveryPath`, the
   * two trees hold the same relative paths.
   */
  lemma DeleteModeLeavesNoExtras(c: Config, d: Disk, src: Path, dst: Path, fuel: nat, ns: seq<string>)
    requires Pruning(c) && Apart(src, dst) && Position(c, src, dst, [])
    requires Lookup(d, src) == Some(Dir)
    requires Copy(c, d, src, dst, fuel).err.None?
    requires var d' := Copy(c, d, src, dst, fuel).disk;
             && ns != [] && (forall j :: 0 <= j < |ns| ==> ValidName(ns[j]))
             && (forall j :: 0 < j < |ns| ==> Lookup(d', JoinAll(dst, ns[..j])) == Some(Dir))
             && JoinAll(dst, ns) in d'.nodes
    ensures JoinAll(src, ns) in Copy(c, d, src, dst, fuel).disk.nodes
  {
    var d' := Copy(c, d, src, dst, fuel).disk;
    ApartNotRoot(src, dst);
    CopyReflects(c, d, src, dst, fuel, []);
    CopyConfined(c, d, src, dst, fuel);
    KeptOutsideRegion(src, dst, d, d');
    assert HasPrefix(src, TrimSeps(src));
    CounterpartHasSource(c, d', src, dst, fuel, ns);
  }

  /** The walk-level statement: after a successful `copy`, every regular file below the source root is at its joined position. */
  lemma CopyPlacesEveryFile(c: Config, d: Disk, src: Path, dst: Path, fuel: nat, ns: seq<string>)
    requires Apart(src, dst)
    requires Pruning(c) ==> Position(c, src, dst, [])
    requires Copy(c, d, src, dst, fuel).err.None?
    requires var d' := Copy(c, d, src, dst, fuel).disk;
             && ns != [] && (forall j :: 0 <= j < |ns| ==> ValidName(ns[j]))
             && (forall j :: 0 <= j < |ns| ==> Lookup(d', JoinAll(src, ns[..j])) == Some(Dir))
             && JoinAll(src, ns) in d'.nodes && d'.nodes[JoinAll(src, ns)].File?
    ensures Holds(c, Copy(c, d, src, dst, fuel).disk, JoinAll(src, ns), JoinAll(dst, ns))
  {
    CopyReflects(c, d, src, dst, fuel, []);
    FileLandsAtJoinedPosition(c, Copy(c, d, src, dst, fuel).disk, src, dst, fuel, ns);
  }

  // Idempotence

  /** A successful `copy` leaves its destination in place. */
  lemma CopyKeepsDestination(c: Config, d: Disk, src: Path, dst: Path, fuel: nat)
    requires TrimSeps(src) != []
    requires Copy(c, d, src, dst, fuel).err.None?
    ensures dst in Copy(c, d, src, dst, fuel).disk.nodes
  {
    var f := fuel - 1;
    var d1 := EnsureDestination(d, dst).value;
    assert dst in d1.nodes;
    if d1.nodes[src] == Dir {
      CopyUnfoldDir(c, d, d1, src, dst, fuel, f);
      CopyDirConfined(c, d1, src, dst, f);
      assert LostOnly(c, dst, d1, CopyDir(c, d1, src, dst, f).disk);
    } else {
      CopyUnfoldFile(c, d, d1, src, dst, fuel);
      CopyOneFileConfined(c, d1, src, dst);
      assert LostOnly(c, dst, d1, CopyOneFile(c, d1, src, dst).disk);
    }
  }

  /** The child `m` of `src` is up to date where the walk puts it. */
  ghost predicate ChildUpToDate(c: Config, d: Disk, src: Path, dst: Path, m: string, fuel: nat) {
    var p := Join(src, m);
    p in d.nodes && WalkFacts.UpToDate(c, d, p, if d.nodes[p] == Dir then Join(dst, m) else dst, fuel)
  }

  /**
   * A tree the mirror engine reflects, into a destination that exists and
   * whose region holds nothing unreadable, is up to date; in delete mode
   * this needs the two directories at the same position below the roots.
   */
  lemma {:induction false} ReflectsUpToDate(c: Config, d: Disk, src: Path, dst: Path, fuel: nat, r: Path)
    requires c.flavor == Mirror
    requires Pruning(c) && Lookup(d, src) == Some(Dir) ==> Position(c, src, dst, r)
    requires Reflects(c, d, src, dst, fuel) && dst in d.nodes
    requires forall k :: InRegion(dst, k) ==> k !in d.faults.unreadable
    ensures WalkFacts.UpToDate(c, d, src, dst, fuel)
    decreases fuel, 1
  {
    var f := fuel - 1;
    if d.nodes[src] == Dir {
      var es := ReadDir(d, src).value;
      forall i | 0 <= i < |es| ensures ChildUpToDate(c, d, src, dst, es[i].name, f) {
        ChildReflectsUpToDate(c, d, src, dst, es[i].name, f, r);
      }
      if Pruning(c) {
        NoExtraKeys(c, d, src, dst, r);
      }
      UpToDateFromChildren(c, d, src, dst, f);
    } else {
      FileUpToDate(c, d, src, dst);
    }
  }

  /** A listed child of a reflected directory is up to date. */
  lemma {:induction false} ChildReflectsUpToDate(c: Config, d: Disk, src: Path, dst: Path, m: string, f: nat, r: Path)
    requires c.flavor == Mirror
    requires Pruning(c) ==> Position(c, src, dst, r)
    requires ValidName(m) && Join(src, m) in d.nodes
    requires Reflects(c, d, src, dst, f + 1) && d.nodes[src] == Dir
    requires forall k :: InRegion(dst, k) ==> k !in d.faults.unreadable
    ensures ChildUpToDate(c, d, src, dst, m, f)
    decreases f + 1, 0
  {
    var p := Join(src, m);
    var q := if d.nodes[p] == Dir then Join(dst, m) else dst;
    assert Reflects(c, d, p, q, f);
    forall k | InRegion(q, k) ensures k !in d.faults.unreadable {
      if d.nodes[p] == Dir {
        ChildRegionWithin(dst, m, k);
      }
    }
    if Pruning(c) && d.nodes[p] == Dir {
      PathFacts.ChildPosition(c.absSrc, src, r, m);
      PathFacts.ChildPosition(c.absDst, dst, r, m);
    }
    ReflectsUpToDate(c, d, p, q, f, r + [Separator] + m);
  }

  /** A readable directory whose listed children are all up to date is up to date itself. */
  lemma UpToDateFromChildren(c: Config, d: Disk, src: Path, dst: Path, f: nat)
    requires c.flavor == Mirror && src in d.nodes && d.nodes[src] == Dir && dst in d.nodes && ReadDir(d, src).Ok?
    requires forall i :: 0 <= i < |ReadDir(d, src).value| ==> ChildUpToDate(c, d, src, dst, ReadDir(d, src).value[i].name, f)
    requires Pruning(c) ==> WalkFacts.NothingToPrune(c, d, src, dst, ReadDir(d, src).value)
    ensures WalkFacts.UpToDate(c, d, src, dst, f + 1)
  {
  }

  /** A reflected file, with its target readable, is one the mirror engine skips. */
  lemma FileUpToDate(c: Config, d: Disk, src: Path, dst: Path)
    requires c.flavor == Mirror
    requires Holds(c, d, src, Join(dst, Base(src)))
    requires forall k :: InRegion(dst, k) ==> k !in d.faults.unreadable
    ensures var target := Join(dst, Base(src));
            target in d.nodes && d.nodes[target] != Dir && Same(c.oracle, d, src, target) == Ok(true)
  {
    var target := Join(dst, Base(src));
    assert InRegion(dst, target) by {
      if TrimSeps(Base(src)) != [] {
        assert target[..|TrimSeps(dst)| + 1] == TrimSeps(dst) + [Separator];
      }
    }
  }

  /** In delete mode, a directory with no extra child has every listed child's key among the source keys. */
  lemma NoExtraKeys(c: Config, d: Disk, src: Path, dst: Path, r: Path)
    requires Pruning(c) && Position(c, src, dst, r)
    requires src in d.nodes && d.nodes[src] == Dir && ReadDir(d, src).Ok?
    requires dst in d.nodes && d.nodes[dst] == Dir && dst !in d.faults.unreadable
    requires NoExtraChild(d, src, dst)
    ensures WalkFacts.NothingToPrune(c, d, src, dst, ReadDir(d, src).value)
  {
    var es := ReadDir(d, src).value;
    var des := ReadDir(d, dst).value;
    forall j | 0 <= j < |des| ensures DstKey(c, dst, des[j].name) in WalkFacts.SourceKeys(c, src, es) {
      var m := des[j].name;
      assert Join(src, m) in d.nodes;
      ListedChildren(d, src, es, m);
      WalkFacts.KeyAmongSourceKeys(c, src, dst, r, es, m);
    }
  }

  /**
   * Idempotence of the mirror engine: after a successful walk into a
   * destination whose region holds nothing unreadable, the tree is up to
   * date, and a second walk succeeds without writing or changing anything.
   * In delete mode the two roots are those of the run.
   */
  lemma SecondRunChangesNothing(c: Config, d: Disk, src: Path, dst: Path, fuel: nat)
    requires c.flavor == Mirror
    requires Apart(src, dst)
    requires Pruning(c) ==> Position(c, src, dst, [])
    requires forall k :: InRegion(dst, k) ==> k !in d.faults.unreadable
    requires Copy(c, d, src, dst, fuel).err.None?
    ensures var d' := Copy(c, d, src, dst, fuel).disk;
            WalkFacts.UpToDate(c, d', src, dst, fuel) && Copy(c, d', src, dst, fuel) == Outcome(d', None)
  {
    var d' := Copy(c, d, src, dst, fuel).disk;
    ApartNotRoot(src, dst);
    CopyReflects(c, d, src, dst, fuel, []);
    CopyKeepsDestination(c, d, src, dst, fuel);
    ReflectsUpToDate(c, d', src, dst, fuel, []);
    WalkFacts.UpToDateUnchanged(c, d', src, dst, fuel);
  }
}
