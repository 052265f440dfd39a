/**
 * Properties of the walk: the first failing child aborts its siblings, the
 * prune step removes exactly the destination children no source child
 * accounts for, an up-to-date tree is left as it is, and the three
 * generations differ where their Go code differs.
 */
module WalkFacts {
  import opened Wrappers
  import opened Paths
  import opened Fs
  import opened Walk
  import PathFacts

  /** The loop over `es1 + es2` is the loop over `es1`, followed by the loop over `es2` only if `es1` went through. */
  lemma {:induction false} ChildrenSplit(c: Config, d: Disk, src: Path, dst: Path, es1: seq<Entry>, es2: seq<Entry>,
                                         wanted: set<Path>, fuel: nat)
    ensures var p := Children(c, d, src, dst, es1, wanted, fuel);
            Children(c, d, src, dst, es1 + es2, wanted, fuel) ==
              if p.err.Some? then p else Children(c, p.disk, src, dst, es2, p.wanted, fuel)
    decreases |es1|
  {
    if es1 == [] {
      assert es1 + es2 == es2;
    } else {
      assert (es1 + es2)[0] == es1[0];
      assert (es1 + es2)[1..] == es1[1..] + es2;
      var srcPath := Join(src, es1[0].name);
      match Lookup(d, srcPath)
      case None =>
      case Some(n) =>
        var dstPath := if n == Dir then Join(dst, es1[0].name) else dst;
        var o := Copy(c, d, srcPath, dstPath, fuel);
        if o.err.None? {
          var wanted' := if Pruning(c) then wanted + {RelativePath(c.absSrc, srcPath)} else wanted;
          ChildrenSplit(c, o.disk, src, dst, es1[1..], es2, wanted', fuel);
        }
    }
  }

  /** The first failing child ends the loop: the children after it are never visited. */
  lemma FirstErrorAborts(c: Config, d: Disk, src: Path, dst: Path, es: seq<Entry>, i: nat, wanted: set<Path>, fuel: nat)
    requires i <= |es|
    requires Children(c, d, src, dst, es[..i], wanted, fuel).err.Some?
    ensures Children(c, d, src, dst, es, wanted, fuel) == Children(c, d, src, dst, es[..i], wanted, fuel)
  {
    assert es == es[..i] + es[i..];
    ChildrenSplit(c, d, src, dst, es[..i], es[i..], wanted, fuel);
  }

  /** The root-relative paths of the source children `es` of `src`. */
  function SourceKeys(c: Config, src: Path, es: seq<Entry>): set<Path> {
    set i | 0 <= i < |es| :: RelativePath(c.absSrc, Join(src, es[i].name))
  }

  /**
   * In delete mode a successful loop has recorded the root-relative path of
   * every source child; otherwise it records nothing.
   */
  lemma {:induction false} ChildrenWanted(c: Config, d: Disk, src: Path, dst: Path, es: seq<Entry>, wanted: set<Path>, fuel: nat)
    requires Children(c, d, src, dst, es, wanted, fuel).err.None?
    ensures Children(c, d, src, dst, es, wanted, fuel).wanted == if Pruning(c) then wanted + SourceKeys(c, src, es) else wanted
    decreases |es|
  {
    if es != [] {
      var srcPath := Join(src, es[0].name);
      var n := Lookup(d, srcPath).value;
      var dstPath := if n == Dir then Join(dst, es[0].name) else dst;
      var o := Copy(c, d, srcPath, dstPath, fuel);
      var wanted' := if Pruning(c) then wanted + {RelativePath(c.absSrc, srcPath)} else wanted;
      ChildrenWanted(c, o.disk, src, dst, es[1..], wanted', fuel);
      if Pruning(c) {
        SourceKeysCons(c, src, es);
      }
    }
  }

  /** The keys of a listing are the first child's key and the keys of the rest. */
  lemma SourceKeysCons(c: Config, src: Path, es: seq<Entry>)
    requires es != []
    ensures SourceKeys(c, src, es) == {RelativePath(c.absSrc, Join(src, es[0].name))} + SourceKeys(c, src, es[1..])
  {
    forall x | x in SourceKeys(c, src, es) ensures x in {RelativePath(c.absSrc, Join(src, es[0].name))} + SourceKeys(c, src, es[1..]) {
      var i :| 0 <= i < |es| && x == RelativePath(c.absSrc, Join(src, es[i].name));
      if i > 0 {
        assert es[i] == es[1..][i - 1];
      }
    }
    forall x | x in SourceKeys(c, src, es[1..]) ensures x in SourceKeys(c, src, es) {
      var i :| 0 <= i < |es[1..]| && x == RelativePath(c.absSrc, Join(src, es[1..][i].name));
      assert es[1..][i] == es[i + 1];
    }
  }

  /** Two different children of one directory: neither path is the other, nor below it. */
  lemma {:induction false} SiblingsApart(dst: Path, m: string, m': string)
    requires ValidName(m) && ValidName(m') && m != m'
    ensures Join(dst, m) != Join(dst, m')
    ensures !IsUnder(Join(dst, m'), Join(dst, m))
  {
    PathFacts.JoinName(dst, m);
    PathFacts.JoinName(dst, m');
    PrefixedChild(TrimSeps(dst), m, m');
  }

  /** A child path that extends a sibling's path plus a separator has a separator in its name. */
  lemma PrefixedChild(t: Path, m: string, m': string)
    ensures HasPrefix(t + [Separator] + m, t + [Separator] + m' + [Separator]) ==> |m| > |m'| && m[|m'|] == Separator
  {
    var j := t + [Separator] + m;
    var p := t + [Separator] + m' + [Separator];
    if HasPrefix(j, p) {
      assert j[|p| - 1] == p[|p| - 1];
    }
  }

  /** A prune pass keeps every path that is neither one of the listed children nor below one. */
  lemma {:induction false} PruneEntriesKeeps(c: Config, d: Disk, dst: Path, es: seq<Entry>, wanted: set<Path>, k: Path)
    requires k in d.nodes
    requires forall j :: 0 <= j < |es| ==> k != Join(dst, es[j].name) && !IsUnder(Join(dst, es[j].name), k)
    ensures k in PruneEntries(c, d, dst, es, wanted).disk.nodes
    decreases |es|
  {
    if es != [] {
      var p := Join(dst, es[0].name);
      if p !in d.nodes || DstKey(c, dst, es[0].name) in wanted {
        PruneEntriesKeeps(c, d, dst, es[1..], wanted, k);
      } else if RemoveExtraneous(d, p, es[0].isDir).Ok? {
        PruneEntriesKeeps(c, RemoveExtraneous(d, p, es[0].isDir).value, dst, es[1..], wanted, k);
      }
    }
  }

  /**
   * A successful prune pass over a destination listing removes exactly the
   * children whose root-relative path is not wanted.
   */
  lemma {:induction false} PruneEntriesExact(c: Config, d: Disk, dst: Path, es: seq<Entry>, wanted: set<Path>)
    requires forall i :: 0 <= i < |es| ==> ValidName(es[i].name)
    requires forall i, j :: 0 <= i < j < |es| ==> es[i].name != es[j].name
    requires PruneEntries(c, d, dst, es, wanted).err.None?
    ensures forall i :: 0 <= i < |es| ==>
              (Join(dst, es[i].name) in PruneEntries(c, d, dst, es, wanted).disk.nodes <==> DstKey(c, dst, es[i].name) in wanted)
    decreases |es|
  {
    if es != [] {
      var p := Join(dst, es[0].name);
      var d' := if DstKey(c, dst, es[0].name) in wanted then d else RemoveExtraneous(d, p, es[0].isDir).value;
      var rest := PruneEntries(c, d', dst, es[1..], wanted);
      assert PruneEntries(c, d, dst, es, wanted) == rest;
      PruneEntriesExact(c, d', dst, es[1..], wanted);
      if DstKey(c, dst, es[0].name) in wanted {
        forall j | 0 <= j < |es[1..]|
          ensures p != Join(dst, es[1..][j].name) && !IsUnder(Join(dst, es[1..][j].name), p)
        {
          SiblingsApart(dst, es[0].name, es[1..][j].name);
        }
        PruneEntriesKeeps(c, d', dst, es[1..], wanted, p);
      }
      forall i | 0 <= i < |es|
        ensures Join(dst, es[i].name) in rest.disk.nodes <==> DstKey(c, dst, es[i].name) in wanted
      {
        if i > 0 {
          assert es[i] == es[1..][i - 1];
        }
      }
    }
  }

  /**
   * Root-relative paths match by name: when `src` and `dst` lie at the same
   * position `r` below their roots, a destination child's key is among the
   * source children's keys exactly when a source child has its name.
   */
  lemma {:induction false} KeyAmongSourceKeys(c: Config, src: Path, dst: Path, r: Path, es: seq<Entry>, m: string)
    requires TrimSeps(src) == TrimSeps(c.absSrc) + r && TrimSeps(dst) == TrimSeps(c.absDst) + r
    requires r == [] || r[0] == Separator
    requires ValidName(m) && forall i :: 0 <= i < |es| ==> ValidName(es[i].name)
    ensures DstKey(c, dst, m) in SourceKeys(c, src, es) <==> exists i :: 0 <= i < |es| && es[i].name == m
  {
    if DstKey(c, dst, m) in SourceKeys(c, src, es) {
      var i :| 0 <= i < |es| && DstKey(c, dst, m) == RelativePath(c.absSrc, Join(src, es[i].name));
      PathFacts.KeysMatchIffNames(c.absSrc, src, c.absDst, dst, r, es[i].name, m);
    }
    if exists i :: 0 <= i < |es| && es[i].name == m {
      var i :| 0 <= i < |es| && es[i].name == m;
      PathFacts.KeysMatchIffNames(c.absSrc, src, c.absDst, dst, r, m, m);
      assert RelativePath(c.absSrc, Join(src, es[i].name)) in SourceKeys(c, src, es);
    }
  }

  /**
   * Delete mode, for a directory at the same position `r` below both roots:
   * after a successful pass, a destination child listed at prune time
   * survives exactly when a source child has the same name.
   */
  lemma DeleteModePrunesExactly(c: Config, d: Disk, src: Path, dst: Path, r: Path, fuel: nat)
    requires Pruning(c)
    requires TrimSeps(src) == TrimSeps(c.absSrc) + r && TrimSeps(dst) == TrimSeps(c.absDst) + r
    requires r == [] || r[0] == Separator
    requires CopyDir(c, d, src, dst, fuel).err.None?
    ensures ReadDir(d, src).Ok?
    ensures var es := ReadDir(d, src).value;
            var p := Children(c, d, src, dst, es, {}, fuel);
            ReadDir(p.disk, dst).Ok? &&
            var des := ReadDir(p.disk, dst).value;
            forall j :: 0 <= j < |des| ==>
              (Join(dst, des[j].name) in CopyDir(c, d, src, dst, fuel).disk.nodes <==>
               exists i :: 0 <= i < |es| && es[i].name == des[j].name)
  {
    var es := ReadDir(d, src).value;
    var p := Children(c, d, src, dst, es, {}, fuel);
    ChildrenWanted(c, d, src, dst, es, {}, fuel);
    PruneListingExact(c, p.disk, src, dst, r, es, fuel);
  }

  /** The prune against the keys of a source listing keeps exactly the listed destination children that share a name with a source child. */
  lemma PruneListingExact(c: Config, d: Disk, src: Path, dst: Path, r: Path, es: seq<Entry>, fuel: nat)
    requires TrimSeps(src) == TrimSeps(c.absSrc) + r && TrimSeps(dst) == TrimSeps(c.absDst) + r
    requires r == [] || r[0] == Separator
    requires forall i :: 0 <= i < |es| ==> ValidName(es[i].name)
    requires Prune(c, d, dst, {} + SourceKeys(c, src, es)).err.None?
    ensures ReadDir(d, dst).Ok? &&
            var des := ReadDir(d, dst).value;
            forall j :: 0 <= j < |des| ==>
              (Join(dst, des[j].name) in Prune(c, d, dst, {} + SourceKeys(c, src, es)).disk.nodes <==>
               exists i :: 0 <= i < |es| && es[i].name == des[j].name)
  {
    var wanted := {} + SourceKeys(c, src, es);
    var des := ReadDir(d, dst).value;
    PruneEntriesExact(c, d, dst, des, wanted);
    forall j | 0 <= j < |des|
      ensures Join(dst, des[j].name) in Prune(c, d, dst, wanted).disk.nodes <==>
              exists i :: 0 <= i < |es| && es[i].name == des[j].name
    {
      KeyAmongSourceKeys(c, src, dst, r, es, des[j].name);
    }
  }

  /**
   * The mirror engine finds nothing to do: the destination directory exists,
   * every source directory is readable, every source file has a target that
   * is not a directory and that the oracle calls the same, and in delete
   * mode every destination child has a source counterpart.
   */
  ghost predicate UpToDate(c: Config, d: Disk, src: Path, dst: Path, fuel: nat)
    decreases fuel
  {
    && fuel > 0
    && c.flavor == Mirror
    && dst in d.nodes
    && src in d.nodes
    && if d.nodes[src] == Dir then
         && ReadDir(d, src).Ok?
         && (var es := ReadDir(d, src).value;
             && (forall i :: 0 <= i < |es| ==>
                   var p := Join(src, es[i].name);
                   p in d.nodes && UpToDate(c, d, p, if d.nodes[p] == Dir then Join(dst, es[i].name) else dst, fuel - 1))
             && (Pruning(c) ==> NothingToPrune(c, d, src, dst, es)))
       else
         var target := Join(dst, Base(src));
         target in d.nodes && d.nodes[target] != Dir && Same(c.oracle, d, src, target) == Ok(true)
  }

  /** The destination can be listed, and each of its children has the key of a source child in `es`. */
  ghost predicate NothingToPrune(c: Config, d: Disk, src: Path, dst: Path, es: seq<Entry>) {
    && ReadDir(d, dst).Ok?
    && forall j :: 0 <= j < |ReadDir(d, dst).value| ==>
         DstKey(c, dst, ReadDir(d, dst).value[j].name) in SourceKeys(c, src, es)
  }

  /** A prune pass that wants every listed child removes nothing. */
  lemma {:induction false} PruneEntriesNothingExtra(c: Config, d: Disk, dst: Path, es: seq<Entry>, wanted: set<Path>)
    requires forall j :: 0 <= j < |es| ==> Join(dst, es[j].name) in d.nodes && DstKey(c, dst, es[j].name) in wanted
    ensures PruneEntries(c, d, dst, es, wanted) == Outcome(d, None)
    decreases |es|
  {
    if es != [] {
      PruneEntriesNothingExtra(c, d, dst, es[1..], wanted);
    }
  }

  /** Idempotence: over an up-to-date tree the mirror walk succeeds, writes nothing and changes nothing. */
  lemma {:induction false} UpToDateUnchanged(c: Config, d: Disk, src: Path, dst: Path, fuel: nat)
    requires UpToDate(c, d, src, dst, fuel)
    ensures Copy(c, d, src, dst, fuel) == Outcome(d, None)
    decreases fuel, 2, 0
  {
    var f := fuel - 1;
    assert EnsureDestination(d, dst) == Ok(d);
    if d.nodes[src] == Dir {
      CopyUnfoldDir(c, d, d, src, dst, fuel, f);
      CopyDirUnchanged(c, d, src, dst, f);
    } else {
      CopyUnfoldFile(c, d, d, src, dst, fuel);
      MirrorSkipRule(c, d, src, dst);
    }
  }

  /** The directory step over an up-to-date directory succeeds and changes nothing. */
  lemma {:induction false} CopyDirUnchanged(c: Config, d: Disk, src: Path, dst: Path, f: nat)
    requires UpToDate(c, d, src, dst, f + 1) && d.nodes[src] == Dir
    ensures CopyDir(c, d, src, dst, f) == Outcome(d, None)
    decreases f + 1, 1, 0
  {
    var es := ReadDir(d, src).value;
    ChildrenUnchanged(c, d, src, dst, es, {}, f);
    var p := Children(c, d, src, dst, es, {}, f);
    assert p.disk == d && p.err.None?;
    if Pruning(c) {
      ChildrenWanted(c, d, src, dst, es, {}, f);
      NothingToPruneKeeps(c, d, src, dst, es, p.wanted);
    }
  }

  /** With nothing to prune, the prune pass against the source keys succeeds and removes nothing. */
  lemma NothingToPruneKeeps(c: Config, d: Disk, src: Path, dst: Path, es: seq<Entry>, wanted: set<Path>)
    requires NothingToPrune(c, d, src, dst, es) && wanted == {} + SourceKeys(c, src, es)
    ensures Prune(c, d, dst, wanted) == Outcome(d, None)
  {
    PruneEntriesNothingExtra(c, d, dst, ReadDir(d, dst).value, wanted);
  }

  lemma {:induction false} ChildrenUnchanged(c: Config, d: Disk, src: Path, dst: Path, es: seq<Entry>, wanted: set<Path>, fuel: nat)
    requires forall i :: 0 <= i < |es| ==>
               var p := Join(src, es[i].name);
               p in d.nodes && UpToDate(c, d, p, if d.nodes[p] == Dir then Join(dst, es[i].name) else dst, fuel)
    ensures Children(c, d, src, dst, es, wanted, fuel).disk == d
    ensures Children(c, d, src, dst, es, wanted, fuel).err.None?
    decreases fuel + 1, 0, |es|
  {
    if es != [] {
      var p := Join(src, es[0].name);
      UpToDateUnchanged(c, d, p, if d.nodes[p] == Dir then Join(dst, es[0].name) else dst, fuel);
      var wanted' := if Pruning(c) then wanted + {RelativePath(c.absSrc, p)} else wanted;
      forall i | 0 <= i < |es[1..]|
        ensures var q := Join(src, es[1..][i].name);
                q in d.nodes && UpToDate(c, d, q, if d.nodes[q] == Dir then Join(dst, es[1..][i].name) else dst, fuel)
      {
        assert es[1..][i] == es[i + 1];
      }
      ChildrenUnchanged(c, d, src, dst, es[1..], wanted', fuel);
    }
  }

  /** Appending the temporary extension to an entry name keeps it a name. */
  lemma TempName(b: string)
    requires ValidName(b)
    ensures ValidName(b + TempFileExt)
  {
    assert Separator !in TempFileExt;
  }

  /** The temporary name of `dst/b` is an entry of `dst` named `b` plus the extension. */
  lemma {:induction false} TempBase(dst: Path, b: string)
    requires ValidName(b)
    ensures Base(Join(dst, b) + TempFileExt) == b + TempFileExt
  {
    var bt := b + TempFileExt;
    TempName(b);
    PathFacts.JoinName(dst, b);
    PathFacts.JoinName(dst, bt);
    PathFacts.AppendAssoc(TrimSeps(dst) + [Separator], b, TempFileExt);
  }

  /** The temporary name of a file's target is never the source file itself. */
  lemma {:induction false} TempNeverSource(src: Path, dst: Path)
    requires TrimSeps(src) != []
    ensures Join(dst, Base(src)) + TempFileExt != src
  {
    var b := Base(src);
    TempBase(dst, b);
    assert |b + TempFileExt| != |b|;
  }

  /** After a successful staged copy the target holds the source's bytes. */
  lemma StagedIsSame(c: Config, d: Disk, src: Path, target: Path)
    requires Stage(c, d, src, target).err.None? && src != target + TempFileExt
    requires src !in d.faults.unreadable && target !in d.faults.unreadable
    ensures var d' := Stage(c, d, src, target).disk;
            target in d'.nodes && d'.nodes[target] != Dir && Same(c.oracle, d', src, target) == Ok(true)
  {
    var d' := Stage(c, d, src, target).disk;
    assert d'.nodes[src] == d.nodes[src] && d'.nodes[target] == d.nodes[src];
    assert ReadAll(d', src).Ok? && ReadAll(d', target).Ok?;
  }

  /**
   * A second mirror run over a file it has just reconciled finds it up to
   * date, and writes nothing.
   */
  lemma SecondRunSkipsFile(c: Config, d: Disk, src: Path, dst: Path)
    requires c.flavor == Mirror && TrimSeps(src) != []
    requires CopyOneFile(c, d, src, dst).err.None?
    requires src !in d.faults.unreadable && Join(dst, Base(src)) !in d.faults.unreadable
    ensures var d' := CopyOneFile(c, d, src, dst).disk;
            CopyOneFile(c, d', src, dst) == Outcome(d', None)
  {
    var target := Join(dst, Base(src));
    if target in d.nodes && d.nodes[target] != Dir && Same(c.oracle, d, src, target) == Ok(true) {
      MirrorSkipRule(c, d, src, dst);
    } else {
      SecondRunAfterStage(c, d, src, dst);
    }
  }

  lemma SecondRunAfterStage(c: Config, d: Disk, src: Path, dst: Path)
    requires c.flavor == Mirror && TrimSeps(src) != []
    requires CopyOneFile(c, d, src, dst) == Stage(c, d, src, Join(dst, Base(src)))
    requires Stage(c, d, src, Join(dst, Base(src))).err.None?
    requires src !in d.faults.unreadable && Join(dst, Base(src)) !in d.faults.unreadable
    ensures var d' := Stage(c, d, src, Join(dst, Base(src))).disk;
            CopyOneFile(c, d', src, dst) == Outcome(d', None)
  {
    var target := Join(dst, Base(src));
    TempNeverSource(src, dst);
    StagedIsSame(c, d, src, target);
    MirrorSkipRule(c, Stage(c, d, src, target).disk, src, dst);
  }

  /**
   * The mirror engine never damages the target: whenever it fails, the
   * target path holds what it held before.
   */
  lemma MirrorKeepsTargetOnFailure(c: Config, d: Disk, src: Path, dst: Path)
    requires c.flavor == Mirror
    requires CopyOneFile(c, d, src, dst).err.Some?
    ensures Lookup(CopyOneFile(c, d, src, dst).disk, Join(dst, Base(src))) == Lookup(d, Join(dst, Base(src)))
  {
    var target := Join(dst, Base(src));
    assert target != target + TempFileExt by { assert |target + TempFileExt| > |target|; }
  }

  /**
   * The overwriting generations rewrite a file on every run, even when the
   * target already holds the same bytes.
   */
  lemma OverwritingAlwaysWrites(c: Config, d: Disk, src: Path, dst: Path)
    requires c.flavor != Mirror && Join(dst, Base(src)) != src
    requires CopyOneFile(c, d, src, dst).err.None?
    ensures CopyOneFile(c, d, src, dst).disk.created == d.created + [Join(dst, Base(src))]
  {
  }

  /**
   * In internal/service/syncer.go the post-copy check runs after the target
   * was overwritten: when the check fails the error is reported, but the
   * target already holds the new bytes.
   */
  lemma VerifiedOverwritesBeforeCheck(c: Config, d: Disk, src: Path, dst: Path)
    requires c.flavor == Verified
    requires src in d.nodes && d.nodes[src].File? && src !in d.faults.unreadable
    requires Join(dst, Base(src)) != src && Create(d, Join(dst, Base(src))).Ok?
    requires Join(dst, Base(src)) in d.faults.unreadable
    ensures var o := CopyOneFile(c, d, src, dst);
            o.err.Some? && Lookup(o.disk, Join(dst, Base(src))) == Some(d.nodes[src])
  {
  }

  /** Plain: a missing source is reported before anything is created, at every level. */
  lemma PlainChecksSourceFirst(c: Config, d: Disk, src: Path, dst: Path, fuel: nat)
    requires c.flavor == Plain && fuel > 0 && src !in d.nodes
    ensures Copy(c, d, src, dst, fuel) == Outcome(d, Some(SourceNotExist(src)))
  {
  }

  /**
   * The other two generations create a missing destination directory, with
   * its ancestors, before they look at the source at all.
   */
  lemma DestinationBeforeSource(c: Config, d: Disk, src: Path, dst: Path, fuel: nat)
    requires c.flavor != Plain && fuel > 0
    requires dst !in d.nodes && MkdirAll(d, dst).Ok? && src !in MkdirAll(d, dst).value.nodes
    ensures Copy(c, d, src, dst, fuel) == Outcome(MkdirAll(d, dst).value, Some(CannotAnalyzeSource(src)))
    ensures Lookup(Copy(c, d, src, dst, fuel).disk, dst) == Some(Dir)
  {
  }

  /**
   * `copyFile` as written, asked to copy a file onto itself: `os.Create`
   * truncates the file that is open for reading, `io.Copy` then reads
   * nothing, and the call reports success with the file emptied.
   */
  lemma SelfCopyTruncates(o: Oracle, d: Disk, p: Path, verify: bool)
    requires p in d.nodes && d.nodes[p].File? && d.nodes[p].content != []
    requires p !in d.faults.unreadable && p !in d.faults.readOnly && ParentIsDir(d, p)
    ensures CopyFileAsWritten(o, d, p, p, verify).err.None?
    ensures CopyFileAsWritten(o, d, p, p, verify).disk.nodes[p] == File([])
    ensures CopyFileAsWritten(o, d, p, p, verify).disk.nodes[p] != d.nodes[p]
  {
    var d1 := Create(d, p).value;
    assert CopyInto(d1, p, p).nodes[p] == File([]);
  }

  /** Apart from a file copied onto itself, the corrected `copyFile` is the one written. */
  lemma CopyFileAgreesWhenDistinct(o: Oracle, d: Disk, src: Path, dst: Path, verify: bool)
    requires src != dst
    ensures CopyFile(o, d, src, dst, verify) == CopyFileAsWritten(o, d, src, dst, verify)
  {
  }

  /**
   * `fsync /a/x /a`: a file synchronised into its own directory is its own
   * target, and the nested-destination check lets it through.
   */
  lemma FileIntoOwnDirectory()
    ensures !HasPrefix("/a", "/a/x")
    ensures Join("/a", Base("/a/x")) == "/a/x"
  {
    PathFacts.JoinName("/a", "x");
    assert Base("/a/x") == "x" by {
      assert TrimSeps("/a/x") == "/a/x";
      assert LastSep("/a/x") == 2;
    }
  }

  /**
   * `fsync /a/ /a`: the raw prefix check lets a directory through as the
   * destination of itself, written once with a trailing separator.
   */
  lemma DirectoryOntoItself()
    ensures !HasPrefix("/a", "/a/")
    ensures Resolve("/a/") == Resolve("/a") == "/a"
  {
    assert TrimSeps("/a/") == TrimSeps("/a") == "/a";
  }

  /**
   * With the corrected `copyFile`, walking a directory onto itself leaves
   * the filesystem exactly as it was (delete mode aside): every file is its
   * own target and every subdirectory its own destination.
   */
  lemma {:induction false} SelfCopyUnchanged(c: Config, d: Disk, p: Path, fuel: nat)
    requires !Pruning(c) && p in d.nodes && d.nodes[p] == Dir
    ensures Copy(c, d, p, p, fuel).disk == d
    decreases fuel, 2, 0
  {
    if fuel > 0 {
      SelfCopyStep(c, d, p, fuel - 1);
    }
  }

  lemma {:induction false} SelfCopyStep(c: Config, d: Disk, p: Path, f: nat)
    requires !Pruning(c) && p in d.nodes && d.nodes[p] == Dir
    ensures Copy(c, d, p, p, f + 1).disk == d
    decreases f + 1, 1, 1
  {
    CopyUnfoldDir(c, d, d, p, p, f + 1, f);
    CopyDirSelfUnchanged(c, d, p, f);
  }

  lemma {:induction false} CopyDirSelfUnchanged(c: Config, d: Disk, p: Path, fuel: nat)
    requires !Pruning(c) && p in d.nodes
    ensures CopyDir(c, d, p, p, fuel).disk == d
    decreases fuel + 1, 1, 0
  {
    CopyDirUnfold(c, d, p, p, fuel);
    if ReadDir(d, p).Ok? {
      ChildrenSelfUnchanged(c, d, p, ReadDir(d, p).value, {}, fuel);
    }
  }

  lemma {:induction false} ChildrenSelfUnchanged(c: Config, d: Disk, p: Path, es: seq<Entry>, wanted: set<Path>, fuel: nat)
    requires !Pruning(c) && p in d.nodes
    requires forall i :: 0 <= i < |es| ==> ValidName(es[i].name)
    ensures Children(c, d, p, p, es, wanted, fuel).disk == d
    decreases fuel + 1, 0, |es|
  {
    if es != [] {
      var m := es[0].name;
      var q := Join(p, m);
      if q in d.nodes {
        if d.nodes[q] == Dir {
          SelfCopyUnchanged(c, d, q, fuel);
        } else {
          FileChildSelfUnchanged(c, d, p, m, fuel);
        }
        ChildrenSelfUnchanged(c, d, p, es[1..], wanted, fuel);
      }
    }
  }

  /** A file child of a directory copied onto itself is its own target. */
  lemma {:induction false} FileChildSelfUnchanged(c: Config, d: Disk, p: Path, m: string, fuel: nat)
    requires !Pruning(c) && ValidName(m) && p in d.nodes
    requires Join(p, m) in d.nodes && d.nodes[Join(p, m)] != Dir
    ensures Copy(c, d, Join(p, m), p, fuel).disk == d
  {
    var q := Join(p, m);
    PathFacts.JoinName(p, m);
    if fuel > 0 {
      assert EnsureDestination(d, p) == Ok(d);
      assert Copy(c, d, q, p, fuel) == CopyOneFile(c, d, q, p);
      if c.flavor == Mirror {
        if ReadAll(d, q).Ok? {
          assert Same(c.oracle, d, q, q) == Ok(true);
        } else {
          assert Same(c.oracle, d, q, q).Err?;
        }
      } else {
        assert CopyFile(c.oracle, d, q, q, c.flavor == Verified).disk == d;
      }
    }
  }

  /**
   * The plain generation never verifies a copy, so which oracle its
   * settings carry makes no difference to a run.
   */
  lemma {:induction false} PlainIgnoresOracle(c: Config, o: Oracle, d: Disk, src: Path, dst: Path, fuel: nat)
    requires c.flavor == Plain
    ensures Copy(c.(oracle := o), d, src, dst, fuel) == Copy(c, d, src, dst, fuel)
    decreases fuel, 2, 0
  {
    if fuel > 0 && src in d.nodes && EnsureDestination(d, dst).Ok? {
      var d1 := EnsureDestination(d, dst).value;
      if src in d1.nodes && d1.nodes[src] == Dir {
        DirStepIgnoresOracle(c, o, d, d1, src, dst, fuel - 1);
      } else if src in d1.nodes {
        FileStepIgnoresOracle(c, o, d, d1, src, dst, fuel - 1);
      }
    }
  }

  lemma {:induction false} DirStepIgnoresOracle(c: Config, o: Oracle, d: Disk, d1: Disk, src: Path, dst: Path, f: nat)
    requires c.flavor == Plain && src in d.nodes
    requires EnsureDestination(d, dst) == Ok(d1) && src in d1.nodes && d1.nodes[src] == Dir
    ensures Copy(c.(oracle := o), d, src, dst, f + 1) == Copy(c, d, src, dst, f + 1)
    decreases f + 1, 1, 1
  {
    CopyUnfoldDir(c, d, d1, src, dst, f + 1, f);
    CopyUnfoldDir(c.(oracle := o), d, d1, src, dst, f + 1, f);
    CopyDirIgnoresOracle(c, o, d1, src, dst, f);
  }

  lemma FileStepIgnoresOracle(c: Config, o: Oracle, d: Disk, d1: Disk, src: Path, dst: Path, f: nat)
    requires c.flavor == Plain && src in d.nodes
    requires EnsureDestination(d, dst) == Ok(d1) && src in d1.nodes && d1.nodes[src] != Dir
    ensures Copy(c.(oracle := o), d, src, dst, f + 1) == Copy(c, d, src, dst, f + 1)
  {
    CopyUnfoldFile(c, d, d1, src, dst, f + 1);
    CopyUnfoldFile(c.(oracle := o), d, d1, src, dst, f + 1);
    CopyFileIgnoresOracle(c.oracle, o, d1, src, Join(dst, Base(src)));
  }

  lemma {:induction false} CopyDirIgnoresOracle(c: Config, o: Oracle, d: Disk, src: Path, dst: Path, fuel: nat)
    requires c.flavor == Plain
    ensures CopyDir(c.(oracle := o), d, src, dst, fuel) == CopyDir(c, d, src, dst, fuel)
    decreases fuel + 1, 1, 0
  {
    CopyDirUnfold(c, d, src, dst, fuel);
    CopyDirUnfold(c.(oracle := o), d, src, dst, fuel);
    if ReadDir(d, src).Ok? {
      ChildrenIgnoreOracle(c, o, d, src, dst, ReadDir(d, src).value, {}, fuel);
    }
  }

  /** Without the post-copy check, `copyFile` does not consult the oracle. */
  lemma CopyFileIgnoresOracle(o: Oracle, o': Oracle, d: Disk, src: Path, dst: Path)
    ensures CopyFile(o, d, src, dst, false) == CopyFile(o', d, src, dst, false)
  {
  }

  lemma {:induction false} ChildrenIgnoreOracle(c: Config, o: Oracle, d: Disk, src: Path, dst: Path,
                                                es: seq<Entry>, wanted: set<Path>, fuel: nat)
    requires c.flavor == Plain
    ensures Children(c.(oracle := o), d, src, dst, es, wanted, fuel) == Children(c, d, src, dst, es, wanted, fuel)
    decreases fuel + 1, 0, |es|
  {
    if es != [] {
      var srcPath := Join(src, es[0].name);
      if srcPath in d.nodes {
        var dstPath := if d.nodes[srcPath] == Dir then Join(dst, es[0].name) else dst;
        PlainIgnoresOracle(c, o, d, srcPath, dstPath, fuel);
        var r := Copy(c, d, srcPath, dstPath, fuel);
        if r.err.None? {
          ChildrenIgnoreOracle(c, o, r.disk, src, dst, es[1..], wanted, fuel);
        }
      }
    }
  }

  /**
   * The mirror engine's skip rule: an existing non-directory target that the
   * oracle calls the same is left alone, and an oracle failure aborts
   * without writing anything.
   */
  lemma MirrorSkipRule(c: Config, d: Disk, src: Path, dst: Path)
    requires c.flavor == Mirror
    requires Join(dst, Base(src)) in d.nodes && d.nodes[Join(dst, Base(src))] != Dir
    ensures Same(c.oracle, d, src, Join(dst, Base(src))) == Ok(true) ==> CopyOneFile(c, d, src, dst) == Outcome(d, None)
    ensures Same(c.oracle, d, src, Join(dst, Base(src))).Err? ==>
              CopyOneFile(c, d, src, dst) == Outcome(d, Some(CannotChecksum(Join(dst, Base(src)), Same(c.oracle, d, src, Join(dst, Base(src))).error)))
  {
  }

  /** `copyFile` turns down a source that is not a regular file before it opens or creates anything. */
  lemma NonRegularSourceRejected(o: Oracle, d: Disk, src: Path, dst: Path, verify: bool)
    requires src in d.nodes && !d.nodes[src].File?
    ensures CopyFile(o, d, src, dst, verify) == Copied(d, Some(NotRegularFile(src)))
    ensures CopyFileAsWritten(o, d, src, dst, verify) == Copied(d, Some(NotRegularFile(src)))
  {
  }

  /** A destination directory that cannot be created ends the call with nothing changed. */
  lemma CreationFailureAborts(c: Config, d: Disk, src: Path, dst: Path, fuel: nat)
    requires fuel > 0 && (c.flavor == Plain ==> src in d.nodes)
    requires dst !in d.nodes && MkdirAll(d, dst).Err?
    ensures Copy(c, d, src, dst, fuel) == Outcome(d, Some(CannotCreateDestination(dst, MkdirAll(d, dst).error)))
  {
  }

  /**
   * The nested-destination check compares raw strings: the source itself
   * and a sibling whose name extends the source's are refused.
   */
  lemma SiblingRefused(flavor: Flavor, deleteFlag: bool, o: Oracle, d: Disk, fuel: nat)
    ensures Sync(flavor, deleteFlag, o, None, "/a/b", "/a/bc", d, fuel) == Outcome(d, Some(NestedDestination("/a/bc", "/a/b")))
    ensures Sync(flavor, deleteFlag, o, None, "/a/b", "/a/b", d, fuel) == Outcome(d, Some(NestedDestination("/a/b", "/a/b")))
  {
    assert HasPrefix("/a/bc", "/a/b") by { assert "/a/bc"[..4] == "/a/b"; }
    assert HasPrefix("/a/b", "/a/b") by { assert "/a/b"[..4] == "/a/b"; }
  }

  /**
   * `fsync /a/x/ /b` with `/a/x` a regular file: the existence check lets
   * the root through, the destination is created, and the source cannot be
   * analysed. Nothing is copied.
   */
  lemma FileRootWithTrailingSeparator(flavor: Flavor, deleteFlag: bool, o: Oracle, d: Disk, fuel: nat)
    requires fuel > 0
    requires "/a/x" in d.nodes && d.nodes["/a/x"].File?
    requires "/b" !in d.nodes && "/b" !in d.faults.readOnly && "/b/x" !in d.nodes
    ensures var r := Sync(flavor, deleteFlag, o, None, "/a/x/", "/b", d, fuel);
            && r.err == Some(CannotAnalyzeSource("/a/x"))
            && Lookup(r.disk, "/b") == Some(Dir)
            && "/b/x" !in r.disk.nodes
  {
    TrailingSeparatorInput(d);
    NonDirectoryRootFails(flavor, deleteFlag, o, d, "/a/x/", "/b", fuel);
  }

  /** The filesystem facts behind `FileRootWithTrailingSeparator`. */
  lemma TrailingSeparatorInput(d: Disk)
    requires "/a/x" in d.nodes && d.nodes["/a/x"].File?
    requires "/b" !in d.nodes && "/b" !in d.faults.readOnly && "/b/x" !in d.nodes
    ensures IsAbs("/a/x/") && IsAbs("/b") && !HasPrefix("/b", "/a/x/")
    ensures Resolve("/a/x/") == "/a/x" && Stat(d, "/a/x/").Err?
    ensures Resolve("/b") == "/b" && EnsureDestination(d, "/b").Ok?
    ensures Lookup(EnsureDestination(d, "/b").value, "/b") == Some(Dir)
    ensures "/b/x" !in EnsureDestination(d, "/b").value.nodes
  {
    TrailingSeparatorPaths();
    assert Ancestors("/b") + {"/b"} == {"/b"};
  }

  /** The path facts behind `FileRootWithTrailingSeparator`. */
  lemma TrailingSeparatorPaths()
    ensures IsAbs("/a/x/") && IsAbs("/b") && !HasPrefix("/b", "/a/x/")
    ensures Resolve("/a/x/") == "/a/x" && "/a/x/" != "/a/x"
    ensures Resolve("/b") == "/b" && Ancestors("/b") == {}
    ensures "/b/x" != "/b"
  {
    var s: Path := "/a/x/";
    assert Resolve(s) == "/a/x" by { assert TrimSeps(s) == s[..4]; }
    assert Resolve("/b") == "/b" by { assert TrimSeps("/b") == "/b"; }
  }

  /** A root `os.Stat` refuses for a trailing separator ends the run right after the destination is created. */
  lemma NonDirectoryRootFails(flavor: Flavor, deleteFlag: bool, o: Oracle, d: Disk, s: Path, t: Path, fuel: nat)
    requires IsAbs(s) && IsAbs(t) && !HasPrefix(t, s) && fuel > 0
    requires Stat(d, s).Err? && Resolve(s) in d.nodes && EnsureDestination(d, Resolve(t)).Ok?
    ensures Sync(flavor, deleteFlag, o, None, s, t, d, fuel) ==
            Outcome(EnsureDestination(d, Resolve(t)).value, Some(CannotAnalyzeSource(Resolve(s))))
  {
  }

  /** A destination above the source is not refused: the run goes on to the walk. */
  lemma AncestorAccepted(flavor: Flavor, deleteFlag: bool, o: Oracle, d: Disk, fuel: nat)
    requires "/a/b" in d.nodes
    ensures Sync(flavor, deleteFlag, o, None, "/a/b", "/a", d, fuel) ==
            Copy(Config(flavor, deleteFlag, "/a/b", "/a", o), d, "/a/b", "/a", fuel)
  {
    assert !HasPrefix("/a", "/a/b");
    assert TrimSeps("/a/b") == "/a/b" && TrimSeps("/a") == "/a";
    SyncWalksResolved(flavor, deleteFlag, o, "/a/b", "/a", d, fuel);
  }

  /** Absolute, already resolved roots that are not nested and whose source exists go straight to the walk. */
  lemma SyncWalksResolved(flavor: Flavor, deleteFlag: bool, o: Oracle, s: Path, t: Path, d: Disk, fuel: nat)
    requires IsAbs(s) && IsAbs(t) && !HasPrefix(t, s) && s in d.nodes
    requires TrimSeps(s) == s && TrimSeps(t) == t
    ensures Sync(flavor, deleteFlag, o, None, s, t, d, fuel) == Copy(Config(flavor, deleteFlag, s, t, o), d, s, t, fuel)
  {
    CopyRootsResolved(Config(flavor, deleteFlag, s, t, o), d, s, t, fuel);
  }

  /**
   * Roots that `os.Stat` does not refuse for a trailing separator are walked
   * exactly as the paths they resolve to.
   */
  lemma CopyRootsResolved(c: Config, d: Disk, src: Path, dst: Path, fuel: nat)
    requires Stat(d, src).Ok? || Resolve(src) !in d.nodes
    ensures CopyRoots(c, d, src, dst, fuel) == Copy(c, d, Resolve(src), Resolve(dst), fuel)
  {
    var s := Resolve(src);
    var t := Resolve(dst);
    if fuel > 0 && !(c.flavor == Plain && s !in d.nodes) && EnsureDestination(d, t).Ok? {
      var d1 := EnsureDestination(d, t).value;
      var f := fuel - 1;
      StatAfterEnsure(d, src, t);
      if s in d1.nodes {
        var n := d1.nodes[s];
        assert Stat(d1, src) == Ok(n);
        CopyRootsUnfold(c, d, d1, src, dst, n, fuel, f);
        if n == Dir {
          CopyUnfoldDir(c, d, d1, s, t, fuel, f);
        } else {
          CopyUnfoldFile(c, d, d1, s, t, fuel);
        }
      }
    }
  }

  /** A root `os.Stat` accepted, or one with nothing at its resolved path, is accepted once the destination exists. */
  lemma StatAfterEnsure(d: Disk, src: Path, t: Path)
    requires Stat(d, src).Ok? || Resolve(src) !in d.nodes
    requires EnsureDestination(d, t).Ok?
    ensures var d1 := EnsureDestination(d, t).value;
            (Stat(d1, src).Ok? <==> Resolve(src) in d1.nodes) &&
            (Stat(d1, src).Ok? ==> Stat(d1, src).value == d1.nodes[Resolve(src)])
  {
  }

  /**
   * Outside delete mode, a directory step either fails to list its source,
   * changing nothing, or is the loop over the listing.
   */
  lemma CopyDirUnfold(c: Config, d: Disk, src: Path, dst: Path, fuel: nat)
    requires !Pruning(c)
    ensures ReadDir(d, src).Err? ==> CopyDir(c, d, src, dst, fuel) == Outcome(d, Some(CannotListSource(src, ReadDir(d, src).error)))
    ensures ReadDir(d, src).Ok? ==>
              var p := Children(c, d, src, dst, ReadDir(d, src).value, {}, fuel);
              CopyDir(c, d, src, dst, fuel) == Outcome(p.disk, p.err)
  {
  }
}
