/**
 * The walk as the Go code runs it: one call at a time against the live
 * filesystem, with a `for` loop over each listing. Every method is proved
 * to leave the filesystem, and to report the error, exactly as the
 * corresponding function of `Walk` says, so every property proved about
 * those functions holds of the running walk.
 */
module Walker {
  import opened Wrappers
  import opened Paths
  import opened Fs
  import Os
  import opened Walk

  /**
   * The receiver of `copy`: the run's settings (generation, delete flag,
   * normalised roots, oracle) and the filesystem it works on.
   */
  class Walker {
    const cfg: Config
    const fs: Os.FileSystem

    constructor (cfg: Config, fs: Os.FileSystem)
      ensures this.cfg == cfg && this.fs == fs
    {
      this.cfg := cfg;
      this.fs := fs;
    }

    /** `copyFile`, with a destination that is the source itself left alone. */
    method CopyFile(src: Path, dst: Path, verify: bool) returns (err: Option<CopyError>)
      modifies fs
      ensures Copied(fs.disk, err) == Walk.CopyFile(cfg.oracle, old(fs.disk), src, dst, verify)
    {
      var info := fs.Stat(src);
      if info.None? {
        return Some(StatFailed(NotExist(src)));
      }
      if !info.value.File? {
        return Some(NotRegularFile(src));
      }
      var e := fs.Open(src);
      if e.Some? {
        return Some(OpenFailed(e.value));
      }
      if dst == src {
        return None;
      }
      e := fs.Create(dst);
      if e.Some? {
        return Some(CreateFailed(e.value));
      }
      fs.CopyInto(src, dst);
      if verify {
        var same := Walk.Same(cfg.oracle, fs.disk, src, dst);
        if same.Err? {
          return Some(ChecksumFailed(same.error));
        }
        if !same.value {
          return Some(FilesDiffer(src, dst));
        }
      }
      return None;
    }

    /** The mirror engine's write path: copy to the temporary name, then rename it over the target. */
    method Stage(src: Path, target: Path) returns (err: Option<SyncError>)
      modifies fs
      ensures Outcome(fs.disk, err) == Walk.Stage(cfg, old(fs.disk), src, target)
    {
      var tmp := target + TempFileExt;
      var e := CopyFile(src, tmp, true);
      if e.Some? {
        return Some(CannotCopyFile(src, tmp, e.value));
      }
      var r := fs.Rename(tmp, target);
      if r.Some? {
        return Some(CannotRename(tmp, target, r.value));
      }
      return None;
    }

    /** The file branch of `copy`. */
    method CopyOneFile(src: Path, dst: Path) returns (err: Option<SyncError>)
      modifies fs
      ensures Outcome(fs.disk, err) == Walk.CopyOneFile(cfg, old(fs.disk), src, dst)
    {
      var target := Join(dst, Base(src));
      if cfg.flavor == Mirror {
        var info := fs.Stat(target);
        if info.Some? && info.value != Dir {
          var same := Walk.Same(cfg.oracle, fs.disk, src, target);
          if same.Err? {
            return Some(CannotChecksum(target, same.error));
          }
          if same.value {
            return None;
          }
        }
        err := Stage(src, target);
      } else {
        var e := CopyFile(src, target, cfg.flavor == Verified);
        err := if e.Some? then Some(CopyFileFailed(src, target)) else None;
      }
    }

    /** `removeExtraneous`. */
    method RemoveExtraneous(p: Path, isDir: bool) returns (err: Option<FsError>)
      modifies fs
      ensures err == ErrorOf(Walk.RemoveExtraneous(old(fs.disk), p, isDir))
      ensures fs.disk == After(old(fs.disk), Walk.RemoveExtraneous(old(fs.disk), p, isDir))
    {
      if isDir {
        err := fs.RemoveAll(p);
      } else {
        err := fs.Remove(p);
      }
    }

    /** The first step of `copy`: create a missing destination directory with its ancestors. */
    method EnsureDestination(dst: Path) returns (err: Option<FsError>)
      modifies fs
      ensures err == ErrorOf(Walk.EnsureDestination(old(fs.disk), dst))
      ensures fs.disk == After(old(fs.disk), Walk.EnsureDestination(old(fs.disk), dst))
    {
      var info := fs.Stat(dst);
      if info.None? {
        err := fs.MkdirAll(dst);
      } else {
        err := None;
      }
    }

    /** `copy(src, dst)`. */
    method Copy(src: Path, dst: Path, fuel: nat) returns (err: Option<SyncError>)
      modifies fs
      ensures Outcome(fs.disk, err) == Walk.Copy(cfg, old(fs.disk), src, dst, fuel)
      decreases fuel, 1
    {
      if fuel == 0 {
        return Some(TooDeep(src));
      }
      ghost var d := fs.disk;
      if cfg.flavor == Plain {
        var info := fs.Stat(src);
        if info.None? {
          return Some(SourceNotExist(src));
        }
      }
      var e := EnsureDestination(dst);
      if e.Some? {
        return Some(CannotCreateDestination(dst, e.value));
      }
      var info := fs.Stat(src);
      if info.None? {
        return Some(CannotAnalyzeSource(src));
      }
      if info.value == Dir {
        var f := fuel - 1;
        CopyUnfoldDir(cfg, d, fs.disk, src, dst, fuel, f);
        err := CopyDir(src, dst, f);
      } else {
        CopyUnfoldFile(cfg, d, fs.disk, src, dst, fuel);
        err := CopyOneFile(src, dst);
      }
    }

    /**
     * `copy(src, dst)` on the roots as the command line wrote them: the same
     * first steps as `Copy`, with `os.Stat` seeing the roots' trailing
     * separators; below the roots the walk goes on with the resolved paths.
     */
    method CopyRoots(src: Path, dst: Path, fuel: nat) returns (err: Option<SyncError>)
      modifies fs
      ensures Outcome(fs.disk, err) == Walk.CopyRoots(cfg, old(fs.disk), src, dst, fuel)
    {
      var s := Resolve(src);
      var t := Resolve(dst);
      if fuel == 0 {
        return Some(TooDeep(s));
      }
      ghost var d := fs.disk;
      if cfg.flavor == Plain {
        var info := fs.StatAsWritten(src);
        if info.Err? && info.error.NotExist? {
          return Some(SourceNotExist(s));
        }
      }
      var e := EnsureDestination(t);
      if e.Some? {
        return Some(CannotCreateDestination(t, e.value));
      }
      var info := fs.StatAsWritten(src);
      if info.Err? {
        return Some(CannotAnalyzeSource(s));
      }
      var f := fuel - 1;
      CopyRootsUnfold(cfg, d, fs.disk, src, dst, info.value, fuel, f);
      if info.value == Dir {
        err := CopyDir(s, t, f);
      } else {
        err := CopyOneFile(s, t);
      }
    }

    /** The directory branch of `copy`: the loop over the source listing, then the prune step. */
    method CopyDir(src: Path, dst: Path, fuel: nat) returns (err: Option<SyncError>)
      modifies fs
      ensures Outcome(fs.disk, err) == Walk.CopyDir(cfg, old(fs.disk), src, dst, fuel)
      decreases fuel + 1, 0
    {
      var listing := fs.ReadDir(src);
      if listing.Err? {
        return Some(CannotListSource(src, listing.error));
      }
      var es := listing.value;
      ghost var spec := Walk.Children(cfg, fs.disk, src, dst, es, {}, fuel);
      var wanted: set<Path> := {};
      var i := 0;
      while i < |es|
        invariant 0 <= i <= |es|
        invariant spec == Walk.Children(cfg, fs.disk, src, dst, es[i..], wanted, fuel)
      {
        var srcPath := Join(src, es[i].name);
        var info := fs.Stat(srcPath);
        if info.None? {
          return Some(CannotGetEntryInfo(srcPath));
        }
        var dstPath := if info.value == Dir then Join(dst, es[i].name) else dst;
        err := Copy(srcPath, dstPath, fuel);
        if err.Some? {
          return;
        }
        if Pruning(cfg) {
          wanted := wanted + {RelativePath(cfg.absSrc, srcPath)};
        }
        i := i + 1;
      }
      if Pruning(cfg) {
        err := Prune(dst, wanted);
      } else {
        err := None;
      }
    }

    /** Delete mode: list the destination, then remove what no source child accounts for. */
    method Prune(dst: Path, wanted: set<Path>) returns (err: Option<SyncError>)
      modifies fs
      ensures Outcome(fs.disk, err) == Walk.Prune(cfg, old(fs.disk), dst, wanted)
    {
      var listing := fs.ReadDir(dst);
      if listing.Err? {
        return Some(CannotListDestination(dst, listing.error));
      }
      err := PruneEntries(dst, listing.value, wanted);
    }

    /** The loop over the destination listing. */
    method PruneEntries(dst: Path, es: seq<Entry>, wanted: set<Path>) returns (err: Option<SyncError>)
      modifies fs
      ensures Outcome(fs.disk, err) == Walk.PruneEntries(cfg, old(fs.disk), dst, es, wanted)
    {
      ghost var spec := Walk.PruneEntries(cfg, fs.disk, dst, es, wanted);
      var i := 0;
      while i < |es|
        invariant 0 <= i <= |es|
        invariant spec == Walk.PruneEntries(cfg, fs.disk, dst, es[i..], wanted)
      {
        var stop;
        stop, err := PruneEntry(dst, es, wanted, i);
        if stop {
          return;
        }
        i := i + 1;
      }
      return None;
    }

    /** One pass of the prune loop: the listed entry `es[i]` is kept, removed, or stops the loop with an error. */
    method PruneEntry(dst: Path, es: seq<Entry>, wanted: set<Path>, i: nat) returns (stop: bool, err: Option<SyncError>)
      requires i < |es|
      modifies fs
      ensures stop ==> Outcome(fs.disk, err) == Walk.PruneEntries(cfg, old(fs.disk), dst, es[i..], wanted)
      ensures !stop ==> Walk.PruneEntries(cfg, fs.disk, dst, es[i + 1..], wanted)
                        == Walk.PruneEntries(cfg, old(fs.disk), dst, es[i..], wanted)
    {
      var dstPath := Join(dst, es[i].name);
      assert es[i..][0] == es[i];
      var info := fs.Stat(dstPath);
      if info.None? {
        return true, Some(CannotGetEntryInfo(dstPath));
      }
      PruneEntriesStep(cfg, fs.disk, dst, es, wanted, i);
      if DstKey(cfg, dst, es[i].name) !in wanted {
        var e := RemoveExtraneous(dstPath, es[i].isDir);
        if e.Some? {
          return true, Some(CannotRemoveExtraneous(dstPath, e.value));
        }
      }
      return false, None;
    }
  }
}
