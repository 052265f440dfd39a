/**
 * The recursive walk of the sync engine, as functions of the filesystem.
 *
 * Three generations of the walk live in the repository and differ only in
 * stateable ways; one definition, parameterised by `Flavor`, covers them:
 *
 *  - `Mirror`   internal/syncer/syncer.go: skip-if-same, copy through a
 *               temporary name and rename, optional pruning (delete mode);
 *  - `Verified` internal/service/syncer.go: direct overwrite followed by an
 *               oracle check;
 *  - `Plain`    internal/service/Syncer.go and main.go's `copy`: direct
 *               overwrite, no check, and the source-existence test repeated
 *               at every level.
 *
 * Each call of the walk consumes one unit of `fuel`: the depth of the
 * directory tree is bounded by it (see README, Left out).
 */
module Walk {
  import opened Wrappers
  import opened Paths
  import opened Fs
  import PathFacts
  import Fanout
  import Checksum
  import Verify

  /** `TEMP_FILE_EXT`: the suffix of the name a file is staged under. */
  const TempFileExt: string := ".fsync-tmp"

  datatype Flavor = Mirror | Verified | Plain

  /** The content-equality oracle a walk consults, with the completion order of its two goroutines. */
  datatype Oracle =
    | ChecksumOracle(verifier: Checksum.Verifier, order: Fanout.Order)
    | Md5Oracle(md5: Verify.MD5Verifier, order: Fanout.Order)

  function Same(o: Oracle, d: Disk, file1: Path, file2: Path): (r: Result<bool, FsError>)
    ensures r.Err? <==> ReadAll(d, file1).Err? || ReadAll(d, file2).Err?
    ensures ReadAll(d, file1).Ok? && ReadAll(d, file2).Ok? && d.nodes[file1] == d.nodes[file2] ==> r == Ok(true)
  {
    match o
    case ChecksumOracle(v, order) => Checksum.Same(v, d, file1, file2, order)
    case Md5Oracle(v, order) => Verify.Same(v, d, file1, file2, order)
  }

  /** The fixed part of a run: the flavor, the delete flag and the normalised roots. */
  datatype Config = Config(flavor: Flavor, deleteFlag: bool, absSrc: Path, absDst: Path, oracle: Oracle)

  /** Only the mirror engine has a delete mode. */
  predicate Pruning(c: Config) {
    c.flavor == Mirror && c.deleteFlag
  }

  /**
   * The settings of a plain run (main.go, internal/service/Syncer.go): no
   * delete mode, and an oracle the plain walk never consults.
   */
  function PlainConfig(src: Path, dst: Path): (c: Config)
    ensures c.flavor == Plain && !Pruning(c)
    ensures c.absSrc == src && c.absDst == dst
  {
    Config(Plain, false, src, dst, Md5Oracle(Verify.MD5Verifier(b => []), Fanout.FirstDone))
  }

  /** Why `copyFile` failed. */
  datatype CopyError =
    | StatFailed(cause: FsError)
    | NotRegularFile(path: Path)
    | OpenFailed(cause: FsError)
    | CreateFailed(cause: FsError)
    | ChecksumFailed(cause: FsError)
    | FilesDiffer(src: Path, dst: Path)

  /** The errors a run reports, one per `return` of the Go code. */
  datatype SyncError =
    | WorkingDirUnavailable
    | NestedDestination(dst: Path, src: Path)
    | SourceNotExist(src: Path)
    | CannotCreateDestination(dst: Path, cause: FsError)
    | CannotAnalyzeSource(src: Path)
    | CannotListSource(src: Path, cause: FsError)
    | CannotGetEntryInfo(path: Path)
    | CannotListDestination(dst: Path, cause: FsError)
    | CannotRemoveExtraneous(path: Path, cause: FsError)
    | CannotChecksum(path: Path, cause: FsError)
    | CannotCopyFile(src: Path, dst: Path, reason: CopyError)
    | CopyFileFailed(src: Path, dst: Path)
    | CannotRename(from: Path, to: Path, cause: FsError)
    | TooDeep(src: Path)

  /** The errors the walk itself reports, as opposed to those of the argument checks before it. */
  predicate WalkError(e: SyncError) {
    !e.WorkingDirUnavailable? && !e.NestedDestination?
  }

  /** The filesystem after a step, and the error that ended it, if any. */
  datatype Outcome = Outcome(disk: Disk, err: Option<SyncError>)

  /** The state of a loop over source entries: also the root-relative paths seen so far. */
  datatype Pass = Pass(disk: Disk, err: Option<SyncError>, wanted: set<Path>)

  datatype Copied = Copied(disk: Disk, err: Option<CopyError>)

  /** A name the engine itself writes to: a staged copy. */
  predicate IsTemp(k: Path) {
    |k| >= |TempFileExt| && k[|k| - |TempFileExt|..] == TempFileExt
  }

  /** The post-copy check of `copyFile`: the oracle must call the two files the same. */
  function Check(o: Oracle, d: Disk, src: Path, dst: Path): (r: Copied)
    ensures r.disk == d
    ensures r.err.None? <==> Same(o, d, src, dst) == Ok(true)
    ensures r.err.Some? ==> r.err.value.ChecksumFailed? || r.err.value.FilesDiffer?
  {
    match Same(o, d, src, dst)
    case Err(e) => Copied(d, Some(ChecksumFailed(e)))
    case Ok(ok) => if ok then Copied(d, None) else Copied(d, Some(FilesDiffer(src, dst)))
  }

  /**
   * `copyFile` exactly as written in all three generations: stat and open
   * the source, `os.Create` the destination (which truncates it), `io.Copy`
   * from the open source, then optionally check. When the destination is
   * the source itself, the truncation empties the very file being read.
   */
  function CopyFileAsWritten(o: Oracle, d: Disk, src: Path, dst: Path, verify: bool): (r: Copied)
    ensures r.err.None? ==> src in d.nodes && d.nodes[src].File? && dst in r.disk.nodes
    ensures r.disk == d || r.disk.created == d.created + [dst]
  {
    match Lookup(d, src)
    case None => Copied(d, Some(StatFailed(NotExist(src))))
    case Some(n) =>
      if !n.File? then Copied(d, Some(NotRegularFile(src)))
      else match Open(d, src)
        case Some(e) => Copied(d, Some(OpenFailed(e)))
        case None =>
          match Create(d, dst)
          case Err(e) => Copied(d, Some(CreateFailed(e)))
          case Ok(d1) =>
            var d2 := CopyInto(d1, src, dst);
            if verify then Check(o, d2, src, dst) else Copied(d2, None)
  }

  /**
   * `copyFile` as intended: the same steps, except that a destination that
   * is the source itself is left alone instead of being truncated (see
   * README, Findings). The walk uses this definition.
   */
  function CopyFile(o: Oracle, d: Disk, src: Path, dst: Path, verify: bool): (r: Copied)
    ensures r.err.None? <==>
              src in d.nodes && d.nodes[src].File? && src !in d.faults.unreadable &&
              (dst != src ==> Create(d, dst).Ok? && (verify ==> dst !in d.faults.unreadable))
    ensures r.err.None? ==> src in d.nodes && src in r.disk.nodes && dst in r.disk.nodes &&
                            r.disk.nodes[dst] == d.nodes[src] && r.disk.nodes[src] == d.nodes[src]
    ensures r.disk == d || (dst != src && src in d.nodes && r.disk == d.(nodes := d.nodes[dst := d.nodes[src]], created := d.created + [dst]))
    ensures r.err.Some? ==> !r.err.value.FilesDiffer?
    ensures (r.err.Some? && r.err.value.ChecksumFailed?) ==>
              src in d.nodes && dst in r.disk.nodes && r.disk.nodes[dst] == d.nodes[src]
  {
    match Lookup(d, src)
    case None => Copied(d, Some(StatFailed(NotExist(src))))
    case Some(n) =>
      if !n.File? then Copied(d, Some(NotRegularFile(src)))
      else match Open(d, src)
        case Some(e) => Copied(d, Some(OpenFailed(e)))
        case None =>
          if dst == src then Copied(d, None)
          else match Create(d, dst)
            case Err(e) => Copied(d, Some(CreateFailed(e)))
            case Ok(d1) =>
              var d2 := CopyInto(d1, src, dst);
              if verify then Check(o, d2, src, dst) else Copied(d2, None)
  }

  /**
   * The mirror engine's write path: copy (with the post-copy check) to the
   * temporary name, then rename it over the target. The target changes only
   * by that rename; on any failure it keeps its old node, and the only path
   * ever written is the temporary one.
   */
  function Stage(c: Config, d: Disk, src: Path, target: Path): (o: Outcome)
    ensures Lookup(d, target) == Some(Dir) ==> o.err.Some?
    ensures o.err.Some? ==> forall k :: k != target + TempFileExt ==> Lookup(o.disk, k) == Lookup(d, k)
    ensures o.err.None? ==> src in d.nodes && d.nodes[src].File? && src !in d.faults.unreadable &&
                            o.disk.nodes == (d.nodes - {target + TempFileExt})[target := d.nodes[src]]
    ensures o.disk.faults == d.faults
    ensures o.disk.created == d.created || o.disk.created == d.created + [target + TempFileExt]
  {
    var tmp := target + TempFileExt;
    assert tmp != target by { assert |tmp| > |target|; }
    var r := CopyFile(c.oracle, d, src, tmp, true);
    if r.err.Some? then Outcome(r.disk, Some(CannotCopyFile(src, tmp, r.err.value)))
    else match Rename(r.disk, tmp, target)
      case Err(e) => Outcome(r.disk, Some(CannotRename(tmp, target, e)))
      case Ok(d') => Outcome(d', None)
  }

  /**
   * The file branch of `copy`: the file lands at `dst/Base(src)`. The mirror
   * engine first asks the oracle and skips an up-to-date file, and stages
   * otherwise; the other two overwrite the target directly.
   */
  function CopyOneFile(c: Config, d: Disk, src: Path, dst: Path): (o: Outcome)
    ensures o.err.None? ==> ReadAll(d, src).Ok? && Join(dst, Base(src)) in o.disk.nodes &&
                            (o.disk.nodes[Join(dst, Base(src))] == d.nodes[src] ||
                             (c.flavor == Mirror && o.disk == d && Same(c.oracle, d, src, Join(dst, Base(src))) == Ok(true)))
    ensures c.flavor == Mirror && Lookup(d, Join(dst, Base(src))) == Some(Dir) ==>
              o.err.Some? && Lookup(o.disk, Join(dst, Base(src))) == Some(Dir)
    ensures c.flavor != Mirror ==> o.disk.nodes.Keys >= d.nodes.Keys
    ensures o.err.Some? ==> WalkError(o.err.value)
    ensures o.disk.faults == d.faults && d.created <= o.disk.created
  {
    var target := Join(dst, Base(src));
    if c.flavor == Mirror then
      if target in d.nodes && d.nodes[target] != Dir then
        match Same(c.oracle, d, src, target)
        case Err(e) => Outcome(d, Some(CannotChecksum(target, e)))
        case Ok(same) => if same then Outcome(d, None) else Stage(c, d, src, target)
      else Stage(c, d, src, target)
    else
      var r := CopyFile(c.oracle, d, src, target, c.flavor == Verified);
      Outcome(r.disk, if r.err.Some? then Some(CopyFileFailed(src, target)) else None)
  }

  /** The first step of `copy`: a missing destination is created with its ancestors; an existing one is left alone. */
  function EnsureDestination(d: Disk, dst: Path): (r: Result<Disk, FsError>)
    ensures dst in d.nodes ==> r == Ok(d)
    ensures r.Ok? ==> dst in r.value.nodes
  {
    if dst in d.nodes then Ok(d) else MkdirAll(d, dst)
  }

  /** `removeExtraneous`: a directory goes with everything below it, anything else on its own. */
  function RemoveExtraneous(d: Disk, p: Path, isDir: bool): (r: Result<Disk, FsError>)
    ensures r.Ok? ==> p !in r.value.nodes
    ensures r.Ok? ==> forall k :: k in r.value.nodes ==> k in d.nodes && r.value.nodes[k] == d.nodes[k]
    ensures r.Ok? ==> forall k :: k in d.nodes && k != p && !IsUnder(p, k) ==> k in r.value.nodes
    ensures r.Ok? ==> r.value.faults == d.faults && r.value.created == d.created
  {
    if isDir then RemoveAll(d, p) else Remove(d, p)
  }

  /**
   * `copy(src, dst)`: ensure the destination directory, classify the source,
   * then walk a directory or copy a file.
   */
  ghost function Copy(c: Config, d: Disk, src: Path, dst: Path, fuel: nat): (o: Outcome)
    ensures o.err.Some? ==> WalkError(o.err.value)
    ensures o.disk.faults == d.faults && d.created <= o.disk.created
    ensures c.flavor != Mirror ==> o.disk.nodes.Keys >= d.nodes.Keys
    decreases fuel, 2, 0
  {
    if fuel == 0 then Outcome(d, Some(TooDeep(src)))
    else if c.flavor == Plain && src !in d.nodes then Outcome(d, Some(SourceNotExist(src)))
    else match EnsureDestination(d, dst)
      case Err(e) => Outcome(d, Some(CannotCreateDestination(dst, e)))
      case Ok(d1) =>
        if src !in d1.nodes then Outcome(d1, Some(CannotAnalyzeSource(src)))
        else if d1.nodes[src] == Dir then CopyDir(c, d1, src, dst, fuel - 1)
        else CopyOneFile(c, d1, src, dst)
  }

  /** A `copy` step that gets past the destination and finds a directory source walks it. */
  lemma CopyUnfoldDir(c: Config, d: Disk, d1: Disk, src: Path, dst: Path, fuel: nat, f: nat)
    requires fuel == f + 1 && (c.flavor == Plain ==> src in d.nodes)
    requires EnsureDestination(d, dst) == Ok(d1) && src in d1.nodes && d1.nodes[src] == Dir
    ensures Copy(c, d, src, dst, fuel) == CopyDir(c, d1, src, dst, f)
  {
    assert Copy(c, d, src, dst, f + 1) == CopyDir(c, d1, src, dst, f);
  }

  /** A `copy` step that gets past the destination and finds a non-directory source copies it. */
  lemma CopyUnfoldFile(c: Config, d: Disk, d1: Disk, src: Path, dst: Path, fuel: nat)
    requires fuel > 0 && (c.flavor == Plain ==> src in d.nodes)
    requires EnsureDestination(d, dst) == Ok(d1) && src in d1.nodes && d1.nodes[src] != Dir
    ensures Copy(c, d, src, dst, fuel) == CopyOneFile(c, d1, src, dst)
  {
  }

  /** The directory branch of `copy`: reconcile the children, then prune in delete mode. */
  ghost function CopyDir(c: Config, d: Disk, src: Path, dst: Path, fuel: nat): (o: Outcome)
    ensures o.err.Some? ==> WalkError(o.err.value)
    ensures o.disk.faults == d.faults && d.created <= o.disk.created
    ensures c.flavor != Mirror ==> o.disk.nodes.Keys >= d.nodes.Keys
    decreases fuel + 1, 1, 0
  {
    match ReadDir(d, src)
    case Err(e) => Outcome(d, Some(CannotListSource(src, e)))
    case Ok(es) =>
      var p := Children(c, d, src, dst, es, {}, fuel);
      if p.err.Some? then Outcome(p.disk, p.err)
      else if Pruning(c) then Prune(c, p.disk, dst, p.wanted)
      else Outcome(p.disk, None)
  }

  /**
   * The loop over the source listing, in listing order: a subdirectory maps
   * to `dst/name`, anything else to `dst` itself; the first failure ends the
   * loop. In delete mode each reconciled child's root-relative path is
   * recorded.
   */
  ghost function Children(c: Config, d: Disk, src: Path, dst: Path, es: seq<Entry>, wanted: set<Path>, fuel: nat): (p: Pass)
    ensures p.err.Some? ==> WalkError(p.err.value)
    ensures p.disk.faults == d.faults && d.created <= p.disk.created
    ensures c.flavor != Mirror ==> p.disk.nodes.Keys >= d.nodes.Keys
    ensures p.wanted >= wanted && (!Pruning(c) ==> p.wanted == wanted)
    decreases fuel + 1, 0, |es|
  {
    if es == [] then Pass(d, None, wanted)
    else
      var srcPath := Join(src, es[0].name);
      match Lookup(d, srcPath)
      case None => Pass(d, Some(CannotGetEntryInfo(srcPath)), wanted)
      case Some(n) =>
        var dstPath := if n == Dir then Join(dst, es[0].name) else dst;
        var o := Copy(c, d, srcPath, dstPath, fuel);
        if o.err.Some? then Pass(o.disk, o.err, wanted)
        else
          var wanted' := if Pruning(c) then wanted + {RelativePath(c.absSrc, srcPath)} else wanted;
          Children(c, o.disk, src, dst, es[1..], wanted', fuel)
  }

  /** The key the prune step looks up for a destination child. */
  function DstKey(c: Config, dst: Path, name: string): (k: Path)
    ensures ValidName(name) && TrimSeps(dst) == TrimSeps(c.absDst) ==> k == name
  {
    PathFacts.RootChildKey(c.absDst, dst, name);
    RelativePath(c.absDst, Join(dst, name))
  }

  /** Delete mode: list the destination and remove every child that no source child accounts for. */
  ghost function Prune(c: Config, d: Disk, dst: Path, wanted: set<Path>): (o: Outcome)
    ensures forall k :: k in o.disk.nodes ==> k in d.nodes && o.disk.nodes[k] == d.nodes[k]
    ensures forall k :: k in d.nodes && !IsUnder(dst, k) ==> k in o.disk.nodes
    ensures o.err.Some? ==> WalkError(o.err.value)
    ensures o.disk.faults == d.faults && o.disk.created == d.created
  {
    match ReadDir(d, dst)
    case Err(e) => Outcome(d, Some(CannotListDestination(dst, e)))
    case Ok(es) => PruneEntries(c, d, dst, es, wanted)
  }

  /** The loop over the destination listing. */
  function PruneEntries(c: Config, d: Disk, dst: Path, es: seq<Entry>, wanted: set<Path>): (o: Outcome)
    ensures forall k :: k in o.disk.nodes ==> k in d.nodes && o.disk.nodes[k] == d.nodes[k]
    ensures (forall i :: 0 <= i < |es| ==> ValidName(es[i].name)) ==>
              forall k :: k in d.nodes && !IsUnder(dst, k) ==> k in o.disk.nodes
    ensures o.err.Some? ==> WalkError(o.err.value)
    ensures o.disk.faults == d.faults && o.disk.created == d.created
    decreases |es|
  {
    if es == [] then Outcome(d, None)
    else
      var dstPath := Join(dst, es[0].name);
      PathFacts.UnderChildIsUnder(dst, es[0].name);
      assert forall i :: 0 <= i < |es| - 1 ==> es[1..][i] == es[i + 1];
      if dstPath !in d.nodes then Outcome(d, Some(CannotGetEntryInfo(dstPath)))
      else if DstKey(c, dst, es[0].name) in wanted then PruneEntries(c, d, dst, es[1..], wanted)
      else match RemoveExtraneous(d, dstPath, es[0].isDir)
        case Err(e) => Outcome(d, Some(CannotRemoveExtraneous(dstPath, e)))
        case Ok(d') => PruneEntries(c, d', dst, es[1..], wanted)
  }

  /** The prune loop from position `i` on a destination child that exists: keep it and go on, or remove it first. */
  lemma PruneEntriesStep(c: Config, d: Disk, dst: Path, es: seq<Entry>, wanted: set<Path>, i: nat)
    requires i < |es| && Join(dst, es[i].name) in d.nodes
    ensures DstKey(c, dst, es[i].name) in wanted ==>
              PruneEntries(c, d, dst, es[i..], wanted) == PruneEntries(c, d, dst, es[i + 1..], wanted)
    ensures DstKey(c, dst, es[i].name) !in wanted ==>
              var r := RemoveExtraneous(d, Join(dst, es[i].name), es[i].isDir);
              PruneEntries(c, d, dst, es[i..], wanted)
              == if r.Err? then Outcome(d, Some(CannotRemoveExtraneous(Join(dst, es[i].name), r.error)))
                 else PruneEntries(c, r.value, dst, es[i + 1..], wanted)
  {
    assert es[i..][0] == es[i] && es[i..][1..] == es[i + 1..];
  }

  /**
   * `copy(src, dst)` on the roots as the command line wrote them. Below the
   * roots every path the walk builds is clean, so only here can `os.Stat`
   * meet trailing separators: on a source that is not a directory it fails
   * with `ENOTDIR`, which `os.IsNotExist` does not match, so the existence
   * checks pass, the destination is created, and the source cannot be
   * analysed. Any other root is walked as the path it resolves to.
   */
  ghost function CopyRoots(c: Config, d: Disk, src: Path, dst: Path, fuel: nat): (o: Outcome)
    ensures fuel > 0 && Stat(d, src).Err? && Resolve(src) in d.nodes ==>
              o.disk == After(d, EnsureDestination(d, Resolve(dst))) &&
              o.err == Some(if EnsureDestination(d, Resolve(dst)).Ok? then CannotAnalyzeSource(Resolve(src))
                            else CannotCreateDestination(Resolve(dst), EnsureDestination(d, Resolve(dst)).error))
    ensures o.err.Some? ==> WalkError(o.err.value)
  {
    var s := Resolve(src);
    var t := Resolve(dst);
    if fuel == 0 then Outcome(d, Some(TooDeep(s)))
    else if c.flavor == Plain && Stat(d, src).Err? && Stat(d, src).error.NotExist? then Outcome(d, Some(SourceNotExist(s)))
    else match EnsureDestination(d, t)
      case Err(e) => Outcome(d, Some(CannotCreateDestination(t, e)))
      case Ok(d1) =>
        match Stat(d1, src)
        case Err(_) => Outcome(d1, Some(CannotAnalyzeSource(s)))
        case Ok(n) => if n == Dir then CopyDir(c, d1, s, t, fuel - 1) else CopyOneFile(c, d1, s, t)
  }

  /** A `copy` step on the roots as written that gets past the destination and classifies the source walks or copies it. */
  lemma CopyRootsUnfold(c: Config, d: Disk, d1: Disk, src: Path, dst: Path, n: Node, fuel: nat, f: nat)
    requires fuel == f + 1 && !(c.flavor == Plain && Stat(d, src).Err? && Stat(d, src).error.NotExist?)
    requires EnsureDestination(d, Resolve(dst)) == Ok(d1) && Stat(d1, src) == Ok(n)
    ensures CopyRoots(c, d, src, dst, fuel)
            == if n == Dir then CopyDir(c, d1, Resolve(src), Resolve(dst), f) else CopyOneFile(c, d1, Resolve(src), Resolve(dst))
  {
    assert CopyRoots(c, d, src, dst, f + 1)
           == if n == Dir then CopyDir(c, d1, Resolve(src), Resolve(dst), f) else CopyOneFile(c, d1, Resolve(src), Resolve(dst));
  }

  /**
   * `Sync`: normalise both arguments (an absolute one is kept, a relative
   * one is joined onto the working directory, `None` when `os.Getwd`
   * failed), refuse a destination that has the source as a raw string
   * prefix, refuse a source `os.Stat` reports missing, then walk from the
   * roots as written.
   */
  ghost function Sync(flavor: Flavor, deleteFlag: bool, oracle: Oracle, cwd: Option<Path>,
                      source: Path, destination: Path, d: Disk, fuel: nat): (o: Outcome)
    ensures (AbsolutePath(cwd, source).None? || AbsolutePath(cwd, destination).None?) ==>
              o == Outcome(d, Some(WorkingDirUnavailable))
    ensures AbsolutePath(cwd, source).Some? && AbsolutePath(cwd, destination).Some? ==>
              (o.err.Some? && o.err.value.NestedDestination? <==>
               HasPrefix(AbsolutePath(cwd, destination).value, AbsolutePath(cwd, source).value))
    ensures AbsolutePath(cwd, source).Some? && AbsolutePath(cwd, destination).Some? &&
            HasPrefix(AbsolutePath(cwd, destination).value, AbsolutePath(cwd, source).value) ==>
              o.disk == d
    ensures AbsolutePath(cwd, source).Some? && AbsolutePath(cwd, destination).Some? &&
            !HasPrefix(AbsolutePath(cwd, destination).value, AbsolutePath(cwd, source).value) &&
            Resolve(AbsolutePath(cwd, source).value) !in d.nodes ==>
              o == Outcome(d, Some(SourceNotExist(AbsolutePath(cwd, source).value)))
    ensures AbsolutePath(cwd, source).Some? && AbsolutePath(cwd, destination).Some? &&
            !HasPrefix(AbsolutePath(cwd, destination).value, AbsolutePath(cwd, source).value) &&
            fuel > 0 && Stat(d, AbsolutePath(cwd, source).value).Err? && Resolve(AbsolutePath(cwd, source).value) in d.nodes ==>
              o.err.Some? && o.disk == After(d, EnsureDestination(d, Resolve(AbsolutePath(cwd, destination).value))) &&
              (EnsureDestination(d, Resolve(AbsolutePath(cwd, destination).value)).Ok? ==>
                 o.err.value == CannotAnalyzeSource(Resolve(AbsolutePath(cwd, source).value)))
  {
    var s := AbsolutePath(cwd, source);
    var t := AbsolutePath(cwd, destination);
    if s.None? || t.None? then Outcome(d, Some(WorkingDirUnavailable))
    else if HasPrefix(t.value, s.value) then Outcome(d, Some(NestedDestination(t.value, s.value)))
    else if Stat(d, s.value).Err? && Stat(d, s.value).error.NotExist? then Outcome(d, Some(SourceNotExist(s.value)))
    else CopyRoots(Config(flavor, deleteFlag, s.value, t.value, oracle), d, s.value, t.value, fuel)
  }
}
