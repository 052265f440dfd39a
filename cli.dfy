/**
 * The command line of the plain generation (main.go; cmd/root.go runs the
 * same steps around internal/service/Syncer.go): check the argument count,
 * ask for the working directory, make both arguments absolute, refuse a
 * nested destination, then copy.
 */
module Cli {
  import opened Wrappers
  import opened Paths
  import opened Fs
  import Os
  import Validation
  import opened Walk
  import Syncers

  /** Why a run printed its complaint and stopped. */
  datatype RunError =
    | InvalidArgs
    | NoWorkingDir
    | Nested(dst: Path, src: Path)
    | SyncFailed(src: Path, dst: Path, cause: SyncError)

  datatype Exit = Exit(disk: Disk, err: Option<RunError>)

  /** An argument as main.go makes it absolute: joined onto the working directory unless it already is. */
  function Absolute(cwd: Path, p: Path): (r: Path)
    ensures IsAbs(p) ==> r == p
    ensures !IsAbs(p) && TrimSeps(p) != [] ==> r == Join(cwd, p) && IsUnder(cwd, r)
  {
    if IsAbs(p) then p else Join(cwd, p)
  }

  /**
   * A run of main.go. Unlike the service syncers, it asks for the working
   * directory even when both arguments are absolute, and it leaves the
   * missing-source check to `copy`.
   */
  ghost function Run(args: seq<string>, cwd: Option<Path>, d: Disk, fuel: nat): (e: Exit)
    ensures |args| != 2 ==> e == Exit(d, Some(InvalidArgs))
    ensures |args| == 2 && cwd.None? ==> e == Exit(d, Some(NoWorkingDir))
    ensures e.err.Some? && e.err.value.Nested? ==> e.disk == d
    ensures |args| == 2 && cwd.Some? && HasPrefix(Absolute(cwd.value, args[1]), Absolute(cwd.value, args[0])) ==>
              e == Exit(d, Some(Nested(Absolute(cwd.value, args[1]), Absolute(cwd.value, args[0]))))
    ensures |args| == 2 && cwd.Some? && !HasPrefix(Absolute(cwd.value, args[1]), Absolute(cwd.value, args[0])) ==>
              !(e.err.Some? && e.err.value.Nested?)
    ensures |args| == 2 && cwd.Some? && !HasPrefix(Absolute(cwd.value, args[1]), Absolute(cwd.value, args[0])) &&
            fuel > 0 && Stat(d, Absolute(cwd.value, args[0])).Err? && Resolve(Absolute(cwd.value, args[0])) in d.nodes ==>
              e.err.Some? && e.err.value.SyncFailed? &&
              e.disk == After(d, EnsureDestination(d, Resolve(Absolute(cwd.value, args[1])))) &&
              (EnsureDestination(d, Resolve(Absolute(cwd.value, args[1]))).Ok? ==>
                 e.err.value.cause == CannotAnalyzeSource(Resolve(Absolute(cwd.value, args[0]))))
  {
    if Validation.Validate(args).Some? then Exit(d, Some(InvalidArgs))
    else if cwd.None? then Exit(d, Some(NoWorkingDir))
    else
      var src := Absolute(cwd.value, args[0]);
      var dst := Absolute(cwd.value, args[1]);
      if HasPrefix(dst, src) then Exit(d, Some(Nested(dst, src)))
      else
        var o := CopyRoots(PlainConfig(src, dst), d, src, dst, fuel);
        Exit(o.disk, if o.err.Some? then Some(SyncFailed(src, dst, o.err.value)) else None)
  }

  /** main.go's `main`, after flag parsing, with `os.Getwd`'s outcome as `cwd`. */
  method RunMain(fs: Os.FileSystem, args: seq<string>, cwd: Option<Path>, fuel: nat) returns (err: Option<RunError>)
    modifies fs
    ensures Exit(fs.disk, err) == Run(args, cwd, old(fs.disk), fuel)
  {
    if Validation.Validate(args).Some? {
      return Some(InvalidArgs);
    }
    if cwd.None? {
      return Some(NoWorkingDir);
    }
    var src := Absolute(cwd.value, args[0]);
    var dst := Absolute(cwd.value, args[1]);
    if HasPrefix(dst, src) {
      return Some(Nested(dst, src));
    }
    var syncer := new Syncers.PlainSyncer(fs);
    var e := syncer.Copy(src, dst, fuel);
    err := if e.Some? then Some(SyncFailed(src, dst, e.value)) else None;
  }
}
