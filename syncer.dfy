/**
 * The three receivers the Go code builds a run on: the mirror engine's
 * `Syncer` (internal/syncer/syncer.go), the verifying `Syncer` of
 * internal/service/syncer.go, and the plain `Syncer` of
 * internal/service/Syncer.go. Each drives a `Walker` over the filesystem;
 * each run is proved to end exactly as `Walk.Sync` (or `Walk.CopyRoots`) says.
 *
 * `os.Getwd`'s outcome is the parameter `cwd`, and the completion order of
 * the two checksum goroutines is the receiver's `order`.
 */
module Syncers {
  import opened Wrappers
  import opened Paths
  import Os
  import Fanout
  import Checksum
  import Verify
  import opened Walk
  import Walker

  /** `syncer.Syncer`: the mirror engine, with its delete flag. */
  class Syncer {
    const deleteFlag: bool
    const source: Path
    const destination: Path
    const checksumVerifier: Checksum.Verifier
    const order: Fanout.Order
    const fs: Os.FileSystem

    var absoluteSourcePath: Path
    var absoluteDestinationPath: Path

    constructor (deleteFlag: bool, source: Path, destination: Path,
                 checksumVerifier: Checksum.Verifier, order: Fanout.Order, fs: Os.FileSystem)
      ensures this.deleteFlag == deleteFlag && this.source == source && this.destination == destination
      ensures this.checksumVerifier == checksumVerifier && this.order == order && this.fs == fs
      ensures absoluteSourcePath == [] && absoluteDestinationPath == []
    {
      this.deleteFlag := deleteFlag;
      this.source := source;
      this.destination := destination;
      this.checksumVerifier := checksumVerifier;
      this.order := order;
      this.fs := fs;
      absoluteSourcePath := [];
      absoluteDestinationPath := [];
    }

    /**
     * `Sync`: normalise both roots and record them, refuse a nested
     * destination and a missing source, then `copy`.
     */
    method Sync(cwd: Option<Path>, fuel: nat) returns (err: Option<SyncError>)
      modifies this, fs
      ensures Outcome(fs.disk, err) ==
              Walk.Sync(Mirror, deleteFlag, ChecksumOracle(checksumVerifier, order), cwd, source, destination, old(fs.disk), fuel)
      ensures AbsolutePath(cwd, source).Some? && AbsolutePath(cwd, destination).Some? ==>
                absoluteSourcePath == AbsolutePath(cwd, source).value &&
                absoluteDestinationPath == AbsolutePath(cwd, destination).value
      ensures AbsolutePath(cwd, source).None? || AbsolutePath(cwd, destination).None? ==>
                absoluteSourcePath == old(absoluteSourcePath) && absoluteDestinationPath == old(absoluteDestinationPath)
    {
      var src := AbsolutePath(cwd, source);
      if src.None? {
        return Some(WorkingDirUnavailable);
      }
      var dst := AbsolutePath(cwd, destination);
      if dst.None? {
        return Some(WorkingDirUnavailable);
      }
      absoluteSourcePath := src.value;
      absoluteDestinationPath := dst.value;
      if HasPrefix(dst.value, src.value) {
        return Some(NestedDestination(dst.value, src.value));
      }
      var info := fs.StatAsWritten(src.value);
      if info.Err? && info.error.NotExist? {
        return Some(SourceNotExist(src.value));
      }
      var cfg := Config(Mirror, deleteFlag, src.value, dst.value, ChecksumOracle(checksumVerifier, order));
      var w := new Walker.Walker(cfg, fs);
      err := w.CopyRoots(src.value, dst.value, fuel);
    }
  }

  /** `service.Syncer` of internal/service/syncer.go: overwrite, then verify with MD5. */
  class ServiceSyncer {
    const source: Path
    const destination: Path
    const verifier: Verify.MD5Verifier
    const order: Fanout.Order
    const fs: Os.FileSystem

    var absoluteSourcePath: Path
    var absoluteDestinationPath: Path

    constructor (source: Path, destination: Path, verifier: Verify.MD5Verifier, order: Fanout.Order, fs: Os.FileSystem)
      ensures this.source == source && this.destination == destination
      ensures this.verifier == verifier && this.order == order && this.fs == fs
      ensures absoluteSourcePath == [] && absoluteDestinationPath == []
    {
      this.source := source;
      this.destination := destination;
      this.verifier := verifier;
      this.order := order;
      this.fs := fs;
      absoluteSourcePath := [];
      absoluteDestinationPath := [];
    }

    /** `Sync`: the same steps as the mirror engine's, with no delete mode. */
    method Sync(cwd: Option<Path>, fuel: nat) returns (err: Option<SyncError>)
      modifies this, fs
      ensures Outcome(fs.disk, err) ==
              Walk.Sync(Verified, false, Md5Oracle(verifier, order), cwd, source, destination, old(fs.disk), fuel)
      ensures AbsolutePath(cwd, source).Some? && AbsolutePath(cwd, destination).Some? ==>
                absoluteSourcePath == AbsolutePath(cwd, source).value &&
                absoluteDestinationPath == AbsolutePath(cwd, destination).value
      ensures AbsolutePath(cwd, source).None? || AbsolutePath(cwd, destination).None? ==>
                absoluteSourcePath == old(absoluteSourcePath) && absoluteDestinationPath == old(absoluteDestinationPath)
    {
      var src := AbsolutePath(cwd, source);
      if src.None? {
        return Some(WorkingDirUnavailable);
      }
      var dst := AbsolutePath(cwd, destination);
      if dst.None? {
        return Some(WorkingDirUnavailable);
      }
      absoluteSourcePath := src.value;
      absoluteDestinationPath := dst.value;
      if HasPrefix(dst.value, src.value) {
        return Some(NestedDestination(dst.value, src.value));
      }
      var info := fs.StatAsWritten(src.value);
      if info.Err? && info.error.NotExist? {
        return Some(SourceNotExist(src.value));
      }
      var cfg := Config(Verified, false, src.value, dst.value, Md5Oracle(verifier, order));
      var w := new Walker.Walker(cfg, fs);
      err := w.CopyRoots(src.value, dst.value, fuel);
    }
  }

  /**
   * `service.Syncer` of internal/service/Syncer.go: `Copy` walks from roots
   * its caller has already made absolute, and never verifies a copy, so the
   * oracle is never consulted (`WalkFacts.PlainIgnoresOracle`).
   */
  class PlainSyncer {
    const fs: Os.FileSystem

    constructor (fs: Os.FileSystem)
      ensures this.fs == fs
    {
      this.fs := fs;
    }

    method Copy(src: Path, dst: Path, fuel: nat) returns (err: Option<SyncError>)
      modifies fs
      ensures Outcome(fs.disk, err) == Walk.CopyRoots(PlainConfig(src, dst), old(fs.disk), src, dst, fuel)
    {
      var w := new Walker.Walker(PlainConfig(src, dst), fs);
      err := w.CopyRoots(src, dst, fuel);
    }
  }
}
