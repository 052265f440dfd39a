/**
 * The operating system as the Go code sees it through package `os`: one
 * mutable filesystem, and one method per call the engine makes. Each call
 * changes the filesystem exactly as the corresponding function of `Fs`
 * says, and a failed call changes nothing.
 */
module Os {
  import opened Wrappers
  import opened Paths
  import opened Fs
  import NameOrder

  class FileSystem {
    var disk: Disk

    constructor (nodes: map<Path, Node>, faults: Faults)
      ensures disk == Disk(nodes, faults, [])
    {
      disk := Disk(nodes, faults, []);
    }

    /** `os.Stat` of a root as the caller wrote it, trailing separators included. */
    method StatAsWritten(p: Path) returns (r: Result<Node, FsError>)
      ensures r == Fs.Stat(disk, p)
    {
      var q := Resolve(p);
      if q !in disk.nodes {
        r := Err(NotExist(p));
      } else if q != p && disk.nodes[q] != Dir {
        r := Err(NotADirectory(p));
      } else {
        r := Ok(disk.nodes[q]);
      }
    }

    /** `os.Stat` / `os.Lstat` / `DirEntry.Info` of a path the walk built, which never ends in a separator. */
    method Stat(p: Path) returns (info: Option<Node>)
      ensures info == Lookup(disk, p)
      ensures info.Some? <==> p in disk.nodes
    {
      info := if p in disk.nodes then Some(disk.nodes[p]) else None;
    }

    method MkdirAll(p: Path) returns (err: Option<FsError>)
      modifies this
      ensures err == ErrorOf(Fs.MkdirAll(old(disk), p))
      ensures disk == After(old(disk), Fs.MkdirAll(old(disk), p))
    {
      var r := Fs.MkdirAll(disk, p);
      err := ErrorOf(r);
      disk := After(disk, r);
    }

    /** `os.ReadDir`: collect the child names, then sort them. */
    method ReadDir(p: Path) returns (r: Result<seq<Entry>, FsError>)
      ensures r == Fs.ReadDir(disk, p)
    {
      if p !in disk.nodes {
        r := Err(NotExist(p));
      } else if disk.nodes[p] != Dir {
        r := Err(NotADirectory(p));
      } else if p in disk.faults.unreadable {
        r := Err(PermissionDenied(p));
      } else {
        var names := NameOrder.SortNames(ChildNames(disk.nodes, p));
        r := Ok(EntriesOf(disk.nodes, p, names));
      }
    }

    method Create(p: Path) returns (err: Option<FsError>)
      modifies this
      ensures err == ErrorOf(Fs.Create(old(disk), p))
      ensures disk == After(old(disk), Fs.Create(old(disk), p))
    {
      var r := Fs.Create(disk, p);
      err := ErrorOf(r);
      disk := After(disk, r);
    }

    /** `io.Copy` between an opened source and a created destination. */
    method CopyInto(from: Path, to: Path)
      requires from in disk.nodes && disk.nodes[from].File? && to in disk.nodes
      modifies this
      ensures disk == Fs.CopyInto(old(disk), from, to)
    {
      disk := Fs.CopyInto(disk, from, to);
    }

    method Rename(from: Path, to: Path) returns (err: Option<FsError>)
      modifies this
      ensures err == ErrorOf(Fs.Rename(old(disk), from, to))
      ensures disk == After(old(disk), Fs.Rename(old(disk), from, to))
    {
      var r := Fs.Rename(disk, from, to);
      err := ErrorOf(r);
      disk := After(disk, r);
    }

    method Remove(p: Path) returns (err: Option<FsError>)
      modifies this
      ensures err == ErrorOf(Fs.Remove(old(disk), p))
      ensures disk == After(old(disk), Fs.Remove(old(disk), p))
    {
      var r := Fs.Remove(disk, p);
      err := ErrorOf(r);
      disk := After(disk, r);
    }

    method RemoveAll(p: Path) returns (err: Option<FsError>)
      modifies this
      ensures err == ErrorOf(Fs.RemoveAll(old(disk), p))
      ensures disk == After(old(disk), Fs.RemoveAll(old(disk), p))
    {
      var r := Fs.RemoveAll(disk, p);
      err := ErrorOf(r);
      disk := After(disk, r);
    }

    method Open(p: Path) returns (err: Option<FsError>)
      ensures err == Fs.Open(disk, p)
    {
      err := Fs.Open(disk, p);
    }
  }
}
