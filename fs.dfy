/**
 * The filesystem the engine reads and writes, as a value: a map from path
 * strings to nodes, plus the fixed set of paths on which the operating
 * system refuses writes or reads (the model's stand-in for permissions,
 * full disks and failing media), plus the log of the files `os.Create` has
 * written, which lets contracts say how many copies a run performed.
 *
 * Each function below is one `os` call, with the failure cases Go reports
 * for it on Unix.
 */
module Fs {
  import opened Wrappers
  import opened Paths
  import NameOrder
  import PathFacts

  type Bytes = seq<bv8>

  /** A directory, a regular file, or anything else (symlink, device, socket). */
  datatype Node = Dir | File(content: Bytes) | Other

  /** One item of an `os.ReadDir` listing. */
  datatype Entry = Entry(name: string, isDir: bool)

  datatype FsError =
    | NotExist(path: Path)
    | PermissionDenied(path: Path)
    | NotADirectory(path: Path)
    | IsADirectory(path: Path)
    | DirectoryNotEmpty(path: Path)

  /** Paths whose writes (create, rename, remove) or reads (open, list) fail. */
  datatype Faults = Faults(readOnly: set<Path>, unreadable: set<Path>)

  datatype Disk = Disk(nodes: map<Path, Node>, faults: Faults, created: seq<Path>)

  /** `os.Stat`/`os.Lstat`: the node at `p`, if any (links are not modelled, so the two agree). */
  function Lookup(d: Disk, p: Path): Option<Node> {
    if p in d.nodes then Some(d.nodes[p]) else None
  }

  /**
   * `os.Stat` of a path as the caller wrote it. Trailing separators name
   * the path without them, but only a directory may be named that way: on
   * any other node the call fails with `ENOTDIR`, which `os.IsNotExist`
   * does not match.
   */
  function Stat(d: Disk, p: Path): (r: Result<Node, FsError>)
    ensures TrimSeps(p) == p || TrimSeps(p) == [] ==> (r.Ok? <==> p in d.nodes) && (r.Ok? ==> r.value == d.nodes[p])
    ensures TrimSeps(p) != [] && TrimSeps(p) != p ==>
              (r.Ok? <==> Lookup(d, TrimSeps(p)) == Some(Dir)) && (r.Ok? ==> r.value == Dir)
    ensures r.Err? ==> (r.error.NotExist? <==> Resolve(p) !in d.nodes)
  {
    var q := Resolve(p);
    if q !in d.nodes then Err(NotExist(p))
    else if q != p && d.nodes[q] != Dir then Err(NotADirectory(p))
    else Ok(d.nodes[q])
  }

  /** The error a mutating call reports. */
  function ErrorOf(r: Result<Disk, FsError>): Option<FsError> {
    if r.Err? then Some(r.error) else None
  }

  /** The filesystem after a mutating call: a failed call changes nothing. */
  function After(d: Disk, r: Result<Disk, FsError>): Disk {
    if r.Ok? then r.value else d
  }

  /** `os.MkdirAll(p)`: create `p` and every missing ancestor as directories. */
  function MkdirAll(d: Disk, p: Path): (r: Result<Disk, FsError>)
    ensures r.Ok? ==> p in r.value.nodes && r.value.nodes[p] == Dir
    ensures r.Ok? ==> forall k :: k in d.nodes ==> k in r.value.nodes && r.value.nodes[k] == d.nodes[k]
    ensures r.Ok? ==> forall k :: k in r.value.nodes ==> k in d.nodes || k == p || k in Ancestors(p)
    ensures r.Ok? ==> r.value.faults == d.faults && r.value.created == d.created
    ensures r.Err? <==> exists q :: q in Ancestors(p) + {p} &&
                          ((q in d.nodes && d.nodes[q] != Dir) || (q !in d.nodes && q in d.faults.readOnly))
  {
    var chain := Ancestors(p) + {p};
    if exists q :: q in chain && q in d.nodes && d.nodes[q] != Dir then Err(NotADirectory(p))
    else if exists q :: q in chain && q !in d.nodes && q in d.faults.readOnly then Err(PermissionDenied(p))
    else Ok(d.(nodes := d.nodes + map q | q in chain && q !in d.nodes :: Dir))
  }

  /** The names of the entries of directory `dir`. */
  function ChildNames(nodes: map<Path, Node>, dir: Path): (names: set<string>)
    ensures forall m :: m in names <==> ValidName(m) && Join(dir, m) in nodes
  {
    var t := TrimSeps(dir);
    var names := set k | k in nodes && IsUnder(dir, k) && ValidName(k[|t| + 1..]) :: k[|t| + 1..];
    assert forall m :: m in names <==> ValidName(m) && Join(dir, m) in nodes by {
      forall m
        ensures m in names <==> ValidName(m) && Join(dir, m) in nodes
      {
        if m in names {
          var k :| k in nodes && IsUnder(dir, k) && ValidName(k[|t| + 1..]) && k[|t| + 1..] == m;
          JoinOfChild(dir, k);
        }
        if ValidName(m) && Join(dir, m) in nodes {
          PathFacts.JoinName(dir, m);
          var k := Join(dir, m);
          assert k[|t| + 1..] == m;
        }
      }
    }
    names
  }

  lemma JoinOfChild(dir: Path, k: Path)
    requires IsUnder(dir, k) && ValidName(k[|TrimSeps(dir)| + 1..])
    ensures Join(dir, k[|TrimSeps(dir)| + 1..]) == k
  {
    var t := TrimSeps(dir);
    var m := k[|t| + 1..];
    PathFacts.JoinName(dir, m);
    assert k == k[..|t| + 1] + m;
  }

  /** Listing entries for the given names, classified by what is at each path. */
  function EntriesOf(nodes: map<Path, Node>, dir: Path, names: seq<string>): (es: seq<Entry>)
    ensures |es| == |names|
    ensures forall i :: 0 <= i < |es| ==> es[i] == Entry(names[i], Join(dir, names[i]) in nodes && nodes[Join(dir, names[i])] == Dir)
  {
    seq(|names|, i requires 0 <= i < |names| =>
      Entry(names[i], Join(dir, names[i]) in nodes && nodes[Join(dir, names[i])] == Dir))
  }

  /** `os.ReadDir(p)`: the entries of a readable directory, sorted by name. */
  ghost function ReadDir(d: Disk, p: Path): (r: Result<seq<Entry>, FsError>)
    ensures r.Ok? <==> p in d.nodes && d.nodes[p] == Dir && p !in d.faults.unreadable
    ensures r.Ok? ==> forall i :: 0 <= i < |r.value| ==>
                        ValidName(r.value[i].name) && Join(p, r.value[i].name) in d.nodes &&
                        r.value[i].isDir == (d.nodes[Join(p, r.value[i].name)] == Dir)
    ensures r.Ok? ==> forall i, j :: 0 <= i < j < |r.value| ==>
                        r.value[i].name != r.value[j].name && NameOrder.LexLeq(r.value[i].name, r.value[j].name)
    ensures r.Ok? ==> forall m :: ValidName(m) && Join(p, m) in d.nodes ==>
                        exists i :: 0 <= i < |r.value| && r.value[i].name == m
  {
    if p !in d.nodes then Err(NotExist(p))
    else if d.nodes[p] != Dir then Err(NotADirectory(p))
    else if p in d.faults.unreadable then Err(PermissionDenied(p))
    else
      ListingFacts(d.nodes, p);
      Ok(Listing(d.nodes, p))
  }

  /** The entries of directory `p` in `os.ReadDir` order. */
  ghost function Listing(nodes: map<Path, Node>, p: Path): seq<Entry> {
    EntriesOf(nodes, p, NameOrder.Sorted(ChildNames(nodes, p)))
  }

  lemma ListingFacts(nodes: map<Path, Node>, p: Path)
    ensures var es := Listing(nodes, p);
      && (forall i :: 0 <= i < |es| ==>
            ValidName(es[i].name) && Join(p, es[i].name) in nodes && es[i].isDir == (nodes[Join(p, es[i].name)] == Dir))
      && (forall i, j :: 0 <= i < j < |es| ==> es[i].name != es[j].name && NameOrder.LexLeq(es[i].name, es[j].name))
      && (forall m :: ValidName(m) && Join(p, m) in nodes ==> exists i :: 0 <= i < |es| && es[i].name == m)
  {
    var names := NameOrder.Sorted(ChildNames(nodes, p));
    NameOrder.SortedAscending(ChildNames(nodes, p));
    var es := Listing(nodes, p);
    forall i | 0 <= i < |es|
      ensures ValidName(es[i].name) && Join(p, es[i].name) in nodes && es[i].isDir == (nodes[Join(p, es[i].name)] == Dir)
    {
      assert es[i].name == names[i];
      assert names[i] in ChildNames(nodes, p);
    }
    forall i, j | 0 <= i < j < |es| ensures es[i].name != es[j].name && NameOrder.LexLeq(es[i].name, es[j].name) {
      assert es[i].name == names[i] && es[j].name == names[j];
    }
    forall m | ValidName(m) && Join(p, m) in nodes
      ensures exists i :: 0 <= i < |es| && es[i].name == m
    {
      assert m in ChildNames(nodes, p);
      assert m in names;
      var i :| 0 <= i < |names| && names[i] == m;
      assert es[i].name == m;
    }
  }


  /** The directory part of `p` is an existing directory (or the root or working directory). */
  predicate ParentIsDir(d: Disk, p: Path) {
    var i := LastSep(p);
    i <= 0 || (p[..i] in d.nodes && d.nodes[p[..i]] == Dir)
  }

  /** `os.Create(p)`: the file is created, or truncated when it exists, and is now empty. */
  function Create(d: Disk, p: Path): (r: Result<Disk, FsError>)
    ensures r.Ok? <==> ParentIsDir(d, p) && p !in d.faults.readOnly && (p in d.nodes ==> d.nodes[p].File?)
    ensures r.Ok? ==> r.value == d.(nodes := d.nodes[p := File([])], created := d.created + [p])
  {
    if p in d.nodes && d.nodes[p] == Dir then Err(IsADirectory(p))
    else if !ParentIsDir(d, p) then Err(NotExist(p))
    else if p in d.faults.readOnly || (p in d.nodes && d.nodes[p] == Other) then Err(PermissionDenied(p))
    else Ok(d.(nodes := d.nodes[p := File([])], created := d.created + [p]))
  }

  /**
   * `io.Copy` from a file opened for reading at `from` into a file created
   * at `to`: `to` receives what `from` holds at the time of the copy.
   */
  function CopyInto(d: Disk, from: Path, to: Path): (d': Disk)
    requires from in d.nodes && d.nodes[from].File? && to in d.nodes
    ensures d'.nodes == d.nodes[to := File(d.nodes[from].content)]
    ensures d'.faults == d.faults && d'.created == d.created
  {
    d.(nodes := d.nodes[to := d.nodes[from]])
  }

  /** `os.Rename(from, to)` of a file: `to` now holds what `from` held, and `from` is gone. */
  function Rename(d: Disk, from: Path, to: Path): (r: Result<Disk, FsError>)
    ensures r.Ok? <==> from in d.nodes && from !in d.faults.readOnly && to !in d.faults.readOnly &&
                       (to in d.nodes ==> d.nodes[to] != Dir)
    ensures r.Ok? ==> r.value.nodes.Keys == d.nodes.Keys - {from} + {to}
    ensures r.Ok? ==> r.value.nodes[to] == d.nodes[from]
    ensures r.Ok? ==> forall k :: k in d.nodes && k != from && k != to ==> r.value.nodes[k] == d.nodes[k]
    ensures r.Ok? ==> r.value.faults == d.faults && r.value.created == d.created
  {
    if from !in d.nodes then Err(NotExist(from))
    else if from in d.faults.readOnly || to in d.faults.readOnly then Err(PermissionDenied(to))
    else if to in d.nodes && d.nodes[to] == Dir then Err(IsADirectory(to))
    else Ok(d.(nodes := (d.nodes - {from})[to := d.nodes[from]]))
  }

  /** `os.Remove(p)`: delete a file or an empty directory. */
  function Remove(d: Disk, p: Path): (r: Result<Disk, FsError>)
    ensures r.Ok? <==> p in d.nodes && p !in d.faults.readOnly &&
                       (d.nodes[p] == Dir ==> forall k :: k in d.nodes ==> !IsUnder(p, k))
    ensures r.Ok? ==> r.value == d.(nodes := d.nodes - {p})
  {
    if p !in d.nodes then Err(NotExist(p))
    else if p in d.faults.readOnly then Err(PermissionDenied(p))
    else if d.nodes[p] == Dir && exists k :: k in d.nodes && IsUnder(p, k) then Err(DirectoryNotEmpty(p))
    else Ok(d.(nodes := d.nodes - {p}))
  }

  /** `os.RemoveAll(p)`: delete `p` and everything below it; a missing `p` is no error. */
  function RemoveAll(d: Disk, p: Path): (r: Result<Disk, FsError>)
    ensures r.Ok? ==> r.value.faults == d.faults && r.value.created == d.created
    ensures r.Ok? ==> forall k :: k in r.value.nodes <==> k in d.nodes && (p in d.nodes ==> k != p && !IsUnder(p, k))
    ensures r.Ok? ==> forall k :: k in r.value.nodes ==> r.value.nodes[k] == d.nodes[k]
    ensures r.Err? <==> p in d.nodes && exists k :: k in d.nodes && (k == p || IsUnder(p, k)) && k in d.faults.readOnly
  {
    var doomed := set k | k in d.nodes && (k == p || IsUnder(p, k));
    if p !in d.nodes then Ok(d)
    else if exists k :: k in doomed && k in d.faults.readOnly then Err(PermissionDenied(p))
    else Ok(d.(nodes := d.nodes - doomed))
  }

  /** `os.Open(p)` for reading: the error it reports, if any. */
  function Open(d: Disk, p: Path): (err: Option<FsError>)
    ensures err.None? <==> p in d.nodes && p !in d.faults.unreadable
  {
    if p !in d.nodes then Some(NotExist(p))
    else if p in d.faults.unreadable then Some(PermissionDenied(p))
    else None
  }

  /**
   * Open `p` and read it to the end, as the checksum code does: the open can
   * fail, and reading a directory or a special file fails.
   */
  function ReadAll(d: Disk, p: Path): (r: Result<Bytes, FsError>)
    ensures r.Ok? <==> p in d.nodes && p !in d.faults.unreadable && d.nodes[p].File?
    ensures r.Ok? ==> r.value == d.nodes[p].content
  {
    match Open(d, p)
    case Some(e) => Err(e)
    case None =>
      match d.nodes[p]
      case File(c) => Ok(c)
      case Dir => Err(IsADirectory(p))
      case Other => Err(PermissionDenied(p))
  }
}
