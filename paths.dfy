/**
 * Path strings as the sync engine handles them: Unix paths with '/' as the
 * separator, joined and cut with plain string operations.
 *
 * Go's `filepath.Join` cleans its result; the model keeps only the part of
 * cleaning the engine relies on (separators at the seam and at the end
 * collapse), not the resolution of `.` and `..`.
 */
module Paths {
  import opened Wrappers

  type Path = string

  const Separator: char := '/'

  /** `filepath.IsAbs` on a Unix system. */
  predicate IsAbs(p: Path) {
    |p| > 0 && p[0] == Separator
  }

  /** `strings.HasPrefix`: a raw string prefix, with no regard for separators. */
  predicate HasPrefix(s: string, prefix: string) {
    |prefix| <= |s| && s[..|prefix|] == prefix
  }

  /** A directory entry name as `os.ReadDir` reports it. */
  predicate ValidName(name: string) {
    name != [] && Separator !in name
  }

  /** `p` without its trailing separators. */
  function TrimSeps(p: Path): (r: Path)
    ensures HasPrefix(p, r)
    ensures r == [] || r[|r| - 1] != Separator
    ensures forall i :: |r| <= i < |p| ==> p[i] == Separator
  {
    if p != [] && p[|p| - 1] == Separator then TrimSeps(p[..|p| - 1]) else p
  }

  /**
   * `filepath.Join(dir, name)` for an absolute directory and a relative name:
   * exactly one separator at the seam and none at the end.
   */
  function Join(dir: Path, name: Path): Path {
    if TrimSeps(name) == [] then dir else TrimSeps(dir) + [Separator] + TrimSeps(name)
  }

  /** The index of the last separator of `s`, or -1 when it has none. */
  function LastSep(s: string): (i: int)
    ensures -1 <= i < |s|
    ensures i >= 0 ==> s[i] == Separator
    ensures forall j :: i < j < |s| ==> s[j] != Separator
  {
    if s == [] then -1
    else if s[|s| - 1] == Separator then |s| - 1
    else LastSep(s[..|s| - 1])
  }

  /** `filepath.Base`: the last element of the path. */
  function Base(p: Path): (b: Path)
    ensures TrimSeps(p) != [] ==> ValidName(b)
  {
    var t := TrimSeps(p);
    if p == [] then "."
    else if t == [] then [Separator]
    else
      LastElement(t);
      t[LastSep(t) + 1..]
  }

  /** What follows the last separator of a path that does not end in one is an entry name. */
  lemma LastElement(t: Path)
    requires t != [] && t[|t| - 1] != Separator
    ensures ValidName(t[LastSep(t) + 1..])
  {
    var i := LastSep(t);
    assert i != |t| - 1;
  }

  /**
   * The path `p` names once its trailing separators are dropped (a path
   * made only of separators is the root, kept as written). Directory
   * entries are keyed by their resolved paths; whether a trailing separator
   * is accepted at all depends on the node there, as `Fs.Stat` says.
   */
  function Resolve(p: Path): (r: Path)
    ensures TrimSeps(p) != [] ==> r == TrimSeps(p) && TrimSeps(r) == r
    ensures TrimSeps(r) == TrimSeps(p)
    ensures Base(r) == Base(p)
    ensures forall m :: TrimSeps(m) != [] ==> Join(r, m) == Join(p, m)
  {
    if TrimSeps(p) == [] then p else TrimSeps(p)
  }

  /** The proper ancestors `os.MkdirAll` may have to create before `p`. */
  function Ancestors(p: Path): set<Path> {
    set i | 0 < i < |p| && p[i] == Separator :: p[..i]
  }

  /** `k` lies strictly inside the directory `dir`. */
  predicate IsUnder(dir: Path, k: Path) {
    HasPrefix(k, TrimSeps(dir) + [Separator])
  }

  /**
   * `absolutePath` (internal/syncer/syncer.go, internal/service/syncer.go):
   * an absolute argument is kept as it is, character for character; a
   * relative one is joined onto the working directory, and only then is the
   * working directory consulted. `cwd` is `os.Getwd`'s outcome: `None` when
   * it failed.
   */
  function AbsolutePath(cwd: Option<Path>, p: Path): (r: Option<Path>)
    ensures IsAbs(p) ==> r == Some(p)
    ensures !IsAbs(p) ==> (r.Some? <==> cwd.Some?)
    ensures r.Some? && (cwd.Some? ==> IsAbs(cwd.value)) ==> IsAbs(r.value)
  {
    if IsAbs(p) then Some(p)
    else if cwd.None? then None
    else Some(Join(cwd.value, p))
  }

  /**
   * `relativePath` exactly as internal/syncer/syncer.go writes it: cut the
   * parent off as a raw string prefix and drop the next character, whatever
   * it is; a child that does not start with the parent comes back unchanged.
   * The Go code panics when the child equals the parent, hence the requires.
   */
  function RelativePathAsWritten(parent: Path, child: Path): (r: Path)
    requires HasPrefix(child, parent) ==> |child| > |parent|
    ensures !HasPrefix(child, parent) ==> r == child
    ensures HasPrefix(child, parent) ==> child == parent + [child[|parent|]] + r
  {
    if HasPrefix(child, parent) then child[|parent| + 1..] else child
  }

  /**
   * The relative path the engine means to compute: the part of `child`
   * below `parent`, whether or not `parent` was written with trailing
   * separators. The model's engine uses this definition (see README,
   * Findings).
   */
  function RelativePath(parent: Path, child: Path): (r: Path)
    ensures !IsUnder(parent, child) ==> r == child
    ensures IsUnder(parent, child) ==> child == TrimSeps(parent) + [Separator] + r
  {
    var base := TrimSeps(parent);
    if IsUnder(parent, child) then child[|base| + 1..] else child
  }
}
