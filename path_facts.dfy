/** Properties of the path logic the engine and the resolver rely on. */
module PathFacts {
  import opened Paths

  /** Concatenation regroups freely. */
  lemma AppendAssoc(a: string, b: string, c: string)
    ensures (a + b) + c == a + (b + c)
  {
  }

  /** A name without separators is its own trimmed form. */
  lemma TrimName(m: string)
    requires ValidName(m)
    ensures TrimSeps(m) == m
  {
    assert m[|m| - 1] in m;
  }

  /** Joining an entry name appends one separator and the name, and `Base` recovers the name. */
  lemma {:induction false} JoinName(dir: Path, m: string)
    requires ValidName(m)
    ensures Join(dir, m) == TrimSeps(dir) + [Separator] + m
    ensures TrimSeps(Join(dir, m)) == Join(dir, m)
    ensures IsUnder(dir, Join(dir, m))
    ensures Base(Join(dir, m)) == m
  {
    TrimName(m);
    var j := Join(dir, m);
    var t := TrimSeps(dir);
    assert j == t + [Separator] + m;
    assert j[|j| - 1] == m[|m| - 1];
    assert m[|m| - 1] in m;
    assert TrimSeps(j) == j;
    assert j[..|t| + 1] == t + [Separator];
    LastSepAtSeam(t, m);
    assert j[|t| + 1..] == m;
  }

  /** In `t/m`, the last separator is the one at the seam. */
  lemma LastSepAtSeam(t: Path, m: string)
    requires ValidName(m)
    ensures LastSep(t + [Separator] + m) == |t|
  {
    var j := t + [Separator] + m;
    assert j[|t|] == Separator;
    forall k | |t| < k < |j| ensures j[k] != Separator {
      assert j[k] == m[k - |t| - 1];
    }
  }

  /** A child of a directory written as the root itself is keyed by its name. */
  lemma RootChildKey(abs: Path, dir: Path, m: string)
    ensures ValidName(m) && TrimSeps(dir) == TrimSeps(abs) ==> RelativePath(abs, Join(dir, m)) == m
  {
    if ValidName(m) && TrimSeps(dir) == TrimSeps(abs) {
      KeysMatchIffNames(abs, dir, abs, dir, [], m, m);
    }
  }

  /** What lies below a child of `dir` lies below `dir`. */
  lemma UnderChildIsUnder(dir: Path, m: string)
    ensures ValidName(m) ==> IsUnder(dir, Join(dir, m)) && forall k :: IsUnder(Join(dir, m), k) ==> IsUnder(dir, k)
  {
    if ValidName(m) {
      JoinName(dir, m);
      var t := TrimSeps(dir);
      forall k | IsUnder(Join(dir, m), k) ensures IsUnder(dir, k) {
        assert k[..|t| + 1] == Join(dir, m)[..|t| + 1];
      }
    }
  }

  /** A path that starts with the child `dir/m` is not `dir` itself, even when `dir` ends in separators. */
  lemma {:induction false} ChildPrefixNotParent(dir: Path, m: string, k: Path)
    requires ValidName(m) && HasPrefix(k, Join(dir, m))
    ensures k != dir
  {
    JoinName(dir, m);
    var j := Join(dir, m);
    var l := |TrimSeps(dir)| + 1;
    assert k[l] == k[..|j|][l] == j[l] == m[0];
    assert m[0] in m;
  }

  /** What is at or below the child `dir/m` lies below `dir` and is not `dir` itself. */
  lemma BelowChildNotParent(dir: Path, m: string, k: Path)
    requires ValidName(m) && (k == Join(dir, m) || IsUnder(Join(dir, m), k))
    ensures k != dir && IsUnder(dir, k)
  {
    var j := Join(dir, m);
    JoinName(dir, m);
    UnderChildIsUnder(dir, m);
    if k != j {
      assert k[..|j|] == k[..|j| + 1][..|j|] == j;
    }
    ChildPrefixNotParent(dir, m, k);
  }

  /**
   * The raw prefix test rejects the source itself as destination, and a
   * sibling whose name merely extends the source's name.
   */
  lemma PrefixRejectsSelfAndSibling(src: Path)
    ensures HasPrefix(src, src)
    ensures HasPrefix(src + "c", src)
  {
    assert (src + "c")[..|src|] == src;
  }

  /**
   * Key correspondence for delete mode: when the source and destination
   * directories sit at the same position `r` below their roots, a source
   * child's relative path equals a destination child's exactly when the two
   * names are equal.
   */
  lemma {:induction false} KeysMatchIffNames(absSrc: Path, src: Path, absDst: Path, dst: Path, r: Path, m: string, m': string)
    requires TrimSeps(src) == TrimSeps(absSrc) + r
    requires TrimSeps(dst) == TrimSeps(absDst) + r
    requires r == [] || r[0] == Separator
    requires ValidName(m) && ValidName(m')
    ensures RelativePath(absSrc, Join(src, m)) == if r == [] then m else r[1..] + [Separator] + m
    ensures RelativePath(absSrc, Join(src, m)) == RelativePath(absDst, Join(dst, m')) <==> m == m'
  {
    var ks := ChildKey(absSrc, src, r, m);
    var kd := ChildKey(absDst, dst, r, m');
    if ks == kd {
      if r == [] {
        assert m == m';
      } else {
        assert r[1..] + [Separator] + m == r[1..] + [Separator] + m';
        assert m == (r[1..] + [Separator] + m)[|r|..];
        assert m' == (r[1..] + [Separator] + m')[|r|..];
      }
    }
  }

  /** The relative path of a child of a directory at position `r` below the root `abs`. */
  lemma {:induction false} ChildKey(abs: Path, p: Path, r: Path, m: string) returns (key: Path)
    requires TrimSeps(p) == TrimSeps(abs) + r
    requires r == [] || r[0] == Separator
    requires ValidName(m)
    ensures key == RelativePath(abs, Join(p, m))
    ensures key == if r == [] then m else r[1..] + [Separator] + m
  {
    TrimName(m);
    var b := TrimSeps(abs);
    var c := Join(p, m);
    assert c == b + r + [Separator] + m;
    if r == [] {
      assert c[..|b| + 1] == b + [Separator];
      assert c[|b| + 1..] == m;
    } else {
      var tail := r[1..] + [Separator] + m;
      assert r == [Separator] + r[1..];
      assert c == (b + [Separator]) + tail;
      assert c[..|b| + 1] == b + [Separator];
      assert c[|b| + 1..] == tail;
    }
    key := RelativePath(abs, c);
  }

  /** The position of a child directory is its parent's position extended by the name. */
  lemma ChildPosition(abs: Path, p: Path, r: Path, m: string)
    requires TrimSeps(p) == TrimSeps(abs) + r
    requires ValidName(m)
    ensures TrimSeps(Join(p, m)) == TrimSeps(abs) + (r + [Separator] + m)
  {
    JoinName(p, m);
  }

  /**
   * As written, `relativePath` drops the first character of every key when
   * the root was given with a trailing separator: a source root "/a/" turns
   * the child "/a/foo" into the key "oo", while a destination root "/b"
   * turns "/b/foo" into "foo".
   */
  lemma {:induction false} AsWrittenKeysDisagree(absSrc: Path, absDst: Path, m: string)
    requires absSrc == TrimSeps(absSrc) + [Separator] && TrimSeps(absSrc) != []
    requires absDst == TrimSeps(absDst) && absDst != []
    requires ValidName(m)
    ensures RelativePathAsWritten(absSrc, Join(absSrc, m)) == m[1..]
    ensures RelativePathAsWritten(absDst, Join(absDst, m)) == m
    ensures RelativePathAsWritten(absSrc, Join(absSrc, m)) != RelativePathAsWritten(absDst, Join(absDst, m))
  {
    JoinName(absSrc, m);
    JoinName(absDst, m);
    var s := Join(absSrc, m);
    assert s == absSrc + m;
    assert s[..|absSrc|] == absSrc;
    assert s[|absSrc| + 1..] == m[1..];
    var d := Join(absDst, m);
    assert d[..|absDst|] == absDst;
    assert d[|absDst| + 1..] == m;
    assert |m[1..]| != |m|;
  }

  /** A concrete instance: `fsync --delete /a/ /b` with a source file "foo". */
  lemma TrailingSeparatorExample()
    ensures RelativePathAsWritten("/a/", "/a/foo") == "oo"
    ensures RelativePathAsWritten("/b", "/b/foo") == "foo"
    ensures RelativePath("/a/", "/a/foo") == RelativePath("/b", "/b/foo") == "foo"
  {
    assert HasPrefix("/a/foo", "/a/");
    assert HasPrefix("/b/foo", "/b");
    assert TrimSeps("/a/") == "/a" by { assert TrimSeps("/a") == "/a"; }
    assert TrimSeps("/b") == "/b";
    assert IsUnder("/a/", "/a/foo");
    assert IsUnder("/b", "/b/foo");
  }

  /** Where the root has no trailing separator the corrected key is the key the code computes. */
  lemma {:induction false} CorrectionAgreesOnCleanRoots(parent: Path, m: string)
    requires parent == TrimSeps(parent) && parent != []
    requires ValidName(m)
    ensures RelativePath(parent, Join(parent, m)) == RelativePathAsWritten(parent, Join(parent, m)) == m
  {
    JoinName(parent, m);
    var c := Join(parent, m);
    assert c[..|parent|] == parent;
    assert c[..|parent| + 1] == parent + [Separator];
    assert c[|parent| + 1..] == m;
  }
}
