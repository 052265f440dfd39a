/**
 * internal/verify: the MD5 verifier behind the `Verifier` interface, used by
 * the earlier engine of internal/service/syncer.go. The MD5 digest is left
 * uninterpreted.
 */
module Verify {
  import opened Wrappers
  import opened Paths
  import opened Fs
  import opened Fanout

  datatype MD5Verifier = MD5Verifier(md5: Bytes -> string)

  /**
   * `getSum`: an open failure is sent as an error, a read failure while
   * hashing is sent as an error, and only a fully read file yields a digest.
   */
  function GetSum(v: MD5Verifier, d: Disk, p: Path): (s: Sent)
    ensures OneOutcome(s)
    ensures Open(d, p).Some? ==> s.errs == [Open(d, p).value]
    ensures Open(d, p).None? && !d.nodes[p].File? ==> s.sums == [] && |s.errs| == 1
    ensures ReadAll(d, p).Ok? ==> s.sums == [v.md5(d.nodes[p].content)]
  {
    match Open(d, p)
    case Some(e) => Report(Err(e))
    case None =>
      match ReadAll(d, p)
      case Err(e) => Report(Err(e))
      case Ok(c) => Report(Ok(v.md5(c)))
  }

  /**
   * `Same`: `(false, err)` when either digest fails; otherwise whether the
   * two hex digests are equal.
   */
  function Same(v: MD5Verifier, d: Disk, file1: Path, file2: Path, order: Order): (r: Result<bool, FsError>)
    ensures r.Err? <==> ReadAll(d, file1).Err? || ReadAll(d, file2).Err?
    ensures r.Ok? ==> r.value == (v.md5(d.nodes[file1].content) == v.md5(d.nodes[file2].content))
  {
    Collect(GetSum(v, d, file1), GetSum(v, d, file2), order)
  }

  /** A file that cannot be opened makes `Same` fail; it is never reported as merely different. */
  lemma UnopenableIsError(v: MD5Verifier, d: Disk, file1: Path, file2: Path, order: Order)
    requires Open(d, file1).Some? || Open(d, file2).Some?
    ensures Same(v, d, file1, file2, order).Err?
  {
  }

  /** The answer does not depend on argument order or on which goroutine finished first. */
  lemma SameSymmetric(v: MD5Verifier, d: Disk, file1: Path, file2: Path, o: Order, o': Order)
    ensures Same(v, d, file1, file2, o).Ok? == Same(v, d, file2, file1, o').Ok?
    ensures Same(v, d, file1, file2, o).Ok? ==> Same(v, d, file1, file2, o) == Same(v, d, file2, file1, o')
  {
    CollectIndependentOfOrder(GetSum(v, d, file1), GetSum(v, d, file2), o, o');
  }
}
