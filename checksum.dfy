/**
 * internal/checksum: the checksum verifier the main sync engine consults.
 * The hash primitives themselves (MD5, CRC32) are left uninterpreted: each
 * checksum kind carries its digest as a function of the file's bytes.
 */
module Checksum {
  import opened Wrappers
  import opened Paths
  import opened Fs
  import opened Fanout

  /** Go's `CheckSumType`, a `uint8`, with its two named values. */
  newtype CheckSumType = x: int | 0 <= x < 256
  const MD5: CheckSumType := 0
  const CRC32: CheckSumType := 1

  /** The implementations of the `CheckSum` interface. */
  datatype CheckSum =
    | MD5CheckSum(md5: Bytes -> string)
    | CRC32CheckSum(crc32: Bytes -> string)

  /** The digest a checksum kind computes from a file's bytes. */
  function Digest(cs: CheckSum, content: Bytes): string {
    match cs
    case MD5CheckSum(h) => h(content)
    case CRC32CheckSum(h) => h(content)
  }

  /** `GetCheckSum`: open the file, read it to the end and digest it. */
  function GetCheckSum(cs: CheckSum, d: Disk, p: Path): (r: Result<string, FsError>)
    ensures r.Ok? <==> ReadAll(d, p).Ok?
    ensures r.Ok? ==> r.value == Digest(cs, d.nodes[p].content)
  {
    match ReadAll(d, p)
    case Err(e) => Err(e)
    case Ok(c) => Ok(Digest(cs, c))
  }

  datatype Verifier = Verifier(checkSum: CheckSum)

  /** `NewVerifier`: CRC32 for `CRC32`; MD5 for `MD5` and for every other value. */
  function NewVerifier(t: CheckSumType, md5: Bytes -> string, crc32: Bytes -> string): (v: Verifier)
    ensures v.checkSum.CRC32CheckSum? <==> t == CRC32
    ensures t == CRC32 ==> v.checkSum == CRC32CheckSum(crc32)
    ensures t != CRC32 ==> v.checkSum == MD5CheckSum(md5)
  {
    if t == CRC32 then Verifier(CRC32CheckSum(crc32)) else Verifier(MD5CheckSum(md5))
  }

  /** `getSum`: one outcome per file, a checksum or an error, never both and never neither. */
  function GetSum(v: Verifier, d: Disk, p: Path): (s: Sent)
    ensures OneOutcome(s)
    ensures s.errs == [] <==> ReadAll(d, p).Ok?
    ensures ReadAll(d, p).Ok? ==> s.sums == [Digest(v.checkSum, d.nodes[p].content)]
  {
    Report(GetCheckSum(v.checkSum, d, p))
  }

  /**
   * `Same`: an error when either checksum fails; otherwise whether the two
   * checksum strings are equal.
   */
  function Same(v: Verifier, d: Disk, file1: Path, file2: Path, order: Order): (r: Result<bool, FsError>)
    ensures r.Err? <==> ReadAll(d, file1).Err? || ReadAll(d, file2).Err?
    ensures r.Ok? ==> r.value == (Digest(v.checkSum, d.nodes[file1].content) == Digest(v.checkSum, d.nodes[file2].content))
  {
    Collect(GetSum(v, d, file1), GetSum(v, d, file2), order)
  }

  /** Two readable files with the same bytes are reported the same, whatever the digest. */
  lemma SameOnEqualContent(v: Verifier, d: Disk, file1: Path, file2: Path, order: Order)
    requires ReadAll(d, file1).Ok? && ReadAll(d, file2).Ok?
    requires d.nodes[file1].content == d.nodes[file2].content
    ensures Same(v, d, file1, file2, order) == Ok(true)
  {
  }

  /** With a collision-free digest, "same" means "same bytes". */
  lemma SameIsContentEquality(v: Verifier, d: Disk, file1: Path, file2: Path, order: Order)
    requires forall x, y :: Digest(v.checkSum, x) == Digest(v.checkSum, y) ==> x == y
    requires ReadAll(d, file1).Ok? && ReadAll(d, file2).Ok?
    ensures Same(v, d, file1, file2, order) == Ok(d.nodes[file1].content == d.nodes[file2].content)
  {
  }

  /** The answer does not depend on argument order or on which goroutine finished first. */
  lemma SameSymmetric(v: Verifier, d: Disk, file1: Path, file2: Path, o: Order, o': Order)
    ensures Same(v, d, file1, file2, o).Ok? == Same(v, d, file2, file1, o').Ok?
    ensures Same(v, d, file1, file2, o).Ok? ==> Same(v, d, file1, file2, o) == Same(v, d, file2, file1, o')
  {
    CollectIndependentOfOrder(GetSum(v, d, file1), GetSum(v, d, file2), o, o');
  }
}
