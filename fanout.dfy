/**
 * The decision rule both `Same` implementations share
 * (internal/checksum/verifier.go, internal/verify/md5_verifier.go): two
 * goroutines each hash one file and send exactly one message, a sum on
 * `outChan` or an error on `errChan`; after both finish, the first error
 * received is returned, and otherwise the two sums are compared.
 *
 * The goroutines are replaced by their two outcomes and the order in which
 * they completed, which decides the order of the messages in each buffered
 * channel.
 */
module Fanout {
  import opened Wrappers
  import opened Fs

  /** The messages one `getSum` goroutine sent. */
  datatype Sent = Sent(sums: seq<string>, errs: seq<FsError>)

  /** A goroutine sent exactly one message. */
  predicate OneOutcome(s: Sent) {
    |s.sums| + |s.errs| == 1
  }

  /** Which of the two goroutines finished first. */
  datatype Order = FirstDone | SecondDone

  /** `getSum`'s reporting step: a computed sum or an error, on exactly one channel. */
  function Report(r: Result<string, FsError>): (s: Sent)
    ensures OneOutcome(s)
    ensures r.Ok? ==> s.sums == [r.value] && s.errs == []
    ensures r.Err? ==> s.errs == [r.error] && s.sums == []
  {
    if r.Ok? then Sent([r.value], []) else Sent([], [r.error])
  }

  /**
   * `Same`'s collection loop. The buffered channels hold the messages in
   * completion order; `for err := range errChan` returns on the first
   * error, otherwise two receives from `outChan` are compared.
   */
  function Collect(a: Sent, b: Sent, order: Order): (r: Result<bool, FsError>)
    requires OneOutcome(a) && OneOutcome(b)
    ensures r.Err? <==> a.errs != [] || b.errs != []
    ensures r.Err? ==> r.error in a.errs + b.errs
    ensures r.Ok? ==> r.value == (a.sums[0] == b.sums[0])
  {
    var first := if order == FirstDone then a else b;
    var second := if order == FirstDone then b else a;
    var errChan := first.errs + second.errs;
    var outChan := first.sums + second.sums;
    if |errChan| > 0 then Err(errChan[0])
    else Ok(outChan[0] == outChan[1])
  }

  /**
   * Completion order and argument order change neither whether `Same`
   * fails nor the answer it gives; when exactly one side fails, they do not
   * change the error either. Only which of two errors is reported depends
   * on which goroutine finished first.
   */
  lemma CollectIndependentOfOrder(a: Sent, b: Sent, o: Order, o': Order)
    requires OneOutcome(a) && OneOutcome(b)
    ensures Collect(a, b, o).Ok? == Collect(b, a, o').Ok?
    ensures Collect(a, b, o).Ok? ==> Collect(a, b, o) == Collect(b, a, o') == Collect(a, b, o')
    ensures (a.errs == [] || b.errs == []) ==> Collect(a, b, o) == Collect(b, a, o') == Collect(a, b, o')
  {
    if a.errs == [] && b.errs == [] {
      assert |a.sums| == 1 && |b.sums| == 1;
    } else if a.errs == [] {
      assert b.errs == [b.errs[0]];
    } else if b.errs == [] {
      assert a.errs == [a.errs[0]];
    }
  }
}
