/** The continue / abort / rethrow loop the disc resolver runs over clip-info
    files, playlist files and stream files: each file is scanned in turn; when
    its scan throws, the file is recorded as failed and the subscribed error
    handler decides whether to go on (true) or stop the loop (false); with no
    subscriber the exception propagates. */
module ScanErrorPolicy {

  /** What scanning one file did (the parsers themselves are not modelled). */
  datatype ScanOutcome = Scanned | ScanFailed(message: string)

  /** The subscriber of an `On...ScanError` event. */
  datatype ErrorHandler<!T> = NoHandler | Handler(decide: (T, string) -> bool)

  datatype LoopResult<T> =
    | Completed(attempted: seq<T>, failed: seq<T>, aborted: bool)
    | Rethrown(item: T, message: string)

  /** Does the handler let the loop go on after `x` failed with `message`? */
  predicate Continues<T>(handler: ErrorHandler<T>, x: T, message: string) {
    handler.Handler? && handler.decide(x, message)
  }

  /** Scanning `x` stops the loop: it failed and the handler did not continue. */
  predicate Stops<T>(scan: T -> ScanOutcome, handler: ErrorHandler<T>, x: T) {
    scan(x).ScanFailed? && !Continues(handler, x, scan(x).message)
  }

  /** The files of `s` whose scan failed, in order. */
  function Failures<T>(scan: T -> ScanOutcome, s: seq<T>): (r: seq<T>)
    ensures forall i :: 0 <= i < |r| ==> r[i] in s && scan(r[i]).ScanFailed?
    ensures forall i :: 0 <= i < |s| && scan(s[i]).ScanFailed? ==> s[i] in r
  {
    if s == [] then []
    else (if scan(s[0]).ScanFailed? then [s[0]] else []) + Failures(scan, s[1..])
  }

  /** The `foreach` / `try` / `catch` loop. */
  function RunLoop<T>(items: seq<T>, scan: T -> ScanOutcome, handler: ErrorHandler<T>): (r: LoopResult<T>)
    ensures r.Completed? ==> r.attempted <= items && r.failed == Failures(scan, r.attempted)
    ensures r.Completed? && !r.aborted ==> r.attempted == items
    ensures r.Completed? && r.aborted ==> handler.Handler? && r.attempted != []
    ensures r.Rethrown? ==> handler.NoHandler? && r.item in items && scan(r.item) == ScanFailed(r.message)
  {
    if items == [] then Completed([], [], false)
    else
      var x := items[0];
      match scan(x)
      case Scanned =>
        (match RunLoop(items[1..], scan, handler)
         case Completed(a, f, stop) => Completed([x] + a, f, stop)
         case Rethrown(y, m) => Rethrown(y, m))
      case ScanFailed(m) =>
        if handler.NoHandler? then Rethrown(x, m)
        else if handler.decide(x, m) then
          (match RunLoop(items[1..], scan, handler)
           case Completed(a, f, stop) => Completed([x] + a, [x] + f, stop)
           case Rethrown(y, m') => Rethrown(y, m'))
        else Completed([x], [x], true)
  }

  /** Index of the first file whose scan stops the loop, or |items|. */
  function FirstStop<T>(items: seq<T>, scan: T -> ScanOutcome, handler: ErrorHandler<T>): (k: nat)
    ensures k <= |items|
    ensures k < |items| ==> Stops(scan, handler, items[k])
    ensures forall i :: 0 <= i < k ==> !Stops(scan, handler, items[i])
  {
    if items == [] then 0
    else if Stops(scan, handler, items[0]) then 0
    else 1 + FirstStop(items[1..], scan, handler)
  }

  /** When no file's failure stops it, the loop scans every file. */
  lemma {:induction false} RunLoopScansAllWithoutStop<T>(items: seq<T>, scan: T -> ScanOutcome, handler: ErrorHandler<T>)
    requires FirstStop(items, scan, handler) == |items|
    ensures RunLoop(items, scan, handler) == Completed(items, Failures(scan, items), false)
  {
    if items != [] {
      assert !Stops(scan, handler, items[0]);
      RunLoopScansAllWithoutStop(items[1..], scan, handler);
      assert items == [items[0]] + items[1..];
    }
  }

  /** With no handler, the first failure propagates out of the loop. */
  lemma {:induction false} RunLoopRethrowsFirstFailure<T>(items: seq<T>, scan: T -> ScanOutcome)
    requires FirstStop(items, scan, NoHandler) < |items|
    ensures var k := FirstStop(items, scan, NoHandler);
      RunLoop(items, scan, NoHandler) == Rethrown(items[k], scan(items[k]).message)
  {
    if !Stops(scan, NoHandler, items[0]) {
      RunLoopRethrowsFirstFailure(items[1..], scan);
    }
  }

  /** A first file that does not stop the loop, in front of an aborting
      loop, is attempted (and recorded as failed when it failed) before the
      abort. */
  lemma PrependNonStopping<T>(items: seq<T>, scan: T -> ScanOutcome, decide: (T, string) -> bool, a: seq<T>)
    requires items != [] && !Stops(scan, Handler(decide), items[0])
    requires RunLoop(items[1..], scan, Handler(decide)) == Completed(a, Failures(scan, a), true)
    ensures RunLoop(items, scan, Handler(decide)) == Completed([items[0]] + a, Failures(scan, [items[0]] + a), true)
  {
    var x := items[0];
    assert ([x] + a)[0] == x && ([x] + a)[1..] == a;
  }

  /** With a handler, the loop ends right after the first failure it
      refuses, the one at position `k`. */
  lemma {:induction false} RunLoopAbortsAtFirstRefusal<T>(items: seq<T>, scan: T -> ScanOutcome, decide: (T, string) -> bool, k: nat)
    requires k == FirstStop(items, scan, Handler(decide)) && k < |items|
    ensures RunLoop(items, scan, Handler(decide)) == Completed(items[..k + 1], Failures(scan, items[..k + 1]), true)
  {
    var handler := Handler(decide);
    var x, rest := items[0], items[1..];
    if k == 0 {
      assert Stops(scan, handler, x);
      assert items[..1] == [x];
      assert [x][1..] == [];
      assert Failures(scan, [x]) == [x];
      assert RunLoop(items, scan, handler) == Completed([x], [x], true);
    } else {
      assert !Stops(scan, handler, x);
      RunLoopAbortsAtFirstRefusal(rest, scan, decide, k - 1);
      PrependNonStopping(items, scan, decide, rest[..k]);
      SlicePrefix(items, k);
    }
  }

  lemma SlicePrefix<T>(items: seq<T>, k: nat)
    requires 0 < k < |items|
    ensures items[..k + 1] == [items[0]] + items[1..][..k]
  {
  }

  /** A handler that always answers "continue" stops no file. */
  lemma {:induction false} AlwaysContinueNeverStops<T(!new)>(items: seq<T>, scan: T -> ScanOutcome, decide: (T, string) -> bool)
    requires forall x, m :: decide(x, m)
    ensures FirstStop(items, scan, Handler(decide)) == |items|
  {
    if items != [] {
      AlwaysContinueNeverStops(items[1..], scan, decide);
    }
  }

  /** A handler that always answers "continue" makes the loop scan every file. */
  lemma AlwaysContinueScansAll<T(!new)>(items: seq<T>, scan: T -> ScanOutcome, decide: (T, string) -> bool)
    requires forall x, m :: decide(x, m)
    ensures RunLoop(items, scan, Handler(decide)) == Completed(items, Failures(scan, items), false)
  {
    AlwaysContinueNeverStops(items, scan, decide);
    RunLoopScansAllWithoutStop(items, scan, Handler(decide));
  }
}
