/** The bookkeeping of `BdRomIso.ScanBitrates`: a first pass that totals the
    bytes to scan and maps each stream file to the playlists that play it,
    and a second pass that scans the files one by one, accumulating the
    finished bytes and the per-file exceptions, and stops on cancellation.
    The per-file scan (run on its own thread in the source) is an outcome
    given for each position in the list. */
module BitrateScan {
  import opened Wrappers
  import opened BdTypes
  import opened FileRegistry

  const CancelledMessage: string := "Scan was cancelled."
  const NullReference: string := "Object reference not set to an instance of an object."

  /** Each playlist at most once. */
  predicate NoDuplicates<T(==)>(s: seq<T>) {
    forall i, j :: 0 <= i < j < |s| ==> s[i] != s[j]
  }

  /** The bytes one file contributes to `TotalBytes`: its interleaved file
      when SSIF scanning is enabled and it has one, otherwise its own file;
      `None` where the source dereferences a null `FileInfo`. */
  function ScanLength(s: StreamFile, enableSsif: bool): (r: Option<nat>)
    ensures enableSsif && s.interleaved.Some? ==> r == Some(s.interleaved.value.fileInfo.length)
    ensures !(enableSsif && s.interleaved.Some?) ==>
      (r.Some? <==> s.fileInfo.Some?) && (r.Some? ==> r.value == s.fileInfo.value.length)
  {
    if enableSsif && s.interleaved.Some? then Some(s.interleaved.value.fileInfo.length)
    else if s.fileInfo.Some? then Some(s.fileInfo.value.length)
    else None
  }

  predicate AllMeasurable(streams: seq<StreamFile>, enableSsif: bool, i: nat) {
    forall j :: i <= j < |streams| ==> ScanLength(streams[j], enableSsif).Some?
  }

  /** The reference total: the sum of `ScanLength` over the files from `i` on. */
  function TotalFrom(streams: seq<StreamFile>, enableSsif: bool, i: nat): nat
    requires AllMeasurable(streams, enableSsif, i)
    decreases |streams| - i
  {
    if i >= |streams| then 0
    else ScanLength(streams[i], enableSsif).value + TotalFrom(streams, enableSsif, i + 1)
  }

  /** The inner loops over playlists and clips: every playlist with a clip
      named `name` that the list does not yet contain is appended. A
      playlist with several such clips is appended once, at its first. */
  function AppendReferencing(list: seq<PlaylistFile>, playlists: seq<PlaylistFile>, name: string): (r: seq<PlaylistFile>)
    ensures list <= r
    ensures forall p :: p in r <==> p in list || (p in playlists && References(p, name))
    ensures NoDuplicates(list) ==> NoDuplicates(r)
    decreases |playlists|
  {
    if playlists == [] then list
    else
      var p := playlists[0];
      var list' := if References(p, name) && p !in list then list + [p] else list;
      assert NoDuplicates(list) ==> NoDuplicates(list');
      var r := AppendReferencing(list', playlists[1..], name);
      assert forall q :: q in playlists <==> q == p || q in playlists[1..];
      r
  }

  type PlaylistMap = Registry<seq<PlaylistFile>>

  /** Every list in the map is duplicate-free and holds exactly the
      playlists that play the stream file it is keyed by. */
  ghost predicate MapInvariant(pm: PlaylistMap, playlists: seq<PlaylistFile>) {
    && Distinct(Keys(pm))
    && forall i :: 0 <= i < |pm| ==>
         && NoDuplicates(pm[i].value)
         && forall p :: p in pm[i].value <==> p in playlists && References(p, pm[i].key)
  }

  /** Lookups in a map that keeps the invariant. */
  lemma MapInvariantLookup(pm: PlaylistMap, playlists: seq<PlaylistFile>, key: string)
    requires MapInvariant(pm, playlists) && key in Keys(pm)
    ensures Lookup(pm, key).Some?
    ensures NoDuplicates(Lookup(pm, key).value)
    ensures forall p :: p in Lookup(pm, key).value <==> p in playlists && References(p, key)
  {
    var i :| 0 <= i < |pm| && pm[i] == Entry(key, Lookup(pm, key).value);
  }

  /** One stream file's contribution to `PlaylistMap`: the entry is created
      empty if missing, then extended with the referencing playlists. */
  function MapAdd(pm: PlaylistMap, name: string, playlists: seq<PlaylistFile>): (r: PlaylistMap)
    ensures forall k :: k in Keys(r) <==> k in Keys(pm) || k == name
  {
    var existing := Lookup(pm, name);
    var list := if existing.Some? then existing.value else [];
    Put(pm, name, AppendReferencing(list, playlists, name))
  }

  /** `MapAdd` keeps every list duplicate-free and exact. */
  lemma MapAddKeepsInvariant(pm: PlaylistMap, name: string, playlists: seq<PlaylistFile>)
    requires MapInvariant(pm, playlists)
    ensures MapInvariant(MapAdd(pm, name, playlists), playlists)
  {
    var r := MapAdd(pm, name, playlists);
    if name in Keys(pm) {
      MapInvariantLookup(pm, playlists, name);
    }
    forall i | 0 <= i < |r|
      ensures NoDuplicates(r[i].value)
      ensures forall p :: p in r[i].value <==> p in playlists && References(p, r[i].key)
    {
      var k := r[i].key;
      assert Keys(r)[i] == k;
      var j :| 0 <= j < |r| && r[j] == Entry(k, Lookup(r, k).value);
      assert Keys(r)[j] == k;
      assert j == i;
      if k != name {
        MapInvariantLookup(pm, playlists, k);
      }
    }
  }

  /** The files before position `i` all have a length. */
  predicate MeasurableBefore(streams: seq<StreamFile>, enableSsif: bool, i: nat)
    requires i <= |streams|
  {
    forall j :: 0 <= j < i ==> ScanLength(streams[j], enableSsif).Some?
  }

  /** One step of the first pass: a measurable file at `i` extends the
      measurable prefix and peels off the head of the reference total. */
  lemma PrepareStep(streams: seq<StreamFile>, enableSsif: bool, i: nat)
    requires i < |streams| && MeasurableBefore(streams, enableSsif, i)
    requires ScanLength(streams[i], enableSsif).Some?
    ensures MeasurableBefore(streams, enableSsif, i + 1)
    ensures AllMeasurable(streams, enableSsif, i + 1) ==>
      AllMeasurable(streams, enableSsif, i) &&
      TotalFrom(streams, enableSsif, i) == ScanLength(streams[i], enableSsif).value + TotalFrom(streams, enableSsif, i + 1)
  {
  }

  /** The names of the first `n` stream files. */
  function NamesOf(streams: seq<StreamFile>, n: nat): (r: seq<string>)
    requires n <= |streams|
    ensures |r| == n && forall j :: 0 <= j < n ==> r[j] == streams[j].name
  {
    seq(n, j requires 0 <= j < n => streams[j].name)
  }

  /** The map is keyed by exactly the names in `names`. */
  ghost predicate KeyedBy(pm: PlaylistMap, names: seq<string>) {
    forall k :: k in Keys(pm) <==> k in names
  }

  /** One step of the first pass on the map: adding the file at `i` keeps
      the invariant and extends the keys by its name. */
  lemma MapStep(pm: PlaylistMap, streams: seq<StreamFile>, playlists: seq<PlaylistFile>, i: nat)
    requires i < |streams| && MapInvariant(pm, playlists) && KeyedBy(pm, NamesOf(streams, i))
    ensures MapInvariant(MapAdd(pm, streams[i].name, playlists), playlists)
    ensures KeyedBy(MapAdd(pm, streams[i].name, playlists), NamesOf(streams, i + 1))
  {
    var name := streams[i].name;
    var r := MapAdd(pm, name, playlists);
    MapAddKeepsInvariant(pm, name, playlists);
    var before, after := NamesOf(streams, i), NamesOf(streams, i + 1);
    assert after == before + [name];
    forall k
      ensures k in Keys(r) <==> k in after
    {
      assert k in Keys(r) <==> k in Keys(pm) || k == name;
      assert k in after <==> k in before || k == name;
    }
  }

  /** The first `foreach` of `ScanBitrates`: `TotalBytes` and
      `PlaylistMap`, or the null dereference that ends the scan. */
  method Prepare(streams: seq<StreamFile>, playlists: seq<PlaylistFile>, enableSsif: bool)
    returns (r: Result<(nat, PlaylistMap)>)
    ensures r.Success? <==> AllMeasurable(streams, enableSsif, 0)
    ensures r.Success? ==> r.value.0 == TotalFrom(streams, enableSsif, 0)
    ensures r.Success? ==> MapInvariant(r.value.1, playlists)
    ensures r.Success? ==> forall k :: k in Keys(r.value.1) <==> k in NamesOf(streams, |streams|)
    ensures r.Failure? ==> r.error == NullReference
  {
    var total: nat := 0;
    var pm: PlaylistMap := [];
    for i := 0 to |streams|
      invariant MeasurableBefore(streams, enableSsif, i)
      invariant AllMeasurable(streams, enableSsif, i) ==> total + TotalFrom(streams, enableSsif, i) == TotalFrom(streams, enableSsif, 0)
      invariant MapInvariant(pm, playlists)
      invariant KeyedBy(pm, NamesOf(streams, i))
    {
      var len := ScanLength(streams[i], enableSsif);
      if len.None? {
        assert !AllMeasurable(streams, enableSsif, 0) by {
          assert !ScanLength(streams[i], enableSsif).Some?;
        }
        return Failure(NullReference);
      }
      PrepareStep(streams, enableSsif, i);
      total := total + len.value;
      MapStep(pm, streams, playlists, i);
      pm := MapAdd(pm, streams[i].name, playlists);
    }
    return Success((total, pm));
  }

  /** How the scan of one file ended: it finished, perhaps with an
      exception, or the cancellation token was seen while it ran. */
  datatype FileOutcome = Finished(error: Option<string>) | Cancelled

  /** The shared scan state of the second pass. `exception` is the last
      exception any file's scan raised; nothing resets it. */
  datatype Progress = Progress(finishedBytes: nat, exception: Option<string>, fileExceptions: Registry<string>)

  /** `ScanBDROMResult` with the final scan state. */
  datatype ScanResult = ScanResult(scanException: Option<string>, progress: Progress)

  /** The sum of the own lengths (never the interleaved ones) of the files
      at positions `i` up to `j`. */
  function FinishedBetween(streams: seq<StreamFile>, i: nat, j: nat): nat
    requires i <= j <= |streams|
    requires forall k :: i <= k < j ==> streams[k].fileInfo.Some?
    decreases j - i
  {
    if i == j then 0
    else streams[i].fileInfo.value.length + FinishedBetween(streams, i + 1, j)
  }

  /** The shared state after the file `s` finished with `error`. */
  function Next(p: Progress, s: StreamFile, error: Option<string>): (r: Progress)
    requires s.fileInfo.Some?
    ensures r.finishedBytes == p.finishedBytes + s.fileInfo.value.length
    ensures r.exception == (if error.Some? then error else p.exception)
    ensures r.exception.Some? ==> s.name in Keys(r.fileExceptions)
    ensures r.exception.None? ==> r.fileExceptions == p.fileExceptions
    ensures forall k :: k in Keys(r.fileExceptions) <==> k in Keys(p.fileExceptions) || (k == s.name && r.exception.Some?)
    ensures r.exception.Some? ==> Lookup(r.fileExceptions, s.name) == r.exception
    ensures forall k :: k != s.name ==> Lookup(r.fileExceptions, k) == Lookup(p.fileExceptions, k)
  {
    var exception := if error.Some? then error else p.exception;
    var recorded := if exception.Some? then Put(p.fileExceptions, s.name, exception.value) else p.fileExceptions;
    Progress(p.finishedBytes + s.fileInfo.value.length, exception, recorded)
  }

  /** The second pass from position `i` on. */
  function ScanFrom(streams: seq<StreamFile>, outcome: nat -> FileOutcome, i: nat, p: Progress): (r: ScanResult)
    requires i <= |streams|
    ensures r.progress.finishedBytes >= p.finishedBytes
    ensures p.exception.Some? ==> r.progress.exception.Some?
    ensures forall k :: k in Keys(p.fileExceptions) ==> k in Keys(r.progress.fileExceptions)
    decreases |streams| - i
  {
    if i == |streams| then ScanResult(None, p)
    else
      match outcome(i)
      case Cancelled => ScanResult(Some(CancelledMessage), p)
      case Finished(error) =>
        if streams[i].fileInfo.None? then ScanResult(Some(NullReference), p)
        else ScanFrom(streams, outcome, i + 1, Next(p, streams[i], error))
  }

  /** `ScanBitrates` without the threads, the timer and the progress events:
      the scan result, `TotalBytes` and `PlaylistMap`. */
  method ScanBitrates(streams: seq<StreamFile>, playlists: seq<PlaylistFile>, enableSsif: bool,
                      outcome: nat -> FileOutcome) returns (result: ScanResult, total: nat, pm: PlaylistMap)
    ensures AllMeasurable(streams, enableSsif, 0) ==>
      && total == TotalFrom(streams, enableSsif, 0)
      && MapInvariant(pm, playlists)
      && (forall k :: k in Keys(pm) <==> k in NamesOf(streams, |streams|))
      && result == ScanFrom(streams, outcome, 0, Progress(0, None, []))
    ensures !AllMeasurable(streams, enableSsif, 0) ==> result == ScanResult(Some(NullReference), Progress(0, None, []))
  {
    var prepared := Prepare(streams, playlists, enableSsif);
    if prepared.Failure? {
      return ScanResult(Some(NullReference), Progress(0, None, [])), 0, [];
    }
    total, pm := prepared.value.0, prepared.value.1;
    result := ScanFrom(streams, outcome, 0, Progress(0, None, []));
  }

  /** Every entry of a selection is a stream file rather than a null reference. */
  predicate AllPresent(selected: seq<Option<StreamFile>>) {
    forall i :: 0 <= i < |selected| ==> selected[i].Some?
  }

  /** The stream files of a selection with no null entry. */
  function Present(selected: seq<Option<StreamFile>>): (r: seq<StreamFile>)
    requires AllPresent(selected)
    ensures |r| == |selected| && forall i :: 0 <= i < |r| ==> selected[i] == Some(r[i])
  {
    seq(|selected|, i requires 0 <= i < |selected| && AllPresent(selected) => selected[i].value)
  }

  /** `ScanBitrates` called with the list the main window selects, which
      may hold null entries: the first pass reads `InterleavedFile` of a
      null entry, and the catch turns that into the scan exception. */
  method ScanSelected(selected: seq<Option<StreamFile>>, playlists: seq<PlaylistFile>, enableSsif: bool,
                      outcome: nat -> FileOutcome) returns (result: ScanResult, total: nat, pm: PlaylistMap)
    ensures !AllPresent(selected) ==> result == ScanResult(Some(NullReference), Progress(0, None, []))
    ensures AllPresent(selected) && AllMeasurable(Present(selected), enableSsif, 0) ==>
      && total == TotalFrom(Present(selected), enableSsif, 0)
      && MapInvariant(pm, playlists)
      && (forall k :: k in Keys(pm) <==> k in NamesOf(Present(selected), |selected|))
      && result == ScanFrom(Present(selected), outcome, 0, Progress(0, None, []))
    ensures AllPresent(selected) && !AllMeasurable(Present(selected), enableSsif, 0) ==>
      result == ScanResult(Some(NullReference), Progress(0, None, []))
  {
    var streams: seq<StreamFile> := [];
    for i := 0 to |selected|
      invariant |streams| == i && forall k :: 0 <= k < i ==> selected[k] == Some(streams[k])
    {
      if selected[i].None? {
        return ScanResult(Some(NullReference), Progress(0, None, [])), 0, [];
      }
      streams := streams + [selected[i].value];
    }
    assert streams == Present(selected);
    result, total, pm := ScanBitrates(streams, playlists, enableSsif, outcome);
  }

  /** Every file at positions `i` up to `j` finishes and has a file record. */
  predicate RunsBetween(streams: seq<StreamFile>, outcome: nat -> FileOutcome, i: nat, j: nat) {
    forall k :: i <= k < j && k < |streams| ==> outcome(k).Finished? && streams[k].fileInfo.Some?
  }

  /** When nothing is cancelled the scan completes with no scan exception
      and `FinishedBytes` grows by every file's own length. */
  lemma {:induction false} CompletionClearsException(streams: seq<StreamFile>, outcome: nat -> FileOutcome, i: nat, p: Progress)
    requires i <= |streams| && RunsBetween(streams, outcome, i, |streams|)
    ensures ScanFrom(streams, outcome, i, p).scanException.None?
    ensures ScanFrom(streams, outcome, i, p).progress.finishedBytes == p.finishedBytes + FinishedBetween(streams, i, |streams|)
    decreases |streams| - i
  {
    if i < |streams| {
      var p' := Next(p, streams[i], outcome(i).error);
      assert ScanFrom(streams, outcome, i, p) == ScanFrom(streams, outcome, i + 1, p');
      CompletionClearsException(streams, outcome, i + 1, p');
    }
  }

  /** Once some file's scan has raised an exception, every later file that
      is reached is recorded in `FileExceptions`. */
  lemma {:induction false} ExceptionIsSticky(streams: seq<StreamFile>, outcome: nat -> FileOutcome, i: nat, p: Progress, j: nat)
    requires i <= j < |streams| && RunsBetween(streams, outcome, i, j + 1)
    requires p.exception.Some? || exists e :: i <= e <= j && outcome(e).error.Some?
    ensures streams[j].name in Keys(ScanFrom(streams, outcome, i, p).progress.fileExceptions)
    decreases |streams| - i
  {
    var p' := Next(p, streams[i], outcome(i).error);
    if i < j {
      assert p'.exception.Some? || exists e :: i + 1 <= e <= j && outcome(e).error.Some?;
      ExceptionIsSticky(streams, outcome, i + 1, p', j);
    } else {
      assert p'.exception.Some?;
    }
  }

  /** Cancellation ends the scan at once: the files after the cancelled one
      are neither counted nor recorded. */
  lemma {:induction false} CancellationStopsScan(streams: seq<StreamFile>, outcome: nat -> FileOutcome, i: nat, p: Progress, c: nat)
    requires i <= c < |streams| && outcome(c).Cancelled? && RunsBetween(streams, outcome, i, c)
    ensures ScanFrom(streams, outcome, i, p).scanException == Some(CancelledMessage)
    ensures ScanFrom(streams, outcome, i, p).progress.finishedBytes == p.finishedBytes + FinishedBetween(streams, i, c)
    ensures forall k :: k in Keys(ScanFrom(streams, outcome, i, p).progress.fileExceptions) ==>
      k in Keys(p.fileExceptions) || exists j :: i <= j < c && streams[j].name == k
    decreases |streams| - i
  {
    if i < c {
      var p' := Next(p, streams[i], outcome(i).error);
      CancellationStopsScan(streams, outcome, i + 1, p', c);
    }
  }
}
