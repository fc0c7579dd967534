/** `BdRomIso.Scan`: locate the BDMV layout, derive the disc properties,
    build the file registries, run the clip-info, playlist and stream-file
    scan loops, pair stream files with interleaved files and look for 50 Hz
    video. The parsers of the individual files are parameters. */
module BdRomIso {
  import opened Wrappers
  import opened BdTypes
  import Sorting
  import Comparers
  import DiscStructure
  import opened FileRegistry
  import opened ScanErrorPolicy

  /** Two stream files compared as present (non-null) references. */
  function CompareStreams(a: StreamFile, b: StreamFile): int {
    Comparers.CompareStreamFiles(Some(a), Some(b))
  }

  lemma CompareStreamsTotalPreorder()
    ensures Sorting.TotalPreorder(CompareStreams)
  {
    Comparers.CompareStreamFilesTotalPreorder();
    forall x, y, z | CompareStreams(x, y) <= 0 && CompareStreams(y, z) <= 0
      ensures CompareStreams(x, z) <= 0
    {
      assert Comparers.CompareStreamFiles(Some(x), Some(z)) <= 0;
    }
    forall x, y
      ensures CompareStreams(x, y) == -CompareStreams(y, x)
    {
      assert Comparers.CompareStreamFiles(Some(x), Some(y)) == -Comparers.CompareStreamFiles(Some(y), Some(x));
    }
  }

  /** `StreamFiles.Values` copied to an array and sorted with `CompareStreamFiles`. */
  function SortedStreamFiles(streams: Registry<StreamFile>): (r: seq<StreamFile>)
    ensures multiset(r) == multiset(Values(streams))
    ensures Sorting.SortedBy(CompareStreams, r)
  {
    CompareStreamsTotalPreorder();
    Sorting.Sort(CompareStreams, Values(streams))
  }

  /** Files sorted by `CompareStreams` come in ascending length, with the
      files that have no file record at the end. */
  lemma {:induction false} SortedStreamsAscendingLength(s: seq<StreamFile>, i: int, j: int)
    requires Sorting.SortedBy(CompareStreams, s) && 0 <= i < j < |s|
    ensures s[i].fileInfo.None? ==> s[j].fileInfo.None?
    ensures s[i].fileInfo.Some? && s[j].fileInfo.Some? ==> s[i].fileInfo.value.length <= s[j].fileInfo.value.length
  {
    assert CompareStreams(s[i], s[j]) <= 0;
  }

  /** The playlists of `playlists` with a clip named `name`, in order: the
      inner loop of the stream-file scan, which stops at the first matching
      clip, so each playlist is listed at most once. */
  function ReferencingPlaylists(playlists: seq<PlaylistFile>, name: string): (r: seq<PlaylistFile>)
    ensures forall p :: p in r <==> p in playlists && References(p, name)
    ensures multiset(r) <= multiset(playlists)
  {
    if playlists == [] then []
    else
      var init := playlists[..|playlists| - 1];
      var last := playlists[|playlists| - 1];
      assert playlists == init + [last];
      ReferencingPlaylists(init, name) + (if References(last, name) then [last] else [])
  }

  lemma ReferencingPlaylistsStep(playlists: seq<PlaylistFile>, i: int, name: string)
    requires 0 <= i < |playlists|
    ensures ReferencingPlaylists(playlists[..i + 1], name)
      == ReferencingPlaylists(playlists[..i], name) + (if References(playlists[i], name) then [playlists[i]] else [])
  {
    assert playlists[..i + 1][..i] == playlists[..i];
  }

  /** The nested `foreach` / `break` loops that collect those playlists. */
  method CollectReferencingPlaylists(playlists: seq<PlaylistFile>, name: string) returns (r: seq<PlaylistFile>)
    ensures r == ReferencingPlaylists(playlists, name)
  {
    r := [];
    for i := 0 to |playlists|
      invariant r == ReferencingPlaylists(playlists[..i], name)
    {
      var p := playlists[i];
      var found := false;
      for j := 0 to |p.clips|
        invariant found <==> exists k :: 0 <= k < j && p.clips[k].name == name
      {
        if p.clips[j].name == name {
          found := true;
          break;
        }
      }
      assert found <==> References(p, name);
      ReferencingPlaylistsStep(playlists, i, name);
      if found {
        r := r + [p];
      }
    }
    assert playlists[..|playlists|] == playlists;
  }

  predicate Is50HzRate(rate: FrameRate) {
    rate == Fps25 || rate == Fps50
  }

  /** Does some video stream of `p` run at 25 or 50 frames per second? */
  predicate Has50HzVideo(p: PlaylistFile) {
    exists j :: 0 <= j < |p.videoStreams| && Is50HzRate(p.videoStreams[j].frameRate)
  }

  /** `ScanFor50HzContent`, starting from the current `Is50Hz`: the flag is
      raised by the first 50 Hz video stream and never lowered. */
  function ScanFor50HzContent(playlists: seq<PlaylistFile>, is50Hz: bool): (r: bool)
    ensures r <==> is50Hz || exists i :: 0 <= i < |playlists| && Has50HzVideo(playlists[i])
  {
    if playlists == [] then is50Hz
    else
      var r := ScanFor50HzContent(playlists[1..], is50Hz || Has50HzVideo(playlists[0]));
      assert forall i :: 1 <= i < |playlists| ==> playlists[i] == playlists[1..][i - 1];
      r
  }

  /** The per-file behaviour `Scan` does not model: the playlist decoder,
      the three file scanners, the subscribed error handlers and the host
      check for FilmIndex.xml. */
  datatype ScanInputs = ScanInputs(
    filmIndexExists: bool,
    decodePlaylist: FileEntry -> PlaylistFile,
    scanClip: StreamClipFile -> ScanOutcome,
    clipHandler: ErrorHandler<StreamClipFile>,
    scanPlaylist: PlaylistFile -> ScanOutcome,
    playlistHandler: ErrorHandler<PlaylistFile>,
    scanStream: (StreamFile, seq<PlaylistFile>) -> ScanOutcome,
    streamHandler: ErrorHandler<StreamFile>)

  /** A scanned disc: the directories and properties found, the registries
      (stream files already paired), the decoded playlists, what each scan
      loop did, and the 50 Hz flag. */
  datatype Disc = Disc(
    dirs: DiscStructure.BdmvDirectories,
    properties: DiscStructure.DiscProperties,
    registries: Registries,
    playlists: seq<PlaylistFile>,
    clipLoop: LoopResult<StreamClipFile>,
    playlistLoop: LoopResult<PlaylistFile>,
    streamLoop: LoopResult<StreamFile>,
    is50Hz: bool)

  /** The stream-file scanner called with the playlists that reference the file. */
  function StreamScanner(inputs: ScanInputs, playlists: seq<PlaylistFile>): StreamFile -> ScanOutcome {
    (s: StreamFile) => inputs.scanStream(s, ReferencingPlaylists(playlists, s.name))
  }

  function DecodePlaylists(inputs: ScanInputs, reg: Registry<FileEntry>): (r: seq<PlaylistFile>)
    ensures |r| == |reg| && forall i :: 0 <= i < |reg| ==> r[i] == inputs.decodePlaylist(reg[i].value)
  {
    seq(|reg|, i requires 0 <= i < |reg| => inputs.decodePlaylist(reg[i].value))
  }

  /** The scan steps after the registries exist: `ScanStreamClips`,
      `ScanInterleavedFiles`, `ScanPlaylist` and `ScanFor50HzContent`. An
      exception no handler catches ends the scan. */
  function ScanFiles(dirs: DiscStructure.BdmvDirectories, props: DiscStructure.DiscProperties,
                     regs: Registries, inputs: ScanInputs): (r: Result<Disc>)
    ensures r.Success? ==> r.value.dirs == dirs && r.value.properties == props
    ensures r.Success? ==> r.value.registries == regs.(streams := ScanInterleavedFiles(regs.streams, regs.interleaved))
    ensures r.Success? ==> r.value.playlists == DecodePlaylists(inputs, regs.playlists)
    ensures r.Success? ==> r.value.clipLoop == RunLoop(Values(regs.clips), inputs.scanClip, inputs.clipHandler)
    ensures r.Success? ==> r.value.playlistLoop == RunLoop(r.value.playlists, inputs.scanPlaylist, inputs.playlistHandler)
    ensures r.Success? ==>
      r.value.streamLoop == RunLoop(SortedStreamFiles(r.value.registries.streams), StreamScanner(inputs, r.value.playlists), inputs.streamHandler)
    ensures r.Success? ==> r.value.clipLoop.Completed? && r.value.playlistLoop.Completed? && r.value.streamLoop.Completed?
    ensures r.Success? ==> r.value.clipLoop.attempted <= Values(regs.clips)
    ensures r.Success? ==> r.value.playlistLoop.attempted <= r.value.playlists
    ensures r.Success? ==> r.value.streamLoop.attempted <= SortedStreamFiles(r.value.registries.streams)
    ensures r.Success? ==> (r.value.is50Hz <==> exists i :: 0 <= i < |r.value.playlists| && Has50HzVideo(r.value.playlists[i]))
    ensures r.Failure? ==>
      || (inputs.clipHandler.NoHandler? && exists c :: c in Values(regs.clips) && inputs.scanClip(c) == ScanFailed(r.error))
      || (inputs.playlistHandler.NoHandler? && exists p :: p in DecodePlaylists(inputs, regs.playlists) && inputs.scanPlaylist(p) == ScanFailed(r.error))
      || (inputs.streamHandler.NoHandler? &&
          exists sf :: sf in SortedStreamFiles(ScanInterleavedFiles(regs.streams, regs.interleaved)) &&
            inputs.scanStream(sf, ReferencingPlaylists(DecodePlaylists(inputs, regs.playlists), sf.name)) == ScanFailed(r.error))
  {
    var clipLoop := RunLoop(Values(regs.clips), inputs.scanClip, inputs.clipHandler);
    if clipLoop.Rethrown? then Failure(clipLoop.message)
    else
      var regs' := regs.(streams := ScanInterleavedFiles(regs.streams, regs.interleaved));
      var playlists := DecodePlaylists(inputs, regs.playlists);
      var sorted := SortedStreamFiles(regs'.streams);
      var playlistLoop := RunLoop(playlists, inputs.scanPlaylist, inputs.playlistHandler);
      if playlistLoop.Rethrown? then Failure(playlistLoop.message)
      else
        var streamLoop := RunLoop(sorted, StreamScanner(inputs, playlists), inputs.streamHandler);
        if streamLoop.Rethrown? then Failure(streamLoop.message)
        else
          Success(Disc(dirs, props, regs', playlists, clipLoop, playlistLoop, streamLoop,
                       ScanFor50HzContent(playlists, false)))
  }

  /** `Scan`. */
  function Scan(root: Directory, inputs: ScanInputs): (r: Result<Disc>)
    ensures DiscStructure.SetBdmvDirectories(root).Failure? ==> r == Failure(DiscStructure.StructureError)
    ensures r.Success? ==>
      && DiscStructure.SetBdmvDirectories(root).Success?
      && r.value.dirs == DiscStructure.SetBdmvDirectories(root).value
      && r.value.properties == DiscStructure.SetBdmvProperties(r.value.dirs, inputs.filmIndexExists)
    ensures (DiscStructure.SetBdmvDirectories(root).Success? &&
             InitializeFileLists(DiscStructure.SetBdmvDirectories(root).value).Failure?) ==>
      r == Failure(DuplicateKey)
    ensures DiscStructure.SetBdmvDirectories(root).Success? ==>
      var dirs := DiscStructure.SetBdmvDirectories(root).value;
      InitializeFileLists(dirs).Success? ==>
        r == ScanFiles(dirs, DiscStructure.SetBdmvProperties(dirs, inputs.filmIndexExists),
                       InitializeFileLists(dirs).value, inputs)
    ensures r.Success? ==>
      && InitializeFileLists(r.value.dirs).Success?
      && var regs := InitializeFileLists(r.value.dirs).value;
        r.value.registries == regs.(streams := ScanInterleavedFiles(regs.streams, regs.interleaved))
  {
    var dirs :- DiscStructure.SetBdmvDirectories(root);
    var props := DiscStructure.SetBdmvProperties(dirs, inputs.filmIndexExists);
    var regs :- InitializeFileLists(dirs);
    ScanFiles(dirs, props, regs, inputs)
  }

  /** After the registries exist, a scan that succeeds visited the stream
      files shortest first, files without a file record last. */
  lemma ScanFilesVisitsStreamsShortestFirst(dirs: DiscStructure.BdmvDirectories, props: DiscStructure.DiscProperties,
                                            regs: Registries, inputs: ScanInputs, i: int, j: int)
    requires ScanFiles(dirs, props, regs, inputs).Success?
    requires 0 <= i < j < |ScanFiles(dirs, props, regs, inputs).value.streamLoop.attempted|
    ensures var s := ScanFiles(dirs, props, regs, inputs).value.streamLoop.attempted;
      && (s[i].fileInfo.None? ==> s[j].fileInfo.None?)
      && (s[i].fileInfo.Some? && s[j].fileInfo.Some? ==> s[i].fileInfo.value.length <= s[j].fileInfo.value.length)
  {
    var d := ScanFiles(dirs, props, regs, inputs).value;
    PrefixAscendingLength(d.streamLoop.attempted, SortedStreamFiles(d.registries.streams), i, j);
  }

  lemma PrefixAscendingLength(s: seq<StreamFile>, sorted: seq<StreamFile>, i: int, j: int)
    requires Sorting.SortedBy(CompareStreams, sorted) && s <= sorted && 0 <= i < j < |s|
    ensures s[i].fileInfo.None? ==> s[j].fileInfo.None?
    ensures s[i].fileInfo.Some? && s[j].fileInfo.Some? ==> s[i].fileInfo.value.length <= s[j].fileInfo.value.length
  {
    SortedStreamsAscendingLength(sorted, i, j);
  }

  /** The whole scan visits the stream files shortest first too. */
  lemma ScanVisitsStreamsShortestFirst(root: Directory, inputs: ScanInputs, i: int, j: int)
    requires Scan(root, inputs).Success?
    requires 0 <= i < j < |Scan(root, inputs).value.streamLoop.attempted|
    ensures var s := Scan(root, inputs).value.streamLoop.attempted;
      && (s[i].fileInfo.None? ==> s[j].fileInfo.None?)
      && (s[i].fileInfo.Some? && s[j].fileInfo.Some? ==> s[i].fileInfo.value.length <= s[j].fileInfo.value.length)
  {
    var dirs := DiscStructure.SetBdmvDirectories(root).value;
    var props := DiscStructure.SetBdmvProperties(dirs, inputs.filmIndexExists);
    var regs := InitializeFileLists(dirs).value;
    assert Scan(root, inputs) == ScanFiles(dirs, props, regs, inputs);
    ScanFilesVisitsStreamsShortestFirst(dirs, props, regs, inputs, i, j);
  }

  /** With every handler subscribed and always continuing, the scan steps
      after the registries never fail and scan every file. */
  lemma ScanFilesWithLenientHandlersScansEverything(dirs: DiscStructure.BdmvDirectories, props: DiscStructure.DiscProperties,
                                                     regs: Registries, inputs: ScanInputs)
    requires inputs.clipHandler.Handler? && forall c, m :: inputs.clipHandler.decide(c, m)
    requires inputs.playlistHandler.Handler? && forall p, m :: inputs.playlistHandler.decide(p, m)
    requires inputs.streamHandler.Handler? && forall s, m :: inputs.streamHandler.decide(s, m)
    ensures ScanFiles(dirs, props, regs, inputs).Success?
    ensures var d := ScanFiles(dirs, props, regs, inputs).value;
      && d.clipLoop.attempted == Values(d.registries.clips)
      && d.playlistLoop.attempted == d.playlists
      && d.streamLoop.attempted == SortedStreamFiles(d.registries.streams)
  {
    AlwaysContinueScansAll(Values(regs.clips), inputs.scanClip, inputs.clipHandler.decide);
    var playlists := DecodePlaylists(inputs, regs.playlists);
    AlwaysContinueScansAll(playlists, inputs.scanPlaylist, inputs.playlistHandler.decide);
    var streams := ScanInterleavedFiles(regs.streams, regs.interleaved);
    AlwaysContinueScansAll(SortedStreamFiles(streams), StreamScanner(inputs, playlists), inputs.streamHandler.decide);
  }

  /** With every handler subscribed and always continuing, a disc with the
      BD structure and distinct file names scans every file. */
  lemma ScanWithLenientHandlersScansEverything(root: Directory, inputs: ScanInputs)
    requires DiscStructure.SetBdmvDirectories(root).Success?
    requires InitializeFileLists(DiscStructure.SetBdmvDirectories(root).value).Success?
    requires inputs.clipHandler.Handler? && forall c, m :: inputs.clipHandler.decide(c, m)
    requires inputs.playlistHandler.Handler? && forall p, m :: inputs.playlistHandler.decide(p, m)
    requires inputs.streamHandler.Handler? && forall s, m :: inputs.streamHandler.decide(s, m)
    ensures Scan(root, inputs).Success?
    ensures var d := Scan(root, inputs).value;
      && d.clipLoop.attempted == Values(d.registries.clips)
      && d.playlistLoop.attempted == d.playlists
      && d.streamLoop.attempted == SortedStreamFiles(d.registries.streams)
  {
    var dirs := DiscStructure.SetBdmvDirectories(root).value;
    var props := DiscStructure.SetBdmvProperties(dirs, inputs.filmIndexExists);
    var regs := InitializeFileLists(dirs).value;
    assert Scan(root, inputs) == ScanFiles(dirs, props, regs, inputs);
    ScanFilesWithLenientHandlersScansEverything(dirs, props, regs, inputs);
  }
}
