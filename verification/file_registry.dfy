/** The four file registries of the disc (`BdRomIso.InitializeFileLists`) and
    the pairing of stream files with interleaved files
    (`BdRomIso.ScanInterleavedFiles`). A `Dictionary<string, T>` is a
    sequence of entries in insertion order, which is the order in which its
    `Values` are enumerated when nothing is ever removed. */
module FileRegistry {
  import opened Wrappers
  import opened BdTypes
  import Text
  import DiscStructure

  const DuplicateKey: string := "An item with the same key has already been added."

  datatype Entry<T> = Entry(key: string, value: T)

  type Registry<T> = seq<Entry<T>>

  function Keys<T>(reg: Registry<T>): (r: seq<string>)
    ensures |r| == |reg| && forall i :: 0 <= i < |reg| ==> r[i] == reg[i].key
  {
    seq(|reg|, i requires 0 <= i < |reg| => reg[i].key)
  }

  function Values<T>(reg: Registry<T>): (r: seq<T>)
    ensures |r| == |reg| && forall i :: 0 <= i < |reg| ==> r[i] == reg[i].value
  {
    seq(|reg|, i requires 0 <= i < |reg| => reg[i].value)
  }

  predicate Distinct(s: seq<string>) {
    forall i, j :: 0 <= i < j < |s| ==> s[i] != s[j]
  }

  /** `ContainsKey` and the indexer: the value stored under `key`. */
  function Lookup<T>(reg: Registry<T>, key: string): (r: Option<T>)
    ensures r.None? <==> key !in Keys(reg)
    ensures r.Some? ==> exists i :: 0 <= i < |reg| && reg[i] == Entry(key, r.value)
  {
    if reg == [] then None
    else if reg[0].key == key then Some(reg[0].value)
    else
      var r := Lookup(reg[1..], key);
      assert Keys(reg) == [reg[0].key] + Keys(reg[1..]);
      assert r.Some? ==> exists i :: 0 <= i < |reg| && reg[i] == Entry(key, r.value) by {
        if r.Some? {
          var i :| 0 <= i < |reg[1..]| && reg[1..][i] == Entry(key, r.value);
          assert reg[i + 1] == Entry(key, r.value);
        }
      }
      r
  }

  /** Keys, lookups and distinctness of a registry with `e` in front. */
  lemma ConsFacts<T>(e: Entry<T>, reg: Registry<T>)
    ensures Keys([e] + reg) == [e.key] + Keys(reg)
    ensures forall k :: Lookup([e] + reg, k) == if k == e.key then Some(e.value) else Lookup(reg, k)
    ensures Distinct(Keys([e] + reg)) <==> e.key !in Keys(reg) && Distinct(Keys(reg))
  {
    var r := [e] + reg;
    assert r[1..] == reg;
    assert Keys(r) == [e.key] + Keys(reg);
    ConsDistinct(e.key, Keys(reg));
  }

  lemma ConsDistinct(k: string, ks: seq<string>)
    ensures Distinct([k] + ks) <==> k !in ks && Distinct(ks)
  {
    var s := [k] + ks;
    if Distinct(s) {
      forall i, j | 0 <= i < j < |ks|
        ensures ks[i] != ks[j]
      {
        assert s[i + 1] == ks[i] && s[j + 1] == ks[j];
      }
      forall j | 0 <= j < |ks|
        ensures ks[j] != k
      {
        assert s[0] == k && s[j + 1] == ks[j];
        assert s[0] != s[j + 1];
      }
    }
    if k !in ks && Distinct(ks) {
      forall i, j | 0 <= i < j < |s|
        ensures s[i] != s[j]
      {
        assert s[j] == ks[j - 1];
        if i > 0 {
          assert s[i] == ks[i - 1];
        }
      }
    }
  }

  /** What the indexer setter promises: `r` is `reg` with `key` mapped to
      `value` and every other key left alone. */
  ghost predicate PutResult<T>(reg: Registry<T>, key: string, value: T, r: Registry<T>) {
    && (forall k :: k in Keys(r) <==> k in Keys(reg) || k == key)
    && Lookup(r, key) == Some(value)
    && (forall k :: k != key ==> Lookup(r, k) == Lookup(reg, k))
    && (Distinct(Keys(reg)) ==> Distinct(Keys(r)))
  }

  lemma PutIntoEmpty<T>(key: string, value: T)
    ensures PutResult([], key, value, [Entry(key, value)])
  {
    var e := Entry(key, value);
    ConsFacts(e, []);
    assert [e] + [] == [e];
  }

  lemma PutAtHead<T>(reg: Registry<T>, key: string, value: T)
    requires reg != [] && reg[0].key == key
    ensures PutResult(reg, key, value, [Entry(key, value)] + reg[1..])
  {
    assert reg == [reg[0]] + reg[1..];
    ConsFacts(reg[0], reg[1..]);
    ConsFacts(Entry(key, value), reg[1..]);
  }

  lemma PutBehindHead<T>(reg: Registry<T>, key: string, value: T, rest: Registry<T>)
    requires reg != [] && reg[0].key != key && PutResult(reg[1..], key, value, rest)
    ensures PutResult(reg, key, value, [reg[0]] + rest)
  {
    var h, tail, r := reg[0], reg[1..], [reg[0]] + rest;
    assert reg == [h] + tail;
    ConsFacts(h, tail);
    ConsFacts(h, rest);
    forall k
      ensures k in Keys(r) <==> k in Keys(reg) || k == key
    {
      assert k in Keys(r) <==> k == h.key || k in Keys(rest);
      assert k in Keys(reg) <==> k == h.key || k in Keys(tail);
    }
    assert Lookup(r, key) == Lookup(rest, key);
    forall k | k != key
      ensures Lookup(r, k) == Lookup(reg, k)
    {
      assert Lookup(r, k) == if k == h.key then Some(h.value) else Lookup(rest, k);
      assert Lookup(reg, k) == if k == h.key then Some(h.value) else Lookup(tail, k);
    }
    if Distinct(Keys(reg)) {
      assert h.key !in Keys(tail) && Distinct(Keys(tail));
      assert h.key !in Keys(rest);
    }
  }

  /** The indexer setter `dict[key] = value`: replaces the value stored
      under `key`, or adds the key at the end. */
  function Put<T>(reg: Registry<T>, key: string, value: T): (r: Registry<T>)
    ensures forall k :: k in Keys(r) <==> k in Keys(reg) || k == key
    ensures Lookup(r, key) == Some(value)
    ensures forall k :: k != key ==> Lookup(r, k) == Lookup(reg, k)
    ensures Distinct(Keys(reg)) ==> Distinct(Keys(r))
  {
    if reg == [] then
      PutIntoEmpty(key, value);
      [Entry(key, value)]
    else if reg[0].key == key then
      PutAtHead(reg, key, value);
      [Entry(key, value)] + reg[1..]
    else
      var rest := Put(reg[1..], key, value);
      PutBehindHead(reg, key, value, rest);
      [reg[0]] + rest
  }

  /** The registry key of a file: its name upper-cased. */
  function KeyOf(f: FileEntry): string {
    Text.ToUpper(f.name)
  }

  function KeysOf(files: seq<FileEntry>): (r: seq<string>)
    ensures |r| == |files| && forall i :: 0 <= i < |files| ==> r[i] == KeyOf(files[i])
  {
    seq(|files|, i requires 0 <= i < |files| => KeyOf(files[i]))
  }

  /** `Dictionary.Add`: throws when the key is already present. */
  function Add<T>(reg: Registry<T>, key: string, value: T): (r: Result<Registry<T>>)
    ensures r.Success? <==> key !in Keys(reg)
    ensures r.Success? ==> r.value == reg + [Entry(key, value)]
    ensures r.Failure? ==> r.error == DuplicateKey
  {
    if key in Keys(reg) then Failure(DuplicateKey) else Success(reg + [Entry(key, value)])
  }

  /** The registry `foreach (file in files) registry.Add(file.Name.ToUpper(), make(file))`
      leaves behind: one entry per file, keyed by its upper-cased name, or the
      exception of the first duplicate key. */
  function BuildRegistry<T>(files: seq<FileEntry>, make: FileEntry -> T): (r: Result<Registry<T>>)
    ensures r.Success? <==> Distinct(KeysOf(files))
    ensures r.Success? ==> Keys(r.value) == KeysOf(files)
    ensures r.Success? ==> forall i :: 0 <= i < |files| ==> r.value[i].value == make(files[i])
    ensures r.Failure? ==> r.error == DuplicateKey
  {
    if Distinct(KeysOf(files)) then
      Success(seq(|files|, i requires 0 <= i < |files| => Entry(KeyOf(files[i]), make(files[i]))))
    else Failure(DuplicateKey)
  }

  /** The entries the first `i` files make. */
  function EntriesOf<T>(files: seq<FileEntry>, make: FileEntry -> T, i: nat): (r: Registry<T>)
    requires i <= |files|
    ensures |r| == i && forall j :: 0 <= j < i ==> r[j] == Entry(KeyOf(files[j]), make(files[j]))
  {
    seq(i, j requires 0 <= j < i => Entry(KeyOf(files[j]), make(files[j])))
  }

  /** One `Add` of the loop that succeeds extends the entries by the next file. */
  lemma AddEachStep<T>(files: seq<FileEntry>, make: FileEntry -> T, i: nat)
    requires i < |files| && Distinct(KeysOf(files[..i]))
    requires KeyOf(files[i]) !in KeysOf(files[..i])
    ensures EntriesOf(files, make, i) + [Entry(KeyOf(files[i]), make(files[i]))] == EntriesOf(files, make, i + 1)
    ensures KeysOf(files[..i + 1]) == KeysOf(files[..i]) + [KeyOf(files[i])]
    ensures Distinct(KeysOf(files[..i + 1]))
  {
    assert KeysOf(files[..i + 1]) == KeysOf(files[..i]) + [KeyOf(files[i])];
  }

  /** One `Add` of the loop that fails has met a repeated key. */
  lemma AddEachClash(files: seq<FileEntry>, i: nat)
    requires i < |files| && KeyOf(files[i]) in KeysOf(files[..i])
    ensures !Distinct(KeysOf(files))
  {
    var j :| 0 <= j < i && KeysOf(files[..i])[j] == KeyOf(files[i]);
    assert KeysOf(files)[j] == KeysOf(files)[i];
  }

  /** The `Add` loop itself, one file at a time, builds that registry. */
  method AddEach<T>(files: seq<FileEntry>, make: FileEntry -> T) returns (r: Result<Registry<T>>)
    ensures r == BuildRegistry(files, make)
  {
    var reg: Registry<T> := [];
    for i := 0 to |files|
      invariant reg == EntriesOf(files, make, i)
      invariant Keys(reg) == KeysOf(files[..i])
      invariant Distinct(KeysOf(files[..i]))
    {
      var added := Add(reg, KeyOf(files[i]), make(files[i]));
      if added.Failure? {
        AddEachClash(files, i);
        return Failure(DuplicateKey);
      }
      AddEachStep(files, make, i);
      reg := added.value;
    }
    assert files[..|files|] == files;
    return Success(reg);
  }

  /** `GetFiles(lower)` on `dir`; when that finds nothing, `GetFiles(upper)` on
      `fallback` (which for stream and clip-info files is the PLAYLIST
      directory, not the one first searched). */
  function ListWithFallback(dir: Directory, lower: string, fallback: Directory, upper: string): (r: seq<FileEntry>)
    ensures DiscStructure.GetFiles(dir, lower) != [] ==> r == DiscStructure.GetFiles(dir, lower)
    ensures DiscStructure.GetFiles(dir, lower) == [] ==> r == DiscStructure.GetFiles(fallback, upper)
  {
    var files := DiscStructure.GetFiles(dir, lower);
    if |files| == 0 then DiscStructure.GetFiles(fallback, upper) else files
  }

  /** The four registries keyed by upper-cased file name. Playlist entries
      hold the playlist file before it is parsed. */
  datatype Registries = Registries(
    playlists: Registry<FileEntry>, streams: Registry<StreamFile>,
    clips: Registry<StreamClipFile>, interleaved: Registry<InterleavedFile>)

  function NewStreamFile(f: FileEntry): StreamFile {
    StreamFile(KeyOf(f), Some(f), None)
  }

  function NewStreamClipFile(f: FileEntry): StreamClipFile {
    StreamClipFile(KeyOf(f), f)
  }

  function NewInterleavedFile(f: FileEntry): InterleavedFile {
    InterleavedFile(KeyOf(f), f)
  }

  function PlaylistListing(dirs: DiscStructure.BdmvDirectories): seq<FileEntry> {
    ListWithFallback(dirs.playlist, ".mpls", dirs.playlist, ".MPLS")
  }

  function StreamListing(dirs: DiscStructure.BdmvDirectories): seq<FileEntry> {
    if dirs.stream.None? then [] else ListWithFallback(dirs.stream.value, ".m2ts", dirs.playlist, ".M2TS")
  }

  function ClipListing(dirs: DiscStructure.BdmvDirectories): seq<FileEntry> {
    ListWithFallback(dirs.clipinf, ".clpi", dirs.playlist, ".CLPI")
  }

  function InterleavedListing(dirs: DiscStructure.BdmvDirectories): seq<FileEntry> {
    if dirs.ssif.None? then [] else ListWithFallback(dirs.ssif.value, ".ssif", dirs.ssif.value, ".SSIF")
  }

  /** The stream-file registry: each entry's file is named by its key and
      not yet paired. */
  function StreamRegistry(files: seq<FileEntry>): (r: Result<Registry<StreamFile>>)
    ensures r.Success? <==> Distinct(KeysOf(files))
    ensures r.Success? ==> Keys(r.value) == KeysOf(files)
    ensures r.Success? ==> forall i :: 0 <= i < |r.value| ==>
      r.value[i].value.interleaved.None? && r.value[i].value.name == r.value[i].key
    ensures r.Success? ==> forall i :: 0 <= i < |r.value| ==> r.value[i].value.fileInfo == Some(files[i])
    ensures r.Failure? ==> r.error == DuplicateKey
  {
    BuildRegistry(files, NewStreamFile)
  }

  /** `InitializeFileLists`: playlists, stream files, clip-info files, then
      interleaved files; the first duplicate upper-cased name throws. */
  function InitializeFileLists(dirs: DiscStructure.BdmvDirectories): (r: Result<Registries>)
    ensures r.Success? <==>
      && Distinct(KeysOf(PlaylistListing(dirs))) && Distinct(KeysOf(StreamListing(dirs)))
      && Distinct(KeysOf(ClipListing(dirs))) && Distinct(KeysOf(InterleavedListing(dirs)))
    ensures r.Success? ==>
      && Keys(r.value.playlists) == KeysOf(PlaylistListing(dirs))
      && Keys(r.value.streams) == KeysOf(StreamListing(dirs))
      && Keys(r.value.clips) == KeysOf(ClipListing(dirs))
      && Keys(r.value.interleaved) == KeysOf(InterleavedListing(dirs))
    ensures r.Success? ==> forall i :: 0 <= i < |r.value.streams| ==>
      r.value.streams[i].value.interleaved.None? && r.value.streams[i].value.name == r.value.streams[i].key
    ensures r.Success? ==> forall i :: 0 <= i < |r.value.streams| ==>
      r.value.streams[i].value.fileInfo == Some(StreamListing(dirs)[i])
    ensures r.Success? ==> forall i :: 0 <= i < |r.value.playlists| ==>
      r.value.playlists[i].value == PlaylistListing(dirs)[i]
    ensures r.Success? ==> forall i :: 0 <= i < |r.value.clips| ==>
      r.value.clips[i].value.fileInfo == ClipListing(dirs)[i] && r.value.clips[i].value.name == r.value.clips[i].key
    ensures r.Success? ==> forall i :: 0 <= i < |r.value.interleaved| ==>
      r.value.interleaved[i].value.fileInfo == InterleavedListing(dirs)[i]
      && r.value.interleaved[i].value.name == r.value.interleaved[i].key
    ensures r.Failure? ==> r.error == DuplicateKey
  {
    var playlists :- BuildRegistry(PlaylistListing(dirs), f => f);
    var streams :- StreamRegistry(StreamListing(dirs));
    var clips :- BuildRegistry(ClipListing(dirs), NewStreamClipFile);
    var interleaved :- BuildRegistry(InterleavedListing(dirs), NewInterleavedFile);
    Success(Registries(playlists, streams, clips, interleaved))
  }

  /** The interleaved-file name a stream file is paired with: an SSIF file
      with the stream file's base name. */
  function SsifNameOf(streamName: string): (r: string)
    ensures DiscStructure.IsSsif(FileEntry(r, 0))
    ensures Text.WithoutExtension(r) == Text.WithoutExtension(streamName)
  {
    var base := Text.WithoutExtension(streamName);
    var r := base + DiscStructure.SsifExtension;
    assert r[|base|..] == DiscStructure.SsifExtension;
    DiscStructure.SsifExtensionIsUpperCase();
    Text.ExtensionOfSuffix(r, DiscStructure.SsifExtension);
    DiscStructure.IsSsifIffSsifSuffix(FileEntry(r, 0));
    r
  }

  /** One stream file after pairing: it gains the interleaved file named
      "<base>.SSIF" when the registry holds one, and is otherwise unchanged. */
  function Paired(s: StreamFile, interleaved: Registry<InterleavedFile>): (r: StreamFile)
    ensures r.name == s.name && r.fileInfo == s.fileInfo
    ensures SsifNameOf(s.name) in Keys(interleaved) ==> r.interleaved == Lookup(interleaved, SsifNameOf(s.name))
    ensures SsifNameOf(s.name) !in Keys(interleaved) ==> r.interleaved == s.interleaved
  {
    var paired := Lookup(interleaved, SsifNameOf(s.name));
    if paired.Some? then s.(interleaved := paired) else s
  }

  /** `ScanInterleavedFiles`: every stream file is paired in place. */
  function ScanInterleavedFiles(streams: Registry<StreamFile>, interleaved: Registry<InterleavedFile>): (r: Registry<StreamFile>)
    ensures |r| == |streams|
    ensures forall i :: 0 <= i < |r| ==> r[i] == Entry(streams[i].key, Paired(streams[i].value, interleaved))
  {
    seq(|streams|, i requires 0 <= i < |streams| => Entry(streams[i].key, Paired(streams[i].value, interleaved)))
  }

  /** A stream file "<base>.M2TS" is paired exactly when "<base>.SSIF" is an
      interleaved registry key; no other stream file gains a pairing. */
  lemma PairingByBaseName(streams: Registry<StreamFile>, interleaved: Registry<InterleavedFile>, i: int, base: string)
    requires 0 <= i < |streams| && streams[i].value.interleaved.None?
    requires streams[i].value.name == base + ".M2TS" && '.' !in base
    ensures ScanInterleavedFiles(streams, interleaved)[i].value.interleaved.Some?
        <==> base + ".SSIF" in Keys(interleaved)
  {
    var name := base + ".M2TS";
    var k := Text.LastIndexOf(name, '.');
    assert name[|base|] == '.';
    assert forall j :: 0 <= j < |base| ==> name[j] == base[j];
    assert forall j :: |base| < j < |name| ==> name[j] == ".M2TS"[j - |base|];
    assert forall j :: |base| < j < |name| ==> name[j] != '.';
    assert k == |base|;
    assert Text.WithoutExtension(name) == base by {
      assert name[..|base|] == base;
    }
  }
}
