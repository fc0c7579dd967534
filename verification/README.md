# BDInfo disc resolver, bitrate bookkeeping and playlist view — a Dafny model

BDInfo reads a Blu-ray disc (a folder or an ISO image) and reports its
playlists, clips and streams. This project models the sequential core that
needs no I/O, and proves properties of it:

- **Byte cursor** (`BytesReader`). The big-endian readers `ReadString`,
  `ReadInt32`, `ReadInt16` and `ReadByte` used by the clip-info and playlist
  decoders.
- **Ordering rules** (`Comparers`, `Sorting`). The three-way comparers that
  sort stream files, playlists and video, audio, text and graphics streams,
  and the stream-type rank table. Sorting is modelled with any comparer that
  is a total preorder.
- **Disc-structure resolver** (`DiscStructure`, `FileRegistry`,
  `ScanErrorPolicy`, `BdRomIso`). It covers:
  - locating BDMV, CLIPINF, PLAYLIST and the optional directories;
  - the disc size, which leaves out interleaved (`.SSIF`) files;
  - the BD+, BD-Java, PSP, 3D and D-Box flags;
  - the four registries keyed by upper-cased file name;
  - pairing each stream file with its interleaved file;
  - the continue / abort / rethrow error policy of the clip-info, playlist
    and stream-file scan loops;
  - scanning stream files shortest first, each with the playlists that play it;
  - the 50 Hz test.
- **Older `BDROM` class** (`BdRomLegacy`). Its copies of `GetDirectory`,
  `GetDirectorySize`, `CompareStreamFiles` and `Scan` are proved to agree
  with the definitions above.
- **Bitrate-scan bookkeeping** (`BitrateScan`). The first pass sums
  `TotalBytes` and builds the de-duplicated `PlaylistMap`. The second pass
  accumulates `FinishedBytes`, records `FileExceptions` (which stick once an
  exception has been seen) and stops on cancellation. The per-file scan is
  an outcome given for each list position.
- **Main-window logic** (`PlaylistView`, `StreamSelection`,
  `CustomPlaylistNames`). It covers:
  - the greedy "shares a clip name" grouping of valid playlists, the
    re-sorted groups, the list rows and the hidden-tracks note;
  - clip numbering by primary angle;
  - the stream files selected for a bitrate scan;
  - custom playlist names "USER.001", "USER.002", …

Modelling conventions:

- A C# `null` becomes `Option`. An exception becomes the `Failure` of a
  `Result`, carrying the source's message.
- A `Dictionary` becomes a `Registry`: a sequence of key/value entries in
  insertion order. `Add` fails on a duplicate key; the indexer setter is
  `Put`.
- The directory tree is an immutable `Directory` value. The per-file
  parsers, the error-event subscribers and the host check for
  `FilmIndex.xml` are inputs (`BdRomIso.ScanInputs`).

Two behaviours of the code worth stating plainly:

- **`GetDirectory` never finds grandchildren.** The recursive call's
  result at BDInfo/BDROM/BdRomIso.cs:393-399 is discarded, so only direct
  children are ever returned, whatever `searchDepth` is. The model returns
  the first direct child, and `DiscStructure.GetDirectoryFindsNoGrandchild`
  shows a grandchild is not found.
- **The PLAYLIST fallback.** The upper-case fallback for `.M2TS` and `.CLPI`
  files lists the PLAYLIST directory, as the code does (BDInfo/BDROM/BdRomIso.cs
  lines 213 and 227). A wildcard listing ignores case, so `*.m2ts` already
  finds `00001.M2TS`: the fallback runs only when STREAM (or CLIPINF) holds
  no file of that extension in any case, and then lists PLAYLIST instead.
  `DiscStructure.UpperCaseNameIsListed` shows an upper-case name is listed
  by the lower-case pattern.

## Model

| member | source | states |
|---|---|---|
| BytesReader.ReadString | BDInfo/Utilities/BytesReaderUtilities.cs:11-22 | succeeds iff `count >= 0` and `pos + count` is within the buffer; returns exactly `count` characters, the i-th being the ASCII reading of byte `pos + i`, and advances the cursor by `count`; otherwise the out-of-range exception |
| BytesReader.ReadInt32 | BDInfo/Utilities/BytesReaderUtilities.cs:24-37 | succeeds iff four bytes remain; advances by 4; the value is the big-endian 32-bit pattern read as a two's-complement `int` (congruent to it modulo 2^32, within [-2^31, 2^31)), negative exactly when the first byte is at least 0x80 |
| BytesReader.ReadInt16 | BDInfo/Utilities/BytesReaderUtilities.cs:39-50 | succeeds iff two bytes remain; the value is `256*data[pos] + data[pos+1]`, always in [0, 65535]; advances by 2 |
| BytesReader.ReadByte | BDInfo/Utilities/BytesReaderUtilities.cs:52-57 | succeeds iff the cursor is within the buffer; returns `data[pos]` and advances by exactly 1 |
| BytesReader.ReadInt16AsTwoBytes | BDInfo/Utilities/BytesReaderUtilities.cs:39-57 | a 16-bit read succeeds iff the two byte reads at `pos` and `pos + 1` do, and then equals the high byte times 256 plus the low byte, ending where the second byte read ends |
| BytesReader.ReadInt16RoundTrip | BDInfo/Utilities/BytesReaderUtilities.cs:43-45 | any value in [0, 65536) written as two big-endian bytes, anywhere in a buffer, reads back unchanged and the cursor ends after it |
| BytesReader.ReadInt32RoundTrip | BDInfo/Utilities/BytesReaderUtilities.cs:29-32 | any 32-bit signed value written big-endian reads back unchanged, sign included |
| BytesReader.ReadInt32AsTwoInt16 | BDInfo/Utilities/BytesReaderUtilities.cs:24-50 | when the first byte is below 0x80, `ReadInt32` equals the first `ReadInt16` times 65536 plus the second, and ends at the same position |
| BytesReader.ReadStringRoundTrip | BDInfo/Utilities/BytesReaderUtilities.cs:11-22 | a 7-bit string encoded byte per character reads back unchanged |
| Comparers.CompareStreamFiles | BDInfo/Utilities/ComparerUtilities.cs:7-38 | a file that is null or has no file record sorts after every present file; two such files compare 0; present files compare by ascending length, and 0 exactly for equal lengths |
| Comparers.CompareStreamFilesTotalPreorder | BDInfo/Utilities/ComparerUtilities.cs:7-38 | the stream-file comparer is antisymmetric and transitive |
| Comparers.ComparePlaylistFiles | BDInfo/Utilities/ComparerUtilities.cs:40-69 | nulls last; a longer total length sorts first; equal lengths are ordered by name |
| Comparers.ComparePlaylistFilesZero | BDInfo/Utilities/ComparerUtilities.cs:40-69 | two present playlists compare 0 exactly when their total lengths and names are equal |
| Comparers.ComparePlaylistFilesTotalPreorder | BDInfo/Utilities/ComparerUtilities.cs:40-69 | the playlist comparer is antisymmetric and transitive |
| Comparers.CompareVideoStreams | BDInfo/Utilities/ComparerUtilities.cs:71-108 | nulls last; a greater height first, then a lower PID first; 0 exactly when height and PID are both equal |
| Comparers.StreamTypeSortIndex | BDInfo/Utilities/ComparerUtilities.cs:298-348 | ranks lie in 0..11; `Unknown` and unlisted types rank 0; among audio codecs LPCM alone ranks 11 and DTS-HD Master alone ranks 10; graphics rank presentation 3, interactive 2, subtitle 1 |
| Comparers.AudioSortIndexInjective | BDInfo/Utilities/ComparerUtilities.cs:298-348 | distinct audio codecs never share a rank |
| Comparers.CompareLanguageThenPid | BDInfo/Utilities/ComparerUtilities.cs:153-174 | an "eng" `x` gives -1 whatever `y` is; otherwise an "eng" `y` gives 1; different codes compare by language name; equal codes compare by ascending PID |
| Comparers.CompareAudioStreams | BDInfo/Utilities/ComparerUtilities.cs:110-174 | the same object gives 0; nulls sort first; more channels first; then a higher codec rank first; with channel count and rank tied, the result is the language rule `CompareLanguageThenPid` of the two streams ("eng" `x` first, then "eng" `y`, then language name, then ascending PID) |
| Comparers.CompareTextStreams | BDInfo/Utilities/ComparerUtilities.cs:180-232 | the same object gives 0; nulls first; for two distinct streams the result is the language rule `CompareLanguageThenPid` ("eng" `x` gives -1, else "eng" `y` gives 1, else the language names when the codes differ, else ascending PID) |
| Comparers.CompareGraphicsStreams | BDInfo/Utilities/ComparerUtilities.cs:234-296 | the same object gives 0; nulls first; a higher graphics rank first; with the rank tied, the result is the language rule `CompareLanguageThenPid` ("eng" `x` first, then "eng" `y`, then language name, then ascending PID) |
| Comparers.AudioEnglishNotAntisymmetric | BDInfo/Utilities/ComparerUtilities.cs:153-174 | two distinct "eng" audio streams each compare -1 against the other |
| Comparers.TextAndGraphicsEnglishNotAntisymmetric | BDInfo/Utilities/ComparerUtilities.cs:180-296 | the same two-way -1 holds for text and for graphics streams |
| Comparers.AudioAntisymmetricWithoutEnglish | BDInfo/Utilities/ComparerUtilities.cs:110-174 | without an "eng" stream the audio comparer is antisymmetric |
| Comparers.TextAntisymmetricWithoutEnglish | BDInfo/Utilities/ComparerUtilities.cs:180-232 | without an "eng" stream the text comparer is antisymmetric |
| Comparers.GraphicsAntisymmetricWithoutEnglish | BDInfo/Utilities/ComparerUtilities.cs:234-296 | without an "eng" stream the graphics comparer is antisymmetric |
| Sorting.Sort | BDInfo/BDROM/BdRomIso.cs:295-297 | for a total-preorder comparer, the result is a permutation of the input ordered by the comparer |
| DiscStructure.GetDirectory | BDInfo/BDROM/BdRomIso.cs:381-402 | returns a direct child named exactly `name`, and none exactly when the directory is null or has no such child |
| DiscStructure.GetDirectoryFindsNoGrandchild | BDInfo/BDROM/BdRomIso.cs:393-399 | with search depth 1, a BDMV directory one level below a child is not found |
| DiscStructure.IsSsifIffSsifSuffix | BDInfo/BDROM/BdRomIso.cs:413 | a file is skipped as interleaved exactly when its name ends in ".SSIF" in any letter case |
| DiscStructure.GetDirectorySize | BDInfo/BDROM/BdRomIso.cs:404-428 | the recursive directory size equals the sum of the lengths of all files in the subtree whose upper-cased extension is not ".SSIF" |
| DiscStructure.AddingSsifKeepsSize | BDInfo/BDROM/BdRomIso.cs:411-418 | adding an interleaved file to a directory leaves its size unchanged |
| DiscStructure.SetBdmvDirectories | BDInfo/BDROM/BdRomIso.cs:119-148 | succeeds iff BDMV is a direct child of the root and CLIPINF and PLAYLIST are children of BDMV; a missing STREAM does not fail it; the failure carries "Unable to locate BD structure."; on success CLIPINF, PLAYLIST, BDJO and STREAM are the children of BDMV of those names, SNP the child of the root, and SSIF the child of STREAM (absent without STREAM), each optional one present exactly when such a child exists |
| DiscStructure.GetFiles | BDInfo/BDROM/BdRomIso.cs:196-240 | a `*.ext` listing holds exactly the files of the directory whose names end in the extension, letters compared regardless of case |
| DiscStructure.GetFilesIgnoresCase | BDInfo/BDROM/BdRomIso.cs:196-240 | patterns that differ only in letter case, such as `*.m2ts` and `*.M2TS`, list the same files |
| DiscStructure.UpperCaseNameIsListed | BDInfo/BDROM/BdRomIso.cs:210 | `*.m2ts` lists a STREAM file named `00001.M2TS` |
| DiscStructure.HasPspFiles | BDInfo/BDROM/BdRomIso.cs:174-178 | true iff SNP exists and holds a `*.mnv` or a `*.MNV` file, names matched regardless of case |
| DiscStructure.SetBdmvProperties | BDInfo/BDROM/BdRomIso.cs:150-190 | BD+ iff BDSVM, SLYVM or ANYVM is a child of the root; BD-Java iff BDJO holds a file; 3D iff SSIF holds a file; PSP as above; D-Box is the host check; the size is the flat subtree sum without ".SSIF" files |
| FileRegistry.Put | BDInfo/BDROM/BdRomIso.cs:509 | the indexer setter: afterwards the key maps to the new value, every other key maps as before, and keys stay distinct |
| FileRegistry.Add | BDInfo/BDROM/BdRomIso.cs:203-204 | `Dictionary.Add` succeeds iff the key is new, and appends the entry; otherwise the duplicate-key exception |
| FileRegistry.BuildRegistry | BDInfo/BDROM/BdRomIso.cs:201-205 | the registry of a file list succeeds iff the upper-cased names are distinct; its keys are those names in listing order, and each value is made from its file |
| FileRegistry.AddEach | BDInfo/BDROM/BdRomIso.cs:201-205 | the `Add` loop, file by file, builds that registry or stops at the first duplicate |
| FileRegistry.ListWithFallback | BDInfo/BDROM/BdRomIso.cs:196-200 | the upper-case pattern is listed (in the fallback directory) only when the lower-case one finds nothing, that is when no file of the directory has the extension in any case |
| FileRegistry.StreamRegistry | BDInfo/BDROM/BdRomIso.cs:208-220 | every new stream file is named by its key, holds its listed file as its file record, and is not yet paired |
| FileRegistry.InitializeFileLists | BDInfo/BDROM/BdRomIso.cs:192-250 | succeeds iff each of the four listings has distinct upper-cased names; the keys are those names; a listing holds the files with the extension in any letter case, so an all-upper-case disc is registered; the M2TS and CLPI fallbacks list PLAYLIST; the i-th entry of each registry holds the i-th listed file (the playlist file itself, or a stream, clip-info or interleaved record of it named by its key); stream files start unpaired |
| FileRegistry.SsifNameOf | BDInfo/BDROM/BdRomIso.cs:285 | the name looked up for a stream file is an interleaved-file name (extension ".SSIF") with the stream file's own name without extension |
| FileRegistry.Paired | BDInfo/BDROM/BdRomIso.cs:285-289 | a stream file gains the interleaved file registered as "<name without extension>.SSIF", and is otherwise unchanged |
| FileRegistry.ScanInterleavedFiles | BDInfo/BDROM/BdRomIso.cs:281-291 | every stream entry keeps its key and is paired in place |
| FileRegistry.PairingByBaseName | BDInfo/BDROM/BdRomIso.cs:281-291 | stream file "X.M2TS" gains an interleaved file iff "X.SSIF" is an interleaved registry key |
| ScanErrorPolicy.RunLoop | BDInfo/BDROM/BdRomIso.cs:252-279 | the loop stops only through a refusing handler, scans a prefix of the files, records exactly the failed ones, and rethrows only when no handler is subscribed |
| ScanErrorPolicy.FirstStop | BDInfo/BDROM/BdRomIso.cs:262-276 | the first file whose failure is not continued, or the file count |
| ScanErrorPolicy.RunLoopScansAllWithoutStop | BDInfo/BDROM/BdRomIso.cs:265-270 | when no failure stops it, every file is scanned and the loop completes |
| ScanErrorPolicy.RunLoopRethrowsFirstFailure | BDInfo/BDROM/BdRomIso.cs:276 | with no handler, the first failure's exception propagates |
| ScanErrorPolicy.RunLoopAbortsAtFirstRefusal | BDInfo/BDROM/BdRomIso.cs:271-274 | a handler's `false` ends the loop right after that file: no later file is scanned |
| ScanErrorPolicy.AlwaysContinueScansAll | BDInfo/BDROM/BdRomIso.cs:267-270 | a handler that always continues makes the loop scan every file |
| BdRomIso.SortedStreamFiles | BDInfo/BDROM/BdRomIso.cs:295-297 | the stream files are a permutation of the registry's, sorted by `CompareStreamFiles` |
| BdRomIso.SortedStreamsAscendingLength | BDInfo/BDROM/BdRomIso.cs:295-297 | in that order lengths ascend and files without a file record come last |
| BdRomIso.ReferencingPlaylists | BDInfo/BDROM/BdRomIso.cs:329-340 | the playlists handed to a stream file's scan are exactly those with a clip of its name, each at most once |
| BdRomIso.CollectReferencingPlaylists | BDInfo/BDROM/BdRomIso.cs:329-340 | the nested loop with `break` computes that list |
| BdRomIso.ScanFor50HzContent | BDInfo/BDROM/BdRomIso.cs:362-379 | the flag ends true iff it started true or some playlist has a 25 or 50 fps video stream; it is never lowered |
| BdRomIso.ScanFiles | BDInfo/BDROM/BdRomIso.cs:110-113 | after a successful scan the registries are the given ones with every stream file paired, the playlists are the decoded playlist files in registry order, the clip-info loop ran over the registry's clip files, the playlist loop over the decoded playlists and the stream loop over the sorted paired stream files each scanned with the playlists that play it, all three completed over prefixes of their inputs, and the 50 Hz flag is set as above; a failure is the error of some clip, playlist or stream file whose scan failed with no handler subscribed |
| BdRomIso.Scan | BDInfo/BDROM/BdRomIso.cs:96-117 | a missing BD structure fails the scan with its message; with the structure found, a duplicate upper-cased file name fails it with the duplicate-key exception; a success used the resolved directories, their properties and a successful registry build, whose registries it carries with the stream files paired; once the directories and registries are built, the result is exactly `ScanFiles` on them, so its loops, playlists, 50 Hz flag and failures are as stated there |
| BdRomIso.ScanVisitsStreamsShortestFirst | BDInfo/BDROM/BdRomIso.cs:295-297 | the stream files a successful scan visited came shortest first, files without a file record last |
| BdRomIso.ScanWithLenientHandlersScansEverything | BDInfo/BDROM/BdRomIso.cs:252-360 | with every handler subscribed and always continuing, a disc with the BD structure and distinct file names is scanned completely |
| BdRomLegacy.CompareStreamFilesAgrees | BDInfo/BDROM/BDROM.cs:411-444 | the older comparer never raises its possible null dereference and equals `ComparerUtilities.CompareStreamFiles` on every input |
| BdRomLegacy.GetDirectory | BDInfo/BDROM/BDROM.cs:358-383 | the loop version, with its discarded recursive descent, returns exactly `DiscStructure.GetDirectory` |
| BdRomLegacy.FirstNamedIsFirst | BDInfo/BDROM/BDROM.cs:366-372 | the first match of a left-to-right scan is the first child with that name |
| BdRomLegacy.FilesSize | BDInfo/BDROM/BDROM.cs:391-399 | the file loop sums the lengths of the files that are not ".SSIF" |
| BdRomLegacy.GetDirectorySize | BDInfo/BDROM/BDROM.cs:385-409 | the older recursive size equals the `BdRomIso` size |
| BdRomLegacy.Scan | BDInfo/BDROM/BDROM.cs:85-232 | fails with "Unable to locate BD structure." when BDMV is not a child of the root, or CLIPINF or PLAYLIST is missing; a success reports the flat subtree size |
| BdRomLegacy.ScanAgrees | BDInfo/BDROM/BDROM.cs:85-351 | the older scan and the `BdRomIso` scan give the same disc, or the same failure, on every input |
| BitrateScan.ScanLength | BDInfo/BDROM/BdRomIso.cs:453-461 | a file contributes its interleaved length when SSIF scanning is on and it is paired, else its own length, and fails where the source dereferences a null file record |
| BitrateScan.AppendReferencing | BDInfo/BDROM/BdRomIso.cs:468-482 | the list only grows, gains exactly the playlists with a clip of the name, and stays duplicate-free |
| BitrateScan.MapAddKeepsInvariant | BDInfo/BDROM/BdRomIso.cs:463-482 | after each stream file, every map entry lists exactly the playlists that play it, each once |
| BitrateScan.Prepare | BDInfo/BDROM/BdRomIso.cs:451-483 | succeeds iff every length can be read; then `TotalBytes` is the sum of the scan lengths, and the map has one duplicate-free, exact entry per stream file name |
| BitrateScan.Next | BDInfo/BDROM/BdRomIso.cs:505-510 | `FinishedBytes` grows by the file's own length; the shared exception is replaced only by a new one; a file is recorded in `FileExceptions` exactly when an exception is held, and its entry is the held exception; every other file's entry is unchanged |
| BitrateScan.ScanFrom | BDInfo/BDROM/BdRomIso.cs:487-512 | finished bytes never decrease, a held exception is never cleared, and recorded files stay recorded |
| BitrateScan.ScanBitrates | BDInfo/BDROM/BdRomIso.cs:437-526 | the whole scan: the first pass's failure ends it with the null dereference; otherwise the total, the map and the second pass as above |
| BitrateScan.ScanSelected | BDInfo/BDROM/BdRomIso.cs:451-460 | called with a selection holding a null entry, the scan ends with the null dereference; a selection without one is scanned as above |
| BitrateScan.CompletionClearsException | BDInfo/BDROM/BdRomIso.cs:487-512 | when every remaining file finishes and has a file record, the scan ends with no scan exception and `FinishedBytes` grown by the sum of those files' own lengths |
| BitrateScan.ExceptionIsSticky | BDInfo/BDROM/BdRomIso.cs:507-510 | once some file's scan raised an exception, every later file reached is recorded in `FileExceptions` |
| BitrateScan.CancellationStopsScan | BDInfo/BDROM/BdRomIso.cs:494-502 | cancellation ends the scan with "Scan was cancelled."; no later file is counted or recorded |
| PlaylistView.SortPlaylists | BDInfo/FormMain.cs:611-613 | the playlists are a permutation of the registry's values, ordered by `ComparePlaylistFiles` |
| PlaylistView.MatchingGroup | BDInfo/FormMain.cs:620-643 | the lowest-index group holding a valid playlist that shares a clip name with the new one, and none when no group does |
| PlaylistView.Place | BDInfo/FormMain.cs:644-652 | a matching playlist is appended to that group and no other group changes; otherwise it opens a new last group |
| PlaylistView.Group | BDInfo/FormMain.cs:615-653 | never more groups than valid playlists |
| PlaylistView.GroupPartitionsValidPlaylists | BDInfo/FormMain.cs:615-653 | the groups together hold exactly the valid playlists, each as often as it occurs |
| PlaylistView.GroupsNonEmptyAndValid | BDInfo/FormMain.cs:615-652 | no group is empty and no invalid playlist is in any group |
| PlaylistView.GroupsNeverMerge | BDInfo/FormMain.cs:644-652 | as playlists are taken in turn, groups only gain members at their end and new groups only appear at the end |
| PlaylistView.PlacementRule | BDInfo/FormMain.cs:620-652 | each valid playlist joins the lowest-index matching group, or opens a new group when none matches |
| PlaylistView.GroupsOfSortedAreSorted | BDInfo/FormMain.cs:611-652 | taking the playlists in comparer order builds every group already in comparer order |
| PlaylistView.SortEachGroup | BDInfo/FormMain.cs:659 | every group is re-sorted: a permutation of itself in comparer order |
| PlaylistView.Rows | BDInfo/FormMain.cs:656-731 | there is a row (n, p) iff p is a valid playlist of group n, counting from 1 |
| PlaylistView.AnyHiddenTracks | BDInfo/FormMain.cs:666-669 | the flag is true iff some listed row's playlist has hidden tracks |
| PlaylistView.LoadPlaylists | BDInfo/FormMain.cs:600-748 | the displayed groups are the built groups, each re-sorted; the rows list them; the hidden-tracks note is shown iff some row has hidden tracks |
| PlaylistView.ListedPlaylistsAreTheValidOnes | BDInfo/FormMain.cs:611-664 | a playlist appears in some row iff it is a valid playlist of the registry |
| PlaylistView.ClipIndices | BDInfo/FormMain.cs:770-781 | the shown index is the number of primary-angle clips so far: a primary clip increments it, an alternate-angle clip repeats the previous index |
| StreamSelection.Dedup | BDInfo/FormMain.cs:1026-1029 | keeps exactly the elements of the input, none twice |
| StreamSelection.DedupKeepsFirstOccurrenceOrder | BDInfo/FormMain.cs:1026-1029 | elements appear in the order of their first occurrence |
| StreamSelection.DedupOfDistinct | BDInfo/FormMain.cs:1026-1029 | a sequence without repeats is left unchanged |
| StreamSelection.CandidatesAreThePlayedFiles | BDInfo/FormMain.cs:1016-1031 | the collected stream files are exactly those of the clips of the checked playlists |
| StreamSelection.GetSelectedStreamFiles | BDInfo/FormMain.cs:1003-1037 | with nothing checked, every registry stream file in registry order; otherwise the stream files of the checked playlists' clips, de-duplicated in first-occurrence order |
| StreamSelection.SelectionIsThePlayedFilesOnce | BDInfo/FormMain.cs:1003-1037 | with some row checked, each stream file played by a checked playlist is selected exactly once, and nothing else is |
| CustomPlaylistNames.Decimal | BDInfo/FormMain.cs:464 | at least one digit, and no leading zero |
| CustomPlaylistNames.D3 | BDInfo/FormMain.cs:464 | at least three characters, all digits |
| CustomPlaylistNames.CustomNameRoundTrip | BDInfo/FormMain.cs:463-464 | "USER." plus the padded counter reads back as the counter |
| CustomPlaylistNames.CustomNamesInjective | BDInfo/FormMain.cs:463-464 | different counter values never give the same name |
| CustomPlaylistNames.StartScan | BDInfo/FormMain.cs:182 | after the reset, the next name is "USER.001" |
| CustomPlaylistNames.NextCustomName | BDInfo/FormMain.cs:463-464 | the counter is incremented first, and the name reads back as the new value |
| CustomPlaylistNames.NamesNeverRepeat | BDInfo/FormMain.cs:463-464 | a press made at a larger counter value, as every later press in a scan is, makes a different name |
| Text.CompareOrdinalZeroIffEqual | BDInfo/Utilities/ComparerUtilities.cs:66 | the string order gives 0 only for equal strings |
| Text.CompareOrdinalTransitive | BDInfo/Utilities/ComparerUtilities.cs:66 | the string order is transitive |

## Left out

- **Threads, the timer and events.** Scan threads, the one-second timer,
  `Thread.Abort`/`Join` and the progress events are concurrency. The
  per-file scan of a bitrate scan is an outcome per list position
  (`BitrateScan.FileOutcome`). Cancellation is that file's outcome, not a
  race.
- **Error-event subscribers.** These become `ScanErrorPolicy.ErrorHandler`.
  A missing subscriber is `NoHandler` and rethrows, as `BdRomIso` does; the
  scanner wrapper's default of aborting is not modelled. Registering a
  handler twice is not modelled either.
- **Parsers and transport-stream analysis.** The clip-info, playlist and
  stream-file parsers, and the packet engine (ISO/IEC 13818-1 section 2.4),
  are not part of this model. Their outcomes are inputs to
  `BdRomIso.ScanInputs`: `decodePlaylist`, `scanClip`, `scanPlaylist` and
  `scanStream`.
- **Playlist fields and state kept by a failed scan.** A playlist's clips,
  validity and hidden-track flag are taken as the parser leaves them.
  `TSPlaylistFile.Initialize` and `ClearBitrates` are not modelled. Neither
  is what a failed or skipped file keeps of a partial scan.
- **File-system access.** DiscUtils, `FileSystemUtilities` and
  `GetDiscFileInfo` are not modelled. The disc is a `Directory` value, and a
  file's length is read from it. An I/O error is not modelled.
- **`FilmIndex.xml`.** The host check for this file is the boolean input
  `filmIndexExists`.
- **String semantics.** The culture-sensitive `string.Compare` and
  `CompareTo` become the ordinal order `Text.CompareOrdinal`. `ToUpper` is
  ASCII-only. A wildcard pattern `*.ext` is a suffix test that ignores the
  case of ASCII letters. The Windows quirk by which a three-letter
  extension pattern such as `*.mnv` also matches longer extensions is not
  modelled.
- **Integer widths.** `long`/`ulong` sums (sizes, `TotalBytes`,
  `FinishedBytes`) and the `int` counters are unbounded here. Overflow
  needs 2^63 bytes or 2^31 clicks. A playlist's `TotalLength` is a
  `double` in the source and an integer `totalLength` here; it is only
  compared, never computed with.
- **Sort algorithm.** `Array.Sort` and `List.Sort` are an unstable
  introsort. They are modelled by a sort that returns a permutation ordered
  by the comparer. Where the comparer ties on distinct values, the actual
  order among them is not modelled.
- **Initial scan exception.** `ScanBitrates` first sets `ScanException` to
  "Scan is still running.". Every path the model covers overwrites it, so
  it does not appear.
- **UI and reports.** Form controls, message boxes, the report, list-view
  formatting of lengths and sizes, the command-line front end and
  floating-point progress are not modelled.
- **`BdRomIso` internals.** `CloseIsoStream` and `VolumeLabel` are
  not modelled.
- DiscStructure.IsSsif: every path reads files as DiscUtils `DiscFileInfo`
  objects. This covers both `BdRomIso` paths: `UdfReader` for an image and
  `NativeFileSystem` for a folder
  (BDInfo/Utilities/FileSystemUtilities.cs:13-21). It also covers the
  `UdfReader` of `BDROM` (BDInfo/BDROM/BDROM.cs:87-89). DiscUtils is not
  part of this model. Its `DiscFileInfo.Extension` is assumed to include
  the dot, as `System.IO.FileInfo.Extension` does. If it leaves the dot
  out, the `.SSIF` skip never fires on any path. The size then counts
  interleaved files too, and these contracts hold only under the
  assumption: `DiscStructure.IsSsifIffSsifSuffix`,
  `DiscStructure.GetDirectorySize`, `DiscStructure.AddingSsifKeepsSize`,
  the size part of `DiscStructure.SetBdmvProperties`,
  `BdRomLegacy.FilesSize` and `BdRomLegacy.GetDirectorySize`.
- DiscStructure.GetFiles: every path lists through DiscUtils (see the line
  above). Its wildcard match is taken to ignore case, as the Windows file
  system does.
- BdRomIso.ScanFiles: every decoded playlist is passed to
  `ReferencingPlaylists` and `ScanFor50HzContent`, including playlists the
  loop never scanned after an abort. In the source a playlist's clips and
  video streams are filled in by its own `Scan` (`TSPlaylistFile` is not
  part of this model), so an unscanned playlist would reference no stream
  file and not raise the 50 Hz flag.
- BitrateScan.ScanBitrates: the per-file outcome is indexed by list
  position, so a stream file listed twice may have two different outcomes.
  The source list holds no duplicates.
- StreamSelection.GetSelectedStreamFiles: a clip's `StreamFile` reference
  is the input function `streamFileOf`. A null reference is kept in the
  list as `None`, as the source would add `null`.
- PlaylistView.LoadPlaylists: the re-sort is a sort by the comparer. Its
  contract states a permutation in comparer order, not the introsort's
  exact placement of ties.
