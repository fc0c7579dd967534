/** The ordering rules of `ComparerUtilities`: three-way comparers returning
    -1, 0 or 1, with a missing (null) argument as `None`. */
module Comparers {
  import opened Wrappers
  import opened BdTypes
  import Text
  import Sorting

  const English: string := "eng"

  /** A stream file that is null or has a null `FileInfo`. */
  predicate Missing(x: Option<StreamFile>) {
    x.None? || x.value.fileInfo.None?
  }

  function Length(x: Option<StreamFile>): nat
    requires !Missing(x)
  {
    x.value.fileInfo.value.length
  }

  /** `CompareStreamFiles`: missing files last, the rest by ascending length.
      (The source's third test also checks `x`, which is always present once
      the first two tests have failed.) */
  function CompareStreamFiles(x: Option<StreamFile>, y: Option<StreamFile>): (r: int)
    ensures -1 <= r <= 1
    ensures Missing(x) && Missing(y) ==> r == 0
    ensures Missing(x) && !Missing(y) ==> r == 1
    ensures !Missing(x) && Missing(y) ==> r == -1
    ensures !Missing(x) && !Missing(y) ==>
      (r < 0 <==> Length(x) < Length(y)) && (r == 0 <==> Length(x) == Length(y))
  {
    if Missing(x) && Missing(y) then 0
    else if Missing(x) && !Missing(y) then 1
    else if Missing(y) then -1
    else if Length(x) > Length(y) then 1
    else if Length(y) > Length(x) then -1
    else 0
  }

  /** The sort key `CompareStreamFiles` orders by: (missing, length). */
  function StreamFileKey(x: Option<StreamFile>): (int, int) {
    if Missing(x) then (1, 0) else (0, Length(x))
  }

  /** Three-way lexicographic comparison of integer pairs. */
  function CompareKeys(a: (int, int), b: (int, int)): int {
    if a.0 < b.0 then -1 else if a.0 > b.0 then 1
    else if a.1 < b.1 then -1 else if a.1 > b.1 then 1 else 0
  }

  /** `CompareStreamFiles` is the lexicographic order on (missing, length). */
  lemma CompareStreamFilesByKey(x: Option<StreamFile>, y: Option<StreamFile>)
    ensures CompareStreamFiles(x, y) == CompareKeys(StreamFileKey(x), StreamFileKey(y))
  {
  }

  /** `CompareStreamFiles` is a total preorder, so sorting by it is well defined. */
  lemma CompareStreamFilesTotalPreorder()
    ensures Sorting.TotalPreorder(CompareStreamFiles)
  {
    forall x, y, z | CompareStreamFiles(x, y) <= 0 && CompareStreamFiles(y, z) <= 0
      ensures CompareStreamFiles(x, z) <= 0
    {
      CompareStreamFilesByKey(x, y);
      CompareStreamFilesByKey(y, z);
      CompareStreamFilesByKey(x, z);
    }
  }

  /** `ComparePlaylistFiles`: nulls last, longer total length first, then by name. */
  function ComparePlaylistFiles(x: Option<PlaylistFile>, y: Option<PlaylistFile>): (r: int)
    ensures -1 <= r <= 1
    ensures x.None? && y.None? ==> r == 0
    ensures x.None? && y.Some? ==> r == 1
    ensures x.Some? && y.None? ==> r == -1
    ensures x.Some? && y.Some? && x.value.totalLength != y.value.totalLength ==>
      (r < 0 <==> x.value.totalLength > y.value.totalLength)
    ensures x.Some? && y.Some? && x.value.totalLength == y.value.totalLength ==>
      r == Text.CompareOrdinal(x.value.name, y.value.name)
  {
    if x.None? && y.None? then 0
    else if x.None? && y.Some? then 1
    else if x.Some? && y.None? then -1
    else if x.value.totalLength > y.value.totalLength then -1
    else if y.value.totalLength > x.value.totalLength then 1
    else Text.CompareOrdinal(x.value.name, y.value.name)
  }

  /** Two playlists compare equal only when they are both null or agree on
      total length and name. */
  lemma ComparePlaylistFilesZero(x: Option<PlaylistFile>, y: Option<PlaylistFile>)
    ensures ComparePlaylistFiles(x, y) == 0 <==>
      (x.None? && y.None?) ||
      (x.Some? && y.Some? && x.value.totalLength == y.value.totalLength && x.value.name == y.value.name)
  {
    if x.Some? && y.Some? {
      Text.CompareOrdinalZeroIffEqual(x.value.name, y.value.name);
    }
  }

  lemma ComparePlaylistFilesTotalPreorder()
    ensures Sorting.TotalPreorder(ComparePlaylistFiles)
  {
    forall x, y
      ensures ComparePlaylistFiles(x, y) == -ComparePlaylistFiles(y, x)
    {
      if x.Some? && y.Some? {
        Text.CompareOrdinalAntisymmetric(x.value.name, y.value.name);
      }
    }
    forall x, y, z | ComparePlaylistFiles(x, y) <= 0 && ComparePlaylistFiles(y, z) <= 0
      ensures ComparePlaylistFiles(x, z) <= 0
    {
      if x.Some? && y.Some? && z.Some?
        && x.value.totalLength == y.value.totalLength == z.value.totalLength
      {
        Text.CompareOrdinalTransitive(x.value.name, y.value.name, z.value.name);
      }
    }
  }

  /** `CompareVideoStreams`: nulls last, taller picture first, then lower PID first. */
  function CompareVideoStreams(x: Option<VideoStream>, y: Option<VideoStream>): (r: int)
    ensures -1 <= r <= 1
    ensures x.None? && y.None? ==> r == 0
    ensures x.None? && y.Some? ==> r == 1
    ensures x.Some? && y.None? ==> r == -1
    ensures x.Some? && y.Some? ==>
      (r == 0 <==> x.value.height == y.value.height && x.value.pid == y.value.pid)
    ensures x.Some? && y.Some? && x.value.height != y.value.height ==>
      (r < 0 <==> x.value.height > y.value.height)
    ensures x.Some? && y.Some? && x.value.height == y.value.height ==>
      (r < 0 <==> x.value.pid < y.value.pid)
  {
    if x.None? && y.None? then 0
    else if x.None? && y.Some? then 1
    else if x.Some? && y.None? then -1
    else if x.value.height > y.value.height then -1
    else if y.value.height > x.value.height then 1
    else if x.value.pid > y.value.pid then 1
    else if y.value.pid > x.value.pid then -1
    else 0
  }

  lemma CompareVideoStreamsTotalPreorder()
    ensures Sorting.TotalPreorder(CompareVideoStreams)
  {
  }

  /** `GetStreamTypeSortIndex`: the rank of a codec within its kind. */
  function StreamTypeSortIndex(t: StreamType): (r: int)
    ensures 0 <= r <= 11
    ensures t.Unknown? || t.Unlisted? ==> r == 0
    ensures t.IsAudio() ==> 1 <= r
    ensures t.IsAudio() ==> (r == 11 <==> t.LpcmAudio?) && (r == 10 <==> t.DtsHdMasterAudio?)
    ensures t.IsGraphics() ==> r == (if t.PresentationGraphics? then 3 else if t.InteractiveGraphics? then 2 else 1)
  {
    match t
    case Unknown => 0
    case Mpeg1Video => 1
    case Mpeg2Video => 2
    case AvcVideo => 3
    case Vc1Video => 4
    case MvcVideo => 5
    case Mpeg1Audio => 1
    case Mpeg2Audio => 2
    case Ac3PlusSecondaryAudio => 3
    case DtsHdSecondaryAudio => 4
    case Ac3Audio => 5
    case DtsAudio => 6
    case Ac3PlusAudio => 7
    case DtsHdAudio => 8
    case Ac3TrueHdAudio => 9
    case DtsHdMasterAudio => 10
    case LpcmAudio => 11
    case Subtitle => 1
    case InteractiveGraphics => 2
    case PresentationGraphics => 3
    case Unlisted(_) => 0
  }

  /** Distinct audio codecs never share a rank, so among audio streams the
      rank decides every tie of channel count. */
  lemma AudioSortIndexInjective(s: StreamType, t: StreamType)
    requires s.IsAudio() && t.IsAudio() && s != t
    ensures StreamTypeSortIndex(s) != StreamTypeSortIndex(t)
  {
  }

  /** The language rule shared by the audio, text and graphics comparers once
      their earlier keys tie: "eng" first (tested on `x` before `y`), then by
      language name when the codes differ, then by ascending PID. */
  function CompareLanguageThenPid(xCode: string, xName: string, xPid: nat,
                                  yCode: string, yName: string, yPid: nat): (r: int)
    ensures -1 <= r <= 1
    ensures xCode == English ==> r == -1
    ensures xCode != English && yCode == English ==> r == 1
    ensures xCode != English && yCode != English && xCode != yCode ==> r == Text.CompareOrdinal(xName, yName)
    ensures xCode != English && xCode == yCode ==> (r == 0 <==> xPid == yPid) && (r < 0 <==> xPid < yPid)
  {
    if xCode == English then -1
    else if yCode == English then 1
    else if xCode != yCode then Text.CompareOrdinal(xName, yName)
    else if xPid < yPid then -1
    else if yPid < xPid then 1
    else 0
  }

  /** `CompareAudioStreams`: the same object is 0, nulls FIRST, more channels
      first, higher codec rank first, then the language rule. */
  function CompareAudioStreams(x: Option<AudioStream>, y: Option<AudioStream>): (r: int)
    ensures -1 <= r <= 1
    ensures x == y ==> r == 0
    ensures x.None? && y.Some? ==> r == -1
    ensures x.Some? && y.None? ==> r == 1
    ensures x.Some? && y.Some? && x != y && x.value.channelCount != y.value.channelCount ==>
      (r < 0 <==> x.value.channelCount > y.value.channelCount)
    ensures (x.Some? && y.Some? && x != y && x.value.channelCount == y.value.channelCount
             && StreamTypeSortIndex(x.value.streamType) != StreamTypeSortIndex(y.value.streamType)) ==>
      (r < 0 <==> StreamTypeSortIndex(x.value.streamType) > StreamTypeSortIndex(y.value.streamType))
    ensures (x.Some? && y.Some? && x != y && x.value.channelCount == y.value.channelCount
             && StreamTypeSortIndex(x.value.streamType) == StreamTypeSortIndex(y.value.streamType)
             && x.value.languageCode == English) ==> r == -1
    ensures (x.Some? && y.Some? && x != y && x.value.channelCount == y.value.channelCount
             && StreamTypeSortIndex(x.value.streamType) == StreamTypeSortIndex(y.value.streamType)) ==>
      r == CompareLanguageThenPid(x.value.languageCode, x.value.languageName, x.value.pid,
                                  y.value.languageCode, y.value.languageName, y.value.pid)
  {
    if x == y then 0
    else if x.None? && y.None? then 0
    else if x.None? && y.Some? then -1
    else if x.Some? && y.None? then 1
    else
      var a, b := x.value, y.value;
      if a.channelCount > b.channelCount then -1
      else if b.channelCount > a.channelCount then 1
      else
        var sortX := StreamTypeSortIndex(a.streamType);
        var sortY := StreamTypeSortIndex(b.streamType);
        if sortX > sortY then -1
        else if sortY > sortX then 1
        else CompareLanguageThenPid(a.languageCode, a.languageName, a.pid,
                                    b.languageCode, b.languageName, b.pid)
  }

  /** `CompareTextStreams`: the same object is 0, nulls first, then the language rule. */
  function CompareTextStreams(x: Option<TextStream>, y: Option<TextStream>): (r: int)
    ensures -1 <= r <= 1
    ensures x == y ==> r == 0
    ensures x.None? && y.Some? ==> r == -1
    ensures x.Some? && y.None? ==> r == 1
    ensures x.Some? && y.Some? && x != y && x.value.languageCode == English ==> r == -1
    ensures x.Some? && y.Some? && x != y ==>
      r == CompareLanguageThenPid(x.value.languageCode, x.value.languageName, x.value.pid,
                                  y.value.languageCode, y.value.languageName, y.value.pid)
  {
    if x == y then 0
    else if x.None? && y.None? then 0
    else if x.None? && y.Some? then -1
    else if x.Some? && y.None? then 1
    else CompareLanguageThenPid(x.value.languageCode, x.value.languageName, x.value.pid,
                                y.value.languageCode, y.value.languageName, y.value.pid)
  }

  /** `CompareGraphicsStreams`: the same object is 0, nulls first, higher rank
      first (presentation, interactive, subtitle), then the language rule. */
  function CompareGraphicsStreams(x: Option<GraphicsStream>, y: Option<GraphicsStream>): (r: int)
    ensures -1 <= r <= 1
    ensures x == y ==> r == 0
    ensures x.None? && y.Some? ==> r == -1
    ensures x.Some? && y.None? ==> r == 1
    ensures (x.Some? && y.Some? && x != y
             && StreamTypeSortIndex(x.value.streamType) != StreamTypeSortIndex(y.value.streamType)) ==>
      (r < 0 <==> StreamTypeSortIndex(x.value.streamType) > StreamTypeSortIndex(y.value.streamType))
    ensures (x.Some? && y.Some? && x != y
             && StreamTypeSortIndex(x.value.streamType) == StreamTypeSortIndex(y.value.streamType)
             && x.value.languageCode == English) ==> r == -1
    ensures (x.Some? && y.Some? && x != y
             && StreamTypeSortIndex(x.value.streamType) == StreamTypeSortIndex(y.value.streamType)) ==>
      r == CompareLanguageThenPid(x.value.languageCode, x.value.languageName, x.value.pid,
                                  y.value.languageCode, y.value.languageName, y.value.pid)
  {
    if x == y then 0
    else if x.None? && y.None? then 0
    else if x.None? && y.Some? then -1
    else if x.Some? && y.None? then 1
    else
      var sortX := StreamTypeSortIndex(x.value.streamType);
      var sortY := StreamTypeSortIndex(y.value.streamType);
      if sortX > sortY then -1
      else if sortY > sortX then 1
      else CompareLanguageThenPid(x.value.languageCode, x.value.languageName, x.value.pid,
                                  y.value.languageCode, y.value.languageName, y.value.pid)
  }

  /** The "eng" rule breaks antisymmetry: two distinct English audio streams
      with equal channel count and codec rank each sort before the other. */
  lemma AudioEnglishNotAntisymmetric()
    ensures exists x: AudioStream, y: AudioStream ::
      CompareAudioStreams(Some(x), Some(y)) == -1 && CompareAudioStreams(Some(y), Some(x)) == -1
  {
    var x := AudioStream(1, 0x1100, 6, Ac3Audio, English, "English");
    var y := AudioStream(2, 0x1101, 6, Ac3Audio, English, "English");
    assert CompareAudioStreams(Some(x), Some(y)) == -1;
    assert CompareAudioStreams(Some(y), Some(x)) == -1;
  }

  /** The same holds of the text and graphics comparers. */
  lemma TextAndGraphicsEnglishNotAntisymmetric()
    ensures exists x: TextStream, y: TextStream ::
      CompareTextStreams(Some(x), Some(y)) == -1 && CompareTextStreams(Some(y), Some(x)) == -1
    ensures exists x: GraphicsStream, y: GraphicsStream ::
      CompareGraphicsStreams(Some(x), Some(y)) == -1 && CompareGraphicsStreams(Some(y), Some(x)) == -1
  {
    var t1 := TextStream(1, 0x1800, English, "English");
    var t2 := TextStream(2, 0x1801, English, "English");
    assert CompareTextStreams(Some(t1), Some(t2)) == -1;
    assert CompareTextStreams(Some(t2), Some(t1)) == -1;
    var g1 := GraphicsStream(3, 0x1200, PresentationGraphics, English, "English");
    var g2 := GraphicsStream(4, 0x1201, PresentationGraphics, English, "English");
    assert CompareGraphicsStreams(Some(g1), Some(g2)) == -1;
    assert CompareGraphicsStreams(Some(g2), Some(g1)) == -1;
  }

  /** Away from English, the language rule is antisymmetric, and it reaches
      the PID tie-break only for equal language codes. */
  lemma LanguageRuleAntisymmetricWithoutEnglish(xCode: string, xName: string, xPid: nat,
                                                yCode: string, yName: string, yPid: nat)
    requires xCode != English && yCode != English
    ensures CompareLanguageThenPid(xCode, xName, xPid, yCode, yName, yPid)
         == -CompareLanguageThenPid(yCode, yName, yPid, xCode, xName, xPid)
  {
    Text.CompareOrdinalAntisymmetric(xName, yName);
  }

  /** Hence the audio comparer is antisymmetric on streams whose language is not "eng". */
  lemma AudioAntisymmetricWithoutEnglish(x: Option<AudioStream>, y: Option<AudioStream>)
    requires x.Some? ==> x.value.languageCode != English
    requires y.Some? ==> y.value.languageCode != English
    ensures CompareAudioStreams(x, y) == -CompareAudioStreams(y, x)
  {
    if x.Some? && y.Some? && x != y {
      var a, b := x.value, y.value;
      LanguageRuleAntisymmetricWithoutEnglish(a.languageCode, a.languageName, a.pid,
                                              b.languageCode, b.languageName, b.pid);
    }
  }

  /** The text comparer is antisymmetric on streams whose language is not "eng". */
  lemma TextAntisymmetricWithoutEnglish(x: Option<TextStream>, y: Option<TextStream>)
    requires x.Some? ==> x.value.languageCode != English
    requires y.Some? ==> y.value.languageCode != English
    ensures CompareTextStreams(x, y) == -CompareTextStreams(y, x)
  {
    if x.Some? && y.Some? && x != y {
      var a, b := x.value, y.value;
      LanguageRuleAntisymmetricWithoutEnglish(a.languageCode, a.languageName, a.pid,
                                              b.languageCode, b.languageName, b.pid);
    }
  }

  /** The graphics comparer is antisymmetric on streams whose language is not "eng". */
  lemma GraphicsAntisymmetricWithoutEnglish(x: Option<GraphicsStream>, y: Option<GraphicsStream>)
    requires x.Some? ==> x.value.languageCode != English
    requires y.Some? ==> y.value.languageCode != English
    ensures CompareGraphicsStreams(x, y) == -CompareGraphicsStreams(y, x)
  {
    if x.Some? && y.Some? && x != y {
      var a, b := x.value, y.value;
      LanguageRuleAntisymmetricWithoutEnglish(a.languageCode, a.languageName, a.pid,
                                              b.languageCode, b.languageName, b.pid);
    }
  }
}
