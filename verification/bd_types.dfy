/** The entities the disc resolver, the comparers and the playlist view share:
    the directory tree of the disc, file records and stream descriptions. A
    C# null reference is an `Option` wherever the source tests for it. */
module BdTypes {
  import opened Wrappers

  /** A file of the disc: its name as listed and its length in bytes. */
  datatype FileEntry = FileEntry(name: string, length: nat)

  /** A directory of the disc: its name, its files and its subdirectories,
      each in listing order. */
  datatype Directory = Directory(name: string, files: seq<FileEntry>, children: seq<Directory>)

  /** The transport-stream codec classification (`TSStreamType`);
      `Unlisted` stands for any enumeration member the sort table does not name. */
  datatype StreamType =
    | Unknown
    | Mpeg1Video | Mpeg2Video | AvcVideo | Vc1Video | MvcVideo
    | Mpeg1Audio | Mpeg2Audio | Ac3PlusSecondaryAudio | DtsHdSecondaryAudio
    | Ac3Audio | DtsAudio | Ac3PlusAudio | DtsHdAudio | Ac3TrueHdAudio
    | DtsHdMasterAudio | LpcmAudio
    | Subtitle | InteractiveGraphics | PresentationGraphics
    | Unlisted(code: nat)
  {
    predicate IsAudio() {
      || Mpeg1Audio? || Mpeg2Audio? || Ac3PlusSecondaryAudio? || DtsHdSecondaryAudio?
      || Ac3Audio? || DtsAudio? || Ac3PlusAudio? || DtsHdAudio? || Ac3TrueHdAudio?
      || DtsHdMasterAudio? || LpcmAudio?
    }

    predicate IsGraphics() {
      Subtitle? || InteractiveGraphics? || PresentationGraphics?
    }
  }

  /** `TSFrameRate`. */
  datatype FrameRate = UnknownRate | Fps23976 | Fps24 | Fps25 | Fps29970 | Fps50 | Fps59940

  /** `objectId` stands for the object's identity: two stream references
      are the same object exactly when the values are equal. */
  datatype VideoStream = VideoStream(pid: nat, height: int, frameRate: FrameRate)

  datatype AudioStream = AudioStream(
    objectId: nat, pid: nat, channelCount: int, streamType: StreamType,
    languageCode: string, languageName: string)

  datatype TextStream = TextStream(
    objectId: nat, pid: nat, languageCode: string, languageName: string)

  datatype GraphicsStream = GraphicsStream(
    objectId: nat, pid: nat, streamType: StreamType, languageCode: string, languageName: string)

  /** An interleaved (.SSIF) file. */
  datatype InterleavedFile = InterleavedFile(name: string, fileInfo: FileEntry)

  /** A transport-stream (.M2TS) file: its upper-cased name, its file record
      (absent when the source's `FileInfo` is null) and the interleaved file
      paired with it. */
  datatype StreamFile = StreamFile(name: string, fileInfo: Option<FileEntry>, interleaved: Option<InterleavedFile>)

  /** A clip-info (.CLPI) file. */
  datatype StreamClipFile = StreamClipFile(name: string, fileInfo: FileEntry)

  /** One play item of a playlist: the stream file it plays (by registry
      name) and its angle (0 = primary angle). */
  datatype StreamClip = StreamClip(name: string, angleIndex: nat)

  /** A playlist as the (unmodelled) playlist parser leaves it.
      `totalLength` stands for the source's floating-point `TotalLength` and
      is only ever compared. */
  datatype PlaylistFile = PlaylistFile(
    name: string, totalLength: int, isValid: bool, hasHiddenTracks: bool,
    clips: seq<StreamClip>, videoStreams: seq<VideoStream>)

  /** Does some clip of `p` play the stream file named `name`? */
  predicate References(p: PlaylistFile, name: string) {
    exists i :: 0 <= i < |p.clips| && p.clips[i].name == name
  }
}
