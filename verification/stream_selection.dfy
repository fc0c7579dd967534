/** `GetSelectedStreamFiles` of the main window: the stream files the
    bitrate scan is run on. With no playlist checked, every stream file of
    the registry; otherwise the stream files played by the clips of the
    checked playlists, each once, in the order they are first met. */
module StreamSelection {
  import opened Wrappers
  import opened BdTypes
  import opened FileRegistry

  /** `s` without repeats, each element kept at its first occurrence. */
  function Dedup<T(==,!new)>(s: seq<T>): (r: seq<T>)
    ensures forall x :: x in r <==> x in s
    ensures forall i, j :: 0 <= i < j < |r| ==> r[i] != r[j]
  {
    if s == [] then []
    else
      var d := Dedup(s[..|s| - 1]);
      var x := s[|s| - 1];
      assert forall y :: y in s <==> y in s[..|s| - 1] || y == x;
      if x in d then d else d + [x]
  }

  /** Elements are listed in the order of their first occurrence: the
      de-duplicated prefix of `s` is a prefix of the de-duplicated `s`. */
  lemma {:induction false} DedupKeepsFirstOccurrenceOrder<T(!new)>(s: seq<T>, k: nat)
    requires k <= |s|
    ensures Dedup(s[..k]) <= Dedup(s)
    decreases |s|
  {
    if k == |s| {
      assert s[..k] == s;
    } else {
      var t := s[..|s| - 1];
      DedupKeepsFirstOccurrenceOrder(t, k);
      assert t[..k] == s[..k];
    }
  }

  /** A sequence without repeats is left as it is. */
  lemma {:induction false} DedupOfDistinct<T(!new)>(s: seq<T>)
    requires forall i, j :: 0 <= i < j < |s| ==> s[i] != s[j]
    ensures Dedup(s) == s
  {
    if s != [] {
      var t := s[..|s| - 1];
      DedupOfDistinct(t);
      assert s[|s| - 1] !in t;
      assert t + [s[|s| - 1]] == s;
    }
  }

  /** The stream files of `clips`, one per clip (`clip.StreamFile`, which
      may be null). */
  function ClipStreamFiles(clips: seq<StreamClip>, streamFileOf: StreamClip -> Option<StreamFile>): (r: seq<Option<StreamFile>>)
    ensures |r| == |clips| && forall j :: 0 <= j < |clips| ==> r[j] == streamFileOf(clips[j])
  {
    seq(|clips|, j requires 0 <= j < |clips| => streamFileOf(clips[j]))
  }

  /** The clips of the playlist a checked row names (`ContainsKey`), or
      none when the registry has no such playlist. */
  function CheckedClips(playlists: Registry<PlaylistFile>, text: string): seq<StreamClip> {
    match Lookup(playlists, text)
    case None => []
    case Some(p) => p.clips
  }

  /** The clip lists of the checked rows, in list order. */
  function CheckedClipLists(playlists: Registry<PlaylistFile>, checked: seq<string>): (r: seq<seq<StreamClip>>)
    ensures |r| == |checked| && forall i :: 0 <= i < |checked| ==> r[i] == CheckedClips(playlists, checked[i])
  {
    seq(|checked|, i requires 0 <= i < |checked| => CheckedClips(playlists, checked[i]))
  }

  /** The stream files of the clips of `clipLists`, in order, with repeats. */
  function Candidates(clipLists: seq<seq<StreamClip>>, streamFileOf: StreamClip -> Option<StreamFile>): seq<Option<StreamFile>>
  {
    if clipLists == [] then []
    else
      Candidates(clipLists[..|clipLists| - 1], streamFileOf) +
      ClipStreamFiles(clipLists[|clipLists| - 1], streamFileOf)
  }

  /** `x` is the stream file of some clip of `clipLists`. */
  predicate PlayedBy(clipLists: seq<seq<StreamClip>>, streamFileOf: StreamClip -> Option<StreamFile>, x: Option<StreamFile>) {
    exists i, j :: 0 <= i < |clipLists| && 0 <= j < |clipLists[i]| && streamFileOf(clipLists[i][j]) == x
  }

  lemma {:induction false} CandidatesAreThePlayedFiles(clipLists: seq<seq<StreamClip>>,
                                                       streamFileOf: StreamClip -> Option<StreamFile>, x: Option<StreamFile>)
    ensures x in Candidates(clipLists, streamFileOf) <==> PlayedBy(clipLists, streamFileOf, x)
  {
    if clipLists != [] {
      var n := |clipLists| - 1;
      var front := clipLists[..n];
      var last := ClipStreamFiles(clipLists[n], streamFileOf);
      CandidatesAreThePlayedFiles(front, streamFileOf, x);
      if x in Candidates(front, streamFileOf) {
        var i, j :| 0 <= i < |front| && 0 <= j < |front[i]| && streamFileOf(front[i][j]) == x;
        assert clipLists[i] == front[i];
      }
      if x in last {
        var j :| 0 <= j < |last| && last[j] == x;
        assert streamFileOf(clipLists[n][j]) == x;
      }
      if PlayedBy(clipLists, streamFileOf, x) {
        var i, j :| 0 <= i < |clipLists| && 0 <= j < |clipLists[i]| && streamFileOf(clipLists[i][j]) == x;
        if i < n {
          assert front[i] == clipLists[i];
        } else {
          assert last[j] == x;
        }
      }
    }
  }

  /** One more element: kept only when it is new. */
  lemma DedupSnoc<T(!new)>(s: seq<T>, x: T)
    ensures Dedup(s + [x]) == if x in Dedup(s) then Dedup(s) else Dedup(s) + [x]
  {
    assert (s + [x])[..|s|] == s;
  }

  /** The inner `foreach` over the clips of one checked playlist. */
  method AddClipStreamFiles(r0: seq<Option<StreamFile>>, ghost front: seq<Option<StreamFile>>, clips: seq<StreamClip>,
                            streamFileOf: StreamClip -> Option<StreamFile>)
    returns (r: seq<Option<StreamFile>>)
    requires r0 == Dedup(front)
    ensures r == Dedup(front + ClipStreamFiles(clips, streamFileOf))
  {
    r := r0;
    assert front + ClipStreamFiles(clips[..0], streamFileOf) == front;
    for j := 0 to |clips|
      invariant r == Dedup(front + ClipStreamFiles(clips[..j], streamFileOf))
    {
      var x := streamFileOf(clips[j]);
      ghost var before := front + ClipStreamFiles(clips[..j], streamFileOf);
      assert front + ClipStreamFiles(clips[..j + 1], streamFileOf) == before + [x];
      DedupSnoc(before, x);
      if x !in r {
        r := r + [x];
      }
    }
    assert clips[..|clips|] == clips;
  }

  /** `GetSelectedStreamFiles`: `checked` holds the texts of the checked
      rows, in list order (empty when nothing is checked). */
  method GetSelectedStreamFiles(streams: Registry<StreamFile>, playlists: Registry<PlaylistFile>, checked: seq<string>,
                                streamFileOf: StreamClip -> Option<StreamFile>)
    returns (r: seq<Option<StreamFile>>)
    ensures checked == [] ==> |r| == |streams| && forall i :: 0 <= i < |streams| ==> r[i] == Some(streams[i].value)
    ensures checked != [] ==> r == Dedup(Candidates(CheckedClipLists(playlists, checked), streamFileOf))
  {
    r := [];
    if checked == [] {
      for i := 0 to |streams|
        invariant |r| == i && forall k :: 0 <= k < i ==> r[k] == Some(streams[k].value)
      {
        r := r + [Some(streams[i].value)];
      }
    } else {
      ghost var lists := CheckedClipLists(playlists, checked);
      for i := 0 to |checked|
        invariant r == Dedup(Candidates(lists[..i], streamFileOf))
      {
        var clips := CheckedClips(playlists, checked[i]);
        assert lists[..i + 1][..i] == lists[..i];
        assert Candidates(lists[..i + 1], streamFileOf) == Candidates(lists[..i], streamFileOf) + ClipStreamFiles(clips, streamFileOf);
        r := AddClipStreamFiles(r, Candidates(lists[..i], streamFileOf), clips, streamFileOf);
      }
      assert lists[..|checked|] == lists;
    }
  }

  /** With some row checked, the selection holds each stream file played by
      a checked playlist exactly once, and nothing else. */
  lemma SelectionIsThePlayedFilesOnce(playlists: Registry<PlaylistFile>, checked: seq<string>,
                                      streamFileOf: StreamClip -> Option<StreamFile>, x: Option<StreamFile>)
    ensures var r := Dedup(Candidates(CheckedClipLists(playlists, checked), streamFileOf));
      && (x in r <==> PlayedBy(CheckedClipLists(playlists, checked), streamFileOf, x))
      && forall i, j :: 0 <= i < j < |r| ==> r[i] != r[j]
  {
    CandidatesAreThePlayedFiles(CheckedClipLists(playlists, checked), streamFileOf, x);
  }
}
