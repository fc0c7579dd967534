/** The playlist list of the main window (`LoadPlaylists`): the valid
    playlists, taken in `ComparePlaylistFiles` order, are grouped greedily —
    a playlist joins the first group holding a playlist that plays a clip of
    the same name, or else opens a new group — then every group is re-sorted
    and listed under its group number. Also the clip numbering of the clip
    list (`LoadPlaylist`). */
module PlaylistView {
  import opened Wrappers
  import opened BdTypes
  import Sorting
  import Comparers
  import FileRegistry

  /** Two playlists compared as present (non-null) references. */
  function ComparePlaylists(a: PlaylistFile, b: PlaylistFile): int {
    Comparers.ComparePlaylistFiles(Some(a), Some(b))
  }

  lemma ComparePlaylistsTotalPreorder()
    ensures Sorting.TotalPreorder(ComparePlaylists)
  {
    Comparers.ComparePlaylistFilesTotalPreorder();
    forall x, y, z | ComparePlaylists(x, y) <= 0 && ComparePlaylists(y, z) <= 0
      ensures ComparePlaylists(x, z) <= 0
    {
      assert Comparers.ComparePlaylistFiles(Some(x), Some(z)) <= 0;
    }
    forall x, y
      ensures ComparePlaylists(x, y) == -ComparePlaylists(y, x)
    {
      assert Comparers.ComparePlaylistFiles(Some(x), Some(y)) == -Comparers.ComparePlaylistFiles(Some(y), Some(x));
    }
  }

  function SortPlaylists(s: seq<PlaylistFile>): (r: seq<PlaylistFile>)
    ensures multiset(r) == multiset(s)
    ensures Sorting.SortedBy(ComparePlaylists, r)
  {
    ComparePlaylistsTotalPreorder();
    Sorting.Sort(ComparePlaylists, s)
  }

  // ---------------------------------------------------------------------
  // Greedy grouping

  /** Some clip of `p1` has the name of some clip of `p2`. */
  predicate SharesClip(p1: PlaylistFile, p2: PlaylistFile) {
    exists i, j :: 0 <= i < |p1.clips| && 0 <= j < |p2.clips| && p1.clips[i].name == p2.clips[j].name
  }

  /** The inner search over one group: a valid member shares a clip with `p`. */
  predicate GroupMatches(group: seq<PlaylistFile>, p: PlaylistFile) {
    exists k :: 0 <= k < |group| && group[k].isValid && SharesClip(p, group[k])
  }

  /** The index of the first group of `groups[from..]` that `p` matches. */
  function MatchingGroupFrom(groups: seq<seq<PlaylistFile>>, p: PlaylistFile, from: nat): (r: Option<nat>)
    requires from <= |groups|
    ensures r.Some? ==> from <= r.value < |groups| && GroupMatches(groups[r.value], p)
    ensures forall g :: from <= g < |groups| && (r.None? || g < r.value) ==> !GroupMatches(groups[g], p)
    decreases |groups| - from
  {
    if from == |groups| then None
    else if GroupMatches(groups[from], p) then Some(from)
    else MatchingGroupFrom(groups, p, from + 1)
  }

  /** `matchingGroupIndex - 1`: the lowest-index group `p` matches, if any. */
  function MatchingGroup(groups: seq<seq<PlaylistFile>>, p: PlaylistFile): (r: Option<nat>)
    ensures r.Some? ==> r.value < |groups| && GroupMatches(groups[r.value], p)
    ensures forall g :: 0 <= g < |groups| && (r.None? || g < r.value) ==> !GroupMatches(groups[g], p)
  {
    MatchingGroupFrom(groups, p, 0)
  }

  /** One valid playlist placed: appended to the group it matches, or opening
      a new last group. */
  function Place(groups: seq<seq<PlaylistFile>>, p: PlaylistFile): (r: seq<seq<PlaylistFile>>)
    ensures MatchingGroup(groups, p).Some? ==>
      var g := MatchingGroup(groups, p).value;
      |r| == |groups| && r[g] == groups[g] + [p]
      && forall h :: 0 <= h < |groups| && h != g ==> r[h] == groups[h]
    ensures MatchingGroup(groups, p).None? ==> r == groups + [[p]]
  {
    match MatchingGroup(groups, p)
    case Some(g) => groups[g := groups[g] + [p]]
    case None => groups + [[p]]
  }

  /** The `foreach` over the sorted playlists: invalid playlists are skipped,
      valid ones placed in turn. Each valid playlist opens at most one
      group, and a list with no valid playlist yields no group. */
  function Group(s: seq<PlaylistFile>): (r: seq<seq<PlaylistFile>>)
    ensures |r| <= |ValidOnly(s)|
  {
    if s == [] then []
    else
      var groups := Group(s[..|s| - 1]);
      var p := s[|s| - 1];
      if p.isValid then Place(groups, p) else groups
  }

  /** The valid playlists of `s`, in order. */
  function ValidOnly(s: seq<PlaylistFile>): (r: seq<PlaylistFile>)
    ensures forall p :: p in r <==> p in s && p.isValid
  {
    if s == [] then []
    else ValidOnly(s[..|s| - 1]) + (if s[|s| - 1].isValid then [s[|s| - 1]] else [])
  }

  /** Every playlist of every group, counted with multiplicity. */
  ghost function Members(groups: seq<seq<PlaylistFile>>): multiset<PlaylistFile> {
    if groups == [] then multiset{}
    else Members(groups[..|groups| - 1]) + multiset(groups[|groups| - 1])
  }

  lemma {:induction false} MembersAppendGroup(groups: seq<seq<PlaylistFile>>, group: seq<PlaylistFile>)
    ensures Members(groups + [group]) == Members(groups) + multiset(group)
  {
    assert (groups + [group])[..|groups|] == groups;
  }

  lemma {:induction false} MembersUpdate(groups: seq<seq<PlaylistFile>>, g: nat, p: PlaylistFile)
    requires g < |groups|
    ensures Members(groups[g := groups[g] + [p]]) == Members(groups) + multiset{p}
    decreases |groups|
  {
    var n := |groups| - 1;
    var updated := groups[g := groups[g] + [p]];
    if g == n {
      assert updated[..n] == groups[..n];
    } else {
      MembersUpdate(groups[..n], g, p);
      assert updated[..n] == groups[..n][g := groups[..n][g] + [p]];
    }
  }

  lemma MembersPlace(groups: seq<seq<PlaylistFile>>, p: PlaylistFile)
    ensures Members(Place(groups, p)) == Members(groups) + multiset{p}
  {
    match MatchingGroup(groups, p)
    case Some(g) => MembersUpdate(groups, g, p);
    case None => MembersAppendGroup(groups, [p]);
  }

  /** The groups partition the valid playlists: each valid playlist is
      placed exactly once (as often as it occurs) and nothing else is. */
  lemma {:induction false} GroupPartitionsValidPlaylists(s: seq<PlaylistFile>)
    ensures Members(Group(s)) == multiset(ValidOnly(s))
  {
    if s != [] {
      var t := s[..|s| - 1];
      GroupPartitionsValidPlaylists(t);
      if s[|s| - 1].isValid {
        MembersPlace(Group(t), s[|s| - 1]);
      }
    }
  }

  /** No group is empty and no invalid playlist is in a group. */
  lemma {:induction false} GroupsNonEmptyAndValid(s: seq<PlaylistFile>)
    ensures forall g :: 0 <= g < |Group(s)| ==> Group(s)[g] != []
    ensures forall g, k :: 0 <= g < |Group(s)| && 0 <= k < |Group(s)[g]| ==> Group(s)[g][k].isValid
  {
    if s != [] {
      GroupsNonEmptyAndValid(s[..|s| - 1]);
    }
  }

  /** `a` can grow into `b` by appending to groups and adding new groups:
      no group is ever merged, split or reordered. */
  predicate GrowsInto(a: seq<seq<PlaylistFile>>, b: seq<seq<PlaylistFile>>) {
    |a| <= |b| && forall g :: 0 <= g < |a| ==> a[g] <= b[g]
  }

  /** Groups only grow as the playlists are taken in turn. */
  lemma {:induction false} GroupsNeverMerge(s: seq<PlaylistFile>, i: nat)
    requires i <= |s|
    ensures GrowsInto(Group(s[..i]), Group(s))
    decreases |s|
  {
    if i == |s| {
      assert s[..i] == s;
    } else {
      var t := s[..|s| - 1];
      GroupsNeverMerge(t, i);
      assert t[..i] == s[..i];
    }
  }

  /** A playlist that matches no existing group opens a new group of its own
      at the end; one that matches joins the lowest-index matching group. */
  lemma PlacementRule(s: seq<PlaylistFile>)
    requires s != [] && s[|s| - 1].isValid
    ensures var before, p := Group(s[..|s| - 1]), s[|s| - 1];
      match MatchingGroup(before, p)
      case None => Group(s) == before + [[p]]
      case Some(g) => (Group(s) == before[g := before[g] + [p]]
        && forall h :: 0 <= h < g ==> !GroupMatches(before[h], p))
  {
  }

  /** Taking the playlists in sorted order, every group is built already
      sorted, so the re-sort before display does not change the order of
      comparer-distinct playlists. */
  lemma {:induction false} GroupsOfSortedAreSorted(s: seq<PlaylistFile>)
    requires Sorting.SortedBy(ComparePlaylists, s)
    ensures forall g :: 0 <= g < |Group(s)| ==> Sorting.SortedBy(ComparePlaylists, Group(s)[g])
  {
    if s != [] {
      var t, p := s[..|s| - 1], s[|s| - 1];
      var before := Group(t);
      GroupsOfSortedAreSorted(t);
      if p.isValid {
        match MatchingGroup(before, p)
        case None =>
        case Some(g) =>
          forall x | x in before[g]
            ensures ComparePlaylists(x, p) <= 0
          {
            MemberOfGroupIsInInput(t, g, x);
            var k :| 0 <= k < |t| && t[k] == x;
            assert s[k] == x;
          }
          AppendSorted(before[g], p);
      }
    }
  }

  lemma MemberOfGroupIsInInput(s: seq<PlaylistFile>, g: nat, x: PlaylistFile)
    requires g < |Group(s)| && x in Group(s)[g]
    ensures x in s
  {
    GroupPartitionsValidPlaylists(s);
    MemberInMembers(Group(s), g, x);
  }

  lemma {:induction false} MemberInMembers(groups: seq<seq<PlaylistFile>>, g: nat, x: PlaylistFile)
    requires g < |groups| && x in groups[g]
    ensures x in Members(groups)
    decreases |groups|
  {
    var n := |groups| - 1;
    if g < n {
      MemberInMembers(groups[..n], g, x);
    }
  }

  lemma AppendSorted(group: seq<PlaylistFile>, p: PlaylistFile)
    requires Sorting.SortedBy(ComparePlaylists, group)
    requires forall x :: x in group ==> ComparePlaylists(x, p) <= 0
    ensures Sorting.SortedBy(ComparePlaylists, group + [p])
  {
    var r := group + [p];
    forall i, j | 0 <= i < j < |r|
      ensures ComparePlaylists(r[i], r[j]) <= 0
    {
      if j == |group| {
        assert r[i] in group;
      }
    }
  }

  // ---------------------------------------------------------------------
  // Display

  /** One row of the playlist list: the group number shown and the playlist. */
  datatype Row = Row(groupNumber: nat, playlist: PlaylistFile)

  /** The rows of one group: its valid playlists, in order. */
  function GroupRows(number: nat, group: seq<PlaylistFile>): (r: seq<Row>)
    ensures forall n: nat, p :: Row(n, p) in r <==> n == number && p in group && p.isValid
  {
    if group == [] then []
    else
      var last := group[|group| - 1];
      GroupRows(number, group[..|group| - 1]) + (if last.isValid then [Row(number, last)] else [])
  }

  /** The rows of all groups, group after group, numbered from 1. */
  function Rows(groups: seq<seq<PlaylistFile>>): (r: seq<Row>)
    ensures forall n: nat, p :: Row(n, p) in r <==> 1 <= n <= |groups| && p in groups[n - 1] && p.isValid
  {
    if groups == [] then []
    else
      var m := |groups|;
      var r := Rows(groups[..m - 1]) + GroupRows(m, groups[m - 1]);
      assert forall k :: 0 <= k < m - 1 ==> groups[..m - 1][k] == groups[k];
      r
  }

  /** The `hasHiddenTracks` flag of the row loop. */
  function AnyHiddenTracks(rows: seq<Row>): (r: bool)
    ensures r <==> exists i :: 0 <= i < |rows| && rows[i].playlist.hasHiddenTracks
  {
    if rows == [] then false
    else
      var r := AnyHiddenTracks(rows[..|rows| - 1]) || rows[|rows| - 1].playlist.hasHiddenTracks;
      assert forall i :: 0 <= i < |rows| - 1 ==> rows[..|rows| - 1][i] == rows[i];
      r
  }

  /** What `LoadPlaylists` shows: the rows, and whether the note about
      hidden tracks is added. */
  datatype PlaylistList = PlaylistList(groups: seq<seq<PlaylistFile>>, rows: seq<Row>, hasHiddenTracks: bool)

  /** `group.Sort(ComparePlaylistFiles)` applied to every group. */
  function SortEachGroup(groups: seq<seq<PlaylistFile>>): (r: seq<seq<PlaylistFile>>)
    ensures |r| == |groups|
    ensures forall g :: 0 <= g < |groups| ==>
      multiset(r[g]) == multiset(groups[g]) && Sorting.SortedBy(ComparePlaylists, r[g])
  {
    seq(|groups|, g requires 0 <= g < |groups| => SortPlaylists(groups[g]))
  }

  /** `LoadPlaylists` for the playlist registry of a scanned disc. */
  function LoadPlaylists(playlists: FileRegistry.Registry<PlaylistFile>): (r: PlaylistList)
    ensures var built := Group(SortPlaylists(FileRegistry.Values(playlists)));
      |r.groups| == |built|
      && forall g :: 0 <= g < |built| ==>
        multiset(r.groups[g]) == multiset(built[g]) && Sorting.SortedBy(ComparePlaylists, r.groups[g])
    ensures r.rows == Rows(r.groups)
    ensures r.hasHiddenTracks <==> exists i :: 0 <= i < |r.rows| && r.rows[i].playlist.hasHiddenTracks
  {
    var groups := SortEachGroup(Group(SortPlaylists(FileRegistry.Values(playlists))));
    var rows := Rows(groups);
    PlaylistList(groups, rows, AnyHiddenTracks(rows))
  }

  lemma ListedIsValidMember(groups: seq<seq<PlaylistFile>>, n: nat, p: PlaylistFile)
    requires Row(n, p) in Rows(SortEachGroup(groups))
    ensures p.isValid && p in Members(groups)
  {
    var sorted := SortEachGroup(groups);
    RowOfGroup(sorted, n, p);
    var g := n - 1;
    SortedGroupKeepsMembers(groups, g);
    SameElements(sorted[g], groups[g], p);
    MemberInMembers(groups, g, p);
  }

  lemma RowOfGroup(groups: seq<seq<PlaylistFile>>, n: nat, p: PlaylistFile)
    requires Row(n, p) in Rows(groups)
    ensures 1 <= n <= |groups| && p in groups[n - 1] && p.isValid
  {
  }

  lemma SortedGroupKeepsMembers(groups: seq<seq<PlaylistFile>>, g: nat)
    requires g < |groups|
    ensures g < |SortEachGroup(groups)| && multiset(SortEachGroup(groups)[g]) == multiset(groups[g])
  {
  }

  lemma SameElements<T>(a: seq<T>, b: seq<T>, x: T)
    requires multiset(a) == multiset(b) && x in a
    ensures x in b
  {
    assert x in multiset(a);
  }

  lemma ValidMemberIsListed(groups: seq<seq<PlaylistFile>>, p: PlaylistFile) returns (n: nat)
    requires p.isValid && p in Members(groups)
    ensures Row(n, p) in Rows(SortEachGroup(groups))
  {
    var sorted := SortEachGroup(groups);
    var g := InSomeGroup(groups, p);
    assert multiset(sorted[g]) == multiset(groups[g]);
    assert p in multiset(sorted[g]);
    assert p in sorted[g];
    n := g + 1;
    assert 1 <= n <= |sorted| && p in sorted[n - 1] && p.isValid;
  }

  /** The rows of re-sorted groups list exactly their valid members. */
  lemma RowsListValidMembers(groups: seq<seq<PlaylistFile>>, p: PlaylistFile)
    ensures (exists n: nat :: Row(n, p) in Rows(SortEachGroup(groups))) <==> p.isValid && p in Members(groups)
  {
    if n: nat :| Row(n, p) in Rows(SortEachGroup(groups)) {
      ListedIsValidMember(groups, n, p);
    }
    if p.isValid && p in Members(groups) {
      var n := ValidMemberIsListed(groups, p);
    }
  }

  /** Only valid playlists of the registry are listed, and every valid
      playlist of the registry is listed, under the number of its group. */
  lemma ListedPlaylistsAreTheValidOnes(playlists: FileRegistry.Registry<PlaylistFile>, p: PlaylistFile)
    ensures (exists n: nat :: Row(n, p) in LoadPlaylists(playlists).rows) <==> p.isValid && p in FileRegistry.Values(playlists)
  {
    var sorted := SortPlaylists(FileRegistry.Values(playlists));
    var built := Group(sorted);
    assert LoadPlaylists(playlists).rows == Rows(SortEachGroup(built));
    RowsListValidMembers(built, p);
    GroupPartitionsValidPlaylists(sorted);
    assert p in Members(built) <==> p in ValidOnly(sorted);
    assert p in sorted <==> p in multiset(FileRegistry.Values(playlists));
  }

  /** A playlist counted among the members lies in some group. */
  lemma {:induction false} InSomeGroup(groups: seq<seq<PlaylistFile>>, p: PlaylistFile) returns (g: nat)
    requires p in Members(groups)
    ensures g < |groups| && p in groups[g]
    decreases |groups|
  {
    var n := |groups| - 1;
    if p in groups[n] {
      g := n;
    } else {
      g := InSomeGroup(groups[..n], p);
    }
  }

  // ---------------------------------------------------------------------
  // Clip numbering

  /** How many clips of `clips` are on the primary angle. */
  function PrimaryCount(clips: seq<StreamClip>): nat {
    if clips == [] then 0
    else PrimaryCount(clips[..|clips| - 1]) + (if clips[|clips| - 1].angleIndex == 0 then 1 else 0)
  }

  lemma PrimaryCountStep(clips: seq<StreamClip>, i: nat)
    requires i < |clips|
    ensures PrimaryCount(clips[..i + 1]) == PrimaryCount(clips[..i]) + (if clips[i].angleIndex == 0 then 1 else 0)
  {
    assert clips[..i + 1][..i] == clips[..i];
  }

  /** The clip-index column of the clip list: the counter is incremented
      before each primary-angle clip is listed; alternate-angle clips show
      the current value. */
  method ClipIndices(clips: seq<StreamClip>) returns (r: seq<nat>)
    ensures |r| == |clips|
    ensures forall i :: 0 <= i < |clips| ==> r[i] == PrimaryCount(clips[..i + 1])
    ensures forall i :: 0 <= i < |clips| && clips[i].angleIndex > 0 ==> r[i] == (if i == 0 then 0 else r[i - 1])
    ensures forall i :: 0 <= i < |clips| && clips[i].angleIndex == 0 ==> r[i] == (if i == 0 then 0 else r[i - 1]) + 1
  {
    var clipCount := 0;
    r := [];
    for i := 0 to |clips|
      invariant |r| == i
      invariant clipCount == PrimaryCount(clips[..i])
      invariant forall k :: 0 <= k < i ==> r[k] == PrimaryCount(clips[..k + 1])
    {
      PrimaryCountStep(clips, i);
      if clips[i].angleIndex == 0 {
        clipCount := clipCount + 1;
      }
      r := r + [clipCount];
    }
    forall i | 0 < i < |clips|
      ensures PrimaryCount(clips[..i + 1]) == PrimaryCount(clips[..i]) + (if clips[i].angleIndex == 0 then 1 else 0)
    {
      PrimaryCountStep(clips, i);
    }
  }
}
