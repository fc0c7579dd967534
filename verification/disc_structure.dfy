/** Locating the BDMV layout on the disc and deriving the disc-wide size and
    capability flags (`BdRomIso.SetBdmvDirectories`, `SetBdmvProperties`,
    `GetDirectory`, `GetDirectorySize`). */
module DiscStructure {
  import opened Wrappers
  import opened BdTypes
  import Text

  const StructureError: string := "Unable to locate BD structure."
  const SsifExtension: string := ".SSIF"

  /** Does `d` have a direct subdirectory called exactly `name`? */
  predicate HasChild(d: Directory, name: string) {
    exists i :: 0 <= i < |d.children| && d.children[i].name == name
  }

  /** The first of `children` called `name`. */
  function FirstNamed(children: seq<Directory>, name: string): (r: Option<Directory>)
    ensures r.None? <==> forall i :: 0 <= i < |children| ==> children[i].name != name
    ensures r.Some? ==> exists i :: (0 <= i < |children| && children[i] == r.value &&
      r.value.name == name && forall j :: 0 <= j < i ==> children[j].name != name)
  {
    if children == [] then None
    else if children[0].name == name then Some(children[0])
    else
      var r := FirstNamed(children[1..], name);
      assert r.Some? ==> exists i :: (1 <= i < |children| && children[i] == r.value &&
        forall j :: 1 <= j < i ==> children[j].name != name) by {
        if r.Some? {
          var i :| 0 <= i < |children[1..]| && children[1..][i] == r.value &&
            forall j :: 0 <= j < i ==> children[1..][j].name != name;
          assert children[i + 1] == r.value;
          assert forall j :: 1 <= j < i + 1 ==> children[j].name == children[1..][j - 1].name;
        }
      }
      r
  }

  /** `GetDirectory`: the first direct subdirectory of `dir` called `name`.
      The source's descent into children (for `searchDepth > 0`) discards
      what the recursive call finds, so the depth never changes the result. */
  function GetDirectory(name: string, dir: Option<Directory>, searchDepth: int): (r: Option<Directory>)
    ensures r.Some? ==> dir.Some? && r.value in dir.value.children && r.value.name == name
    ensures r.None? <==> dir.None? || !HasChild(dir.value, name)
  {
    if dir.None? then None else FirstNamed(dir.value.children, name)
  }

  /** Only direct children are found: a directory nested one level deeper is
      not returned, whatever the search depth. */
  lemma GetDirectoryFindsNoGrandchild()
    ensures var bdmv := Directory("BDMV", [], []);
      var root := Directory("", [], [Directory("DISC", [], [bdmv])]);
      GetDirectory("BDMV", Some(root), 1).None?
  {
    var bdmv := Directory("BDMV", [], []);
    var root := Directory("", [], [Directory("DISC", [], [bdmv])]);
    assert root.children[0].name == "DISC";
    assert "DISC" != "BDMV" by { assert "DISC"[0] != "BDMV"[0]; }
  }

  /** `pathFile.Extension.ToUpper() == ".SSIF"`: is `f` an interleaved
      file, by its upper-cased extension (dot included)? */
  predicate IsSsif(f: FileEntry) {
    Text.ToUpper(Text.Extension(f.name)) == SsifExtension
  }

  lemma SsifExtensionIsUpperCase()
    ensures Text.ToUpper(SsifExtension) == SsifExtension
    ensures forall j :: 1 <= j < |SsifExtension| ==> SsifExtension[j] != '.'
  {
    assert forall j :: 0 <= j < |SsifExtension| ==> Text.ToUpperChar(SsifExtension[j]) == SsifExtension[j];
  }

  /** An interleaved file is exactly one whose name ends in ".SSIF", in any
      case. */
  lemma IsSsifIffSsifSuffix(f: FileEntry)
    ensures IsSsif(f) <==> Text.EndsWithIgnoringCase(f.name, SsifExtension)
  {
    var n := f.name;
    SsifExtensionIsUpperCase();
    if IsSsif(f) {
      assert |Text.Extension(n)| == |SsifExtension|;
    }
    if Text.EndsWithIgnoringCase(n, SsifExtension) {
      Text.ExtensionOfSuffix(n, SsifExtension);
    }
  }

  /** What one file adds to the disc size: nothing for an interleaved file. */
  function CountedLength(f: FileEntry): nat {
    if IsSsif(f) then 0 else f.length
  }

  /** The sum of `weight` over `files`. */
  function SumOf(files: seq<FileEntry>, weight: FileEntry -> nat): nat {
    if files == [] then 0
    else weight(files[0]) + SumOf(files[1..], weight)
  }

  /** Total length of the files of `files` that are not interleaved files. */
  function FilesSize(files: seq<FileEntry>): nat {
    SumOf(files, CountedLength)
  }

  /** `GetDirectorySize`: the files of `d`, then each subdirectory in turn.
      The result is the sum of the lengths of all files in the subtree
      whose extension is not ".SSIF". */
  function GetDirectorySize(d: Directory): (r: nat)
    ensures r == FilesSize(AllFiles(d))
    decreases d, 1
  {
    FilesSizeAppend(d.files, AllFilesOf(d.children));
    FilesSize(d.files) + ChildrenSize(d.children)
  }

  function ChildrenSize(cs: seq<Directory>): (r: nat)
    ensures r == FilesSize(AllFilesOf(cs))
    decreases cs, 0
  {
    if cs == [] then 0
    else
      FilesSizeAppend(AllFiles(cs[0]), AllFilesOf(cs[1..]));
      GetDirectorySize(cs[0]) + ChildrenSize(cs[1..])
  }

  /** Every file of the tree, in the order the size walk visits them. */
  function AllFiles(d: Directory): seq<FileEntry>
    decreases d, 1
  {
    d.files + AllFilesOf(d.children)
  }

  function AllFilesOf(cs: seq<Directory>): seq<FileEntry>
    decreases cs, 0
  {
    if cs == [] then [] else AllFiles(cs[0]) + AllFilesOf(cs[1..])
  }

  lemma {:induction false} SumOfAppend(a: seq<FileEntry>, b: seq<FileEntry>, weight: FileEntry -> nat)
    ensures SumOf(a + b, weight) == SumOf(a, weight) + SumOf(b, weight)
  {
    if a == [] {
      assert a + b == b;
    } else {
      assert (a + b)[1..] == a[1..] + b;
      SumOfAppend(a[1..], b, weight);
    }
  }

  lemma FilesSizeAppend(a: seq<FileEntry>, b: seq<FileEntry>)
    ensures FilesSize(a + b) == FilesSize(a) + FilesSize(b)
  {
    SumOfAppend(a, b, CountedLength);
  }

  lemma {:induction false} ChildrenSizeAppend(a: seq<Directory>, b: seq<Directory>)
    ensures ChildrenSize(a + b) == ChildrenSize(a) + ChildrenSize(b)
  {
    if a == [] {
      assert a + b == b;
    } else {
      assert (a + b)[1..] == a[1..] + b;
      ChildrenSizeAppend(a[1..], b);
    }
  }

  lemma SumOfSingleton(f: FileEntry, weight: FileEntry -> nat)
    ensures SumOf([f], weight) == weight(f)
  {
    assert [f][1..] == [];
  }

  lemma SumOfStep(files: seq<FileEntry>, i: int, weight: FileEntry -> nat)
    requires 0 <= i < |files|
    ensures SumOf(files[..i + 1], weight) == SumOf(files[..i], weight) + weight(files[i])
  {
    var front, last := files[..i], [files[i]];
    SumOfAppend(front, last, weight);
    assert front + last == files[..i + 1];
    assert last[1..] == [];
  }

  /** Extending a prefix of `files` by one file adds that file's length
      unless it is an interleaved file. */
  lemma FilesSizeStep(files: seq<FileEntry>, i: int)
    requires 0 <= i < |files|
    ensures FilesSize(files[..i + 1]) == FilesSize(files[..i]) + CountedLength(files[i])
  {
    SumOfStep(files, i, CountedLength);
  }

  lemma ChildrenSizeSingleton(d: Directory)
    ensures ChildrenSize([d]) == GetDirectorySize(d)
  {
    assert [d][1..] == [];
  }

  lemma ChildrenSizeStep(cs: seq<Directory>, i: int)
    requires 0 <= i < |cs|
    ensures ChildrenSize(cs[..i + 1]) == ChildrenSize(cs[..i]) + GetDirectorySize(cs[i])
  {
    var front, last := cs[..i], [cs[i]];
    assert front + last == cs[..i + 1];
    ChildrenSizeAppend(front, last);
    ChildrenSizeSingleton(cs[i]);
  }

  /** Adding an interleaved file to a directory leaves its size unchanged. */
  lemma AddingSsifKeepsSize(d: Directory, f: FileEntry)
    requires IsSsif(f)
    ensures GetDirectorySize(d.(files := d.files + [f])) == GetDirectorySize(d)
  {
    var d' := d.(files := d.files + [f]);
    FilesSizeAppend(d.files, [f]);
    SumOfSingleton(f, CountedLength);
    assert GetDirectorySize(d') == FilesSize(d.files + [f]) + ChildrenSize(d.children);
  }

  /** The BDMV directories the resolver locates. CLIPINF and PLAYLIST are
      present on success; the others may be missing. */
  datatype BdmvDirectories = BdmvDirectories(
    root: Directory, bdmv: Directory, bdjo: Option<Directory>,
    clipinf: Directory, playlist: Directory, snp: Option<Directory>,
    stream: Option<Directory>, ssif: Option<Directory>)

  /** `d` is what looking up `name` among the children of `parent` gives:
      present exactly when such a child exists, and then a child of that name. */
  predicate ChildCalled(parent: Directory, name: string, d: Option<Directory>) {
    && (d.Some? <==> HasChild(parent, name))
    && (d.Some? ==> d.value.name == name && d.value in parent.children)
  }

  /** `SetBdmvDirectories`. BDMV's parent is the root it was found in. */
  function SetBdmvDirectories(root: Directory): (r: Result<BdmvDirectories>)
    ensures r.Failure? ==> r.error == StructureError
    ensures r.Success? <==>
      HasChild(root, "BDMV") &&
      var bdmv := FirstNamed(root.children, "BDMV").value;
      HasChild(bdmv, "CLIPINF") && HasChild(bdmv, "PLAYLIST")
    ensures r.Success? ==>
      r.value.root == root && r.value.bdmv.name == "BDMV" && r.value.bdmv in root.children
    ensures r.Success? ==> (r.value.stream.None? <==> !HasChild(r.value.bdmv, "STREAM"))
    ensures r.Success? ==> (r.value.ssif.Some? ==> r.value.stream.Some? && r.value.ssif.value in r.value.stream.value.children)
    ensures r.Success? ==>
      && ChildCalled(r.value.bdmv, "CLIPINF", Some(r.value.clipinf))
      && ChildCalled(r.value.bdmv, "PLAYLIST", Some(r.value.playlist))
      && ChildCalled(r.value.bdmv, "BDJO", r.value.bdjo)
      && ChildCalled(r.value.bdmv, "STREAM", r.value.stream)
      && ChildCalled(root, "SNP", r.value.snp)
    ensures r.Success? ==>
      if r.value.stream.Some? then ChildCalled(r.value.stream.value, "SSIF", r.value.ssif) else r.value.ssif.None?
  {
    var bdmv := GetDirectory("BDMV", Some(root), 0);
    if bdmv.None? then Failure(StructureError)
    else
      var directoryRoot := root;
      var bdjo := GetDirectory("BDJO", bdmv, 0);
      var clipinf := GetDirectory("CLIPINF", bdmv, 0);
      var playlist := GetDirectory("PLAYLIST", bdmv, 0);
      var snp := GetDirectory("SNP", Some(directoryRoot), 0);
      var stream := GetDirectory("STREAM", bdmv, 0);
      var ssif := GetDirectory("SSIF", stream, 0);
      if clipinf.None? || playlist.None? then Failure(StructureError)
      else Success(BdmvDirectories(directoryRoot, bdmv.value, bdjo, clipinf.value,
                                   playlist.value, snp, stream, ssif))
  }

  /** The disc properties of `SetBdmvProperties`; `isDbox` reflects a host
      file check that is an input here. */
  datatype DiscProperties = DiscProperties(
    size: nat, isBDPlus: bool, isBDJava: bool, isPSP: bool, is3D: bool, isDBOX: bool)

  /** The files of `files` whose name ends in `suffix`, ignoring case, in
      listing order. */
  function FilesEndingIn(files: seq<FileEntry>, suffix: string): (r: seq<FileEntry>)
    ensures forall f :: f in r <==> f in files && Text.EndsWithIgnoringCase(f.name, suffix)
    ensures |r| <= |files|
  {
    if files == [] then []
    else (if Text.EndsWithIgnoringCase(files[0].name, suffix) then [files[0]] else []) + FilesEndingIn(files[1..], suffix)
  }

  /** `GetFiles("*" + suffix)`: the files of `d` matching the pattern, with
      letters matched regardless of case. */
  function GetFiles(d: Directory, suffix: string): (r: seq<FileEntry>)
    ensures forall f :: f in r <==> f in d.files && Text.EndsWithIgnoringCase(f.name, suffix)
  {
    FilesEndingIn(d.files, suffix)
  }

  lemma {:induction false} FilesEndingInIgnoresCase(files: seq<FileEntry>, suffix: string, other: string)
    requires Text.ToUpper(suffix) == Text.ToUpper(other)
    ensures FilesEndingIn(files, suffix) == FilesEndingIn(files, other)
  {
    if files != [] {
      Text.EndsWithIgnoringCaseOfPattern(files[0].name, suffix, other);
      FilesEndingInIgnoresCase(files[1..], suffix, other);
    }
  }

  /** The case of the pattern does not matter: `*.m2ts` and `*.M2TS` list
      the same files of a directory. */
  lemma GetFilesIgnoresCase(d: Directory, suffix: string, other: string)
    requires Text.ToUpper(suffix) == Text.ToUpper(other)
    ensures GetFiles(d, suffix) == GetFiles(d, other)
  {
    FilesEndingInIgnoresCase(d.files, suffix, other);
  }

  /** A disc whose names are all upper case is listed: `*.m2ts` finds
      `00001.M2TS`. */
  lemma UpperCaseNameIsListed()
    ensures var f := FileEntry("00001.M2TS", 0);
      GetFiles(Directory("STREAM", [f], []), ".m2ts") == [f]
  {
    var f := FileEntry("00001.M2TS", 0);
    assert f.name[|f.name| - 5..] == ".M2TS";
    assert Text.ToUpper(".M2TS") == ".M2TS";
    assert Text.ToUpper(".m2ts") == ".M2TS";
    assert [f][1..] == [];
  }

  /** Does `d` hold a file whose name ends in `suffix`, ignoring case? */
  predicate HasFileEndingIn(d: Directory, suffix: string) {
    exists f :: f in d.files && Text.EndsWithIgnoringCase(f.name, suffix)
  }

  /** The PSP test: SNP holds a `*.mnv` file, or failing that a `*.MNV` file. */
  function HasPspFiles(snp: Option<Directory>): (r: bool)
    ensures r <==> snp.Some? && (HasFileEndingIn(snp.value, ".mnv") || HasFileEndingIn(snp.value, ".MNV"))
  {
    if snp.None? then false
    else
      var lower := GetFiles(snp.value, ".mnv");
      var upper := GetFiles(snp.value, ".MNV");
      assert |lower| > 0 ==> lower[0] in lower;
      assert |upper| > 0 ==> upper[0] in upper;
      |lower| > 0 || |upper| > 0
  }

  /** `SetBdmvProperties`. */
  function SetBdmvProperties(dirs: BdmvDirectories, filmIndexExists: bool): (r: DiscProperties)
    ensures r.isBDPlus <==> HasChild(dirs.root, "BDSVM") || HasChild(dirs.root, "SLYVM") || HasChild(dirs.root, "ANYVM")
    ensures r.isBDJava <==> dirs.bdjo.Some? && dirs.bdjo.value.files != []
    ensures r.is3D <==> dirs.ssif.Some? && dirs.ssif.value.files != []
    ensures r.isPSP <==> dirs.snp.Some? && (HasFileEndingIn(dirs.snp.value, ".mnv") || HasFileEndingIn(dirs.snp.value, ".MNV"))
    ensures r.isDBOX == filmIndexExists
    ensures r.size == FilesSize(AllFiles(dirs.root))
  {
    var root := Some(dirs.root);
    var isBDPlus := GetDirectory("BDSVM", root, 0).Some?
      || GetDirectory("SLYVM", root, 0).Some?
      || GetDirectory("ANYVM", root, 0).Some?;
    var isBDJava := dirs.bdjo.Some? && |dirs.bdjo.value.files| > 0;
    var is3D := dirs.ssif.Some? && |dirs.ssif.value.files| > 0;
    DiscProperties(GetDirectorySize(dirs.root), isBDPlus, isBDJava, HasPspFiles(dirs.snp), is3D, filmIndexExists)
  }
}
