/** The older `BDROM` class: its own copies of the directory lookup, the
    size walk, the stream-file comparer and the scan, each proved to agree
    with the definitions the `BdRomIso` model uses. */
module BdRomLegacy {
  import opened Wrappers
  import opened BdTypes
  import Comparers
  import DiscStructure
  import FileRegistry
  import BdRomIso

  const NullReference: string := "Object reference not set to an instance of an object."

  /** The source's third test `x != null || x.FileInfo != null`: true when
      `x` is present, and a null dereference otherwise. */
  function PresentOrThrows(x: Option<StreamFile>): (r: Result<bool>)
    ensures r.Success? <==> x.Some?
  {
    if x.Some? then Success(true) else Failure(NullReference)
  }

  /** `BDROM.CompareStreamFiles`, with the exception its third test could
      raise. */
  function CompareStreamFiles(x: Option<StreamFile>, y: Option<StreamFile>): (r: Result<int>)
  {
    var xMissing := x.None? || x.value.fileInfo.None?;
    var yMissing := y.None? || y.value.fileInfo.None?;
    if xMissing && yMissing then Success(0)
    else if xMissing && (y.Some? && y.value.fileInfo.Some?) then Success(1)
    else
      var third := PresentOrThrows(x);
      if third.Failure? then Failure(NullReference)
      else if third.value && yMissing then Success(-1)
      else if x.value.fileInfo.value.length > y.value.fileInfo.value.length then Success(1)
      else if y.value.fileInfo.value.length > x.value.fileInfo.value.length then Success(-1)
      else Success(0)
  }

  /** The legacy comparer never throws and orders exactly as the shared one. */
  lemma CompareStreamFilesAgrees(x: Option<StreamFile>, y: Option<StreamFile>)
    ensures CompareStreamFiles(x, y) == Success(Comparers.CompareStreamFiles(x, y))
  {
  }

  /** `BDROM.GetDirectory`, loops and all: the recursive descent runs but
      its result is dropped. */
  method GetDirectory(name: string, dir: Option<Directory>, searchDepth: int) returns (r: Option<Directory>)
    ensures r == DiscStructure.GetDirectory(name, dir, searchDepth)
    decreases if searchDepth > 0 then searchDepth else 0
  {
    if dir.Some? {
      var children := dir.value.children;
      for i := 0 to |children|
        invariant forall j :: 0 <= j < i ==> children[j].name != name
      {
        if children[i].name == name {
          FirstNamedIsFirst(children, name, i);
          return Some(children[i]);
        }
      }
      if searchDepth > 0 {
        for i := 0 to |children| {
          var ignored := GetDirectory(name, Some(children[i]), searchDepth - 1);
        }
      }
    }
    return None;
  }

  /** The first match found by a left-to-right scan is `FirstNamed`'s. */
  lemma {:induction false} FirstNamedIsFirst(children: seq<Directory>, name: string, i: int)
    requires 0 <= i < |children| && children[i].name == name
    requires forall j :: 0 <= j < i ==> children[j].name != name
    ensures DiscStructure.FirstNamed(children, name) == Some(children[i])
  {
    if i > 0 {
      FirstNamedIsFirst(children[1..], name, i - 1);
    }
  }

  /** The `foreach` over a directory's files, skipping interleaved files. */
  method FilesSize(files: seq<FileEntry>) returns (size: nat)
    ensures size == DiscStructure.FilesSize(files)
  {
    size := 0;
    for i := 0 to |files|
      invariant size == DiscStructure.FilesSize(files[..i])
    {
      DiscStructure.FilesSizeStep(files, i);
      if DiscStructure.IsSsif(files[i]) {
        continue;
      }
      size := size + files[i].length;
    }
    assert files[..|files|] == files;
  }

  /** `BDROM.GetDirectorySize`: the files, then the recursive sum over the
      subdirectories. */
  method GetDirectorySize(d: Directory) returns (size: nat)
    ensures size == DiscStructure.GetDirectorySize(d)
    decreases d
  {
    size := FilesSize(d.files);
    for i := 0 to |d.children|
      invariant size == DiscStructure.FilesSize(d.files) + DiscStructure.ChildrenSize(d.children[..i])
    {
      var childSize := GetDirectorySize(d.children[i]);
      DiscStructure.ChildrenSizeStep(d.children, i);
      size := size + childSize;
    }
    assert d.children[..|d.children|] == d.children;
  }

  /** `BDROM.Scan` with the directory lookups, the property tests and the
      file lists written inline, followed by `ScanFiles` (the same steps as
      `BdRomIso` after its registries exist). */
  function Scan(root: Directory, inputs: BdRomIso.ScanInputs): (r: Result<BdRomIso.Disc>)
    ensures !DiscStructure.HasChild(root, "BDMV") ==> r == Failure(DiscStructure.StructureError)
    ensures DiscStructure.HasChild(root, "BDMV") ==>
      var bdmv := DiscStructure.FirstNamed(root.children, "BDMV").value;
      !DiscStructure.HasChild(bdmv, "CLIPINF") || !DiscStructure.HasChild(bdmv, "PLAYLIST") ==>
        r == Failure(DiscStructure.StructureError)
    ensures r.Success? ==> r.value.properties.size == DiscStructure.FilesSize(DiscStructure.AllFiles(root))
  {
    var bdmv := DiscStructure.GetDirectory("BDMV", Some(root), 0);
    if bdmv.None? then Failure(DiscStructure.StructureError)
    else
      var bdjo := DiscStructure.GetDirectory("BDJO", bdmv, 0);
      var clipinf := DiscStructure.GetDirectory("CLIPINF", bdmv, 0);
      var playlist := DiscStructure.GetDirectory("PLAYLIST", bdmv, 0);
      var snp := DiscStructure.GetDirectory("SNP", Some(root), 0);
      var stream := DiscStructure.GetDirectory("STREAM", bdmv, 0);
      var ssif := DiscStructure.GetDirectory("SSIF", stream, 0);
      if clipinf.None? || playlist.None? then Failure(DiscStructure.StructureError)
      else
        var dirs := DiscStructure.BdmvDirectories(root, bdmv.value, bdjo, clipinf.value, playlist.value, snp, stream, ssif);
        var props := DiscStructure.DiscProperties(
          DiscStructure.GetDirectorySize(root),
          DiscStructure.GetDirectory("BDSVM", Some(root), 0).Some?
            || DiscStructure.GetDirectory("SLYVM", Some(root), 0).Some?
            || DiscStructure.GetDirectory("ANYVM", Some(root), 0).Some?,
          bdjo.Some? && |bdjo.value.files| > 0,
          DiscStructure.HasPspFiles(snp),
          ssif.Some? && |ssif.value.files| > 0,
          inputs.filmIndexExists);
        var regs :- FileRegistry.InitializeFileLists(dirs);
        BdRomIso.ScanFiles(dirs, props, regs, inputs)
  }

  /** The legacy scan and the `BdRomIso` scan produce the same disc. */
  lemma ScanAgrees(root: Directory, inputs: BdRomIso.ScanInputs)
    ensures Scan(root, inputs) == BdRomIso.Scan(root, inputs)
  {
    var found := DiscStructure.SetBdmvDirectories(root);
    if found.Success? {
      var dirs := found.value;
      var props := DiscStructure.SetBdmvProperties(dirs, inputs.filmIndexExists);
      assert BdRomIso.Scan(root, inputs) == (
        var regs :- FileRegistry.InitializeFileLists(dirs);
        BdRomIso.ScanFiles(dirs, props, regs, inputs));
    }
  }
}
