/** The export logic of the Truemax plug-in script
    (Scripts/tempCodeRunnerFile.py): the `split` helper, the path derivation
    of the "Substance" export (`export_to_sub`) and the export loop of the
    "Anim" export (`export_anim`).

    What the script asks of the host becomes an input: the selected object
    names (`mc.ls(sl=True)`), the scene path (`mc.file(q=True, sn=True)`),
    whether the FBX exporter is available (`mc.FBXExport`, or loading the
    `fbxmaya` plug-in), the pipeline root (`find_dir`) and the names of its
    subfolders (`list_subfolders`).  What the script does to the host becomes
    a recorded `HostCall`: `ensure_dir(path)` and `mel.eval(command)`. */
module TruemaxExport {
  import opened PyStrings

  /** A call the script makes that acts on the host. */
  datatype HostCall =
    | EnsureDir(path: string)     // ensure_dir: create the directory if missing
    | MelEval(command: MelCommand) // mel.eval(MelText(command))

  /** The MEL commands the script evaluates. */
  datatype MelCommand =
    | FileVersion2019
    | NoInputConnections
    | UpAxisY
    | ExportSelection(target: string)

  /** The text handed to `mel.eval` for each command. */
  function MelText(c: MelCommand): (r: string)
    ensures "FBXExport" <= r
    ensures c.ExportSelection? ==> OccursAt(r, c.target, 14)
  {
    match c
    case FileVersion2019 => "FBXExportFileVersion \"FBX2019\""
    case NoInputConnections => "FBXExportInputConnections -v 0"
    case UpAxisY => "FBXExportUpAxis y"
    case ExportSelection(target) => "FBXExport -f \"" + target + "\" -s"
  }

  /** How one press of an export button ends. */
  datatype Run =
    | Warned(message: string)   // mc.warning(message), nothing exported
    | PluginMissing             // no FBX exporter: an error on stderr, returns False
    | Raised(error: PyError)    // an uncaught Python exception
    | Ran(calls: seq<HostCall>) // the host calls issued, in order

  /** The sub-path of an asset folder that receives Substance exports. */
  const ExportFolder := "/Export/shdExport/"

  /** The host calls of one export: ensure `dir`, set the three exporter
      options, export the selection to `target`. */
  function ExportCalls(dir: string, target: string): (r: seq<HostCall>)
    ensures |r| == 5 && r[0] == EnsureDir(dir) && r[|r| - 1] == MelEval(ExportSelection(target))
    ensures forall k :: 0 < k < |r| - 1 ==> r[k].MelEval? && !r[k].command.ExportSelection?
  {
    [EnsureDir(dir), MelEval(FileVersion2019), MelEval(NoInputConnections), MelEval(UpAxisY),
     MelEval(ExportSelection(target))]
  }

  // ---------------------------------------------------------------------
  // split(strng, sep, pos)

  /** Where Python's slices `xs[:pos]` and `xs[pos:]` cut a list of `n`
      elements (a negative `pos` counts from the end). */
  function SliceBound(pos: int, n: nat): (k: nat)
    ensures k <= n
  {
    if pos < 0 then (if n + pos < 0 then 0 else n + pos)
    else if pos <= n then pos
    else n
  }

  /** `split(strng, sep, pos)`: split `strng` on `sep`, and rejoin the
      first `pos` pieces and the remaining pieces.  An empty `sep` raises,
      as `str.split("")` does. */
  function Split(strng: string, sep: string, pos: int): (r: Result<(string, string)>)
    ensures r.Err? <==> sep == []
    ensures r.Err? ==> r.error == EmptySeparator
  {
    if sep == [] then Err(EmptySeparator)
    else
      var parts := SplitOn(strng, sep);
      var k := SliceBound(pos, |parts|);
      Ok((Join(sep, parts[..k]), Join(sep, parts[k..])))
  }

  /** Cutting the pieces of `strng` anywhere strictly inside and rejoining
      both halves with one more `sep` gives `strng` back. */
  lemma RejoinAt(strng: string, sep: string, k: nat)
    requires sep != []
    requires 1 <= k < |SplitOn(strng, sep)|
    ensures var parts := SplitOn(strng, sep);
      Join(sep, parts[..k]) + sep + Join(sep, parts[k..]) == strng
  {
    var parts := SplitOn(strng, sep);
    assert parts == parts[..k] + parts[k..];
    JoinAppend(sep, parts[..k], parts[k..]);
    JoinSplitOn(strng, sep);
  }

  /** For `1 <= pos < len(strng.split(sep))`, `left + sep + right == strng`. */
  lemma SplitRoundTrip(strng: string, sep: string, pos: int)
    requires sep != []
    requires 1 <= pos < |SplitOn(strng, sep)|
    ensures Split(strng, sep, pos).Ok?
    ensures Split(strng, sep, pos).value.0 + sep + Split(strng, sep, pos).value.1 == strng
  {
    RejoinAt(strng, sep, pos);
  }

  /** `pos == 0` gives `("", strng)`; `pos` at or past the number of pieces
      gives `(strng, "")`. */
  lemma SplitEdges(strng: string, sep: string, pos: int)
    requires sep != []
    ensures pos == 0 ==> Split(strng, sep, pos) == Ok(("", strng))
    ensures pos >= |SplitOn(strng, sep)| ==> Split(strng, sep, pos) == Ok((strng, ""))
  {
    var parts := SplitOn(strng, sep);
    if pos == 0 {
      var k := SplitHalves(strng, sep, pos);
      assert parts[..0] == [] && parts[0..] == parts;
      JoinSplitOn(strng, sep);
    } else if pos >= |parts| {
      var k := SplitHalves(strng, sep, pos);
      assert parts[..|parts|] == parts && parts[|parts|..] == [];
      JoinSplitOn(strng, sep);
    }
  }

  /** The two halves of a split are, whatever `pos` is, the joins of the
      first `k` pieces and of the others for some `0 <= k <= n`. */
  lemma SplitHalves(strng: string, sep: string, pos: int) returns (k: nat)
    requires sep != []
    ensures var parts := SplitOn(strng, sep);
      && k == SliceBound(pos, |parts|)
      && Split(strng, sep, pos) == Ok((Join(sep, parts[..k]), Join(sep, parts[k..])))
  {
    k := SliceBound(pos, |SplitOn(strng, sep)|);
  }

  lemma HalvesPrefixSuffix(strng: string, sep: string, k: nat)
    requires sep != [] && k <= |SplitOn(strng, sep)|
    ensures var parts := SplitOn(strng, sep);
      Join(sep, parts[..k]) <= strng && IsSuffix(Join(sep, parts[k..]), strng)
  {
    var parts := SplitOn(strng, sep);
    var left, right := Join(sep, parts[..k]), Join(sep, parts[k..]);
    JoinSplitOn(strng, sep);
    if k == 0 {
      assert parts[..0] == [] && parts[0..] == parts;
      assert strng[|strng| - |strng|..] == strng;
    } else if k == |parts| {
      assert parts[..|parts|] == parts && parts[|parts|..] == [];
    } else {
      RejoinAt(strng, sep, k);
      Ends(left, sep, right);
    }
  }

  lemma EndsWith(x: string, y: string, z: string)
    ensures IsSuffix(y + z, x + y + z)
  {
    assert x + y + z == x + (y + z);
    assert (x + (y + z))[|x|..] == y + z;
  }

  lemma Ends(x: string, y: string, z: string)
    ensures x <= x + y + z && IsSuffix(z, x + y + z)
  {
    assert (x + y + z)[..|x|] == x;
    assert (x + y + z)[|x + y + z| - |z|..] == z;
  }

  /** The left half is always a prefix of `strng` and the right half a
      suffix, whatever `pos` is. */
  lemma SplitPrefixSuffix(strng: string, sep: string, pos: int)
    requires sep != []
    ensures Split(strng, sep, pos).value.0 <= strng
    ensures IsSuffix(Split(strng, sep, pos).value.1, strng)
  {
    var k := SplitHalves(strng, sep, pos);
    HalvesPrefixSuffix(strng, sep, k);
  }

  /** For `pos >= 1`, the left half is the join of exactly
      `min(pos, len(strng.split(sep)))` pieces: splitting it again gives
      the first that many pieces of `strng`. */
  lemma SplitLeftPieces(strng: string, sep: string, pos: int)
    requires sep != [] && pos >= 1
    ensures var parts := SplitOn(strng, sep);
      var k := if pos < |parts| then pos else |parts|;
      SplitOn(Split(strng, sep, pos).value.0, sep) == parts[..k]
  {
    var parts := SplitOn(strng, sep);
    SplitOnJoinPrefix(strng, sep, SliceBound(pos, |parts|));
  }

  // ---------------------------------------------------------------------
  // export_to_sub: the Substance export

  /** `filename.split("_")[0]`: the asset name at the front of a scene
      file name. */
  function AssetName(filename: string): (r: string)
    ensures r <= filename && '_' !in r
    ensures r == filename || filename[|r|] == '_'
    ensures r == [] <==> filename == [] || filename[0] == '_'
  {
    FirstField(filename, '_')
  }

  /** `filepath.replace(filename, "")`: the path with every occurrence of
      its own base name removed. */
  function NewPath(filepath: string): string {
    Replace(filepath, Basename(filepath), "")
  }

  /** The directory and the file the Substance export writes to. */
  datatype SubstanceTarget = SubstanceTarget(pathDir: string, fbxTarget: string)

  /** The text the export directory starts with (lines 116-124): the
      scene path up to the first asset name, except in a "characters" path
      without "props" whose directory goes on after its second asset name,
      where it is the directory up to that second asset name. */
  function Stem(filepath: string, assetName: string, splitDir: (string, string)): string
    requires assetName != []
  {
    if Contains(filepath, "characters") then
      if Contains(filepath, "props") then SplitOn(filepath, assetName)[0]
      else if splitDir.1 == "" then SplitOn(filepath, assetName)[0]
      else splitDir.0
    else SplitOn(filepath, assetName)[0]
  }

  /** The first piece of a split is a prefix of the string, and is the
      whole string or ends where `sep` first occurs. */
  lemma FirstPieceBefore(s: string, sep: string)
    requires sep != []
    ensures var r := SplitOn(s, sep)[0];
      r <= s && (r == s || FirstOccurrence(s, sep, |r|))
  {
    var f := Find(s, sep);
    if f.Some? {
      SplitOnFound(s, sep, f.value);
    }
  }

  /** In the branch of lines 121-122 the stem is the left half of the
      split; in the three others it is the scene path up to the first
      occurrence of the asset name (or the whole path). */
  lemma StemBranches(filepath: string, assetName: string, splitDir: (string, string))
    requires assetName != []
    ensures var r := Stem(filepath, assetName, splitDir);
      && (Contains(filepath, "characters") && !Contains(filepath, "props") && splitDir.1 != ""
          ==> r == splitDir.0)
      && (!(Contains(filepath, "characters") && !Contains(filepath, "props") && splitDir.1 != "")
          ==> r <= filepath && (r == filepath || FirstOccurrence(filepath, assetName, |r|)))
  {
  }

  /** Lines 106-124 and 135: from the scene path, the export directory
      `path_dir` and the FBX file `path_dir + asset_name`.  An asset name
      that is empty makes `split` raise. */
  function SubstancePaths(filepath: string): (r: Result<SubstanceTarget>)
    ensures var filename := Basename(filepath);
      r.Err? <==> filename == [] || filename[0] == '_'
    ensures r.Err? ==> r.error == EmptySeparator
    ensures r.Ok? <==> AssetName(Basename(filepath)) != []
    ensures r.Ok? ==> var a := AssetName(Basename(filepath));
      IsSuffix(a + ExportFolder, r.value.pathDir) && r.value.fbxTarget == r.value.pathDir + a
  {
    var assetName := AssetName(Basename(filepath));
    var splitDir := Split(NewPath(filepath), assetName, 2);
    if splitDir.Err? then Err(splitDir.error)
    else
      var stem := Stem(filepath, assetName, splitDir.value);
      var pathDir := stem + assetName + ExportFolder;
      EndsWith(stem, assetName, ExportFolder);
      Ok(SubstanceTarget(pathDir, pathDir + assetName))
  }

  /** The export directory is the stem, the asset name and the export
      folder. */
  lemma SubstanceDir(filepath: string)
    requires SubstancePaths(filepath).Ok?
    ensures var a := AssetName(Basename(filepath));
      SubstancePaths(filepath).value.pathDir
        == Stem(filepath, a, Split(NewPath(filepath), a, 2).value) + a + ExportFolder
  {
  }

  /** `export_to_sub()` as a whole: a warning when nothing is selected, a
      failure when there is no FBX exporter, and otherwise the directory is
      ensured and the selection is exported into it under the asset name. */
  function ExportToSub(selection: seq<string>, fbxAvailable: bool, filepath: string): (r: Run)
    ensures selection == [] <==> r == Warned("No object is selected!")
    ensures r == PluginMissing <==> selection != [] && !fbxAvailable
    ensures r.Raised? <==> selection != [] && fbxAvailable && SubstancePaths(filepath).Err?
    ensures r.Raised? ==> r.error == EmptySeparator
    ensures r.Ran? ==> exists dir :: r.calls == ExportCalls(dir, dir + AssetName(Basename(filepath)))
                                      && IsSuffix(AssetName(Basename(filepath)) + ExportFolder, dir)
    ensures selection != [] && fbxAvailable && SubstancePaths(filepath).Ok? ==>
      r == Ran(ExportCalls(SubstancePaths(filepath).value.pathDir, SubstancePaths(filepath).value.fbxTarget))
  {
    if selection == [] then Warned("No object is selected!")
    else if !fbxAvailable then PluginMissing
    else
      match SubstancePaths(filepath)
      case Err(e) => Raised(e)
      case Ok(t) => Ran(ExportCalls(t.pathDir, t.fbxTarget))
  }

  /** The asset name occurs in the scene path: it starts the base name,
      which ends the path. */
  lemma AssetNameOccurs(filepath: string)
    ensures OccursAt(filepath, AssetName(Basename(filepath)),
                     |filepath| - |Basename(filepath)|)
  {
    var filename := Basename(filepath);
    var a := AssetName(filename);
    var at := |filepath| - |filename|;
    assert filepath[at..] == filename;
    assert filepath[at..at + |a|] == filename[..|a|];
  }

  /** The branch of lines 121-122 that cuts the directory at the second
      occurrence of the asset name: a "characters" path without "props"
      whose directory has text left after that second occurrence. */
  predicate InSecondBranch(filepath: string) {
    var a := AssetName(Basename(filepath));
    && a != []
    && Contains(filepath, "characters")
    && !Contains(filepath, "props")
    && Split(NewPath(filepath), a, 2).value.1 != ""
  }

  /** In the first three branches (path without "characters", path with
      "props", or nothing left after the second asset name in the
      directory) the export directory is the path's text before the first
      occurrence of the asset name, which holds no occurrence of it, then
      the asset name and the export folder. */
  lemma SubstanceFirstOccurrence(filepath: string) returns (i: nat)
    requires AssetName(Basename(filepath)) != [] && !InSecondBranch(filepath)
    ensures var a := AssetName(Basename(filepath));
      && FirstOccurrence(filepath, a, i)
      && SubstancePaths(filepath).value.pathDir == filepath[..i] + a + ExportFolder
  {
    var a := AssetName(Basename(filepath));
    AssetNameOccurs(filepath);
    i := Find(filepath, a).value;
    SplitOnFound(filepath, a, i);
  }

  /** In the remaining branch (a "characters" path without "props", with
      text left after the second asset name in the directory) the export
      directory is the directory up to the second occurrence of the asset
      name, then the asset name and the export folder. */
  lemma SubstanceSecondOccurrence(filepath: string) returns (i: nat, j: nat)
    requires InSecondBranch(filepath)
    ensures var a := AssetName(Basename(filepath)); var p := NewPath(filepath);
      && FirstOccurrence(p, a, i)
      && FirstOccurrence(p[i + |a|..], a, j)
      && SubstancePaths(filepath).value.pathDir == p[..i + |a| + j] + a + ExportFolder
  {
    var a := AssetName(Basename(filepath));
    var p := NewPath(filepath);
    SecondBranchDir(filepath);
    i, j := SecondCut(p, a);
    // Restating the three conjuncts on the local names keeps the solver
    // from unfolding the let-bound ensures; without them the proof runs
    // close to the resource limit.
    assert FirstOccurrence(p, a, i);
    assert FirstOccurrence(p[i + |a|..], a, j);
    assert SubstancePaths(filepath).value.pathDir == p[..i + |a| + j] + a + ExportFolder;
  }

  lemma SecondBranchDir(filepath: string)
    requires InSecondBranch(filepath)
    ensures var a := AssetName(Basename(filepath));
      SubstancePaths(filepath).value.pathDir == Split(NewPath(filepath), a, 2).value.0 + a + ExportFolder
  {
    var a := AssetName(Basename(filepath));
    var splitDir := Split(NewPath(filepath), a, 2).value;
    var x := splitDir.0;
    assert Stem(filepath, a, splitDir) == x;
    SubstanceDir(filepath);
  }

  /** When `split(p, a, 2)` leaves a non-empty remainder, its left half is
      `p` up to the second (non-overlapping) occurrence of `a`. */
  lemma SecondCut(p: string, a: string) returns (i: nat, j: nat)
    requires a != [] && Split(p, a, 2).value.1 != ""
    ensures FirstOccurrence(p, a, i) && FirstOccurrence(p[i + |a|..], a, j)
    ensures Split(p, a, 2).value.0 == p[..i + |a| + j]
  {
    var parts := SplitOn(p, a);
    var k := SplitHalves(p, a, 2);
    assert |parts| > 2;
    i, j := ThreePieces(p, a);
  }

  /** With three pieces or more, the first two rejoined reach up to the
      second occurrence of the separator. */
  lemma ThreePieces(p: string, a: string) returns (i: nat, j: nat)
    requires a != [] && |SplitOn(p, a)| >= 3
    ensures FirstOccurrence(p, a, i) && FirstOccurrence(p[i + |a|..], a, j)
    ensures Join(a, SplitOn(p, a)[..2]) == p[..i + |a| + j]
  {
    var f := Find(p, a);
    assert f.Some?;
    i := f.value;
    var rest := p[i + |a|..];
    SplitOnFound(p, a, i);
    var g := Find(rest, a);
    assert g.Some?;
    j := g.value;
    SplitOnFound(rest, a, j);
    assert SplitOn(p, a)[..2] == [p[..i]] + [rest[..j]];
    JoinCons(a, p[..i], [rest[..j]]);
    CutConcat(p, a, i, j);
  }

  lemma CutConcat(p: string, a: string, i: nat, j: nat)
    requires OccursAt(p, a, i) && i + |a| + j <= |p|
    ensures p[..i] + a + p[i + |a|..][..j] == p[..i + |a| + j]
  {
    assert p[i..i + |a|] == a;
    assert p[i + |a|..][..j] == p[i + |a|..i + |a| + j];
    assert p[..i + |a| + j] == p[..i] + p[i..i + |a|] + p[i + |a|..i + |a| + j];
  }

  /** When the base name occurs in the path only at its end, `new_path` is
      the directory part of the path, trailing `/` included. */
  lemma NewPathIsDirectory(filepath: string)
    requires var f := Basename(filepath);
      f != [] && FirstOccurrence(filepath, f, |filepath| - |f|)
    ensures NewPath(filepath) == filepath[..|filepath| - |Basename(filepath)|]
  {
    var f := Basename(filepath);
    var i := |filepath| - |f|;
    RemoveFirst(filepath, f, i);
    assert filepath[i + |f|..] == [];
    assert Find([], f) == None;
  }

  /** `new_path` is never longer than the scene path, and a path with an
      empty base name (one ending in `/`) is left as it is. */
  lemma NewPathBounds(filepath: string)
    ensures |NewPath(filepath)| <= |filepath|
    ensures Basename(filepath) == [] ==> NewPath(filepath) == filepath
  {
    var filename := Basename(filepath);
    if filename == [] {
      ReplaceEmptyByEmpty(filepath);
    } else {
      RemoveShrinks(filepath, filename);
    }
  }

  // ---------------------------------------------------------------------
  // export_anim: the Anim export

  /** `obj.split(":")[-1].split("_")[0]`: an object name without its
      namespaces and without anything from its first `_` on. */
  function ShortName(obj: string): (r: string)
    ensures ':' !in r && '_' !in r
    ensures IsFirstField(r, LastField(obj, ':'), '_') && IsLastField(LastField(obj, ':'), obj, ':')
  {
    FirstField(LastField(obj, ':'), '_')
  }

  /** `filename.split("_")[1].replace("-", "_")`: the sequence name, the
      second `_`-separated field with every `-` made `_`.  A file name
      without `_` raises IndexError. */
  function SeqName(filename: string): (r: Result<string>)
    ensures r.Err? <==> '_' !in filename
    ensures r.Err? ==> r.error == IndexOutOfRange
    ensures r.Ok? ==> '-' !in r.value
  {
    SecondPiece(filename, '_');
    match Index(SplitOn(filename, "_"), 1)
    case Err(e) => Err(e)
    case Ok(field) =>
      ReplaceChar(field, '-', '_');
      Ok(Replace(field, "-", "_"))
  }

  /** The sequence name is the field between the first and the second `_`
      of the file name, character for character, with `-` made `_`. */
  lemma SeqNameField(filename: string) returns (i: nat)
    requires '_' in filename
    ensures i < |filename| && filename[i] == '_' && '_' !in filename[..i]
    ensures var field := FirstField(filename[i + 1..], '_'); var v := SeqName(filename).value;
      |v| == |field| && forall k :: 0 <= k < |field| ==> v[k] == if field[k] == '-' then '_' else field[k]
  {
    SecondPiece(filename, '_');
    i :| 0 <= i < |filename| && filename[i] == '_' && '_' !in filename[..i]
         && SplitOn(filename, "_")[1] == FirstField(filename[i + 1..], '_');
    ReplaceChar(FirstField(filename[i + 1..], '_'), '-', '_');
  }

  /** The folder and the file name of one Anim export. */
  datatype AnimTarget = AnimTarget(exportDir: string, exportName: string)

  /** `"live" in folder`: the subfolders that receive live assets. */
  predicate IsLive(folder: string) {
    Contains(folder, "live")
  }

  /** A folder is live exactly when "live" occurs somewhere in its name. */
  lemma IsLiveOccurs(folder: string)
    ensures IsLive(folder) <==> exists j :: OccursAt(folder, "live", j)
  {
  }

  /** The export of object `obj` for sequence `seqName` into `folder`. */
  function TargetFor(rootDir: string, folder: string, seqName: string, obj: string): AnimTarget {
    AnimTarget(rootDir + "/" + folder + "/_anim/" + seqName, seqName + "_" + ShortName(obj))
  }

  /** An export goes into `_anim/<seq>` under the folder of the root,
      and its name is the sequence name, `_` and the short name, which
      holds neither `:` nor `_`. */
  lemma TargetForShape(rootDir: string, folder: string, seqName: string, obj: string)
    ensures var t := TargetFor(rootDir, folder, seqName, obj);
      && rootDir + "/" + folder <= t.exportDir && IsSuffix("/_anim/" + seqName, t.exportDir)
      && |seqName| + 1 <= |t.exportName| && t.exportName[..|seqName| + 1] == seqName + "_"
      && var rest := t.exportName[|seqName| + 1..];
         rest == ShortName(obj) && ':' !in rest && '_' !in rest
  {
  }

  /** The exports the inner loop issues for one live folder, in order. */
  function FolderTargets(rootDir: string, folder: string, seqName: string, sel: seq<string>): seq<AnimTarget>
    decreases |sel|
  {
    if sel == [] then []
    else FolderTargets(rootDir, folder, seqName, sel[..|sel| - 1])
         + [TargetFor(rootDir, folder, seqName, sel[|sel| - 1])]
  }

  /** The exports both loops issue, folder by folder, in order. */
  function AnimTargets(rootDir: string, folders: seq<string>, seqName: string, sel: seq<string>): seq<AnimTarget>
    decreases |folders|
  {
    if folders == [] then []
    else
      var last := folders[|folders| - 1];
      AnimTargets(rootDir, folders[..|folders| - 1], seqName, sel)
      + (if IsLive(last) then FolderTargets(rootDir, last, seqName, sel) else [])
  }

  /** The host calls issued for a list of exports, in order. */
  function AnimCalls(targets: seq<AnimTarget>): seq<HostCall>
    decreases |targets|
  {
    if targets == [] then []
    else
      var t := targets[|targets| - 1];
      AnimCalls(targets[..|targets| - 1]) + ExportCalls(t.exportDir, t.exportDir + "/" + t.exportName)
  }

  /** The subfolders whose names contain "live", in order. */
  function LiveFolders(folders: seq<string>): (r: seq<string>)
    ensures forall f :: f in r <==> f in folders && IsLive(f)
    decreases |folders|
  {
    if folders == [] then []
    else
      var last := folders[|folders| - 1];
      LiveFolders(folders[..|folders| - 1]) + (if IsLive(last) then [last] else [])
  }

  /** `export_anim()`: unless exactly one object is selected it only
      warns; without an FBX exporter it fails; a file name without `_`
      raises; otherwise it issues the exports of `IssueAnimExports`. */
  method ExportAnim(selection: seq<string>, fbxAvailable: bool, filepath: string,
                    rootDir: string, subfolders: seq<string>)
    returns (run: Run, targets: seq<AnimTarget>)
    ensures |selection| != 1 ==> run == Warned("Select one object only!") && targets == []
    ensures |selection| == 1 && !fbxAvailable ==> run == PluginMissing && targets == []
    ensures |selection| == 1 && fbxAvailable && SeqName(Basename(filepath)).Err? ==>
      run == Raised(IndexOutOfRange) && targets == []
    ensures |selection| == 1 && fbxAvailable && SeqName(Basename(filepath)).Ok? ==>
      && targets == AnimTargets(rootDir, subfolders, SeqName(Basename(filepath)).value, selection)
      && run == Ran(AnimCalls(targets))
  {
    targets := [];
    if |selection| != 1 {
      return Warned("Select one object only!"), targets;
    }
    if !fbxAvailable {
      return PluginMissing, targets;
    }
    var filename := Basename(filepath);
    var name := SeqName(filename);
    if name.Err? {
      return Raised(name.error), targets;
    }
    var calls;
    targets, calls := IssueAnimExports(rootDir, subfolders, name.value, selection);
    run := Ran(calls);
  }

  /** Lines 170-187: the two nested loops of `export_anim`.  For every
      subfolder whose name contains "live", and in it for every selected
      object, one export into `<root>/<folder>/_anim/<seq>` named
      `<seq>_<short name>`; `targets` lists the exports in the order they
      are issued and `calls` the host calls that issue them. */
  method IssueAnimExports(rootDir: string, subfolders: seq<string>, seqName: string, selection: seq<string>)
    returns (targets: seq<AnimTarget>, calls: seq<HostCall>)
    ensures targets == AnimTargets(rootDir, subfolders, seqName, selection)
    ensures calls == AnimCalls(targets)
  {
    targets, calls := [], [];
    var i := 0;
    while i < |subfolders|
      invariant 0 <= i <= |subfolders|
      invariant targets == AnimTargets(rootDir, subfolders[..i], seqName, selection)
      invariant calls == AnimCalls(targets)
    {
      var folder := subfolders[i];
      ghost var done := targets;
      AnimTargetsStep(rootDir, subfolders, i, seqName, selection);
      if IsLive(folder) {
        var sel := selection;
        var j := 0;
        while j < |sel|
          invariant 0 <= j <= |sel|
          invariant targets == done + FolderTargets(rootDir, folder, seqName, sel[..j])
          invariant calls == AnimCalls(targets)
        {
          var obj := sel[j];
          var shortName := ShortName(obj);
          var exportName := seqName + "_" + shortName;
          var exportDir := rootDir + "/" + folder + "/_anim/" + seqName;
          calls := calls + ExportCalls(exportDir, exportDir + "/" + exportName);
          var t := AnimTarget(exportDir, exportName);
          assert t == TargetFor(rootDir, folder, seqName, obj);
          FolderTargetsStep(rootDir, folder, seqName, sel, j);
          AnimCallsSnoc(targets, t);
          AppendAssoc(done, FolderTargets(rootDir, folder, seqName, sel[..j]), t);
          targets := targets + [t];
          j := j + 1;
        }
        assert sel[..j] == selection;
      } else {
        assert done + [] == done;
      }
      i := i + 1;
    }
    assert subfolders[..i] == subfolders;
  }

  lemma AppendAssoc(a: seq<AnimTarget>, b: seq<AnimTarget>, t: AnimTarget)
    ensures a + b + [t] == a + (b + [t])
  {
  }

  lemma AnimTargetsStep(rootDir: string, folders: seq<string>, i: nat, seqName: string, sel: seq<string>)
    requires i < |folders|
    ensures AnimTargets(rootDir, folders[..i + 1], seqName, sel)
         == AnimTargets(rootDir, folders[..i], seqName, sel)
            + (if IsLive(folders[i]) then FolderTargets(rootDir, folders[i], seqName, sel) else [])
  {
    assert folders[..i + 1][..i] == folders[..i];
  }

  lemma FolderTargetsStep(rootDir: string, folder: string, seqName: string, sel: seq<string>, j: nat)
    requires j < |sel|
    ensures FolderTargets(rootDir, folder, seqName, sel[..j + 1])
         == FolderTargets(rootDir, folder, seqName, sel[..j]) + [TargetFor(rootDir, folder, seqName, sel[j])]
  {
    assert sel[..j + 1][..j] == sel[..j];
  }

  lemma AnimCallsSnoc(targets: seq<AnimTarget>, t: AnimTarget)
    ensures AnimCalls(targets + [t]) == AnimCalls(targets) + ExportCalls(t.exportDir, t.exportDir + "/" + t.exportName)
  {
    assert (targets + [t])[..|targets|] == targets;
  }

  // ---------------------------------------------------------------------
  // properties of the Anim export targets

  /** `t` is the export of some selected object into some live subfolder. */
  ghost predicate Emitted(rootDir: string, folders: seq<string>, seqName: string, sel: seq<string>, t: AnimTarget) {
    exists f, o :: f in folders && IsLive(f) && o in sel && t == TargetFor(rootDir, f, seqName, o)
  }

  lemma {:induction false} FolderTargetsAre(rootDir: string, folder: string, seqName: string, sel: seq<string>)
    ensures |FolderTargets(rootDir, folder, seqName, sel)| == |sel|
    ensures forall k :: 0 <= k < |sel| ==>
      FolderTargets(rootDir, folder, seqName, sel)[k] == TargetFor(rootDir, folder, seqName, sel[k])
    decreases |sel|
  {
    if sel != [] {
      var init := sel[..|sel| - 1];
      FolderTargetsAre(rootDir, folder, seqName, init);
      assert forall k :: 0 <= k < |init| ==> init[k] == sel[k];
    }
  }

  /** Every emitted target is the export of a selected object into a
      subfolder whose name contains "live". */
  lemma {:induction false} AnimTargetsSound(rootDir: string, folders: seq<string>, seqName: string, sel: seq<string>)
    ensures forall t :: t in AnimTargets(rootDir, folders, seqName, sel) ==> Emitted(rootDir, folders, seqName, sel, t)
    decreases |folders|
  {
    if folders != [] {
      var init := folders[..|folders| - 1];
      var last := folders[|folders| - 1];
      AnimTargetsSound(rootDir, init, seqName, sel);
      FolderTargetsAre(rootDir, last, seqName, sel);
      forall t | t in AnimTargets(rootDir, folders, seqName, sel)
        ensures Emitted(rootDir, folders, seqName, sel, t)
      {
        if t in AnimTargets(rootDir, init, seqName, sel) {
          var f, o :| f in init && IsLive(f) && o in sel && t == TargetFor(rootDir, f, seqName, o);
          assert f in folders;
        } else {
          var ts := FolderTargets(rootDir, last, seqName, sel);
          assert IsLive(last) && t in ts;
          var k :| 0 <= k < |ts| && ts[k] == t;
          assert sel[k] in sel && t == TargetFor(rootDir, last, seqName, sel[k]);
        }
      }
    }
  }

  /** Every selected object is exported into every subfolder whose name
      contains "live". */
  lemma {:induction false} AnimTargetsComplete(rootDir: string, folders: seq<string>, seqName: string, sel: seq<string>,
                                               f: string, o: string)
    requires f in folders && IsLive(f) && o in sel
    ensures TargetFor(rootDir, f, seqName, o) in AnimTargets(rootDir, folders, seqName, sel)
    decreases |folders|
  {
    var init := folders[..|folders| - 1];
    var last := folders[|folders| - 1];
    if f == last {
      FolderTargetsAre(rootDir, last, seqName, sel);
      var k :| 0 <= k < |sel| && sel[k] == o;
      assert FolderTargets(rootDir, last, seqName, sel)[k] == TargetFor(rootDir, f, seqName, o);
    } else {
      assert folders == init + [last];
      assert f in init;
      AnimTargetsComplete(rootDir, init, seqName, sel, f, o);
    }
  }

  /** The number of exports is the number of live subfolders times the
      number of selected objects. */
  lemma {:induction false} AnimTargetsCount(rootDir: string, folders: seq<string>, seqName: string, sel: seq<string>)
    ensures |AnimTargets(rootDir, folders, seqName, sel)| == |LiveFolders(folders)| * |sel|
    decreases |folders|
  {
    if folders != [] {
      var init := folders[..|folders| - 1];
      var last := folders[|folders| - 1];
      AnimTargetsCount(rootDir, init, seqName, sel);
      FolderTargetsAre(rootDir, last, seqName, sel);
      if IsLive(last) {
        assert |LiveFolders(folders)| == |LiveFolders(init)| + 1;
        assert (|LiveFolders(init)| + 1) * |sel| == |LiveFolders(init)| * |sel| + |sel|;
      }
    }
  }

  lemma AnimTargetsSnoc(rootDir: string, folders: seq<string>, f: string, seqName: string, sel: seq<string>)
    ensures AnimTargets(rootDir, folders + [f], seqName, sel)
         == AnimTargets(rootDir, folders, seqName, sel)
            + (if IsLive(f) then FolderTargets(rootDir, f, seqName, sel) else [])
  {
    assert (folders + [f])[..|folders|] == folders;
  }

  /** Subfolders whose names do not contain "live" contribute nothing:
      only the live subfolders decide the exports. */
  lemma {:induction false} NonLiveIgnored(rootDir: string, folders: seq<string>, seqName: string, sel: seq<string>)
    ensures AnimTargets(rootDir, folders, seqName, sel) == AnimTargets(rootDir, LiveFolders(folders), seqName, sel)
    decreases |folders|
  {
    if folders != [] {
      var init := folders[..|folders| - 1];
      var last := folders[|folders| - 1];
      NonLiveIgnored(rootDir, init, seqName, sel);
      if IsLive(last) {
        assert LiveFolders(folders) == LiveFolders(init) + [last];
        AnimTargetsSnoc(rootDir, LiveFolders(init), last, seqName, sel);
      } else {
        assert LiveFolders(folders) == LiveFolders(init);
      }
    }
  }

  // ---------------------------------------------------------------------
  // a scene path that reaches the second branch

  /** The base name of the scene `characters/z/z/z_`. */
  lemma SceneBasename(s: string)
    requires s == "characters/z/z/z_"
    ensures Basename(s) == "z_"
  {
    LastFieldAt(s, '/', 14);
  }

  /** Its asset name. */
  lemma SceneAssetName()
    ensures AssetName("z_") == "z"
  {
    FirstFieldAt("z_", '_', 1);
  }

  /** Its `new_path`: the base name removed. */
  lemma SceneNewPath(s: string)
    requires s == "characters/z/z/z_"
    ensures NewPath(s) == "characters/z/z/"
  {
    SceneBasename(s);
    NoOccurrenceBefore(s, "z_", 1, 15);
    assert s[15..17] == "z_";
    RemoveFirst(s, "z_", 15);
    RemoveAbsent([], "z_");
    assert s[..15] == "characters/z/z/";
  }

  /** The path holds "characters" and not "props". */
  lemma SceneContains(s: string)
    requires s == "characters/z/z/z_"
    ensures Contains(s, "characters") && !Contains(s, "props")
  {
    assert s[0..10] == "characters";
    FindFirst(s, "characters", 0);
    AbsentChar(s, "props", 0);
  }

  /** `split(new_path, "z", 2)` leaves `/` after the second `z`. */
  lemma SceneSplit(p: string)
    requires p == "characters/z/z/"
    ensures Split(p, "z", 2).value.1 == "/"
  {
    FindChar(p, 'z', 11);
    SplitOnFound(p, "z", 11);
    var r1 := p[12..];
    FindChar(r1, 'z', 1);
    SplitOnFound(r1, "z", 1);
    var r2 := r1[2..];
    FindCharAbsent(r2, 'z');
    assert SplitOn(r2, "z") == [r2];
    var parts := SplitOn(p, "z");
    assert parts == [p[..11], r1[..1], r2];
    assert parts[2..] == [r2];
  }

  /** The branch of lines 119-122 is reached: `characters/z/z/z_` meets
      the precondition of `SubstanceSecondOccurrence`. */
  lemma SecondBranchScene(s: string)
    requires s == "characters/z/z/z_"
    ensures InSecondBranch(s)
    ensures Split(NewPath(s), "z", 2).value.1 == "/"
  {
    SceneBasename(s);
    SceneAssetName();
    SceneNewPath(s);
    SceneContains(s);
    SceneSplit(NewPath(s));
  }
}
