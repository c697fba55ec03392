# Truemax export paths

The Truemax plug-in for the Prism pipeline exports Maya selections as FBX
files. Its script `Scripts/tempCodeRunnerFile.py` works out where each
file goes. This project models that logic in Dafny and proves properties
of it:

- `split(strng, sep, pos)`: split a string on a separator, then rejoin the
  first `pos` pieces and the rest into a pair.
- The Substance export (`export_to_sub`). From the scene path it derives
  the export directory `path_dir` and the FBX file `path_dir + asset_name`,
  then ensures the directory and issues the FBX export commands.
- The Anim export (`export_anim`). It takes the sequence name from the
  scene file name. Then, for every pipeline subfolder whose name contains
  `"live"` and every selected object, it ensures
  `<root>/<folder>/_anim/<seq>` and exports `<seq>_<short name>` into it.

The model has two files:

- `pystrings.dfy` (module `PyStrings`) models the Python string operations
  the script relies on, as it relies on them: `in`, `split`, `join`,
  `replace`, list indexing and `os.path.basename`. `Find` and `FindFrom`
  are the left-to-right substring search that `in` and `split` rest on;
  the script does not call `str.find` itself. The raised exceptions are
  modelled as `PyError` values.
- `truemax_export.dfy` (module `TruemaxExport`) models the script itself:
  - `split` and the Substance path derivation are functions;
  - the nested loops of the Anim export are a method with loop invariants,
    proved against the specification function `AnimTargets`.

The host application is not modelled; it becomes inputs and recorded
outputs:

- inputs: the selected object names, the scene path, whether an FBX
  exporter is available, the pipeline root found by `find_dir`, and the
  subfolder names listed by `list_subfolders`;
- outputs: what the script does to the host, recorded as a sequence of
  `HostCall` values (`EnsureDir(path)` for `ensure_dir`, `MelEval(command)`
  for `mel.eval`).

## Model

| member | source | states |
|---|---|---|
| PyStrings.Contains | Scripts/tempCodeRunnerFile.py:116-117 | the empty string is in every string, and a string is in `s` only if it is no longer than `s` |
| PyStrings.SplitOn | Scripts/tempCodeRunnerFile.py:31 | `s.split(sep)` with a non-empty `sep` always has at least one piece |
| PyStrings.Replace | Scripts/tempCodeRunnerFile.py:110 | replacing a non-empty pattern that does not occur leaves the string as it is |
| PyStrings.Basename | Scripts/tempCodeRunnerFile.py:109 | `os.path.basename(path)` is a suffix of the path without `/`, and is the whole path or preceded in it by a `/` |
| PyStrings.FindFrom | Scripts/tempCodeRunnerFile.py:116-117 | the result is the first index at or after `k` where `t` occurs, or none when `t` occurs nowhere from `k` on |
| PyStrings.Find | Scripts/tempCodeRunnerFile.py:116-117 | the result is the first occurrence of `t` in `s`, or none when `t` occurs nowhere |
| PyStrings.FindFirst | Scripts/tempCodeRunnerFile.py:116-117 | the first occurrence determines the result of the search |
| PyStrings.ContainsOccurs | Scripts/tempCodeRunnerFile.py:171 | `t in s` holds exactly when `t` occurs at some index of `s` |
| PyStrings.Index | Scripts/tempCodeRunnerFile.py:167 | indexing a list fails with IndexError exactly when the index is past the end; otherwise it gives that element |
| PyStrings.JoinSplitOn | Scripts/tempCodeRunnerFile.py:31-32 | joining the pieces of `s.split(sep)` with `sep` gives `s` back |
| PyStrings.JoinAppend | Scripts/tempCodeRunnerFile.py:32 | the join of two non-empty lists put together is the two joins with one `sep` between them |
| PyStrings.SplitOnJoinPrefix | Scripts/tempCodeRunnerFile.py:31-32 | splitting the join of the first `k` pieces of a split gives exactly those `k` pieces back |
| PyStrings.FirstField | Scripts/tempCodeRunnerFile.py:111 | `s.split(c)[0]` is a prefix of `s` without `c`, and is all of `s` or followed in `s` by a `c` |
| PyStrings.LastField | Scripts/tempCodeRunnerFile.py:109 | `s.split(c)[-1]` is a suffix of `s` without `c`, and is all of `s` or preceded in `s` by a `c` |
| PyStrings.FirstFieldAt | Scripts/tempCodeRunnerFile.py:111 | the first field is exactly the text before the first position holding the character |
| PyStrings.LastFieldAt | Scripts/tempCodeRunnerFile.py:109 | the last field, and so the base name, is exactly the text after the last position holding the character |
| PyStrings.AbsentChar | Scripts/tempCodeRunnerFile.py:117 | a string lacking one of the characters of `t` does not contain `t` |
| PyStrings.SecondPiece | Scripts/tempCodeRunnerFile.py:167 | `s.split(c)` has a second piece exactly when `s` contains `c`; that piece is the text between the first `c` and the next one |
| PyStrings.ReplaceEmptyByEmpty | Scripts/tempCodeRunnerFile.py:110 | `s.replace("", "")` is `s` |
| PyStrings.RemoveShrinks | Scripts/tempCodeRunnerFile.py:110 | removing a non-empty pattern never makes the string longer |
| PyStrings.RemoveAbsent | Scripts/tempCodeRunnerFile.py:110 | removing a pattern that does not occur leaves the string unchanged |
| PyStrings.RemoveFirst | Scripts/tempCodeRunnerFile.py:110 | `s.replace(pat, "")` keeps the text before the first `pat` and goes on removing after it, so every occurrence goes and not only the last one |
| PyStrings.ReplaceChar | Scripts/tempCodeRunnerFile.py:167 | replacing one character by another keeps the length and changes exactly the positions holding that character |
| TruemaxExport.SliceBound | Scripts/tempCodeRunnerFile.py:32 | the contract bounds the cut of `xs[:pos]` / `xs[pos:]` by the list length; the body is Python's slice clamp, a negative `pos` counting from the end |
| TruemaxExport.Split | Scripts/tempCodeRunnerFile.py:20-32 | `split` fails with ValueError exactly when `sep` is empty |
| TruemaxExport.RejoinAt | Scripts/tempCodeRunnerFile.py:31-32 | cutting the pieces strictly inside and rejoining both halves with `sep` gives the string back |
| TruemaxExport.SplitRoundTrip | Scripts/tempCodeRunnerFile.py:31-32 | for `1 <= pos < len(strng.split(sep))`, `left + sep + right == strng` |
| TruemaxExport.SplitEdges | Scripts/tempCodeRunnerFile.py:31-32 | a cut before the first piece puts the whole string on the right (`pos == 0` gives `("", strng)`), and a cut at or past the last piece puts it whole on the left (`(strng, "")`) |
| TruemaxExport.HalvesPrefixSuffix | Scripts/tempCodeRunnerFile.py:31-32 | wherever the pieces are cut, the left join is a prefix of the string and the right join a suffix |
| TruemaxExport.SplitPrefixSuffix | Scripts/tempCodeRunnerFile.py:31-32 | for every `pos`, `left` is a prefix of `strng` and `right` a suffix |
| TruemaxExport.SplitLeftPieces | Scripts/tempCodeRunnerFile.py:31-32 | for `pos >= 1`, `left` splits back into exactly the first `min(pos, len(parts))` pieces |
| TruemaxExport.AssetName | Scripts/tempCodeRunnerFile.py:111 | the asset name is a prefix of the file name without `_`; it is the whole name or stops at a `_`; it is empty exactly when the name is empty or starts with `_` |
| TruemaxExport.SubstancePaths | Scripts/tempCodeRunnerFile.py:106-124 | the derivation fails exactly when the file name is empty or starts with `_` (the split on an empty asset name raises ValueError); otherwise `path_dir` ends in `asset_name + "/Export/shdExport/"` and the FBX target is `path_dir + asset_name` |
| TruemaxExport.NewPathBounds | Scripts/tempCodeRunnerFile.py:109-110 | `new_path` is never longer than the scene path, and a path with an empty base name is left as it is |
| TruemaxExport.FirstPieceBefore | Scripts/tempCodeRunnerFile.py:118 | `s.split(sep)[0]` is a prefix of `s`, and is all of `s` or ends where `sep` first occurs in `s` |
| TruemaxExport.StemBranches | Scripts/tempCodeRunnerFile.py:116-124 | in the branch of line 122 the directory starts with the left half of `split(new_path, asset_name, 2)`; in the other three it starts with the scene path up to the first occurrence of the asset name, or the whole path |
| TruemaxExport.AssetNameOccurs | Scripts/tempCodeRunnerFile.py:109-111 | the asset name occurs in the scene path where the base name starts |
| TruemaxExport.SubstanceFirstOccurrence | Scripts/tempCodeRunnerFile.py:113-124 | without "characters", with "props", or with an empty split remainder, `path_dir` is the path's text before the first occurrence of the asset name (which holds no occurrence of it), then the asset name and the export folder |
| TruemaxExport.SubstanceSecondOccurrence | Scripts/tempCodeRunnerFile.py:113-122 | in a "characters" path without "props" whose split remainder is not empty, `path_dir` is `new_path` up to its second occurrence of the asset name, then the asset name and the export folder |
| TruemaxExport.SecondBranchScene | Scripts/tempCodeRunnerFile.py:116-122 | the scene path `characters/z/z/z_` reaches the branch of line 122: it holds "characters", not "props", and the remainder of `split(new_path, asset_name, 2)` is `/`, so not empty |
| TruemaxExport.SecondCut | Scripts/tempCodeRunnerFile.py:113 | a non-empty remainder of `split(p, a, 2)` means that `a` occurs twice, and the left half reaches up to the second occurrence |
| TruemaxExport.ThreePieces | Scripts/tempCodeRunnerFile.py:31-32 | with three pieces or more, the first two rejoined reach up to the second occurrence of the separator |
| TruemaxExport.NewPathIsDirectory | Scripts/tempCodeRunnerFile.py:109-110 | when the base name occurs in the path only at its end, `new_path` is the directory part, trailing `/` included |
| TruemaxExport.MelText | Scripts/tempCodeRunnerFile.py:130-135 | every command text is an `FBXExport` command, and the export command names its target file right after `FBXExport -f "` |
| TruemaxExport.ExportCalls | Scripts/tempCodeRunnerFile.py:127-135 | one export is five host calls: ensure the directory first, export the selection to the target last, and in between only option settings, none of them an export |
| TruemaxExport.ExportToSub | Scripts/tempCodeRunnerFile.py:96-138 | an empty selection only warns; a missing FBX exporter fails; a failed derivation raises; when the derivation succeeds the run always goes through, and its calls are those of `ExportCalls` on the `path_dir` and `fbxTarget` of `SubstancePaths`: ensure `path_dir`, set the three options, export to `path_dir + asset_name` |
| TruemaxExport.ShortName | Scripts/tempCodeRunnerFile.py:176 | the short name holds neither `:` nor `_`; it is the text before the first `_` of the text after the last `:` |
| TruemaxExport.SeqName | Scripts/tempCodeRunnerFile.py:167 | a file name without `_` raises IndexError; otherwise the sequence name holds no `-` |
| TruemaxExport.SeqNameField | Scripts/tempCodeRunnerFile.py:167 | the sequence name is, character for character, the field after the first `_` up to the next `_`, with each `-` made `_` |
| TruemaxExport.IsLiveOccurs | Scripts/tempCodeRunnerFile.py:171 | `"live" in folder` holds exactly when "live" occurs at some index of the folder name |
| TruemaxExport.TargetForShape | Scripts/tempCodeRunnerFile.py:176-180 | an export goes into `_anim/<seq>` under `<root>/<folder>`, and is named `<seq>_` followed by the short name, which holds neither `:` nor `_` |
| TruemaxExport.LiveFolders | Scripts/tempCodeRunnerFile.py:170-171 | a folder is listed exactly when it is a subfolder whose name contains "live" |
| TruemaxExport.ExportAnim | Scripts/tempCodeRunnerFile.py:147-190 | unless exactly one object is selected it only warns; a missing FBX exporter fails; a file name without `_` raises IndexError; in every one of these cases nothing is exported; otherwise the exports are those of `AnimTargets` and the calls those of `AnimCalls` |
| TruemaxExport.IssueAnimExports | Scripts/tempCodeRunnerFile.py:170-187 | the two loops issue the exports of `AnimTargets`, in order, through the host calls of `AnimCalls` |
| TruemaxExport.FolderTargetsAre | Scripts/tempCodeRunnerFile.py:175-180 | a live folder gets one export per selected object, the `k`-th for the `k`-th object |
| TruemaxExport.AnimTargetsSound | Scripts/tempCodeRunnerFile.py:170-180 | every export is `(root + "/" + folder + "/_anim/" + seq, seq + "_" + short name)` for a subfolder whose name contains "live" and a selected object |
| TruemaxExport.AnimTargetsComplete | Scripts/tempCodeRunnerFile.py:170-180 | every selected object is exported into every subfolder whose name contains "live" |
| TruemaxExport.AnimTargetsCount | Scripts/tempCodeRunnerFile.py:170-178 | the number of exports is the number of live subfolders times the number of selected objects |
| TruemaxExport.NonLiveIgnored | Scripts/tempCodeRunnerFile.py:170-171 | subfolders whose names lack "live" contribute nothing: the exports are those of the live subfolders alone |

## Left out

- `Scripts/Prism_prismTruemax_Functions.py` is not part of this model. It holds the pipeline's lifecycle hooks, an exception-swallowing decorator and Qt signal wiring, none of which decides an export path.
- `Scripts/truemax_export_ui.py` is not part of this model: it only builds Qt widgets.
- The `TruemaxExport` window class and the `__main__` block (`Scripts/tempCodeRunnerFile.py:199-217`) are user interface and event loop.
- `list_subfolders`, `ensure_dir` and `find_dir` (`Scripts/tempCodeRunnerFile.py:35-88`) call the file system. The pipeline root and its subfolder names are inputs, and `ensure_dir` is a recorded `EnsureDir` call. `find_dir` loops forever once `dirname` reaches the file-system root without finding `00_Pipeline`; the model starts from its result and does not capture that hang. Nor does it capture that `find_dir` can raise: for an empty scene path (an unsaved scene) `new_path` is `""`, and `os.listdir("")` at line 80 raises OSError before line 167 is reached, where the model reports the IndexError of line 167 instead.
- The Maya calls are also inputs. `mc.ls`, `mc.file`, and the `mc.FBXExport` / `mc.loadPlugin('fbxmaya')` probe are given as the selection, the scene path and one boolean for "an FBX exporter is available".
- `mel.eval` is recorded as a structured `MelCommand`, and `MelText` gives the command text. Python's `str.format` into that text is not modelled separately.
- Console output is not modelled: the `print` statements (lines 69, 136, 146, 163, 188) and the text written to stderr. `mc.warning` is kept only as the `Warned` outcome, with its message.
- The `return False` after a missing plug-in is the `PluginMissing` outcome. The functions' other return values (`None`) are not modelled.
- `ExportAnim`: the selection is queried again inside the loop (line 173). The model uses the same selection as at line 147, because nothing in between changes it.
- `ExportAnim`: the asset name computed at line 160 is never used, and the model does not compute it.
- `os.path.basename` is modelled in its POSIX form only: the text after the last `/`. A Windows path with `\` separators is not split on `\`.
- Host calls are taken to return normally. A `RuntimeError` from `mel.eval` or an `OSError` from `os.makedirs` inside `ensure_dir` would end the export, or the Anim loops, part-way; the `Run` outcome and `AnimCalls` record only runs in which every call succeeds.
- Strings are sequences of characters: the Python 2 byte strings of the script are not distinguished from text.
