# auto-sorter: a verified model of the download sorter's decision core

auto-sorter.py watches a Downloads folder. For each file that appears, it
decides whether to leave the file alone or move it into a category folder,
and it moves the file without overwriting any path that `os.path.exists`
reports (see "## Left out" for dangling links). This project models that
decision core in Dafny and proves what the script promises about it:

- **Extension extraction.** `Classify.Extension` is `filename.split(".")[-1]`,
  lower-cased by ASCII letters only (see "## Left out").
- **Partial-download filter.** `Classify.IsIncomplete` tests for the
  `.crdownload`, `.part` and `.tmp` suffixes.
- **Category routing.** `Classify.FirstMatch` and `Classify.Route` find the first
  category in config order that lists the extension, then look up its folder
  with `DESTINATION_FOLDERS.get`. `Classify.ResolveDestination` is the `for`
  loop with its `break`.
- **Collision-free naming.** `FileStore.FileSystem.SafeMove` is `safe_move`: a
  `while` loop over a mutable set of existing paths. It tries the candidates
  `Naming.CandidatePath` in turn (`base+ext`, `base(1)ext`, `base(2)ext`, ...).
  Once it finds a free one, it moves the source there with
  `FileStore.FileSystem.Move`.
- **Per-event decision chain.** `Sorter.EventDecision` and `Sorter.SortDecision`
  are the `on_created` and `sort_file` early-return chain, written as pure
  functions. `Sorter.SortFile` and `Sorter.OnCreated` are the handler methods
  that act on the file system. They are proved to do what the decision says.
- **File completeness.** `Sorter.IsFileComplete` is `is_file_complete`'s verdict:
  two size readings, both present and equal.

`PathOps` supplies the parts of Python's POSIX `os.path` that the core uses.
These are `basename`, a two-argument `join` and `splitext`; `splitext` follows
CPython's rule that leading dots do not start an extension. `PathOps` also
provides `str()` of a counter. `Wrappers` holds `Option`, `Result` and `dict.get`.

The things the handler learns from the operating system are given to it as
inputs rather than read:

- `os.path.isfile`;
- the two `os.path.getsize` readings;
- whether `shutil.move` raises.

`os.path.exists` is membership in the set `FileSystem.paths`.

## Model

| member | source | states |
|---|---|---|
| PathOps.LastIndexOf | auto-sorter.py:101 | the result is -1 or an index holding the character, and no later index holds it (the last `.` that `split` cuts at) |
| PathOps.EndsWith | auto-sorter.py:104 | `str.endswith` for one suffix: the suffix is no longer than the string and equals its tail |
| PathOps.BaseName | auto-sorter.py:100 | `os.path.basename`: the text after the last '/' (the whole path when there is none); its properties are stated by `PathOps.BaseNameSpec` |
| PathOps.BaseNameSpec | auto-sorter.py:100 | `os.path.basename` is a '/'-free suffix of the path, and a '/' comes right before it unless it is the whole path |
| PathOps.Join | auto-sorter.py:76 | `os.path.join(dest_folder, name)`: an absolute name replaces the folder; otherwise a '/' is inserted unless the folder is empty or already ends with one; stated by `PathOps.JoinBaseName` and `PathOps.JoinInjective` |
| PathOps.JoinBaseName | auto-sorter.py:76-79 | joining a '/'-free name onto the destination folder gives a path that starts with the folder and whose basename is that name |
| PathOps.JoinInjective | auto-sorter.py:76-79 | two different '/'-free names joined onto the same folder give different paths |
| PathOps.SplitExt | auto-sorter.py:74 | `os.path.splitext`: cut at the last '.' of the final component unless only dots precede it there; stated by `PathOps.SplitExtSpec` |
| PathOps.SplitExtSpec | auto-sorter.py:74 | `os.path.splitext`: root + ext rebuilds the name; ext is empty or a '.' followed by text with no '.' or '/'; ext is non-empty exactly when a '.' follows a non-dot character of the last component; and then the root stops at the last '.' |
| PathOps.Decimal | auto-sorter.py:79 | `str(counter)` is a non-empty string of decimal digits with no leading zero |
| PathOps.DecimalRoundTrip | auto-sorter.py:79 | reading `str(n)` back as a decimal number gives n |
| PathOps.DecimalInjective | auto-sorter.py:79 | different counters render as different strings |
| Wrappers.Lookup | auto-sorter.py:117 | `DESTINATION_FOLDERS.get(category)` is present exactly when the key is in the map, and then it is the mapped folder |
| Classify.LowerChar | auto-sorter.py:101 | lower-casing one character: upper-case ASCII letters move to lower case, everything else is kept, and the result is '.' exactly when the input was |
| Classify.ToLower | auto-sorter.py:101 | ASCII lower-casing of a string (not the full `str.lower`, see "## Left out"): it keeps the length and applies `Classify.LowerChar` at each position |
| Classify.LastField | auto-sorter.py:101 | `filename.split(".")[-1]`: the text after the last '.', or the whole name when there is none |
| Classify.Extension | auto-sorter.py:101 | the classifying extension: `Classify.LastField` lower-cased (ASCII); its properties are stated by `Classify.ExtensionSpec` |
| Classify.ExtensionSpec | auto-sorter.py:100-101 | the extension holds no '.' and no upper-case letter; it is the lower-casing of a suffix of the name that is either the whole name or preceded by '.'; for a name without '.' it is the whole name lower-cased |
| Classify.ExtensionAgreesWithSplitExt | auto-sorter.py:74 | when `splitext` finds an extension, the classifying extension is that extension without its dot, lower-cased |
| Classify.IsIncomplete | auto-sorter.py:104 | `filename.endswith((".crdownload", ".part", ".tmp"))`; stated by `Classify.IncompleteIsCaseSensitive` and `Sorter.IncompleteSkippedFirst` |
| Classify.ExtensionOfUpperCaseName | auto-sorter.py:101 | "holiday.JPG" is classified by "jpg" |
| Classify.ExtensionOfDotlessName | auto-sorter.py:101 | a name without '.' ("PDF") is its own extension, lower-cased ("pdf") |
| Classify.ExtensionOfHiddenName | auto-sorter.py:74 | ".bashrc" is classified by "bashrc", while `splitext` gives it no extension |
| Classify.IncompleteIsCaseSensitive | auto-sorter.py:104 | the partial-download test is an exact suffix test: ".part" and ".crdownload" match, but ".TMP" does not, and neither does the bare name "part" |
| Classify.FirstMatch | auto-sorter.py:115-118 | the index found is the first category, in config order, whose list contains the extension; None means no category lists it |
| Classify.Route | auto-sorter.py:114-118 | the destination the lookup loop ends with: `DESTINATION_FOLDERS.get` of the first listing category, or None when no category lists the extension |
| Classify.RouteByFirstListing | auto-sorter.py:115-118 | if category i is the first to list the extension, the route is `DESTINATION_FOLDERS.get` of category i's name |
| Classify.RouteIgnoresLaterCategories | auto-sorter.py:115-118 | once a category lists the extension, appending more categories never changes the route (the `break`) |
| Classify.RouteMissing | auto-sorter.py:114-118 | the lookup yields None exactly when no category lists the extension, or the first one that does has no destination folder |
| Classify.NoUsableRoute | auto-sorter.py:114-120 | `not destination` holds exactly when no category matches, the first match has no folder, or the folder is the empty string |
| Classify.ResolveDestination | auto-sorter.py:113-118 | the `for` loop with `break` computes exactly the first-match route |
| Classify.RouteTo | auto-sorter.py:114-118 | the route is a given folder exactly when the first category listing the extension maps to that folder |
| Classify.DEFAULT_EXTENSIONS | auto-sorter.py:26-31 | `DEFAULT_CONFIG`: Documents, Pictures, Videos and Music with their extension lists, in that order |
| Classify.DefaultRoutesPicture | auto-sorter.py:26-31 | with the default config (`Classify.DEFAULT_EXTENSIONS`), "jpg" goes to the Pictures folder |
| Naming.SourceStem | auto-sorter.py:74 | `base` of `base, ext = os.path.splitext(os.path.basename(src))` |
| Naming.SourceExt | auto-sorter.py:74 | `ext` of `base, ext = os.path.splitext(os.path.basename(src))`, with its dot |
| Naming.CandidateName | auto-sorter.py:76-79 | attempt k's file name: `base + ext` for k = 0, `f"{base}({k}){ext}"` after that |
| Naming.CandidatePath | auto-sorter.py:76-79 | attempt k's path: `os.path.join(dest_folder, ...)` of attempt k's name |
| Naming.CandidateNameInjective | auto-sorter.py:76-79 | `base+ext` and the `base(k)ext` names are pairwise different |
| Naming.CandidatePathInjective | auto-sorter.py:76-79 | the candidate paths in the destination folder are pairwise different, so the search never tries a path twice |
| Naming.CandidatePathPlace | auto-sorter.py:76-79 | every candidate lies in the destination folder, has the candidate name as its basename, and starts its basename with the stem |
| Naming.CandidatePathKeepsExt | auto-sorter.py:74-79 | every candidate ends with the source's `splitext` extension |
| Naming.CandidateNameKeepsExt | auto-sorter.py:76-79 | every candidate file name ends with the extension |
| Naming.TriedMembers | auto-sorter.py:78-80 | candidate k is among the first n tried exactly when k < n |
| Naming.TriedSize | auto-sorter.py:78-80 | the first n attempts are n distinct paths |
| Naming.FirstFree | auto-sorter.py:78 | the state in which the `while` loop exits at attempt k: attempt k's path does not exist and every earlier attempt's path does |
| Naming.FreeCandidateExists | auto-sorter.py:78-80 | for any finite set of existing paths, some attempt numbered at most the set's size is free, so the loop ends |
| Naming.FirstFreeUnique | auto-sorter.py:78-80 | only one attempt can be free while all the attempts before it are taken |
| Naming.ChosenCandidate | auto-sorter.py:76-80 | the corollaries of the loop stopping at a free attempt after only taken ones: it is the unique first free attempt; it lies in the folder, keeps the stem and the extension, and is `base+ext` itself whenever that is free |
| Naming.CandidateNamesForReport | auto-sorter.py:76-79 | the names tried for report.pdf are "report.pdf", "report(1).pdf" and "report(12).pdf" |
| FileStore.FileSystem.Move | auto-sorter.py:82 | `shutil.move`: a missing source or a refusal raises and changes nothing; otherwise the source's entry is replaced by the destination |
| FileStore.FileSystem.SafeMove | auto-sorter.py:72-83 | succeeds exactly when the source exists and the move is not refused. On success: the path is not in the existing-path set, the source is gone and every other path in the set is untouched; the path is the first free candidate and all earlier ones exist; it lies in the folder, keeps the source's `splitext` extension and stem, and is `base+ext` when that is free. On failure: nothing changes and the error is passed on |
| Sorter.IsFileComplete | auto-sorter.py:63-70 | `is_file_complete`'s verdict: a first size was read and the second reading gave the same size; stated by `Sorter.UnstableSizeAwaited` |
| Sorter.RunChecks | auto-sorter.py:97-118 | the answers to `sort_file`'s checks for a path: regular file, partial-download suffix of the basename, stable size, and the route of the extension |
| Sorter.Decide | auto-sorter.py:97-122 | `sort_file`'s early returns in its order: not a file, incomplete suffix, unstable size, no usable destination, else a move to that folder |
| Sorter.SortDecision | auto-sorter.py:95-122 | what `sort_file` decides for a path; stated by `Sorter.MoveConditions`, `Sorter.IncompleteSkippedFirst`, `Sorter.UnstableSizeAwaited` and `Sorter.UnknownWhenUnrouted` |
| Sorter.EventDecision | auto-sorter.py:89-93 | `on_created`: Ignore for a directory event, otherwise `sort_file`'s decision; stated by `Sorter.MoveConditions` and `Sorter.NonFilesIgnored` |
| Sorter.DecideMoves | auto-sorter.py:97-122 | the early-return chain ends in a move into a folder exactly when every check passes and the destination is that non-empty folder |
| Sorter.MoveConditions | auto-sorter.py:89-120 | an event leads to a move into a folder exactly when all of these hold: it is not a directory event, it is a regular file, it has no partial-download suffix, its two size readings agree, and the first category listing its extension has that non-empty folder |
| Sorter.NonFilesIgnored | auto-sorter.py:91-98 | a directory event, or a path that is not a regular file, leads to no action |
| Sorter.IncompleteSkippedFirst | auto-sorter.py:103-106 | a regular file with a partial-download suffix is skipped whatever its size readings and whatever the config |
| Sorter.UnstableSizeAwaited | auto-sorter.py:63-70 | a file whose first size reading failed, whose second reading failed, or whose size changed between the readings is left to finish downloading |
| Sorter.UnknownWhenUnrouted | auto-sorter.py:113-122 | a stable regular file without a partial-download suffix is of unknown type exactly when no category lists its extension, the first that does has no folder, or the folder is empty |
| Sorter.ShadowedCategoryIsUnknown | auto-sorter.py:114-122 | when the first category listing "pdf" has no folder, a later category with a folder is not consulted, and the file is of unknown type |
| Sorter.SortFile | auto-sorter.py:95-134 | `sort_file` ends as its decision says. The four non-move outcomes leave every path in place. A move decision ends as `safe_move` into that folder does: either moved to the first free candidate with nothing overwritten, or failed with nothing changed |
| Sorter.OnCreated | auto-sorter.py:89-93 | `on_created` ignores directory events and otherwise handles the path exactly as `sort_file` does |

## Left out

- The watchdog `Observer`, the monitoring loop and the Ctrl+C handling (auto-sorter.py:139-153) are not modelled. They are event plumbing and thread lifecycle.
- The import-time set-up is not modelled (auto-sorter.py:12-40). This covers creating the folders, writing and reading the JSON config, and `expanduser`, all of which is file I/O.
  - `EXTENSIONS` is a given ordered sequence of categories, in the JSON file's order.
  - Each category's extensions are taken to be a list of strings.
  - `DESTINATION_FOLDERS` is a given map.
- Logging and printing (auto-sorter.py:45-58) are not modelled, because they are output only.
- The timing and size report after a move is not modelled (auto-sorter.py:126-130), because it uses wall-clock time and floats.
  - If `os.path.getsize` fails after a successful move, the script logs a move error even though the file has moved. The model reports that case as `Moved`.
- The `time.sleep` inside `is_file_complete` is not modelled. The two size readings are inputs.
  - `Sorter.Readings` has no second reading after a failed first one, as in the script.
  - Errors other than `FileNotFoundError` raised by `getsize` are not modelled. In the script they propagate out of the handler.
- `os.path.isfile` and whether `shutil.move` raises are inputs, not observations of a real file system. `shutil.move` is modelled only in these respects:
  - a move is the transfer of one entry of the path set;
  - a cross-device copy is not modelled;
  - neither are moves of directories, nor a destination folder that does not exist;
  - a refused move leaves the set unchanged, with no partial copy.
- Classify.LowerChar: lower-cases only the ASCII letters, not the full Unicode case mapping of `str.lower`.
- Classify.ToLower: is ASCII lower-casing; `str.lower` also lower-cases non-ASCII capitals ("É") and can change the length ("İ" becomes two code points), which this model does not.
- Classify.Extension: inherits the ASCII-only lower-casing of `Classify.ToLower`, so a non-ASCII capital in an extension stays as it is.
- Paths are exact strings:
  - `os.path.exists` is exact membership in the path set;
  - `..`, repeated slashes and symbolic links are not normalised;
  - Windows path rules are not modelled, only POSIX ones.
- FileStore.FileSystem.SafeMove: its "nothing is overwritten" holds for the paths `os.path.exists` reports. `os.path.exists` is false for a dangling symbolic link, so the script can choose a name held by a broken link. `shutil.move` then replaces that link. The model's path set holds only the names for which `exists` is true, so it does not capture this case.
- Concurrency is not modelled: events are handled one at a time, and no other process changes the path set between the existence test and the move.
