# divdir: dividing a directory tree into size-bounded manifests

`divdir.py` splits a directory into lists of paths. Each list holds at most a
given number of bytes, so each can be copied to its own volume with
`rsync --files-from`. The program works in four steps.

- It walks the tree from the target. A node that fits within the limit is
  taken whole. A directory that does not fit is replaced by its children. A
  file that does not fit is fatal (`get_node_lists`).
- It merges each directory's child lists greedily (`group_siblings`):
  - First, files-only lists go before lists that contain a directory, each
    class by decreasing combined size (`sort_siblings`).
  - Then it makes repeated passes. Each pass folds into one list every
    candidate that still fits. While it descends, it only merges lists that
    lie in the same top-level subdirectory of the target (`valid_merge`).
- It runs one final merge over the whole result without that restriction
  (`get_file_lists`).
- It writes one manifest per list and a map from each top-level
  subdirectory to the manifests that hold its contents (`write_manifests`,
  `write_map`). Each manifest line is the path with a `.` component inserted
  where the target ends, which marks the relative part for rsync.

This project models that core in Dafny and proves what it promises.

- `Seqs` holds generic facts about reversal (`[::-1]`), concatenation and
  permutations.
- `Paths` models POSIX `os.path.split` exactly. Its `split_all` is both a
  specification function (`PathParts`) and the imperative loop (`SplitAll`).
  It also models `toplevel_subdir`.
- `Groups` models lists of nodes, `lsize`, `sort_siblings` (a stable
  ascending insertion sort, reversed) and `valid_merge`.
- `Packing` models `group_siblings`. `Scan` is one pass and `Passes` is the
  `while` loop. `MergePass`, `RunPasses` and `GroupSiblings` are the loops
  themselves, proved equal to those functions.
- `Partition` models `get_node_lists` and `get_file_lists`. They work on a
  tree of `Node`s that stands in for what `du` and `find` report.
- `Manifests` models `write_manifests` (`os.path.join` and `list.insert`)
  and `write_map`. It models the main block (`DivideDirectory`), with the map
  correction listed under "## Findings". It returns the manifests' lines and
  the map instead of writing files.

Three behaviours of the code are followed where other descriptions differ.
First, `sort_siblings` sorts by decreasing size even though its comment says
"Smaller files first". Lists of equal size come out in reverse input order,
because the stable ascending sort is reversed (`Groups.SortSiblingsTies`).
Second, a Python `assert` becomes a `requires`, and `exit(-1)` on an
oversized file becomes `Err(OversizedFile(path))`. Third, a directory larger
than the limit that has no children (an empty directory whose `du` size,
often 4096 bytes, exceeds the limit) is in no list and raises no error: its
children give no lists, and `group_siblings([])` returns `[]`
(`Partition.EmptyOversizedDirVanishes`). So not every leaf ends up
in a manifest.

## Model

| member | source | states |
|---|---|---|
| Paths.LastSepEnd | divdir.py:69 | The split point of `os.path.split` is just past the last `/` (0 when there is none), and nothing after it is a `/`. |
| Paths.RStripSeps | divdir.py:69 | Stripping trailing `/` from the head leaves a prefix that does not end in `/`; everything removed was `/`. |
| Paths.Split | divdir.py:69 | `os.path.split` for POSIX: the head is everything up to the last `/`, with trailing `/` removed unless the head is all `/`; the tail is everything after the last `/`. |
| Paths.SplitShape | divdir.py:69-75 | The head of a split is a prefix of the path, and the tail holds no `/`. The head equals the path (the exit test of `split_all`) exactly when the path is all separators, and then the tail is empty. |
| Paths.PathParts | divdir.py:63-76 | `split_all` as a recursive function: split until the head equals the path, keeping each non-empty tail, root component first. At least one component. |
| Paths.SplitAll | divdir.py:63-76 | The `while True` loop, collecting tails and then reversing, returns exactly the components `PathParts(path)`. |
| Paths.PathPartsRoot | divdir.py:63-76 | The first component of `split_all(p)` is p's leading run of `/`: "/" for an absolute path, "" for a relative one. |
| Paths.PathPartsNames | divdir.py:63-76 | Every component after the first is non-empty and holds no `/`. |
| Paths.PathPartsOfJoin | divdir.py:63-76 | Round trip: splitting a root run followed by names joined with `/` gives back the root run and exactly those names. |
| Paths.ToplevelSubdir | divdir.py:124-131 | Defined only when the target's components are a proper prefix of the path's components (the assert, plus the index that must exist); the result is a single name. |
| Paths.ToplevelOfJoin | divdir.py:124-131 | "Given /a/b/c and /a/b/c/d/e/f, return d": for a path made of a root run and names, against a target made of the same root run and the first i names, the result is the name at index i. |
| Paths.UnderTrans | divdir.py:124-131 | A path strictly under a node that is at or under the target is strictly under the target. When that node is strictly under the target, the path has the node's top-level subdirectory. |
| Groups.Size | divdir.py:107-108 | `lsize`: the sum of the sizes of a list's nodes. |
| Groups.SizeAppend | divdir.py:107-108 | `lsize` of two lists joined is the sum of their `lsize`s, which is what `merged_group += group` does to the size. |
| Groups.SortBySize | divdir.py:119 | `sorted(key=lsize)` returns a permutation of its input, in ascending size. |
| Groups.SortBySizeStable | divdir.py:119 | The sort is stable: for every size, the lists of that size keep their input order. |
| Groups.StableSortUnique | divdir.py:119 | Two ascending sequences that agree, size by size, on their lists in order are equal. So the model's sort is the only stable sort, and is Python's. |
| Groups.SortDescendingSpec | divdir.py:118-119 | `srt` returns a permutation of its input, in non-increasing size, with lists of equal size in reverse input order. |
| Groups.FilesOnly | divdir.py:116-117 | `files_only_pred`: no node of the list is a directory. |
| Groups.OfClass | divdir.py:120-121 | Each comprehension keeps only input lists of its class (files only, or containing a directory). |
| Groups.SortSiblings | divdir.py:110-122 | `sort_siblings`: the files-only lists sorted largest first, followed by the other lists sorted largest first. |
| Groups.SortSiblingsPermutation | divdir.py:110-122 | `sort_siblings` returns a permutation of its input. |
| Groups.SortSiblingsOrder | divdir.py:110-122 | No files-only list comes after a list with a directory. Within a class, sizes do not increase. |
| Groups.SortSiblingsTies | divdir.py:110-122 | Within each class, the lists of any one size come out in reverse input order. |
| Groups.ValidMerge | divdir.py:133-150 | `valid_merge`: an empty list merges with anything; otherwise the combined size must fit and, with affinity on, both first paths must have the same top-level subdirectory. |
| Groups.MergeFits | divdir.py:133-150 | A merge that `valid_merge` accepts, of two lists that fit, fits within the limit. |
| Groups.MergeKeepsToplevel | divdir.py:133-150 | With the affinity check on, merging two lists that each lie in one top-level subdirectory gives a list that lies in one top-level subdirectory. |
| Packing.Scan | divdir.py:161-169 | One pass defers only candidates it was given. Starting from an empty `merged_group`, it defers fewer candidates than it was given, so the `while` loop ends. |
| Packing.ScanSplits | divdir.py:163-169 | After one pass, `merged_group` is the starting list followed by the candidates folded in, and folded and deferred candidates interleave to the input in order. |
| Packing.ScanFits | divdir.py:163-169 | A pass keeps `merged_group` within the limit. |
| Packing.RefusalPersists | divdir.py:133-150 | A candidate refused by `merged_group` stays refused as the list grows: its size only grows and its first path does not change. |
| Packing.ScanMaximal | divdir.py:163-169 | Every deferred candidate is refused by the final `merged_group` of its pass. |
| Packing.ScanKeepsToplevel | divdir.py:163-169 | With affinity on, a pass over lists that each lie in one top-level subdirectory yields a merged list that lies in one. |
| Packing.Passes | divdir.py:160-171 | The `while` loop as a function: each pass from an empty `merged_group` gives one output list, and the deferred candidates go to the next pass until none is left. |
| Packing.PassesPieces | divdir.py:160-171 | Output list i is the concatenation of a non-empty set of input lists. There are no more outputs than inputs. The first output starts with the first candidate. The pieces repartition the input. |
| Packing.PassesFit | divdir.py:160-171 | Every output list fits within the limit. |
| Packing.PassesCover | divdir.py:160-171 | The outputs hold exactly the input nodes, with none lost and none duplicated. |
| Packing.PassesKeepToplevel | divdir.py:160-171 | With affinity on, every output list lies in one top-level subdirectory. |
| Packing.PassesMaximal | divdir.py:160-171 | No input list placed in a later output could have joined an earlier output. |
| Packing.GroupSiblingsSpec | divdir.py:152-172 | `group_siblings`: `sort_siblings`, then the passes. Its callers must give lists that each fit (the assert at line 159) and, with affinity on, whose first paths lie strictly under the target. |
| Packing.GroupSiblingsCorrect | divdir.py:152-172 | `group_siblings` keeps every list within the limit, repartitions the nodes exactly, and returns no more lists than it was given. |
| Packing.GroupSiblingsKeepToplevel | divdir.py:152-172 | With affinity on and inputs each in one top-level subdirectory, every output lies in one top-level subdirectory. |
| Packing.MergePass | divdir.py:161-170 | The `for group in siblings` loop computes the merged list and the deferred candidates of one pass. |
| Packing.RunPasses | divdir.py:160-171 | The `while` loop appends one merged list per pass until no candidate is left. |
| Packing.GroupSiblings | divdir.py:152-172 | The imperative `group_siblings` equals the specification. Its result fits and repartitions the input nodes. |
| Partition.NodeLists | divdir.py:174-188 | Fails exactly when the descent meets an oversized file, and names the first one. A node that fits is `[[node]]`. Otherwise every list fits, the lists hold exactly the frontier nodes, and, below the target, each list lies in one top-level subdirectory. |
| Partition.ChildLists | divdir.py:184-187 | Extending the lists of each child in turn fails on the first oversized file among the children. Otherwise it yields fitting lists that hold exactly the children's frontiers, each list in one top-level subdirectory. |
| Partition.EmptyOversizedDirVanishes | divdir.py:184-188 | A directory over the limit with no children yields no lists and no error, so it appears in no manifest. |
| Partition.GetNodeLists | divdir.py:174-188 | The recursive imperative `get_node_lists` equals `NodeLists`. |
| Partition.GetChildLists | divdir.py:184-187 | The `for c in children: ret.extend(...)` loop, which stops at the first failure, equals `ChildLists`. |
| Partition.FrontierFits | divdir.py:178-183 | Every node taken into a list fits within the limit on its own. |
| Partition.FrontierUnder | divdir.py:184 | Every node taken is the node itself or lies strictly under it. |
| Partition.Consolidated | divdir.py:194-195 | The final ungrouped pass fails exactly on an oversized file. Otherwise its lists fit, hold exactly the frontier of the target, and are no more than the lists before it. |
| Partition.FileLists | divdir.py:190-197 | `get_file_lists`: the lists of the target, merged once more without affinity, then stripped of sizes; the error of an oversized file is passed on. |
| Partition.FileListsError | divdir.py:190-197 | `get_file_lists` fails exactly when the tree holds an oversized file that the descent reaches, and names the first one. |
| Partition.FileListsCorrect | divdir.py:190-197 | The returned path lists are the stripped form of lists that each fit and together hold exactly the frontier of the target. |
| Partition.FileListsWhole | divdir.py:190-197 | A target that fits yields the single list `[[target]]`. |
| Partition.GetFileLists | divdir.py:190-197 | The imperative `get_file_lists` equals `FileLists`. |
| Manifests.InsertAt | divdir.py:209 | `parts.insert(rel_cutoff, ".")` puts "." at index rel_cutoff, or at the end when rel_cutoff is past it. The components before it and after it are the old ones, unchanged and in order. |
| Manifests.OsJoin | divdir.py:210 | `os.path.join(*parts)`: each next part is joined to the result so far. |
| Manifests.OsJoinNames | divdir.py:210 | `os.path.join` of a root run and names is the root run followed by the names joined with `/`. |
| Manifests.ManifestLineParts | divdir.py:204-210 | For a path at or under the target, the line written splits into the target's components, then ".", then the rest of the path's components. |
| Manifests.ManifestLines | divdir.py:207-210 | The inner loop writes one line per path, in list order, each the path with "." at the cutoff. |
| Manifests.WriteManifests | divdir.py:199-210 | Manifest i has one line per path of list i, and line j is `ManifestLine` of path j. |
| Manifests.FileListsUnder | divdir.py:190-197 | Every path `get_file_lists` returns is the target or lies under it. |
| Manifests.MapKey | divdir.py:219-220 | The key of a listed path is a single name: its top-level subdirectory, or "." for the target itself. |
| Manifests.MapKeyToplevel | divdir.py:219-220 | Below the target, the key is exactly `toplevel_subdir(node, target_dir)`. |
| Manifests.RecordAllSpec | divdir.py:218-223 | After the inner loop over list i, a key is present iff it was already or the list holds it. Its set gains i exactly when the list holds it. |
| Manifests.PlacementSpec | divdir.py:212-223 | The map has a key exactly when some list holds a path filed under it. Its set is exactly the indices of those lists. |
| Manifests.RecordPaths | divdir.py:218-223 | The imperative inner loop (create the set if missing, then add i) equals `RecordAll`. |
| Manifests.BuildMap | divdir.py:212-223 | The imperative dictionary-building loops equal `Placement` and satisfy `Places`. They use the corrected key `MapKey` (see Findings). |
| Manifests.WholeTargetBreaksToplevel | divdir.py:124-131 | When the target fits, the only listed path is the target itself, for which `parts[len(rparts)]` at line 131 is out of range (`IndexError`); the assert at line 130 holds. |
| Manifests.DivideDirectory | divdir.py:230-242 | The main block, with the corrected map of Findings, fails exactly on an oversized file and names the first one. Otherwise every listed path is at or under the target, every manifest line is that path's marked line, and the map is `Placement` of the lists' keys. |

## Left out

- Shell helpers (`run_cmd`, `get_size_bytes`, `is_dir`, `immediate_children`, divdir.py:25-61) are not modelled. A tree of `Node`s gives each path's size, its kind and its children. Nothing assumes a directory's size is the sum of its children's.
- `bytes_from_str` (divdir.py:78-105) parses a float, which is not modelled; the limit is a `nat`. Sizes are whole bytes, so comparing with a fractional limit is the same as comparing with its floor.
- Opening and writing files (`manifest-i.txt`, `map.txt`), the `{:24s}` formatting, the order of keys and set members in `map.txt`, and argument parsing are not modelled. The model returns the lines and the map.
- The verbose message in `group_siblings` and the error message before `exit(-1)` are not modelled.
- Only POSIX `posixpath` is modelled, not Windows paths.
- `merged_group += group` extends a list in place. Each pass starts from a fresh list, so the model uses values; aliasing is not modelled.
- Packing.GroupSiblings: with affinity on, it requires every candidate's first path to lie strictly under the target. The source asserts this only for the pairs it compares whose combined size fits. Every call from `get_node_lists` meets the stronger condition, because all children lie strictly under the target.
- Packing.GroupSiblings: the size assert at divdir.py:159 is a `requires` (every list fits), not a crash.
- Manifests.BuildMap: files the target itself under "." where the code as written raises `IndexError` in `toplevel_subdir(target, target)` (divdir.py:131, 220); see Findings.
- Manifests.DivideDirectory: for a target that fits within the limit it returns the single manifest and a map filing the target under "."; the code as written writes manifest-0.txt and then raises `IndexError` in `write_map`, so map.txt is never written; see Findings.
- Paths.ToplevelSubdir: the `IndexError` for a path equal to the target is a `requires` (strictly under the target), not a crash; see Findings.

## Findings

| source | as written | input that shows it | evidently intended | confidence | as-written member | corrected member |
|---|---|---|---|---|---|---|
| divdir.py:219-220 | When the whole target fits within the limit, `get_file_lists` returns `[[target]]`. `write_map` then calls `toplevel_subdir(target, target)`, which indexes one past the end of the parts list (`IndexError`). | A 3-byte file as target with a 10-byte limit, or any directory whose `du` size is at most the limit. | The single manifest is written, and the map files the target under the same "." name `write_manifests` gives it. | not executed | Manifests.WholeTargetBreaksToplevel | Manifests.MapKey |
