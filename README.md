# Duplicate file finder: walk and grouping, modelled in Dafny

The Android app scans a storage root for candidate duplicate files. Its
background job has two steps. `getAllFiles` walks the directory tree depth
first and flattens it into the list of plain files. `findDuplicates` then
groups those files by the key `"${name}_${length}"` and keeps the groups that
hold more than one file.

This project models both steps and the job that chains them:

- `FileTree.dfy` models the walk. The file system becomes a finite tree:
  `File(rec) | Dir(children) | Unreadable`. `Unreadable` is a directory whose
  `listFiles()` returns null. `GetAllFiles` is a recursive method with a loop
  over the listing and an accumulator, as in the source. It is proved equal to
  the ghost function `Leaves`. `Leaves` is then characterised without the walk,
  using positions. A position is the list of indices taken in successive
  listings. The returned files are exactly the plain files at positions below
  the root. Each one appears once, in lexicographic order of position, which is
  depth-first pre-order with siblings in listing order.
- `GroupKey.dfy` models the key: the name, `_`, and the decimal text of the
  length. `DecodeKey` splits a key at its last underscore. A round-trip lemma
  shows that every key decodes back to its name and length, so two files share
  a key exactly when they share name and length.
- `Duplicates.dfy` models `groupBy` as Kotlin runs it: one pass that appends
  each file to its key's entry in an insertion-ordered map. The map is a
  sequence of `Group`s with distinct keys. `filter` keeps the entries with more
  than one file. These are compared with reference definitions that do not use
  the map. `Select` gives the files with a given key, in input order.
  `FirstSeenKeys` gives the distinct keys in the order they first occur.
  `Duplicated` gives the files whose key is shared.
- `Scan.dfy` models the job in `scanFiles` and `onActivityResult`, walk then
  group, plus the concrete scenarios.

The root directory is a parameter, because choosing it is a platform call.
Three facts about the code shape the model:
- The key is `name + "_" + length`.
- The document-tree URI that the user picks is ignored, and external storage
  is rescanned (MainActivity.kt:127). There is a single file-system backend.
- An unreadable root gives the same empty result as an empty one
  (MainActivity.kt:102).

The shared `Option` type lives in `Wrappers.dfy`.

## Model

| member | source | states |
|---|---|---|
| `FileTree.GetAllFiles` | app/src/main/java/com/example/filefinder/MainActivity.kt:100-112 | The accumulator filled by the loop over the listing, with recursive walks of directory entries, ends equal to `Leaves(dir)`. The loop invariant says the accumulator holds the files of the entries visited so far. |
| `FileTree.LeavesInPreOrder` | app/src/main/java/com/example/filefinder/MainActivity.kt:100-112 | The walk's result is exactly the plain files reachable from the root through readable directories. Each returned file is the file at its position, every reachable file's position is among them, and the positions strictly increase in depth-first pre-order with siblings in listing order. |
| `FileTree.VisitedOnce` | app/src/main/java/com/example/filefinder/MainActivity.kt:104-109 | Every reachable plain file is returned once and only once. |
| `FileTree.FlattenAppend` | app/src/main/java/com/example/filefinder/MainActivity.kt:104-110 | Collecting from a listing split in two gives the first part's files followed by the second part's. |
| `FileTree.FlattenAround` | app/src/main/java/com/example/filefinder/MainActivity.kt:104-110 | The files of a listing are those of the entries before entry j, then entry j's, then those of the entries after it. Siblings are collected regardless of what one entry yields. |
| `FileTree.UnreadableSkipped` | app/src/main/java/com/example/filefinder/MainActivity.kt:102-106 | An unreadable directory contributes no file, and its siblings before and after it are still collected in full. |
| `FileTree.NothingToWalk` | app/src/main/java/com/example/filefinder/MainActivity.kt:102 | A plain file, an unreadable directory or an empty directory yields an empty list, not an error. |
| `GroupKey.DecimalText` | app/src/main/java/com/example/filefinder/MainActivity.kt:115 | The printed length is non-empty, made only of digits, and has no leading zero unless it is `0`. |
| `GroupKey.ParseDecimalText` | app/src/main/java/com/example/filefinder/MainActivity.kt:115 | Reading the printed length back as decimal gives the length. |
| `GroupKey.SplitAtSeparator` | app/src/main/java/com/example/filefinder/MainActivity.kt:115 | In `name + "_" + digits` with no underscore in the digits, the last underscore is the separator, whatever the name holds. |
| `GroupKey.Key` | app/src/main/java/com/example/filefinder/MainActivity.kt:115 | The key is the name, then `_`, then a non-empty run of digits and nothing else, so the last underscore is the one right after the name. `KeyRoundTrip` and `KeyInjective` build on this. |
| `GroupKey.KeyRoundTrip` | app/src/main/java/com/example/filefinder/MainActivity.kt:115 | Every key decodes back to the name and the length it was built from. |
| `GroupKey.KeyInjective` | app/src/main/java/com/example/filefinder/MainActivity.kt:115 | Two files get the same key if and only if they have the same name and the same length. |
| `Duplicates.FindKey` | app/src/main/java/com/example/filefinder/MainActivity.kt:115 | The map lookup inside `groupBy` finds an entry holding the key if one exists, and reports absence only when no entry holds it. |
| `Duplicates.AddToGroup` | app/src/main/java/com/example/filefinder/MainActivity.kt:115 | One step of `groupBy`. Existing entries keep their keys and positions, and entries for other keys are unchanged. A new key opens an entry `[f]` at the end. An existing key's entry gains `f` at its end. Its effect over a whole input is stated by `GroupByCharacterization`. |
| `Duplicates.GroupBy` | app/src/main/java/com/example/filefinder/MainActivity.kt:115 | The map has one entry per distinct key, in first-seen order. The members of each entry are given by `GroupByCharacterization`. |
| `Duplicates.WithKeys` | app/src/main/java/com/example/filefinder/MainActivity.kt:115 | A file is selected if and only if it is in the input and its key is among the given keys. |
| `Duplicates.FirstSeenKeys` | app/src/main/java/com/example/filefinder/MainActivity.kt:115 | The first-seen keys contain no key twice. |
| `Duplicates.SeenIff` | app/src/main/java/com/example/filefinder/MainActivity.kt:115 | A key has an entry in the map if and only if some input file carries it. |
| `Duplicates.FirstSeenPrefix` | app/src/main/java/com/example/filefinder/MainActivity.kt:115 | The keys met in a prefix of the input are a prefix of the keys met in all of it. |
| `Duplicates.FirstSeenOrder` | app/src/main/java/com/example/filefinder/MainActivity.kt:115 | The first-seen keys are ordered by the first occurrence of each key in the input. |
| `Duplicates.GroupByCharacterization` | app/src/main/java/com/example/filefinder/MainActivity.kt:115 | `groupBy` yields one entry per distinct key, in first-seen order. Each entry holds exactly the input files with that key, in input order. |
| `Duplicates.Shared` | app/src/main/java/com/example/filefinder/MainActivity.kt:116 | The filter keeps an entry if and only if it holds more than one file. |
| `Duplicates.SharedKeepsOrder` | app/src/main/java/com/example/filefinder/MainActivity.kt:116 | The filter keeps the kept entries in map order, with keys still distinct. |
| `Duplicates.FindDuplicates` | app/src/main/java/com/example/filefinder/MainActivity.kt:114-117 | No group of the result holds a single file. |
| `Duplicates.DuplicateGroups` | app/src/main/java/com/example/filefinder/MainActivity.kt:114-117 | The result has a group for key k if and only if at least two input files carry k. That group holds exactly those files, in input order. Keys are distinct and in first-seen order. |
| `Duplicates.SelectHasTwo` | app/src/main/java/com/example/filefinder/MainActivity.kt:115 | Two input positions with the same key give that key at least two files. |
| `Duplicates.SameGroupIff` | app/src/main/java/com/example/filefinder/MainActivity.kt:115-116 | Two files at different input positions share a result group if and only if they have equal name and equal length. |
| `Duplicates.FileInOneGroup` | app/src/main/java/com/example/filefinder/MainActivity.kt:115-116 | An input file appears in the result if and only if another file shares its key, and then in exactly one group. A file with a unique key appears nowhere. |
| `Duplicates.WithKeysUnion` | app/src/main/java/com/example/filefinder/MainActivity.kt:115 | Selecting by two disjoint key sets gives, as a multiset, the two selections together. |
| `Duplicates.WithNoKeys` | app/src/main/java/com/example/filefinder/MainActivity.kt:115 | Selecting by no key gives nothing. |
| `Duplicates.MembersAreSelections` | app/src/main/java/com/example/filefinder/MainActivity.kt:115 | Groups with distinct keys, each holding its key's files, together hold exactly the files whose key is among theirs. |
| `Duplicates.DuplicatesPartition` | app/src/main/java/com/example/filefinder/MainActivity.kt:115-116 | The groups partition the duplicated files. Together they hold each file with a shared key as often as it occurs in the input, and nothing else. The total count equals the number of such files. |
| `Scan.ScanForDuplicates` | app/src/main/java/com/example/filefinder/MainActivity.kt:74-77 | The job's result is the grouping of the walk's files. |
| `Scan.EmptyScan` | app/src/main/java/com/example/filefinder/MainActivity.kt:102 | An empty, unreadable or non-directory root gives an empty result and no error. |
| `Scan.ReportedFilesAreReachable` | app/src/main/java/com/example/filefinder/MainActivity.kt:76-77 | Every reported file is a plain file reachable from the root. |
| `Scan.ScanSameGroupIff` | app/src/main/java/com/example/filefinder/MainActivity.kt:128-130 | Two files found at different places are reported together if and only if they share name and length. |
| `Scan.ScenarioWalk` | app/src/main/java/com/example/filefinder/MainActivity.kt:104-109 | The walk of root {`a.txt`, `b/{a.txt, c.txt}`} returns `a.txt`, `b/a.txt`, `b/c.txt` in that order. |
| `Scan.ScenarioKeys` | app/src/main/java/com/example/filefinder/MainActivity.kt:115 | The scenario files get the keys `a.txt_10`, `a.txt_10` and `c.txt_5`. |
| `Scan.ScenarioNestedDuplicate` | app/src/main/java/com/example/filefinder/MainActivity.kt:115-116 | The scenario gives exactly one group, `a.txt_10`, holding [`a.txt`, `b/a.txt`]. `c.txt` is absent. |
| `Scan.GroupTwoApart` | app/src/main/java/com/example/filefinder/MainActivity.kt:115 | Two files with different keys are grouped apart, each alone, in input order. |
| `Scan.ScenarioSameNameOtherSize` | app/src/main/java/com/example/filefinder/MainActivity.kt:115 | Two `x.txt` files of 1 and 2 bytes are not grouped. |

## Left out

- Coroutine dispatch (`Dispatchers.IO`, `withContext(Dispatchers.Main)`) is left out. It is thread hand-off with no logic to verify, so the job is modelled as a sequential method.
- The permission checks and requests, the result callback of the permission request, and the folder picker intent are left out. These are operating-system interaction.
- The picked document-tree URI is left out, because the source ignores it. It rescans external storage instead, and no second backend exists in the code.
- `Environment.getExternalStorageDirectory()` becomes the `root` parameter.
- The real file system becomes the tree datatype: `listFiles`, `isDirectory`, `length` and `absolutePath`. The tree is finite, so symbolic-link cycles cannot be expressed.
- The result text is left out: the `StringBuilder`, the progress bar and the text view. This is UI rendering. Its `list.size > 1` test repeats the filter that `Duplicates.Shared` models.
- `Long` overflow of file lengths is not modelled. Lengths are unbounded naturals, and a real length is far below 2^63.
- The Kotlin `File` objects are `FileRecord` values: name, length and absolute path. Object identity is not modelled. Two distinct files with equal records are told apart by their position in the walk's list.
