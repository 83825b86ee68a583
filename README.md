# kore-localconfig in Dafny

A verified model of `JsonLocalConfig`, the only class of kore-localconfig.
The class finds JSON configuration files and merges them, top-level key by
key, into one read-only array:

- the file in the user's home directory comes first;
- then either every ancestor of the working directory, root first, or only
  the working directory itself;
- repeated paths are merged once, at their first place;
- a later file overrides an earlier one on each key.

The model keeps the class's own structure:

- `LocalConfig.JsonLocalConfig.Open` is the PHP constructor. It validates the
  filename, composes the candidate list, de-duplicates it, then loads and
  merges. Because the PHP constructor throws, `Open` returns a `Result`.
- `LocalConfig.BubbleScan` is the `while (true)` loop of `bubbleScan`. It works
  on strings with PHP's `dirname`.
- `LocalConfig.LoadAndMerge` and `LocalConfig.AssignAll` are the nested
  `foreach` that writes `mergedData`.
- The four `ArrayAccess` methods read the merged map, which is a `const` field.

Each method is proved against a specification function:

- `LocalConfig.BubbleScanned`;
- `LocalConfig.Merged`;
- `LocalConfig.Construct`;
- `Precedence.MergeAll`.

The properties of the layering are lemmas about those functions, in
`ConfigProperties`. `Scenario` works one configuration through end to end.

Everything the class reads from the process is an explicit `LocalConfig.Env`:

- `realpath(".")`, as a list of path segments;
- `$_SERVER['HOME']`;
- `file_exists`;
- `realpath`;
- the JSON decoder's answer for each path.

Files:

- `wrappers.dfy`: `Option`, `Result` and `Outcome`.
- `paths.dfy`: PHP `dirname` on POSIX, and the directories the upward walk
  visits.
- `json_values.dfy`: decoded values, keys, the construction errors, and `load`.
- `precedence.dfy`: `array_unique` (first occurrence kept) and the
  last-writer-wins merge.
- `local_config.dfy`: the environment, the three scans, the constructor's
  specification, the loops, and the class.
- `properties.dfy`: precedence, key-set and failure properties of the whole
  construction.
- `scenario.dfy`: a concrete layered configuration and its merged result.

Four behaviours of the source that one might not expect are kept as written:

- **Unset `HOME`.** One might expect an unset `HOME` to give no home file.
  `homeDirScan` concatenates the unset value (null) as an empty string, so it
  checks `/<filename>`. `LocalConfig.HomePath` does the same.
- **Top-level JSON lists.** One might expect only a JSON object to be accepted.
  With `json_decode(..., true)` a list is a PHP array, which passes `is_array`.
  `JsonValues.Load` accepts it, and its entries are merged under integer keys.
- **Working directory at `/`.** One might expect `/` to be checked once. When
  the working directory is `/` itself, `bubbleScan` starts from `"//"`, so the
  root file can be found under two spellings, `//<filename>` and
  `/<filename>`. `Paths.Walk` keeps both.
- **Home file on the walk.** One might expect a file closer to the working
  directory always to override files further up. With both scans on, when
  the home file is also one of the walk's files (the working directory lies
  below `HOME`), `array_unique` keeps it at its first place, in front of the
  whole walk. Every ancestor file above it, the root's included, then
  overrides it. With the home scan off, the same file overrides those
  ancestors. `ConfigProperties.TreeScanMergeOrder` states the merge order in
  both cases.

## Model

| member | source | states |
|---|---|---|
| Paths.Walk | src/K0re/LocalConfig/JsonLocalConfig.php:54-66 | the walk starts at realpath(".") followed by "/", ends at "/", and passes through every ancestor of the working directory |
| Paths.Chain | src/K0re/LocalConfig/JsonLocalConfig.php:61-66 | below the root, the directories visited are the working directory and each ancestor, nearest first, with the k-th from the end being the k-segment prefix |
| Paths.ParentShrinks | src/K0re/LocalConfig/JsonLocalConfig.php:61-66 | one step of the loop, from any absolute directory other than "/", gives a strictly shorter absolute directory, so the `while (true)` loop terminates |
| Paths.ParentOfDirSlash | src/K0re/LocalConfig/JsonLocalConfig.php:64-65 | dirname() of a canonical directory plus its trailing slash, with the slash re-added, is its parent directory |
| Paths.WalkFollowsParent | src/K0re/LocalConfig/JsonLocalConfig.php:56-67 | the walk is exactly what the loop visits: each directory before the last is not "/", and the next one is its dirname step, so "/" is checked last and only once |
| Paths.WalkIsAncestors | src/K0re/LocalConfig/JsonLocalConfig.php:54-66 | below the root, the walk holds exactly the working directory and its ancestors |
| Paths.WalkShrinks | src/K0re/LocalConfig/JsonLocalConfig.php:56-67 | directories later in the walk are strictly shorter, so no directory is visited twice |
| Paths.WalkAbsolute | src/K0re/LocalConfig/JsonLocalConfig.php:54-65 | every directory the loop holds in $current starts and ends with "/" |
| Paths.Dirname | src/K0re/LocalConfig/JsonLocalConfig.php:64 | definition of PHP's dirname() on POSIX (strip trailing slashes, the last name, then the slashes before it); its properties are stated by Paths.ParentShrinks and Paths.ParentOfDirSlash |
| Paths.Parent | src/K0re/LocalConfig/JsonLocalConfig.php:64-65 | definition of one step of the loop (dirname, then "/" re-added unless the result is "/"); stated by Paths.ParentShrinks, Paths.ParentOfDirSlash and Paths.WalkFollowsParent |
| Paths.DropTrailingSlashes | src/K0re/LocalConfig/JsonLocalConfig.php:64 | the first stage of dirname(): the result is a prefix that does not end in "/", and only slashes are removed |
| Paths.DropTrailingName | src/K0re/LocalConfig/JsonLocalConfig.php:64 | the second stage of dirname(): the result is a prefix that is empty or ends in "/", and no slash is removed |
| JsonValues.Entries | src/K0re/LocalConfig/JsonLocalConfig.php:40 | the keys foreach sees in a decoded list are its indices and in a decoded object its member names, each with its own value |
| JsonValues.Load | src/K0re/LocalConfig/JsonLocalConfig.php:101-128 | load succeeds exactly on a decoded list or object, and then returns its entries; decoding to null with no decode error is the "empty file" failure (it also covers a literal null); null with a non-zero error code fails with that code; any other scalar is rejected as not valid JSON |
| LocalConfig.PhpEmpty | src/K0re/LocalConfig/JsonLocalConfig.php:23 | definition of PHP's empty() on a string: "" and "0"; used by LocalConfig.ValidFilename |
| LocalConfig.ValidFilename | src/K0re/LocalConfig/JsonLocalConfig.php:23 | definition of the constructor's guard (a string that is not empty()); stated by LocalConfig.JsonLocalConfig.Open and ConfigProperties.RejectedBeforeScanning |
| LocalConfig.HomePath | src/K0re/LocalConfig/JsonLocalConfig.php:91 | definition of $_SERVER['HOME'] . '/' . $filename, with an unset HOME concatenated as ""; stated by LocalConfig.HomeDirScan |
| LocalConfig.LocalPath | src/K0re/LocalConfig/JsonLocalConfig.php:80 | definition of the path file_exists($filename) checks: the filename in the working directory, or the filename itself when it starts with "/"; stated by LocalConfig.LocalScan and ConfigProperties.LocalFileWins |
| LocalConfig.HomeDirScan | src/K0re/LocalConfig/JsonLocalConfig.php:89-93 | at most one path; one exactly when HOME/filename exists, and it is the resolved path |
| LocalConfig.LocalScan | src/K0re/LocalConfig/JsonLocalConfig.php:78-81 | at most one path; one exactly when the file exists in the working directory, and it is the resolved path |
| LocalConfig.Hits | src/K0re/LocalConfig/JsonLocalConfig.php:57-59 | the loop collects no more paths than directories visited |
| LocalConfig.HitsMembers | src/K0re/LocalConfig/JsonLocalConfig.php:57-59 | the collected paths are exactly the existing <dir><filename> for the directories visited |
| LocalConfig.Reverse | src/K0re/LocalConfig/JsonLocalConfig.php:69 | array_reverse: same length, element i is element n-1-i of the input |
| LocalConfig.BubbleScanned | src/K0re/LocalConfig/JsonLocalConfig.php:52-70 | definition of bubbleScan's result (the hits of Paths.Walk, reversed); LocalConfig.BubbleScan is proved equal to it, and ConfigProperties.BubbleScanMembers, BubbleScanAncestors and BubbleScanOrder state its properties |
| LocalConfig.BubbleScan | src/K0re/LocalConfig/JsonLocalConfig.php:52-70 | the loop terminates and returns the existing files of the walk in reverse order of visit (the loop invariant ties `$result` to the directories visited so far) |
| LocalConfig.Candidates | src/K0re/LocalConfig/JsonLocalConfig.php:29-37 | definition of the composition: the home scan (when enabled), then the tree scan or the local scan; stated by LocalConfig.JsonLocalConfig.Open, ConfigProperties.ConstructKeys and the precedence lemmas |
| LocalConfig.LoadAll | src/K0re/LocalConfig/JsonLocalConfig.php:39-40 | definition of loading the de-duplicated paths in order, stopping at the first rejected file; stated by LocalConfig.LoadAllSucceeds and LocalConfig.LoadAllFailsAtFirst |
| LocalConfig.Merged | src/K0re/LocalConfig/JsonLocalConfig.php:39-43 | definition of the nested foreach: LoadAll, then Precedence.MergeAll; LocalConfig.LoadAndMerge is proved equal to it, and ConfigProperties.MergedKeys, MergedFails and MergedLastFileWins state its properties |
| LocalConfig.Construct | src/K0re/LocalConfig/JsonLocalConfig.php:21-44 | definition of the whole constructor (guard, composition, array_unique, load and merge); LocalConfig.JsonLocalConfig.Open is proved equal to it, and the ConfigProperties lemmas state its properties |
| LocalConfig.LoadAllSucceeds | src/K0re/LocalConfig/JsonLocalConfig.php:39-43 | loading the list succeeds exactly when every file loads, and then yields each file's array at its own position |
| LocalConfig.LoadAllFailsAtFirst | src/K0re/LocalConfig/JsonLocalConfig.php:39-40 | a failed load reports the error of the first file load() rejects; every earlier file loaded |
| LocalConfig.AssignAll | src/K0re/LocalConfig/JsonLocalConfig.php:40-42 | the inner foreach: afterwards the keys are the union, the file's values win on its own keys, and every other key keeps its value |
| LocalConfig.LoadAndMerge | src/K0re/LocalConfig/JsonLocalConfig.php:39-43 | the nested foreach yields exactly the specification merge, or the first load failure, with no partial result |
| LocalConfig.JsonLocalConfig.Open | src/K0re/LocalConfig/JsonLocalConfig.php:21-44 | the flags default to no tree scan and a home scan, as in PHP; an invalid filename fails before any scan; otherwise the result is the candidate list (home scan, then tree or local scan), de-duplicated, loaded and merged; on success the object holds that merge of exactly those files |
| LocalConfig.JsonLocalConfig.OffsetExists | src/K0re/LocalConfig/JsonLocalConfig.php:133-136 | a key exists exactly when at least one loaded file holds it |
| LocalConfig.JsonLocalConfig.OffsetGet | src/K0re/LocalConfig/JsonLocalConfig.php:141-148 | a key that no file holds fails with OutOfBounds for that key; otherwise the value comes from the last file holding the key |
| LocalConfig.JsonLocalConfig.OffsetSet | src/K0re/LocalConfig/JsonLocalConfig.php:155-158 | every write fails as read-only; the merged map is a constant, so nothing changes |
| LocalConfig.JsonLocalConfig.OffsetUnset | src/K0re/LocalConfig/JsonLocalConfig.php:165-168 | every removal fails as read-only; nothing changes |
| Precedence.Dedup | src/K0re/LocalConfig/JsonLocalConfig.php:39 | array_unique: no duplicates, and the same paths as its input |
| Precedence.DedupKeepsFirstOrder | src/K0re/LocalConfig/JsonLocalConfig.php:39 | the kept paths appear in the order of their first occurrences |
| Precedence.DedupCharacterized | src/K0re/LocalConfig/JsonLocalConfig.php:39 | having no duplicates, the same elements and first-occurrence order determine the result completely, which is an independent definition of array_unique |
| Precedence.Without | src/K0re/LocalConfig/JsonLocalConfig.php:39 | a list with one path removed: exactly the other paths, and the list itself when the path is absent |
| Precedence.DedupNoDuplicates | src/K0re/LocalConfig/JsonLocalConfig.php:39 | array_unique leaves a list without repeated paths unchanged |
| Precedence.DedupMovedFront | src/K0re/LocalConfig/JsonLocalConfig.php:39 | a path put in front of a list without repetitions stays first, and its later copy is dropped; the other paths keep their order |
| Precedence.FirstIndex | src/K0re/LocalConfig/JsonLocalConfig.php:39 | the first position of a path in the list |
| Precedence.MergeAll | src/K0re/LocalConfig/JsonLocalConfig.php:39-43 | definition of the merge: every file's entries assigned in turn into one accumulator starting empty; stated by Precedence.MergeAllKeys, MergeAllLastWins and LastHolderExists |
| Precedence.MergeAllKeys | src/K0re/LocalConfig/JsonLocalConfig.php:39-43 | a key is merged exactly when some file holds it |
| Precedence.MergeAllLastWins | src/K0re/LocalConfig/JsonLocalConfig.php:39-43 | a key takes its value from the last file that holds it |
| Precedence.LastHolderExists | src/K0re/LocalConfig/JsonLocalConfig.php:39-43 | every merged key has a last holder, whose value it carries |
| ConfigProperties.HitsShrinking | src/K0re/LocalConfig/JsonLocalConfig.php:56-67 | since the walk shrinks, the collected paths shrink too |
| ConfigProperties.ReverseShrinking | src/K0re/LocalConfig/JsonLocalConfig.php:69 | reversing keeps the elements and turns a shrinking list into a growing one |
| ConfigProperties.BubbleScanMembers | src/K0re/LocalConfig/JsonLocalConfig.php:52-70 | bubbleScan returns exactly the existing <dir><filename> for the directories walked, with every ancestor's existing file included |
| ConfigProperties.BubbleScanAncestors | src/K0re/LocalConfig/JsonLocalConfig.php:52-70 | below the root, bubbleScan returns exactly the existing files of the working directory and its ancestors |
| ConfigProperties.BubbleScanOrder | src/K0re/LocalConfig/JsonLocalConfig.php:52-70 | root first, working directory last: paths strictly lengthen, the root's file comes first and the working directory's file comes last |
| ConfigProperties.DedupHead | src/K0re/LocalConfig/JsonLocalConfig.php:39 | array_unique keeps the first path first |
| ConfigProperties.MergedLastFileWins | src/K0re/LocalConfig/JsonLocalConfig.php:39-43 | in a successful merge, the last file's value wins on every key it holds |
| ConfigProperties.LocalFileWins | src/K0re/LocalConfig/JsonLocalConfig.php:29-43 | without the tree scan, the working directory's file overrides the home file on every key it holds, even when both resolve to the same path |
| ConfigProperties.CwdFileWinsInTreeScan | src/K0re/LocalConfig/JsonLocalConfig.php:29-43 | with the tree scan, the working directory's file overrides every other file on its keys, unless the home scan resolved to that same path |
| ConfigProperties.HomeDuplicateMergedFirst | src/K0re/LocalConfig/JsonLocalConfig.php:29-39 | when the home file is also the working directory's file, it is merged once, first, so every other file found overrides it |
| ConfigProperties.TreeScanMergeOrder | src/K0re/LocalConfig/JsonLocalConfig.php:29-39 | with the tree scan, the merge order is the walk's files root first; when the home scan finds its file, that file goes in front and its copy on the walk is dropped, so it is merged before every ancestor file |
| ConfigProperties.TreeScanClosestWins | src/K0re/LocalConfig/JsonLocalConfig.php:29-43 | with the tree scan and no home file on the walk, each key takes its value from the walk file closest to the working directory that holds it |
| ConfigProperties.MergedHolderWins | src/K0re/LocalConfig/JsonLocalConfig.php:39-43 | in a successful merge, a key takes its value from the last file in the list that holds it |
| ConfigProperties.MergedHolderWinsAfter | src/K0re/LocalConfig/JsonLocalConfig.php:39-43 | the last holder of a key among the files after some leading files is the last holder of the whole list, whose value the merge takes |
| ConfigProperties.MergedKeys | src/K0re/LocalConfig/JsonLocalConfig.php:39-43 | the keys of a merge are the union of the loaded files' keys |
| ConfigProperties.MergedFails | src/K0re/LocalConfig/JsonLocalConfig.php:39-43 | a merge fails exactly when some file is rejected by load(), and with the error of the first such file |
| ConfigProperties.ConstructKeys | src/K0re/LocalConfig/JsonLocalConfig.php:29-43 | the configuration's keys are the union of the keys of all candidate files |
| ConfigProperties.ConstructFailsOnAnyBadFile | src/K0re/LocalConfig/JsonLocalConfig.php:29-43 | with a valid filename, construction fails exactly when some candidate file is rejected by load() |
| ConfigProperties.HitsNone | src/K0re/LocalConfig/JsonLocalConfig.php:56-67 | when the file exists in none of the directories, the loop collects nothing |
| ConfigProperties.NothingFoundIsEmpty | src/K0re/LocalConfig/JsonLocalConfig.php:29-43 | when no scope holds the file, the result is the empty array, not an error |
| ConfigProperties.RejectedBeforeScanning | src/K0re/LocalConfig/JsonLocalConfig.php:23-25 | a filename that is not a string, is "" or is "0" is rejected whatever the filesystem holds |
| Scenario.ExampleWalk | src/K0re/LocalConfig/JsonLocalConfig.php:54-66 | from /home/user/proj/sub the walk is the working directory, /home/user/proj/, /home/user/, /home/ and / |
| Scenario.ExampleTreeScan | src/K0re/LocalConfig/JsonLocalConfig.php:52-70 | the tree scan finds the three files and returns them root first |
| Scenario.ExampleMergeOrder | src/K0re/LocalConfig/JsonLocalConfig.php:29-39 | the home file, found by both scans, is merged once at its first place |
| Scenario.ExampleScenario | src/K0re/LocalConfig/JsonLocalConfig.php:21-44 | files {"x":1} at home, {"x":2,"y":5} in proj and {"y":9} in proj/sub merge to {"x":2,"y":9} |

## Left out

- Filesystem and process access is not modelled. `file_exists`, `realpath`, `realpath(".")`, `file_get_contents` and `$_SERVER['HOME']` are fields of `Env`. The model assumes `realpath(".")` succeeds and gives a canonical directory (`ValidSegments`).
- `realpath` is any function from path to path. Symlink resolution is not modelled. Duplicate detection compares path strings exactly, as `array_unique` does.
- `json_decode` is not modelled. `Env.decode` gives, for each path, the decoded value or the error code. An unreadable file, where `file_get_contents` returns false, is not a separate case.
- The exception messages are not modelled, including the branch for runtimes without `json_last_error_msg`. That branch carries the same code as the one modelled.
- JsonValues.Load, LocalConfig.JsonLocalConfig.OffsetExists, LocalConfig.JsonLocalConfig.OffsetGet: do not model PHP's conversion of numeric-string array keys to integer keys. A decoded object's keys stay `Name` keys even when they look like numbers. `array_key_exists` and `$this->mergedData[$offset]` also convert the offset, so in PHP the offset "0" finds the key 0; the model keeps `Name("0")` and `Index(0)` apart.
- The `(bool)` casts of `$treeScan` and `$homeScan` are not modelled. The flags are already booleans.
- The local scan is modelled on an explicit path. `localScan` passes the filename itself to `file_exists` and `realpath`. These resolve a relative filename against the working directory and use a filename starting with `/` as it is. `LocalConfig.LocalPath` spells out both cases. Other relative forms, such as `./x` or `../x`, are passed to the injected functions as written.
- `array_unique` is modelled only through its result. Its internal sort and the array keys it preserves are left out, since `foreach` visits the kept paths in their original order.
- Values are opaque. Nested objects are replaced wholesale, as in the source, so deep merge does not arise.
