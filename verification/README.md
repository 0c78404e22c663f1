# pynocle utilities in Dafny

A model of `pynocle/utils.py`, the utility module of the pynocle code-metrics
tool, with proofs about it. It covers:

- the recursive file collector `_FindAll` / `find_all`;
- the pre-order walk `flatten`;
- the dictionary inversion `swap_keys_and_values`;
- the path utilities `splitpath_root_file_ext` and `prettify_path`, on top of
  posixpath `join` / `split` / `splitext`, `str.replace` and `str.strip`;
- the formatter registry `ExtensionFormatterRegistry`;
- the order of calls in `write_report`.

The code is Python 2: `map` and `filter` return lists, and
`raise KeyError, ...` is Python 2 syntax.

Files:

- `wrappers.dfy`: `Option` and `Result`. A raised exception becomes a `Failure`.
- `paths.dfy`:
  - module `Paths`: string and path operations, `SplitPathRootFileExt` and `PrettifyPath`;
  - module `PathsLemmas`: lemmas about them;
  - module `PrettifyCorrected`: the findings about `prettify_path` and the corrected definition.
- `find_all.dfy`: module `FileSearch`, the collector over a finite filesystem tree.
- `find_all_props.dfy`: module `FileSearchProps`. It proves the collector's order, contents, deduplication and soundness against two reference definitions:
  - `Batches`, the lists `findfiles` receives, in order;
  - `Dedup`, first-seen deduplication.
- `flatten.dfy`: module `Flatten`, a tree type, the walk, and a stack-based walk proved equal to it.
- `dicts.dfy`: module `Dicts`, `dict(pairs)` where a later pair overwrites an earlier one.
- `swap_keys.dfy`: module `SwapKeys`.
- `registry.dfy`: module `Registry`.
- `report.dfy`: module `Report`.

Modelling choices:

- **Filesystem.** It is a finite tree. Each entry is a file, a directory with its listing in order, or neither. Roots are paths already made absolute.
- **Glob.** It is an uninterpreted predicate on the whole path. `fnmatch.filter` at line 114 receives the paths that line 123 built with `os.path.join`, not base names.
- **Duplicate roots.** `findfiles` (lines 114-117) filters a whole batch before it updates the set:
  - `unique` (line 115) is computed against the set as it was before the batch, so a file path given twice among the roots is appended twice (`FileSearchProps.DuplicateFileRoot`);
  - no duplicates are proved when the root file paths are distinct and every directory lists distinct names (`FileSearchProps.FindAllNoDuplicates`);
  - repeated or overlapping directory roots never add duplicates.
- **Host separators.** `os.sep` and `os.altsep` are parameters of `prettify_path`, with `os.altsep` as an `Option`. `os.getcwd()` is a parameter `cwd`. An empty `leading` stands for Python's falsy `leading` and selects `cwd`.
- **Dictionaries.** A dictionary argument is given by its iteration order, as a sequence of pairs with distinct keys.

## Model

| member | source | states |
|---|---|---|
| FileSearch.Matching | pynocle/utils.py:114 | `fnmatch.filter` keeps exactly the names the pattern accepts, never more names than given |
| FileSearch.MatchingAppend | pynocle/utils.py:114 | filtering a concatenation filters each part in turn, so the kept names stay in their input order |
| FileSearch.Unseen | pynocle/utils.py:107-108 | keeps exactly the names not in the processed set as it was before the batch |
| FileSearch.UnseenAppend | pynocle/utils.py:115 | the filter looks at each name on its own, so filtering a concatenation filters each part in turn, in order |
| FileSearch.UnseenOne | pynocle/utils.py:115 | a single name is kept exactly when it is not in the set as it was before the batch |
| FileSearch.UnseenKeepsRepeats | pynocle/utils.py:115-117 | a new name given twice in one batch is kept twice, because the set is only updated after the whole batch |
| FileSearch.FilePaths | pynocle/utils.py:121 | a path is kept exactly when some item at that path is a file |
| FileSearch.FilePathsAppend | pynocle/utils.py:121 | the file batch of a concatenation is the file batches of the parts, in order |
| FileSearch.FilePathsOne | pynocle/utils.py:121 | a single item contributes its path exactly when it is a file |
| FileSearch.MatchingOne | pynocle/utils.py:114 | a single name is kept exactly when the pattern accepts it |
| FileSearch.ChildItems | pynocle/utils.py:123 | the next working list joins each listed name to the directory, one item per name, in listing order |
| FileSearch.FindFiles | pynocle/utils.py:110-117 | an empty batch leaves the state unchanged; otherwise the list grows by exactly the batch's matching names not in the old set, in batch order and with repeats inside the batch kept, and the set by exactly those names |
| FileSearch.FindAll | pynocle/utils.py:119-124 | the traversal only extends the state: prefix kept, appended paths match and were not yet processed, and the set grows by exactly the appended paths |
| FileSearch.WalkDirs | pynocle/utils.py:122-124 | walking the directories of a list only extends the state in the same sense |
| FileSearch.FindAllPaths | pynocle/utils.py:127-132 | every returned path matches the pattern; no roots give the empty list |
| FileSearch.ExtendsTransitive | pynocle/utils.py:116-117 | extending an extended state is an extension of the original |
| FileSearch.ExtendsConsistent | pynocle/utils.py:102-103 | extending keeps `processed_files_set` equal to the elements of `processed_files` |
| FileSearch.FindAllConsistent | pynocle/utils.py:102-103 | after `find_all` the set is exactly the elements of the list |
| FileSearchProps.FoldAppend | pynocle/utils.py:110-117 | handing `findfiles` two runs of batches is handing it the first run, then the second |
| FileSearchProps.FindAllIsFold | pynocle/utils.py:119-124 | traversal order: `findall` is `findfiles` over the batch files first, then the batches under each directory in list order |
| FileSearchProps.WalkDirsIsFold | pynocle/utils.py:122-124 | the directory loop is `findfiles` over each directory's batches, directory by directory |
| FileSearchProps.FoldContents | pynocle/utils.py:110-117 | from a consistent state, a path ends up collected exactly when it was already collected, or it occurs in some batch and matches |
| FileSearchProps.FindAllContents | pynocle/utils.py:127-132 | `find_all` returns exactly the visited file paths that match |
| FileSearchProps.Dedup | pynocle/utils.py:115-117 | the reference deduplication has no repeats and holds exactly the unseen paths of its input |
| FileSearchProps.DedupAppend | pynocle/utils.py:115-117 | deduplicating a concatenation deduplicates the second part against everything in the first |
| FileSearchProps.UnseenIsDedup | pynocle/utils.py:115 | on a batch without repeats, filtering against the old set is first-seen deduplication |
| FileSearchProps.FindFilesDedup | pynocle/utils.py:110-117 | on a batch without repeats, `findfiles` appends the deduplicated matching paths and adds all matching paths to the set |
| FileSearchProps.FoldDedup | pynocle/utils.py:110-124 | when no batch repeats a path, the collected list is the deduplication of all matching paths of all batches |
| FileSearchProps.FilePathsNoDup | pynocle/utils.py:121 | items with distinct paths give a file batch without repeats |
| FileSearchProps.ChildItemsDistinct | pynocle/utils.py:123 | distinct listed names give distinct joined paths |
| FileSearchProps.BatchesDistinct | pynocle/utils.py:119-124 | in a well-formed tree with distinct root files, no batch repeats a path |
| FileSearchProps.FindAllNoDuplicates | pynocle/utils.py:127-132 | with distinct root files and distinct listed names, `find_all` is the first-seen deduplication of the matching visited paths and has no duplicates |
| FileSearchProps.DuplicateFileRoot | pynocle/utils.py:115-117 | a matching file given twice as a root is returned twice |
| FileSearchProps.JoinBelow | pynocle/utils.py:123 | joining a listed name to a directory gives a path strictly below it: the directory is a prefix and what follows starts a new path component |
| FileSearchProps.CandidatesOrigin | pynocle/utils.py:121-124 | every visited file path is a root file or lies strictly below a root directory, in whole path components ("/a/bc" is not below "/a/b") |
| FileSearchProps.FindAllSound | pynocle/utils.py:127-132 | every returned path matches and is a root file or lies strictly below a root directory, in whole path components |
| FileSearchProps.FilePathsWithoutOther | pynocle/utils.py:121 | entries that are neither file nor directory do not change the file batch |
| FileSearchProps.FindAllSkipsOther | pynocle/utils.py:121-124 | entries that are neither file nor directory are skipped: removing them changes nothing |
| FileSearchProps.FoldSeen | pynocle/utils.py:112-117 | batches whose matching paths are all processed already change nothing |
| FileSearchProps.RepeatedDirectoryRoot | pynocle/utils.py:119-132 | a directory that is already a root, given again after all the roots, leaves the result unchanged |
| Flatten.Flatten | pynocle/utils.py:146 | the walk starts with the node itself |
| Flatten.FlattenLength | pynocle/utils.py:146-149 | the walk has exactly one element per node of the tree |
| Flatten.FlattenMembers | pynocle/utils.py:146-149 | the walk yields exactly the values of the tree's nodes |
| Flatten.ChildBlock | pynocle/utils.py:147-149 | pre-order: each child's walk is one contiguous block, after the node and the earlier children's blocks |
| Flatten.FlattenIter | pynocle/utils.py:140-149 | an explicit-stack walk yields the same sequence as the recursive generator |
| Flatten.Example | pynocle/utils.py:140-149 | node 1 with children 2 (child 4) and 3 is walked 1, 2, 4, 3 |
| Dicts.FromPairs | pynocle/utils.py:84 | `dict(pairs)` has exactly the keys of the pairs |
| Dicts.FromPairsLastWins | pynocle/utils.py:84 | the last pair with a key decides its value |
| Dicts.KeysCard | pynocle/utils.py:155-156 | pairs have at most as many distinct keys as pairs, and exactly as many iff no key repeats |
| SwapKeys.SwapKeysAndValues | pynocle/utils.py:151-158 | raises exactly when two keys share a value, reporting the values in order; otherwise the result has the size of `d` and maps each value to its key |
| SwapKeys.SwapIsInverse | pynocle/utils.py:155-158 | on success the result is the inverse of `d` |
| SwapKeys.InverseUnique | pynocle/utils.py:155 | a map has at most one inverse |
| SwapKeys.SwapTwice | pynocle/utils.py:151-158 | swapping the result again, in any iteration order, succeeds and gives back `d` |
| SwapKeys.SharedValueFails | pynocle/utils.py:156-157 | `{1: 'a', 2: 'a'}` raises with values `['a', 'a']` |
| Registry.New | pynocle/utils.py:83-84 | the registry has exactly the extensions of the pairs, each with the value of its last pair |
| Registry.Register | pynocle/utils.py:86-87 | registering sets the extension's value and leaves every other extension unchanged |
| Registry.GetFormatter | pynocle/utils.py:89-90 | a registered extension gives its value; a missing one gives the default |
| Registry.GetFormatterFactory | pynocle/utils.py:92-96 | a missing or false lookup result is returned unchanged; otherwise the factory binds that constructor and the options |
| Registry.FactoryBuilds | pynocle/utils.py:92-96 | the factory of a registered, true constructor applied to a stream calls that constructor with the stream and the options |
| Report.WriteReport | pynocle/utils.py:68-79 | completes iff nothing raises, and a raise reports the step that raised; a failed open makes no call; once the file is open, it is opened first and closed exactly once and last; between them come all of factory, header, data, footer when nothing raises, and exactly those up to and including the raising call otherwise |
| Report.DataAfterHeader | pynocle/utils.py:77-78 | data is written only after the header |
| Paths.RFind | pynocle/utils.py:136 | the last index of the character, or -1 when it does not occur |
| Paths.LastComponent | pynocle/utils.py:136 | the base name holds no separator, ends the path, and follows a separator when shorter than the path |
| Paths.LastComponentUnique | pynocle/utils.py:136 | the base name is the only separator-free suffix that is the whole path or follows a separator |
| Paths.Strip | pynocle/utils.py:170 | the result is a slice of the input with only the stripped character cut at either end, and does not start or end with it |
| Paths.ReplaceChar | pynocle/utils.py:166-167 | replacing one character by another rewrites exactly the positions that held it |
| Paths.ReplaceAbsent | pynocle/utils.py:169 | `str.replace` (`Paths.ReplaceAll`): replacing a pattern that does not occur changes nothing |
| Paths.RemoveOnlyDeletes | pynocle/utils.py:169 | deleting occurrences never lengthens the string or adds characters |
| Paths.Join | pynocle/utils.py:123 | an absolute name replaces the directory; otherwise the result is the directory, then one separator exactly when the directory is non-empty and does not end in one, then the name |
| Paths.JoinInjective | pynocle/utils.py:123 | one directory joined with different base names gives different paths |
| Paths.Split | pynocle/utils.py:136 | the tail is the base name; the head is the prefix before it without trailing separators, unless it is only separators |
| Paths.SplitJoin | pynocle/utils.py:136 | splitting a joined path gives back the directory and the name |
| Paths.SplitExt | pynocle/utils.py:137 | root plus extension is the path; the extension is empty or one dot and no dot or separator after it, and is non-empty iff the base name has a dot after a non-dot character |
| Paths.SplitPathRootFileExt | pynocle/utils.py:134-138 | the head is exactly the head `os.path.split` gives (`Paths.Split`); filename plus extension is the last component and holds no separator; the extension has the extension shape and is present iff the base name has one |
| Paths.NormalizeSeps | pynocle/utils.py:166-167 | every alternate separator becomes the separator, every other character stays |
| Paths.RemoveLeading | pynocle/utils.py:168-169 | a path not starting with `leading`, or an empty `leading`, leaves the path unchanged; otherwise the result is the rest after the leading occurrence with every further occurrence deleted by `str.replace`; never longer, no new characters |
| Paths.PrettifyPath | pynocle/utils.py:160-170 | fails exactly on a host without an alternate separator; otherwise the result neither starts nor ends with the separator and holds no alternate separator |
| PathsLemmas.SplitExtOf | pynocle/utils.py:167 | `splitext` cuts `base + ext` exactly between the two when `ext` is empty and the base name has no extension, or `ext` is an extension and the base name has a character other than a dot; dots in directories play no part |
| PathsLemmas.ReplaceAllMatch | pynocle/utils.py:169 | `str.replace` scans left to right: an occurrence at the start is replaced and the scan resumes after it, so occurrences never overlap |
| PathsLemmas.ReplaceAllSkip | pynocle/utils.py:169 | `str.replace` copies a stretch in which no occurrence starts |
| PathsLemmas.LastComponentBelow | pynocle/utils.py:167 | below a separator, the base name of a path is the base name of the part after it |
| PathsLemmas.RemoveLeadingShortens | pynocle/utils.py:168-169 | when the path starts with `leading`, at least that many characters go |
| PathsLemmas.SplitExtBelowLeading | pynocle/utils.py:167 | below `leading`, only the final extension of the base name is removed; a dotted name loses one extension, not all, and dotted directories keep their dots |
| PathsLemmas.PrettifyBelowLeading | pynocle/utils.py:160-170 | a path below `leading`, neither holding an alternate separator nor containing `leading` again, comes back as the part below it without its final extension, whatever dots its directories hold |
| PathsLemmas.PrettifyBelowLeadingAnySeps | pynocle/utils.py:160-170 | the same with alternate separators anywhere: when the normalised path is the normalised `leading`, a separator, `rel` and an extension, and the normalised `leading` does not occur again, the result is `rel` |
| PathsLemmas.PrettifyNotBelow | pynocle/utils.py:160-170 | when the normalised stem does not start with the normalised `leading` (or working directory), the result is that stem with separators stripped from its ends |
| PathsLemmas.PrettifyExample | pynocle/utils.py:160-170 | on a host with separator `/` and alternate separator `\`, "/home/user/proj/src/mod.py" below "/home/user/proj" gives "src/mod" (on Windows, where the separator is `\` and the alternate one `/`, it gives `src\mod`) |
| PathsLemmas.PrettifyDottedExample | pynocle/utils.py:160-170 | on the same host, "/proj/my.pkg/mod.py" below "/proj" gives "my.pkg/mod": the dotted directory is kept |
| PathsLemmas.PrettifyWindowsExample | pynocle/utils.py:160-170 | on a host with separator `\` and alternate separator `/`, "C:/proj/src/mod.py" below "C:/proj" gives "src\mod": both are normalised before `leading` is removed |
| PrettifyCorrected.FailsWithoutAltSep | pynocle/utils.py:166-167 | as written, a POSIX host (no alternate separator) makes every call fail |
| PrettifyCorrected.RemovesInnerOccurrence | pynocle/utils.py:168-169 | as written, an occurrence of `leading` further along the path is deleted too |
| PrettifyCorrected.InnerOccurrenceExample | pynocle/utils.py:160-170 | as written, on a host with separator `/` and alternate separator `\`, "/src/app/src/main.py" below "/src" gives "app/main" |
| PrettifyCorrected.PrettifyPathIntended | pynocle/utils.py:160-170 | the intended behaviour never fails; the result does not start or end with the separator and holds no alternate separator |
| PrettifyCorrected.IntendedBelowLeading | pynocle/utils.py:160-170 | intended: when the normalised path is the normalised `leading`, a separator, `rel` and its final extension, the result is `rel`, on every host, with alternate separators anywhere, dotted directories and further occurrences of `leading` in `rel` included |
| PrettifyCorrected.IntendedKeepsInnerOccurrence | pynocle/utils.py:160-170 | intended: "/src/app/src/main.py" below "/src" keeps its inner "src" on a POSIX host |

## Left out

- `AggregateError`, `PynocleError` and `MissingDependencyError` (lines 12-40). Formatting depends on `traceback.format_exception`, a foreign library, and the classes carry no logic.
- `IReportFormatter` (lines 43-65). It is an abstract interface. `write_report` records its calls as events.
- `write_report` I/O. Opening and writing the file are events, and which call raises is a parameter.
- Filesystem calls: `os.path.abspath`, `isfile`, `isdir`, `listdir`. The filesystem is a finite tree and roots are taken as already absolute. Symbolic-link cycles, which make the real recursion diverge, cannot be expressed in a finite tree.
- Filesystem errors. In the source, `os.listdir` raising (a permission denied, a directory removed during the walk) propagates out of `find_all`. In the model every listed directory can be read, so this case cannot happen.
- `fnmatch` glob semantics. The pattern is an uninterpreted predicate.
- `flatten`'s laziness. The generator is modelled by the finite sequence it yields. The child callable is the tree's child list.
- `os.getcwd()`. The working directory is a parameter.
- Exception types. A raise is a `Failure` value.
- `prettify_path` on Windows. `ntpath.splitext` also treats `altsep` as a separator. Here the extension is split after alternate separators are replaced, which gives the same result.
- Python truthiness of a registered value. It is the parameter `truthy`.
- `Registry.Apply`: its contract only says the stream is passed on; what the call builds is stated by `Registry.FactoryBuilds`.
- `Paths.PrettifyPath`: its contract does not say which characters remain. The behaviour on paths below `leading` is stated by `PathsLemmas.PrettifyBelowLeadingAnySeps` and `PrettifyCorrected.RemovesInnerOccurrence`, and on other paths by `PathsLemmas.PrettifyNotBelow`.

## Findings

| source | as written | input that shows it | evidently intended | confidence | as-written member | corrected member |
|---|---|---|---|---|---|---|
| pynocle/utils.py:166-167 | `.replace(os.altsep, os.sep)` where `os.altsep` is `None` on POSIX, so `str.replace` raises TypeError | any call on a POSIX host, e.g. `prettify_path('/a/b.py', '/a')` | normalise alternate separators only when the host has them | high, not executed | PrettifyCorrected.FailsWithoutAltSep | PrettifyCorrected.PrettifyPathIntended |
| pynocle/utils.py:168-169 | `s.replace(leading, '')` deletes every occurrence of `leading` | `prettify_path('/src/app/src/main.py', '/src')` on a host with separator `/` and alternate separator `\` gives `app/main`, not `app/src/main` (`PrettifyCorrected.InnerOccurrenceExample`); on Windows the result would be `app\main` | strip only the leading occurrence, as the docstring says | high, not executed | PrettifyCorrected.RemovesInnerOccurrence | PrettifyCorrected.IntendedBelowLeading |
