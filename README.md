# React Component/Container Switcher — the resolver, in Dafny

The switcher is a VS Code extension. It jumps between a React *Container* and
its *Component*, relying on a folder convention: a Container lives under a
folder named `container`, `Container`, `containers` or `Containers`, and a
Component lives under the `component` family of names. All of the decisions
are made in `src/utils.js`, and this project models that file:

- `detectFileType` classifies a file by the names of its parent and
  grandparent directories;
- `getFileInformation` locates the file's entity name and layout. It then
  searches the sibling folders of the opposite role, extension by extension
  and folder name by folder name, for the counterpart file. Along the way it
  records the candidate directories that exist, dropping any that is already
  recorded under another letter case;
- `getPath` decides which editor documents the switcher accepts;
- `getColumnToOpenIn` decides where the counterpart opens.

Modules:

- `NodePath` (node_path.dfy) covers the parts of Node's POSIX `path`
  module that the file uses, and ASCII `toLowerCase`.
  - A resolved path is kept as its list of segments: `/proj/src/a.js` is
    `["proj","src","a.js"]`.
  - `Segments` splits a path string and `PathString` joins the segments
    back. On well-formed paths `Segments` is proved a left inverse of
    `PathString`: splitting the string form of a resolved path gives the
    path back.
  - `ExtName` follows `path.extname`, including the leading-dot and `..`
    cases.
- `Tables` (tables.dfy) holds the constant tables and the `FileType`
  values. It also holds the two list operations the search order is built
  from, `indexOf` and `filter`, with their proved meaning.
- `Classifier` (classifier.dfy) is `detectFileType`. It is proved equal to an
  independent rule-table reading of the same priority order.
- `Resolver` (resolver.dfy) is `getFileInformation`.
  - The specification function `InfoOf` says what the call returns. It
    describes the nested loops as a list of probes (`ProbePairs`), the
    directories recorded from them (`Recorded`) and the first probe that
    succeeds (`FirstHit`).
  - `GetFileInformation` and `SearchCounterpart` are the imperative
    procedure: two nested `for` loops with early returns, proved to produce
    exactly `InfoOf`.
- `ResolverProperties` (properties.dfy) states what the search guarantees:
  - the probe order and count;
  - that the first successful probe wins, and which candidate it returns;
  - that the recorded directories are real sibling folders of the right
    role, each once up to letter case, and complete when nothing is found;
  - that they are recorded in the order the probes first find them, each
    in the first spelling found;
  - the shape of every result.
- `Editor` (editor.dfy) is `getPath` and `getColumnToOpenIn`, with the
  `rccs.alwaysOpenContainersToTheLeft` setting as a parameter.
- `Scenarios` (scenarios.dfy) works through concrete resolutions on small
  file systems.

The file system is a parameter `fs: set<Path>`. `existsSync(p)` is `p in fs`.

The `info` object is built and returned within a single call. The model
therefore keeps its fields as the procedure's locals and returns the datatype
`FileInfo`:

- `Failed(kind)` is the bare `{error}` objects of lines 171 and 204;
- `Info(...)` is the full object;
- an `otherPath` of `''` is `None`.

The `isStandalone` flag is set as the code sets it: `false` for a file lying
directly in a role folder (`Containers/UserList.js`), and `true` for a folder
layout (`Containers/UserList/index.js`). This is the reverse of what the
flag's name suggests; the model follows the code. With
`isStandalone` set, the folder layout of the counterpart is tried first, and
otherwise the standalone file is tried first.

## Model

| member | source | states |
|---|---|---|
| Tables.TablesDistinct | src/utils.js:6-8 | no extension and no folder name appears twice in its table |
| Tables.Opposite | src/utils.js:159-169 | a classified type's other type is classified and different from it |
| Tables.FoldersOf | src/utils.js:159-169 | no role folder table holds the empty name |
| Tables.IndexOf | src/utils.js:179 | `indexOf` returns -1 exactly when the value is absent, and otherwise the first position holding it |
| Tables.Without | src/utils.js:214-215 | `filter(y => y !== x)` removes every `x` and keeps every other value as often as it occurred |
| Tables.WithoutAbsent | src/utils.js:214-215 | filtering out a value that is absent leaves the list unchanged |
| Tables.WithoutOnce | src/utils.js:214-215 | in a list without repeats, filtering out a present value removes its one position and keeps the rest in their order |
| Tables.FirstIndexOfDistinct | src/utils.js:179 | in a list without repeats, `indexOf` of the entry at position i is i |
| Tables.Reordered | src/utils.js:214-215 | the reordered list starts with the preferred value, which does not occur again, and is at most one longer than the table |
| Tables.ReorderedOrder | src/utils.js:214-215 | after the preferred value, the table's other values follow in table order: the whole table when the value is absent from it, the table without that value otherwise |
| Tables.ReorderedAt | src/utils.js:215 | reordering a list without repeats by its entry at position i moves that entry to the front and keeps the others in order |
| Tables.ReorderedIsPermutation | src/utils.js:213-215 | the reordered list starts with the preferred value and has no repeats; it holds exactly that value and the table's values; with a value from the table it is a permutation of the table (its order is Tables.ReorderedOrder) |
| NodePath.Parent | src/utils.js:147-151 | `path.resolve(p, '..')` drops the last segment; the root is its own parent |
| NodePath.Segments | src/utils.js:307-308 | splitting a path string yields non-empty segments free of '/' |
| NodePath.SegmentsOfPathString | src/utils.js:307-308 | on well-formed paths, splitting the string form of a resolved path gives the path back (a left inverse) |
| NodePath.ExtName | src/utils.js:142 | `path.extname` is empty exactly for `..` and for names without a dot past the first character; otherwise it is the proper suffix from the last dot |
| NodePath.Stem | src/utils.js:145 | the stem followed by the extension is the whole name |
| NodePath.ExtNameOfAppended | src/utils.js:248-251 | a name formed as stem plus extension has that extension and that stem |
| NodePath.SameIgnoringCaseOfLast | src/utils.js:237-239 | paths differing only in the case of their last segment are equal after `toLowerCase` |
| Classifier.ParentName | src/utils.js:84 | the parent's name is the second-to-last segment, and empty for a path of fewer than two segments |
| Classifier.GrandParentName | src/utils.js:85 | the grandparent's name is the third-to-last segment, and empty for a path of fewer than three segments |
| Classifier.DetectFileType | src/utils.js:82-117 | Component exactly when the parent, or else the grandparent, is a Component folder name; Container in the symmetric case; Indeterminate exactly when neither name is a role folder name |
| Classifier.DetectFileTypeFollowsRules | src/utils.js:82-117 | the nested tests agree on every path with the first applicable rule of the ordered table (parent/Component, parent/Container, grandparent/Component, grandparent/Container) |
| Resolver.Locate | src/utils.js:174-199 | the file is located exactly when its parent is a role folder, or it is an `index` file whose grandparent is one; the anchor `thisFolderPath` is then the parent in the first case and the grandparent otherwise; `isStandalone` holds exactly in the second case; `thatPathIndex` is the first table position of the anchor's name |
| Resolver.Row | src/utils.js:221 | the inner loop's first iteration probes the first folder name |
| Resolver.Pairs | src/utils.js:219-221 | the first probe pairs the first extension with the first folder name |
| Resolver.ProbePairs | src/utils.js:211-221 | the first probe pairs the file's own extension with the suggested folder name, the opposite folder at its own folder's position |
| Resolver.ThatParentPath | src/utils.js:224 | the probed directory is named after the folder name and sits beside the anchor folder |
| Resolver.FolderPath | src/utils.js:247-248 | the folder-layout candidate is `index<ext>` in a folder named after the entity, inside the probed directory |
| Resolver.StandalonePath | src/utils.js:250-251 | the standalone candidate is `<name><ext>` directly inside the probed directory |
| Resolver.FirstCandidate | src/utils.js:255-279 | the first candidate tried is one of the two layouts, and is the standalone file exactly when the file is not `isStandalone` |
| Resolver.SecondCandidate | src/utils.js:255-279 | the second candidate tried is the other of the two layouts |
| Resolver.FirstHit | src/utils.js:219-279 | the index returned is the first probe that finds an existing counterpart; all earlier probes fail |
| Resolver.HasIgnoringCaseIff | src/utils.js:237-239 | the case-insensitive filter is non-empty exactly when some recorded path equals the new one ignoring case |
| Resolver.Recorded | src/utils.js:228-245 | no more directories are recorded than probes are made |
| Resolver.RecordedAt | src/utils.js:228-245 | each recorded directory is given the index of the probe that recorded it |
| Resolver.RecordedInOrder | src/utils.js:217-245 | the recorded directories come from strictly increasing probe indices, each being that probe's directory; every existing directory probed before one of them is already recorded, up to case, before it |
| Resolver.RecordedSound | src/utils.js:224-241 | every recorded directory exists and is the sibling folder of some probe |
| Resolver.RecordedCovers | src/utils.js:228-241 | every existing probe directory is recorded, up to case |
| Resolver.RecordedDistinct | src/utils.js:231-241 | no two recorded directories are equal ignoring case |
| Resolver.InfoOf | src/utils.js:137-292 | a full result carries the input path, a non-empty name, the file's classified type and the opposite type; it has a counterpart exactly when it has no error |
| Resolver.GetFileInformation | src/utils.js:137-292 | the procedure returns exactly `InfoOf(fs, filePath)`, the specification of the returned object |
| Resolver.SearchCounterpart | src/utils.js:217-290 | the nested loops leave exactly the recorded directories and the first counterpart found, or none |
| Resolver.RecordParent | src/utils.js:229-245 | a directory is appended exactly when no recorded path equals it ignoring case |
| Resolver.FirstHitAt | src/utils.js:255-277 | a successful probe after only failed ones is the first hit |
| ResolverProperties.RowLength | src/utils.js:221 | the inner loop runs once per folder name |
| ResolverProperties.RowAt | src/utils.js:221 | the j-th inner iteration probes the j-th folder name |
| ResolverProperties.PairsLength | src/utils.js:219-221 | the nested loops make `extensions × folders` probes |
| ResolverProperties.PairsAt | src/utils.js:219-221 | iteration (i, j) is probe number `i·folders + j` and pairs the i-th extension with the j-th folder |
| ResolverProperties.ProbeOrder | src/utils.js:219-221 | the probe of extension i and folder j comes before that of extension n and folder j2 whenever i < n, or i = n and j < j2 |
| ResolverProperties.PairsMembers | src/utils.js:219-221 | every probe pairs a listed extension with a listed folder name |
| ResolverProperties.ExtensionList | src/utils.js:214 | the extension list starts with the file's own extension and has no repeats; it holds the own extension and the table; with a valid extension it is a permutation of the table (4 entries), otherwise it has 5 |
| ResolverProperties.ExtensionListOrder | src/utils.js:214 | after the own extension the other extensions follow in table order: the whole table for an unlisted extension, the table without the own extension otherwise |
| ResolverProperties.FolderList | src/utils.js:211-215 | the folder list starts with the suggested folder name, has no repeats and is a permutation of the opposite table |
| ResolverProperties.FolderListOrder | src/utils.js:211-215 | after the suggested folder name the other opposite-role names follow in table order |
| ResolverProperties.ProbeCount | src/utils.js:211-221 | the search makes 16 probes with a valid extension and 20 otherwise |
| ResolverProperties.SuggestedFolderSpelledAlike | src/utils.js:7-8 | the suggested folder is capitalised and pluralised like the file's own folder |
| ResolverProperties.SearchFound | src/utils.js:247-279 | a found counterpart exists, lies in an existing sibling folder and is that probe's folder or standalone file (the first-tried one when it exists); all earlier probes failed; the recorded directories are those of the probes made |
| ResolverProperties.SearchNotFound | src/utils.js:283-290 | nothing is found exactly when every probe fails; then every existing probe directory is recorded up to case, and the list is empty exactly when none exists |
| ResolverProperties.RecordedEmpty | src/utils.js:217-245 | nothing is recorded exactly when no probe directory exists |
| ResolverProperties.NoSiblingFolders | src/utils.js:226-228 | with no sibling folder of the probed names, no directory is recorded and nothing is found |
| ResolverProperties.NoOppositeRoleFolder | src/utils.js:226-228 | with no opposite-role folder beside the file's role folder, the search records nothing and finds nothing |
| ResolverProperties.SearchDirs | src/utils.js:217-245 | the recorded directories are distinct up to case, exist, are probe directories, and are a prefix of the full recording |
| ResolverProperties.FirstSpellingKept | src/utils.js:233-239 | of the spellings of one directory, the first one probed that exists is the one recorded |
| ResolverProperties.InOrderOfPrefix | src/utils.js:219-279 | discovery order over the probes made before the early return is discovery order over the whole probe list |
| ResolverProperties.SearchDirsOrder | src/utils.js:217-279 | the directories a search leaves are in the order the probes first found them, in the first spelling found |
| ResolverProperties.CaseVariantsRecordedOnce | src/utils.js:233-239 | two directories equal up to case are never both recorded |
| ResolverProperties.RecordedGrows | src/utils.js:217-245 | probing further only appends to the recorded directories |
| ResolverProperties.HitWhenPrefixClosed | src/utils.js:226-228 | when every existing path's parent exists, the directory test changes nothing: a probe succeeds exactly when one of its two candidate files exists |
| ResolverProperties.IndeterminateIsCouldNotDetermine | src/utils.js:170-171 | the result is the bare CouldNotDetermine error exactly when the file is not classified |
| ResolverProperties.LocatedNameNonEmpty | src/utils.js:201-206 | a located file always has a non-empty name |
| ResolverProperties.NameAndLayout | src/utils.js:178-206 | a file directly in a role folder is named by its stem, anchored at its parent, not standalone, at its parent's table position; otherwise an `index` file is named by its directory, anchored at its grandparent, standalone, at its grandparent's table position; anything else is not located and gives CouldNotFind |
| ResolverProperties.InfoOfSearch | src/utils.js:137-292 | for a located file, the result carries the path, extension, name, the two types, the layout, and what the search left |
| ResolverProperties.InfoIsOutcome | src/utils.js:137-292 | a full result comes from a classified, located file and its probe list |
| ResolverProperties.InfoRoles | src/utils.js:141-172 | a full result has the input path, its extension and opposite types; it has a counterpart exactly when it has no error; the only error is CouldNotFind; the counterpart exists |
| ResolverProperties.DirsBesideAnchor | src/utils.js:224 | every recorded directory exists and sits beside the file's role folder, under a probed folder name |
| ResolverProperties.InfoDirs | src/utils.js:217-245 | `otherParentPaths` are distinct up to case, exist, and are opposite-role folders beside the file's role folder |
| ResolverProperties.InfoDirsOrder | src/utils.js:211-245 | `otherParentPaths` lists its directories in the order the probes first found them, in the first spelling found |
| ResolverProperties.InfoCounterpart | src/utils.js:247-290 | a counterpart is the folder or standalone file of the first successful probe; without one, every probe failed and every existing probe directory was recorded |
| Editor.GetPath | src/utils.js:301-317 | a document is accepted exactly when it is saved, local and has one of the four extensions, and its path is returned unchanged |
| Editor.AcceptedPathProbes | src/utils.js:303-315 | an accepted document's extension is valid; its extension list is a permutation of the table, and its search makes 16 probes |
| Editor.DocumentNamed | src/utils.js:201-206 | an accepted document, once located, has a non-empty name |
| Editor.ColumnPosition | src/utils.js:16-20 | the column table answers exactly for `Same`, `Left` and `Right` |
| Editor.GetColumnToOpenIn | src/utils.js:45-75 | `Same` opens in the active column; a Container opens in the column the setting names, and in none (undefined) when the setting is unset or outside the table; any other file opens on the right when the setting is `Left` and on the left otherwise |
| Editor.ContainersAndComponentsOppositeSides | src/utils.js:55-69 | with `Left` or `Right`, a Container opens on that side and a Component on the other; an unclassified file opens like a Component |
| Scenarios.UserListLocated | src/utils.js:174-199 | `/proj/src/Containers/UserList.js` is a Container named `UserList`, not standalone, at table position 3 |
| Scenarios.UserListSearch | src/utils.js:219-279 | its first probe finds `/proj/src/Components/UserList/index.js` and records `/proj/src/Components` |
| Scenarios.ContainerFindsFolderComponent | src/utils.js:137-292 | the full result for that Container |
| Scenarios.FirstProbeWins | src/utils.js:255-277 | a successful first probe ends the search with its own directory recorded |
| Scenarios.FooLocated | src/utils.js:186-197 | `/proj/src/Component/Foo/index.js` is a standalone Component named `Foo` |
| Scenarios.ComponentWithoutContainerFolder | src/utils.js:283-290 | with no Container folder beside it, the result has no directories, no counterpart and CouldNotFind |
| Scenarios.BarContainerProbeHits | src/utils.js:247-279 | the Container's first probe, trying the folder layout first, falls back to and returns the Component file |
| Scenarios.BarComponentProbeHits | src/utils.js:247-279 | the Component's first probe, trying the standalone file first, falls back to and returns the Container's folder |
| Scenarios.BarSearches | src/utils.js:219-279 | `/p/Containers/Bar/index.js` and `/p/Components/Bar.js` find each other at the first probe |
| Scenarios.PairResolvesBothWays | src/utils.js:137-292 | the full results of the two files name each other, with opposite layouts |
| Scenarios.ContainerSpellingsRecordedOnce | src/utils.js:233-239 | `Containers` and `containers` beside each other are never both recorded |
| Scenarios.TypeScriptTriesTableOrderNext | src/utils.js:214 | for a `.ts` file the extensions are tried as `.ts`, `.js`, `.jsx`, `.tsx` |
| Scenarios.PluralCapitalisedFolderFirst | src/utils.js:215 | with `Containers` suggested, the Container names are tried as `Containers`, `container`, `Container`, `containers` |

## Left out

- The VS Code API is not part of this model: commands, editors, the status bar and opening documents (src/switcher.js and src/extension.js are not part of this model).
- Creating a missing counterpart from a template is not modelled; src/switcher.js is not part of this model.
- Reading the configuration is not modelled: the `rccs.alwaysOpenContainersToTheLeft` value is a parameter of `GetColumnToOpenIn`.
- `existsSync` is membership in a set of paths. Permissions (`R_OK`), symbolic links, timing and the host's case-insensitive lookup are not modelled. Case-insensitivity appears only as the source's own de-duplication.
- Editor.GetColumnToOpenIn: a setting naming another key of the `ColumnPosition` object is answered as undefined. Inherited `Object.prototype` keys such as `constructor` are not modelled.
- NodePath.Lower: folds ASCII letters only. Non-ASCII `toLowerCase` mappings are not modelled, because every folder name of the convention is ASCII.
- `path.resolve` and `path.join` are applied to paths that are already resolved. Normalising `.`/`..` segments and Windows separators are not modelled.
- The values of the `errors` module are the enumeration `ErrorKind`, not their message strings.
