# Module friendlizer, modelled in Dafny

The module friendlizer makes NetBeans modules "friendly" to the Viettel
Enterprise Platform tools module, `com.viettel.vep.tools`. For each module
archive it:

- opens the archive and reads its manifest;
- adds `com.viettel.vep.tools` to the comma-separated value of the
  `OpenIDE-Module-Friends` main attribute;
- copies the archive into `<archive>_vep_tool_template.zip`, with the updated
  manifest first and every other entry after it, in order;
- moves that copy over the original by delete, create-empty and rename.

Two drivers run this over a list of modules:

- `FriendlizerUtilities.patchingNetBeans` stops at the first failure.
- `FriendlizerApp.main` ignores every result.

A separate class, `ModuleConfiguration`, turns `module.<name>.key` property
keys into module records.

`FriendlizerUtilities.java` and `FriendlizerApp.java` contain the same routines
twice. The model has one definition of each, and the table cites the
`FriendlizerUtilities.java` copy:

| routine | FriendlizerUtilities.java | FriendlizerApp.java |
|---|---|---|
| merge | 227-242 | 213-229 |
| update | 251-278 | 237-264 |
| copy | 165-219 | 151-205 |
| replace | 79-101 | 65-87 |
| patch | 110-155 | 96-141 |

The update has a different name in each file (`updateManifestFriendList` and
`updateManifestFriendListIfNeed`) but the same body. Rows about the command-line
driver, its module list and the temporary path cite `FriendlizerApp.java`.

Modules, one per file:

- `JavaStrings`: the `java.lang.String` operations the code relies on.
  - `startsWith`, `endsWith`, `contains`, `lastIndexOf`.
  - `trim`: strips every character up to U+0020 at both ends.
  - `equalsIgnoreCase`.
  - `split(" ")`: no delimiter gives the whole string; otherwise the trailing empty pieces are dropped.
- `FriendList`: the merge `putViettelTooltoFriendList`.
- `Manifest`: main attributes as an ordered list of name/value pairs, and the in-place update as the class `Attributes`.
- `Jar`: an archive as an ordered list of named entries.
  - The manifest entry carries the attributes its text encodes.
  - The entry copy runs as a chunked read/write loop between an `EntryStream` and a `JarOutput`.
- `Files`: the file system as a class holding a map from path to node.
  - Each request that can fail takes its outcome from a `Faults` value given as input.
- `Patcher`: `replaceFile` and `patchingModuleJarFile`.
  - Each is a method proved equal to a function on the file-system map.
- `Batch`: the two drivers, each a method proved equal to a function.
  - The lemmas relate the two failure policies.
- `Configuration`: the key parser, and `Module` as a class with setters.

## Model

| member | source | states |
|---|---|---|
| JavaStrings.Trim | src/main/java/com/viettel/vep/friendlizer/FriendlizerUtilities.java:235 | the result is a slice of the input, only characters up to U+0020 are cut at either end, and the result neither starts nor ends with one |
| JavaStrings.LastIndexOf | src/main/java/com/viettel/vep/friendlizer/ModuleConfiguration.java:46 | the position of the last occurrence of the character, or -1 exactly when it does not occur |
| JavaStrings.Split | src/main/java/com/viettel/vep/friendlizer/ModuleConfiguration.java:55 | without a space the whole text is the one element; otherwise the pieces between spaces with the trailing empty pieces dropped, none containing a space |
| JavaStrings.JoinPieces | src/main/java/com/viettel/vep/friendlizer/ModuleConfiguration.java:55 | joining the pieces with the delimiter gives the text back |
| JavaStrings.ContainsIffOccurs | src/main/java/com/viettel/vep/friendlizer/FriendlizerUtilities.java:232 | `contains` holds exactly when the text occurs at some position, in both directions |
| JavaStrings.ShortNeverContains | src/main/java/com/viettel/vep/friendlizer/FriendlizerUtilities.java:232 | a text longer than the string is never contained in it |
| JavaStrings.EqualsIgnoreCaseLaws | src/main/java/com/viettel/vep/friendlizer/FriendlizerUtilities.java:179 | `equalsIgnoreCase` is reflexive and symmetric, and strings of different lengths never match |
| FriendList.Merge | src/main/java/com/viettel/vep/friendlizer/FriendlizerUtilities.java:227-242 | the result always contains the target; a list is returned unchanged exactly when it already contains the target |
| FriendList.MergeEmpty | src/main/java/com/viettel/vep/friendlizer/FriendlizerUtilities.java:228-230 | a null or empty list becomes exactly `com.viettel.vep.tools` |
| FriendList.MergeAppends | src/main/java/com/viettel/vep/friendlizer/FriendlizerUtilities.java:235-241 | a list without the target becomes its trimmed text, then `" "` if that ends with a comma or `", "` otherwise, then the target |
| FriendList.MergeAddsOneItem | src/main/java/com/viettel/vep/friendlizer/FriendlizerUtilities.java:235-241 | read as comma-separated items, the result is the old items (a trailing comma absorbed) plus one new item, `" com.viettel.vep.tools"` |
| FriendList.MergeIdempotent | src/main/java/com/viettel/vep/friendlizer/FriendlizerUtilities.java:227-242 | merging a merged list changes nothing |
| FriendList.MergeChangesIffAbsent | src/main/java/com/viettel/vep/friendlizer/FriendlizerUtilities.java:232-241 | the merge changes a list if and only if it does not contain the target |
| FriendList.MergeMatchesSubstring | src/main/java/com/viettel/vep/friendlizer/FriendlizerUtilities.java:232-233 | the test is a substring test: `com.viettel.vep.tools.extra` is left as it is |
| FriendList.MergeBlankList | src/main/java/com/viettel/vep/friendlizer/FriendlizerUtilities.java:235-240 | a list of blanks trims to nothing and still gets the `", "` separator |
| FriendList.MergeExampleOneModule | src/main/java/com/viettel/vep/friendlizer/FriendlizerUtilities.java:235-241 | `foo.bar` becomes `foo.bar, com.viettel.vep.tools` |
| FriendList.MergeExampleTrailingComma | src/main/java/com/viettel/vep/friendlizer/FriendlizerUtilities.java:235-241 | `foo.bar,` also becomes `foo.bar, com.viettel.vep.tools`: after a trailing comma only a space is added |
| FriendList.MergeExampleAlreadyFriend | src/main/java/com/viettel/vep/friendlizer/FriendlizerUtilities.java:232-233 | `foo.bar, com.viettel.vep.tools` and `com.viettel.vep.tools` come back unchanged |
| Manifest.Updated | src/main/java/com/viettel/vep/friendlizer/FriendlizerUtilities.java:251-278 | the update keeps the number of attributes, and leaves them unchanged when it reports no patch |
| Manifest.FriendSlotFrom | src/main/java/com/viettel/vep/friendlizer/FriendlizerUtilities.java:252-260 | the first attribute, from a position on, named like `OpenIDE-Module-Friends` ignoring case and holding a String; none before it qualifies |
| Manifest.UpdateReportsFriendSlot | src/main/java/com/viettel/vep/friendlizer/FriendlizerUtilities.java:251-277 | the update reports a patch if and only if some attribute is such a friend slot |
| Manifest.UpdateChangesOnlyFriendValue | src/main/java/com/viettel/vep/friendlizer/FriendlizerUtilities.java:258-271 | on a patch the first friend slot, and only it, gets the merged list as its value; every name stays |
| Manifest.UpdateReportsPatchEvenWhenUnchanged | src/main/java/com/viettel/vep/friendlizer/FriendlizerUtilities.java:266-271 | a slot whose list already names the target is reported as patched although nothing changed |
| Manifest.UpdatedSlotNamesTarget | src/main/java/com/viettel/vep/friendlizer/FriendlizerUtilities.java:266-269 | after a patch the same slot is still the first one and its list contains the target |
| Manifest.UpdateIdempotent | src/main/java/com/viettel/vep/friendlizer/FriendlizerUtilities.java:251-278 | updating updated attributes reports a patch again and changes nothing |
| Manifest.Attributes.UpdateFriendList | src/main/java/com/viettel/vep/friendlizer/FriendlizerUtilities.java:251-278 | the key loop with its in-place `put` returns and leaves exactly what the update function describes |
| Jar.GetManifestFirst | src/main/java/com/viettel/vep/friendlizer/FriendlizerUtilities.java:119 | no manifest exactly when no entry is named as one; otherwise the first entry so named decides, and its parsed attributes are the manifest |
| Jar.KeptAppend | src/main/java/com/viettel/vep/friendlizer/FriendlizerUtilities.java:175-179 | the entry filter distributes over concatenation, so it keeps the archive's order |
| Jar.KeptMembers | src/main/java/com/viettel/vep/friendlizer/FriendlizerUtilities.java:179 | an entry is kept if and only if it is in the archive and not named as the manifest (ignoring case) |
| Jar.KeptDistinct | src/main/java/com/viettel/vep/friendlizer/FriendlizerUtilities.java:175-182 | filtering keeps entry names unique |
| Jar.KeptHasNoManifest | src/main/java/com/viettel/vep/friendlizer/FriendlizerUtilities.java:179 | no kept entry is named as the manifest |
| Jar.KeptIdempotent | src/main/java/com/viettel/vep/friendlizer/FriendlizerUtilities.java:179 | filtering twice is filtering once |
| Jar.PatchedDistinct | src/main/java/com/viettel/vep/friendlizer/FriendlizerUtilities.java:172-192 | the temporary archive's entry names are unique |
| Jar.PatchedManifestFirst | src/main/java/com/viettel/vep/friendlizer/FriendlizerUtilities.java:172-192 | the temporary archive's only manifest entry is its first, and its manifest is the updated one |
| Jar.PatchedEntriesWellFormed | src/main/java/com/viettel/vep/friendlizer/FriendlizerUtilities.java:165-197 | the temporary archive is well formed, its manifest is the updated one, and its other entries are exactly the source's, in order |
| Jar.KeptStep | src/main/java/com/viettel/vep/friendlizer/FriendlizerUtilities.java:175-191 | one more source entry extends the copied entries by that entry unless it is named as the manifest |
| Jar.KeptSkip | src/main/java/com/viettel/vep/friendlizer/FriendlizerUtilities.java:179-180 | an entry named as the manifest, whatever its case, adds nothing to the copied entries |
| Jar.KeptTake | src/main/java/com/viettel/vep/friendlizer/FriendlizerUtilities.java:181-190 | any other entry is appended after the entries copied so far |
| Jar.CopyStopsAt | src/main/java/com/viettel/vep/friendlizer/FriendlizerUtilities.java:199-201 | a write error at an entry leaves exactly the entries written before it, and failure |
| Jar.EntryStream.Read | src/main/java/com/viettel/vep/friendlizer/FriendlizerUtilities.java:185 | -1 at the end of the entry; otherwise between one byte and the buffer's length, the next bytes of the entry, at the buffer's start |
| Jar.JarOutput.PutManifest | src/main/java/com/viettel/vep/friendlizer/FriendlizerUtilities.java:172 | the manifest is the first entry written, unless the write fails |
| Jar.JarOutput.PutNextEntry | src/main/java/com/viettel/vep/friendlizer/FriendlizerUtilities.java:182 | opens an entry of the given name with no bytes, unless the write fails |
| Jar.JarOutput.Write | src/main/java/com/viettel/vep/friendlizer/FriendlizerUtilities.java:186 | appends the first `len` bytes of the buffer to the open entry |
| Jar.JarOutput.CloseEntry | src/main/java/com/viettel/vep/friendlizer/FriendlizerUtilities.java:190 | completes the open entry with the bytes written to it |
| Jar.CopyStep | src/main/java/com/viettel/vep/friendlizer/FriendlizerUtilities.java:181-201 | for a kept entry after the entries written so far: success extends them to cover one more source entry, and a write error there makes them exactly the failed copy's result |
| Jar.CopyEntryData | src/main/java/com/viettel/vep/friendlizer/FriendlizerUtilities.java:184-187 | whatever chunk sizes the stream picks and whatever the buffer's length, the entry's bytes arrive whole and in order |
| Jar.CopyEntry | src/main/java/com/viettel/vep/friendlizer/FriendlizerUtilities.java:181-190 | for an entry that is not the manifest: the output gains exactly that entry, name and bytes, unless its `putNextEntry` fails, in which case nothing is added |
| Jar.CopyNextEntry | src/main/java/com/viettel/vep/friendlizer/FriendlizerUtilities.java:176-191 | one pass of the entry loop: the written entries grow to those of one more source entry (a manifest entry adds nothing), or the write fails and leaves exactly what the copy reports |
| Jar.CopyAllJarEntries | src/main/java/com/viettel/vep/friendlizer/FriendlizerUtilities.java:165-219 | success with the updated manifest followed by every non-manifest entry (same name, same bytes, same order), or failure with the entries written before the I/O error |
| Files.StoredArchiveOpens | src/main/java/com/viettel/vep/friendlizer/FriendlizerUtilities.java:118 | `new JarFile` on a path where a well-formed archive was stored by a reader-permitted stream gives back the same entries, a malformed one fails, and a copy cut short never opens |
| Files.FileSystem.Delete | src/main/java/com/viettel/vep/friendlizer/FriendlizerUtilities.java:88 | removes an existing path unless the platform refuses; reports whether it did |
| Files.FileSystem.CreateNewFile | src/main/java/com/viettel/vep/friendlizer/FriendlizerUtilities.java:91 | creates an empty readable file where none exists, reports false where one exists, or raises an error |
| Files.FileSystem.RenameTo | src/main/java/com/viettel/vep/friendlizer/FriendlizerUtilities.java:92 | moves the node to the new path unless the platform refuses; reports whether it did |
| Files.FileSystem.Store | src/main/java/com/viettel/vep/friendlizer/FriendlizerUtilities.java:171 | the output stream leaves the written content at the path, keeping an existing file's read permission |
| Patcher.TempPath | src/main/java/com/viettel/vep/friendlizer/FriendlizerApp.java:98 | the temporary path starts with the archive's path, ends with `_vep_tool_template.zip` and is exactly as long as the two together, so it is the path followed by the suffix and never the archive's own path |
| Patcher.Replace | src/main/java/com/viettel/vep/friendlizer/FriendlizerUtilities.java:83-99 | success needs the four checks to pass and neither the create nor the rename to fail; when a check fails nothing changes |
| Patcher.ReplaceFile | src/main/java/com/viettel/vep/friendlizer/FriendlizerUtilities.java:79-101 | the checks, delete, create and rename leave exactly the result and file system the replacement function describes |
| Patcher.ReplaceOutcome | src/main/java/com/viettel/vep/friendlizer/FriendlizerUtilities.java:83-99 | success if and only if the four checks pass, the create does not throw and the rename works; success moves the temporary node onto the target; when a check fails nothing changes; no other path is touched |
| Patcher.RenameFailureLosesOriginal | src/main/java/com/viettel/vep/friendlizer/FriendlizerApp.java:74-78 | a failed rename after delete and create reports false and leaves an empty file in place of the original |
| Patcher.ReplaceKeepsOneCopy | src/main/java/com/viettel/vep/friendlizer/FriendlizerUtilities.java:88-95 | whatever the platform answers, the target keeps its node, or holds the temporary file's node, or that node stays at the temporary path |
| Patcher.Patch | src/main/java/com/viettel/vep/friendlizer/FriendlizerUtilities.java:110-155 | an archive that does not open fails with nothing changed, and nothing changes unless a rewrite is needed |
| Patcher.PatchingModuleJarFile | src/main/java/com/viettel/vep/friendlizer/FriendlizerUtilities.java:110-155 | open, update, copy and replace leave exactly the result and file system the patch function describes |
| Patcher.PatchWithoutRewrite | src/main/java/com/viettel/vep/friendlizer/FriendlizerUtilities.java:117-132 | without a rewrite nothing changes; the result is false exactly for an archive that does not open or whose manifest does not parse |
| Patcher.PatchTouchesOnlyArchiveAndTemp | src/main/java/com/viettel/vep/friendlizer/FriendlizerUtilities.java:110-155 | no path other than the archive and its temporary copy changes |
| Patcher.PatchSuccessMeansPatched | src/main/java/com/viettel/vep/friendlizer/FriendlizerUtilities.java:143-147 | whatever the platform does, success after a rewrite means the archive holds the updated manifest and the original's other entries, and the temporary copy is gone |
| Patcher.PatchKeepsOneCopy | src/main/java/com/viettel/vep/friendlizer/FriendlizerUtilities.java:83-99 | whatever the platform answers, a rewrite never loses both versions: the archive keeps its node, or holds the patched archive, or the patched archive is left at the temporary path |
| Patcher.CreateFailureLosesArchive | src/main/java/com/viettel/vep/friendlizer/FriendlizerUtilities.java:88-95 | when the delete works and the create then throws, the archive path is left without any file and only the temporary path holds the patched archive |
| Patcher.PatchSucceedsWithoutFaults | src/main/java/com/viettel/vep/friendlizer/FriendlizerUtilities.java:123-147 | without faults, and with a free or readable temporary path, a rewrite succeeds and the archive reopens with a friend list naming the target and the same other entries |
| Patcher.RewriteWithoutFaults | src/main/java/com/viettel/vep/friendlizer/FriendlizerUtilities.java:123-147 | without faults the copy is written and moved over the archive if the replacement may read it, and left beside it otherwise |
| Patcher.PatchIdempotent | src/main/java/com/viettel/vep/friendlizer/FriendlizerUtilities.java:110-155 | without faults, patching the result again gives the same result and the same file system |
| Patcher.PatchedArchiveStays | src/main/java/com/viettel/vep/friendlizer/FriendlizerUtilities.java:110-155 | an archive already holding its patched form, with no temporary copy beside it, is rewritten into exactly itself and reports success |
| Patcher.UnreadableCopyStays | src/main/java/com/viettel/vep/friendlizer/FriendlizerUtilities.java:83-86 | a temporary copy the replacement may not read stays beside the archive, and patching again reports failure and changes nothing |
| Patcher.AlreadyFriendlyIsRewritten | src/main/java/com/viettel/vep/friendlizer/FriendlizerUtilities.java:123-124 | an archive already naming the target is still rewritten; on success only the manifest's position changes |
| Patcher.AlreadyFriendlyLostOnRenameFailure | src/main/java/com/viettel/vep/friendlizer/FriendlizerUtilities.java:143-145 | an archive that needed no change ends up as an empty file if only the rename fails |
| Patcher.RepatchOnRenameFailureEmpties | src/main/java/com/viettel/vep/friendlizer/FriendlizerUtilities.java:83-99 | a fault-free patch succeeds, and a second patch of the same archive whose rename fails leaves an empty file where the patched archive was |
| Batch.IdeFolder | src/main/java/com/viettel/vep/friendlizer/FriendlizerUtilities.java:45 | the result ends in a slash and starts with the path: a path already ending in "/" comes back unchanged, any other gains exactly one "/" |
| Batch.RunNetBeans | src/main/java/com/viettel/vep/friendlizer/FriendlizerUtilities.java:46-53 | when no listed module path is a regular file the run succeeds and changes nothing |
| Batch.PatchingNetBeans | src/main/java/com/viettel/vep/friendlizer/FriendlizerUtilities.java:39-60 | the loop over the fixed module list leaves exactly the result and file system of the stop-on-failure run |
| Batch.NotAFolderSucceeds | src/main/java/com/viettel/vep/friendlizer/FriendlizerUtilities.java:42-59 | a path that is no directory gives success and no change |
| Batch.RunNetBeansSplits | src/main/java/com/viettel/vep/friendlizer/FriendlizerUtilities.java:46-53 | after a failure no later module is looked at; after success the rest runs on the state left behind |
| Batch.RunApp | src/main/java/com/viettel/vep/friendlizer/FriendlizerApp.java:39-46 | a list with no name ending in "jar" patches nothing and reports nothing |
| Batch.FriendlizeModules | src/main/java/com/viettel/vep/friendlizer/FriendlizerApp.java:36-48 | the command-line loop leaves exactly the file system of the ignore-results run |
| Batch.BatchPolicies | src/main/java/com/viettel/vep/friendlizer/FriendlizerUtilities.java:46-59 | when every name ends in `jar`, stopping at the first failure succeeds if and only if no attempt of the ignore-results run fails, and then both leave the same file system |
| Batch.AppAttemptsEveryListedJar | src/main/java/com/viettel/vep/friendlizer/FriendlizerApp.java:39-46 | with distinct names, every listed `jar` path that is a regular file at the start is patched, in order, whatever earlier patches return |
| Batch.JarPathIsNoTempPath | src/main/java/com/viettel/vep/friendlizer/FriendlizerApp.java:43 | a path ending in `jar` is never a temporary copy's path |
| Batch.RepeatedModulePatchedTwiceAlike | src/main/java/com/viettel/vep/friendlizer/FriendlizerApp.java:39-46 | without faults, a module listed twice is patched twice with the same result, and the second patch changes nothing |
| Batch.AppListRepeatsOneModule | src/main/java/com/viettel/vep/friendlizer/FriendlizerApp.java:24-26 | the tool's own list repeats one module; without faults the repeat has no further effect |
| Batch.RunAppTwice | src/main/java/com/viettel/vep/friendlizer/FriendlizerApp.java:39-46 | a jar module listed twice that is still a regular file after its first patch is patched twice in turn, and both results are reported |
| Batch.RepeatOnRenameFailureLosesArchive | src/main/java/com/viettel/vep/friendlizer/FriendlizerApp.java:24-26 | with the module listed twice, a fault-free first pass and a failed rename on the second pass, the reports are true then false and the archive is left empty |
| Configuration.ModulePrefix | src/main/java/com/viettel/vep/friendlizer/ModuleConfiguration.java:46 | the prefix up to the last dot, followed by `.key`, gives the key back |
| Configuration.ShortestModuleKey | src/main/java/com/viettel/vep/friendlizer/ModuleConfiguration.java:45-46 | `module.key` is a module key, with prefix `module` |
| Configuration.PrefixCollectedIffKeyPresent | src/main/java/com/viettel/vep/friendlizer/ModuleConfiguration.java:42-49 | a prefix is collected if and only if `<prefix>.key` is a String key starting with `module.` |
| Configuration.CollectModuleKeys | src/main/java/com/viettel/vep/friendlizer/ModuleConfiguration.java:40-49 | the key loop collects the prefixes of the module keys, in key order |
| Configuration.BuildAllShape | src/main/java/com/viettel/vep/friendlizer/ModuleConfiguration.java:51-58 | building succeeds if and only if every prefix has dependencies, and then gives one record per prefix, in order |
| Configuration.BuildAllErrPersists | src/main/java/com/viettel/vep/friendlizer/ModuleConfiguration.java:51-58 | an exception at one prefix is the exception of the whole loop |
| Configuration.ParseOutcome | src/main/java/com/viettel/vep/friendlizer/ModuleConfiguration.java:51-58 | parsing fails if and only if a prefix lacks `.dependencies`; otherwise each record holds the looked-up key and description and the dependencies split on spaces |
| Configuration.DependenciesJoinBack | src/main/java/com/viettel/vep/friendlizer/ModuleConfiguration.java:55 | for a value not ending in a space, the split keeps every piece, and joining them with spaces gives the value back |
| Configuration.Module.constructor | src/main/java/com/viettel/vep/friendlizer/ModuleConfiguration.java:98-99 | a new module has no key, description or dependencies, so its getters report null, null and an empty array |
| Configuration.Module.GetKey | src/main/java/com/viettel/vep/friendlizer/ModuleConfiguration.java:101-103 | the getter reports the key field, null until it is set |
| Configuration.Module.SetKey | src/main/java/com/viettel/vep/friendlizer/ModuleConfiguration.java:105-107 | sets the key and nothing else, and `getKey` then reports it |
| Configuration.Module.GetDescription | src/main/java/com/viettel/vep/friendlizer/ModuleConfiguration.java:109-111 | the getter reports the description field, null until it is set |
| Configuration.Module.SetDescription | src/main/java/com/viettel/vep/friendlizer/ModuleConfiguration.java:113-115 | sets the description and nothing else, and `getDescription` then reports it |
| Configuration.Module.SetDependences | src/main/java/com/viettel/vep/friendlizer/ModuleConfiguration.java:117-119 | stores the pieces as the dependency list and nothing else, and `getDependences` then reports them |
| Configuration.Module.GetDependences | src/main/java/com/viettel/vep/friendlizer/ModuleConfiguration.java:121-127 | the stored list when dependencies were set, and an empty array when they never were |
| Configuration.ParseConfigurationAsWritten | src/main/java/com/viettel/vep/friendlizer/ModuleConfiguration.java:39-60 | with the field left null, parsing fails if and only if some prefix is collected, and otherwise returns null |
| Configuration.ParseConfiguration | src/main/java/com/viettel/vep/friendlizer/ModuleConfiguration.java:39-60 | with the list initialised, one module object per prefix whose `GetKey`, `GetDescription` and `GetDependences` report the parsed record, or the exception exactly when parsing fails |
| Configuration.BuildModule | src/main/java/com/viettel/vep/friendlizer/ModuleConfiguration.java:52-55 | one pass of the second loop: a new module whose getters report the prefix's key, description and split dependencies, or none exactly when the dependencies are missing |
| Configuration.ToolsKeyNames | src/main/java/com/viettel/vep/friendlizer/ModuleConfiguration.java:45-46 | `module.tools.key` names the prefix `module.tools`; its `.description` and `.dependencies` keys name no module |
| Configuration.ToolsPrefixes | src/main/java/com/viettel/vep/friendlizer/ModuleConfiguration.java:42-49 | the keys of one module `tools` yield the single prefix `module.tools` |
| Configuration.SplitTwoDependencies | src/main/java/com/viettel/vep/friendlizer/ModuleConfiguration.java:55 | a value of two space-free names joined by one space, such as `ide java`, splits into exactly those two names |
| Configuration.OneModuleConfiguration | src/main/java/com/viettel/vep/friendlizer/ModuleConfiguration.java:51-58 | one collected prefix with dependencies gives exactly one module |

## Findings

| source | as written | input that shows it | evidently intended | confidence | as-written member | corrected member |
|---|---|---|---|---|---|---|
| src/main/java/com/viettel/vep/friendlizer/ModuleConfiguration.java:57 | the `modules` field (line 22) is never assigned, so `modules.add` fails with a NullPointerException for the first collected module, and with no module keys the constructor (line 26) stores null | the keys `module.tools.key`, `module.tools.description`, `module.tools.dependencies` (`ToolsPrefixes`) | `modules` starts as an empty list and gets one module per collected prefix | not executed | Configuration.ParseConfigurationAsWritten | Configuration.ParseConfiguration |

## Left out

- Logging: `Log`, the `JTextArea` and `System.out` messages. They do not affect any result.
- `GuiFriendlizerApp.java` is not part of this model. It is Swing user interface code.
- The constructor of `ModuleConfiguration`, `loadProperties` and `getModules` are left out.
  - They load the properties file from the class path (I/O) and copy the parsed list into an array.
  - The properties arrive as an input: keys in key-set order, plus the String values.
  - Default properties are not modelled.
- ZIP encoding and manifest text are not modelled.
  - An archive is a list of named entries.
  - The manifest entry carries its main attributes, parsed.
  - The ZIP container encoding, the manifest text format, and manifest sections other than the main one are abstracted away.
  - Writing the manifest and reading it back is taken as the identity. Java's manifest writer drops the main attributes when neither `Manifest-Version` nor `Signature-Version` is present, and that case is outside the model.
- Archives with two entries of one name, or with more than one entry named as the manifest, count as archives that do not open.
- `JarFile.getManifest()` is assumed to return the same object each time. So the in-place update is what the copy writes.
- Jar.CopyAllJarEntries: an I/O error is modelled only where an entry is begun, at the manifest or at `putNextEntry`.
  - Errors while reading an entry, in `write`, in `closeEntry` and in the final `close` are not told apart.
  - Whether the `finally` block's `close` completes a partly written archive is left open: such a file is `Partial` and never opens.
- Files.FileSystem.RenameTo replaces an existing target. What `renameTo` does over an existing file is platform-dependent, and the outcome is taken from `Faults`.
- Files.FileSystem.Store does not model write permission. An output stream on a read-only file raises an error in Java, and the model ignores this.
- The `close` and `flush` calls inside the copy's `try` block (`entryIs.close()`, `jaros.flush()`, `jaros.close()`, `fos.close()`) are not separate steps. An I/O error there reaches the same `catch` and makes the copy fail, which the model covers by `Faults.writeFailsAt`.
- The `close` calls in the copy's `finally` block and `jarfile.close()` are left out. The code swallows their I/O errors.
- Paths are raw keys of the file-system map. `java.io.File` normalisation is not modelled: `new File("x/")` names the same directory as `"x"`, but `IsDirectory(nodes, "x/")` looks up a different key.
- JavaStrings.EqualsIgnoreCase is exact on ASCII and on the four characters that fold onto ASCII letters: dotless i, long s, dotted capital I and the Kelvin sign. Other Unicode case folding is not modelled. The comparisons here always have one ASCII side.
- Attribute values that are not Strings, and property keys that are not Strings, are modelled only as "some other object".
