# iDiff diff core in Dafny

iDiff compares two container images and reports what was added, deleted or
changed. This project models the sequential logic at the core of that
comparison and proves properties of it:

- **Directory entry differ** (`FsUtils`, `iDiff/utils/fs_utils.go`). Matcher
  opcodes become the added and deleted entry lists. Matching blocks are
  flattened into the common entries. Each common entry is compared by size
  first, then by content.
- **Set-difference file differ** (`FileSetDiff`). This is the
  `getAddedFiles`/`getDeletedFiles`/`getModifiedFiles` trio that
  `iDiff/utils/fs_utils_test.go` pins down.
- **Package map differ** (`LayerCorrelation`, `PackageDiff`). This is
  `diffMaps` for flat and layered package maps, together with `contains`,
  `checkPackageMapType` and the orderings the tests sort by
  (`iDiff/utils/package_diff_utils_test.go`).
- **Directory-diff report** (`PackageReport`, `iDiff/differs/package.go`). A
  buffer receives the three sections, or the line "No files to diff".
- **dpkg status reader** (`AptPackages`, `iDiff/differs/aptDiff.go`). It
  reads `Key: Value` lines per layer and folds them into one map from
  package name to version.
- **Image preparation helpers** (`ImagePrep`,
  `iDiff/utils/image_prep_utils.go`). These cover:
  - choosing the file that supplies the history;
  - stripping the `filepath.Ext` suffix;
  - deriving the image name from a reference;
  - the "no source" error.
- **Command line** (`Cmd`, `iDiff/cmd/iDiff.go`). This is the argument-count
  check and the choice of differ by the third argument.

Modelling conventions:

- **Go slices.** A Go slice that the source builds by `append` is a
  `GoSlice`: `Nil`, or `List(items)`. This keeps the nil-versus-empty
  distinction that `package.go` branches on.
- **Inputs stand in for foreign code and I/O.** The following are inputs:
  - the difflib matcher's output;
  - the file system, as a map from path to contents;
  - directory listings;
  - status-file lines;
  - decoded JSON histories.

  Go panics on failed I/O become `Failure` results.
- **Map iteration order.** Where Go walks a map, the model walks its keys in
  increasing order. The tests sort before comparing, and
  `SortedByPackageUnique` shows why the chosen order does not matter: two
  sorted lists with the same members are equal.
- **State-changing code is imperative.** Code that changes state is modelled
  with methods and loops proved against specification functions: the
  appends of `fs_utils.go`, the buffer of `package.go`, the scanner loop of
  `aptDiff.go` and the history loop of `getHistory`. Code that is pure is
  modelled with functions and lemmas.

Modelling choices about the code:

- **Adds and deletions come from the matcher opcodes**
  (`iDiff/utils/fs_utils.go:36-54`). The set-difference differ of the test
  tables is a separate module, `FileSetDiff`.
- **A stat or read failure aborts the whole directory diff**, as the Go panic
  does.
- **Locations correlate by the rule the fixtures show.** Version and Size are
  equal, and the location keys are equal or agree after the first '/'. There
  is no special case for install directories.
- **Residues stay in occurrence order.**
- **A directory listing is in file-name order.** Both listings come from
  `ioutil.ReadDir` (`iDiff/differs/aptDiff.go:21`,
  `iDiff/utils/image_prep_utils.go:98`), which sorts the entries by name.
  The model takes the listing as an input, so "listing order" below means
  name order: the "last layer" of the apt scan is the layer directory with
  the greatest name, and the history scan's first qualifying file is the
  first one by name.

## Model

| member | source | states |
|---|---|---|
| Wrappers.FromSeq | iDiff/utils/fs_utils.go:37 | the slice left by appending a sequence to a nil slice is nil exactly when nothing was appended, and holds the appended elements |
| Strings.TrimSuffix | iDiff/utils/image_prep_utils.go:129 | when the suffix is there, the result followed by the suffix is the input; otherwise the input is unchanged |
| FsUtils.GetAddsAndDels | iDiff/utils/fs_utils.go:36-54 | adds is the concatenation, in opcode order, of b[j1:j2] over the 'r' and 'i' opcodes; dels is the same over a[i1:i2] for 'r' and 'd'; each is nil when nothing was appended |
| FsUtils.AppendAll | iDiff/utils/fs_utils.go:42-49 | appending a range line by line gives the old elements followed by the range, and the result is non-nil once a line was appended |
| FsUtils.ScriptLinesSplit | iDiff/utils/fs_utils.go:38-52 | the lines of a script cut at any group are the lines of the groups before the cut followed by those of the groups after it, so opcode order is kept |
| FsUtils.OpsLinesEmptyIff | iDiff/utils/fs_utils.go:39-51 | a group contributes no line exactly when each of its contributing opcodes has an empty range |
| FsUtils.ScriptLinesEmptyIff | iDiff/utils/fs_utils.go:37-53 | adds (dels) is nil exactly when no 'r'/'i' ('r'/'d') opcode of any group has a non-empty range |
| FsUtils.OpLinesMembers | iDiff/utils/fs_utils.go:41-49 | a line comes from one opcode exactly when that opcode contributes on that side and its range covers an occurrence of the line |
| FsUtils.OpsLinesMembers | iDiff/utils/fs_utils.go:39-51 | a line is in a group's output exactly when some opcode of the group covers an occurrence of it |
| FsUtils.ScriptLinesMembers | iDiff/utils/fs_utils.go:38-52 | x is among the adds (dels) exactly when some 'r'/'i' ('r'/'d') opcode's range covers an occurrence of x in b (a) |
| FsUtils.ScriptCoversIn | iDiff/utils/fs_utils.go:42-48 | a covered line is an entry of the list it was sliced from |
| FsUtils.GetMatchStrings | iDiff/utils/fs_utils.go:57-67 | the result is a[m.A:m.A+m.Size] concatenated over every matching block except the last; it is nil when nothing was collected |
| FsUtils.MatchedLinesSnoc | iDiff/utils/fs_utils.go:59-64 | one more block appends exactly its slice of a |
| FsUtils.MatchedLinesLength | iDiff/utils/fs_utils.go:57-66 | the number of matched strings is the sum of the block sizes |
| FsUtils.MatchedLinesFromBlocks | iDiff/utils/fs_utils.go:59-63 | every matched string is an entry of a inside some block's range |
| FsUtils.CheckSameFile | iDiff/utils/fs_utils.go:97-129 | a missing first or second path is a stat failure; different sizes give false without a read; the result is true exactly when the contents are equal, and it succeeds exactly when the files can be compared |
| FsUtils.ModifiedIsDiffering | iDiff/utils/fs_utils.go:69-79 | GetModifiedFiles succeeds exactly when every pair path1+f, path2+f can be compared, and then equals the reference list of entries with different contents (plain equality, no size shortcut) |
| FsUtils.DifferingMembers | iDiff/utils/fs_utils.go:71-77 | an entry is reported exactly when it is listed and the contents under the two roots differ |
| FsUtils.GetModifiedFiles | iDiff/utils/fs_utils.go:69-79 | the loop keeps, in input order, the entries whose two files are not the same; the first failing comparison is the error |
| FsUtils.ModifiedFailurePersists | iDiff/utils/fs_utils.go:99-124 | once a comparison fails, the later entries do not change the outcome |
| FsUtils.DirectoryDiff | iDiff/utils/fs_utils.go:82-95 | every add is an entry of the second directory, every del an entry of the first, and every mod an entry of a matched block of the first |
| FsUtils.CompareFileEntries | iDiff/utils/fs_utils.go:82-95 | matches, then mods, then adds and dels, computed as DirectoryDiff states |
| FsUtils.DiffDirectory | iDiff/utils/fs_utils.go:132-135 | the result of CompareFileEntries |
| FileSetDiff.Without | iDiff/utils/fs_utils_test.go:30-31 | the entries of one list missing from the other, in the first list's order |
| FileSetDiff.Common | iDiff/utils/fs_utils_test.go:60-61 | the entries present in both lists, in the first list's order |
| FileSetDiff.AddedFiles | iDiff/utils/fs_utils_test.go:26-39 | nil exactly when both directories have no entries; otherwise the entries of the second that the first lacks, in the second's order |
| FileSetDiff.DeletedFiles | iDiff/utils/fs_utils_test.go:41-54 | nil exactly when both directories have no entries; otherwise the entries of the first that the second lacks, in the first's order |
| FileSetDiff.ModifiedFiles | iDiff/utils/fs_utils_test.go:56-69 | on success, nil exactly for two empty directories; it lists the common entries whose contents differ, in the first directory's order; it fails exactly when a common pair cannot be compared |
| FileSetDiff.DifferingSubsequence | iDiff/utils/fs_utils_test.go:61 | modified entries keep the first directory's entry order |
| FileSetDiff.DirectoryPartition | iDiff/utils/fs_utils_test.go:26-62 | every entry of either directory is added, deleted or common, and is in exactly one of the three |
| FileSetDiff.AddedDeletedSwap | iDiff/utils/fs_utils_test.go:28-46 | the files added from d1 to d2 are the files deleted from d2 to d1 |
| FileSetDiff.SelfDiffEmpty | iDiff/utils/fs_utils_test.go:58-59 | a directory against itself has no added, deleted or modified entries |
| FileSetDiff.AddedDeletedTables | iDiff/utils/fs_utils_test.go:26-54 | the eight rows of the added and deleted tables, nil versus empty included |
| FileSetDiff.ModifiedOnlyCommon | iDiff/utils/fs_utils_test.go:60 | with file1 equal and file2 different, {file1,file2,file3} against {file1,file2,file4} reports only file2 |
| LayerCorrelation.AfterLayerSpec | iDiff/utils/package_diff_utils_test.go:85-98 | the layer segment ends at the first '/': the rest of the key follows it, and a key without '/' has no rest |
| LayerCorrelation.SameLocationClass | iDiff/utils/package_diff_utils_test.go:85-98 | two location keys correlate exactly when their classes (whole key, or the path after the layer segment) are equal, so correlation is an equivalence |
| LayerCorrelation.CorrelatesIffSameKey | iDiff/utils/package_diff_utils_test.go:85-98 | two occurrences correlate exactly when Version, Size and location class agree |
| LayerCorrelation.AfterLayerSplit | iDiff/utils/package_diff_utils_test.go:87-92 | "layer/path" with no '/' in the layer drops exactly the layer |
| LayerCorrelation.LayerSegmentIgnored | iDiff/utils/package_diff_utils_test.go:85-98 | the same release at layer1/path1 and layer2/path2 correlates exactly when the paths agree or the keys are identical |
| LayerCorrelation.Contains | iDiff/utils/package_diff_utils_test.go:170-235 | true with the first index whose entry has equal Version and Size and a correlating location; otherwise index 0 and false, including when the two lists differ in length |
| LayerCorrelation.FindFrom | iDiff/utils/package_diff_utils_test.go:181-206 | the first matching index at or after the start, or 0 and false when none matches |
| LayerCorrelation.ContainsFound | iDiff/utils/package_diff_utils_test.go:180-188 | the "Does contain" row: index 1, true |
| LayerCorrelation.ContainsNotFound | iDiff/utils/package_diff_utils_test.go:189-225 | the four failing rows give index 0 and false |
| LayerCorrelation.ContainsIgnoresLayer | iDiff/utils/package_diff_utils_test.go:207-215 | relabelling the Layer of the sought info or of any listed info never changes what contains answers |
| LayerCorrelation.Reconcile | iDiff/utils/package_diff_utils_test.go:120-131 | the residues are sub-multisets of the two occurrence lists, and as many occurrences are consumed from each side |
| LayerCorrelation.ReconcileKeyBags | iDiff/utils/package_diff_utils_test.go:120-131 | whatever the order, the classes left on each side are that side's class count minus the other's |
| LayerCorrelation.LeftKeyBag | iDiff/utils/package_diff_utils_test.go:120-131 | the first residue's classes are the first side's minus the second side's |
| LayerCorrelation.RightKeyBag | iDiff/utils/package_diff_utils_test.go:120-131 | the second residue's classes are the second side's minus the first side's |
| LayerCorrelation.ReconcileMaximal | iDiff/utils/package_diff_utils_test.go:120-131 | no occurrence left on one side correlates with one left on the other |
| LayerCorrelation.ReconcileBalanced | iDiff/utils/package_diff_utils_test.go:85-98 | both residues are empty exactly when the two sides hold every correlation class equally often |
| PackageDiff.OnlyIn | iDiff/utils/package_diff_utils_test.go:101-119 | exactly the names of the first map missing from the second, with their values (a whole location sub-map when layered) |
| PackageDiff.SharedNames | iDiff/utils/package_diff_utils_test.go:52-67 | exactly the names in both maps, in increasing order |
| PackageDiff.FlatDiff | iDiff/utils/package_diff_utils_test.go:34-83 | Packages1/Packages2 hold the names only in map1/map2 with their infos; InfoDiff holds one (name, info1, info2) record per shared name whose Version or Size differs, and no other |
| PackageDiff.ChangedInfosMembers | iDiff/utils/package_diff_utils_test.go:52-67 | a listed shared name gets a record exactly when Version or Size differs |
| PackageDiff.ChangedInfosRecords | iDiff/utils/package_diff_utils_test.go:62-66 | each record carries the name and its info from each map |
| PackageDiff.FlatDisjoint | iDiff/utils/package_diff_utils_test.go:35-49 | with no shared names, the maps are copied whole and InfoDiff is empty |
| PackageDiff.FlatSameNames | iDiff/utils/package_diff_utils_test.go:52-67 | with the same names on both sides, Packages1 and Packages2 are empty |
| PackageDiff.FlatSelf | iDiff/utils/package_diff_utils_test.go:70-83 | identical flat maps give an empty diff |
| PackageDiff.FlatSwap | iDiff/utils/package_diff_utils_test.go:34-83 | swapping the maps swaps Packages1 and Packages2 and swaps info1 and info2 in every record |
| PackageDiff.Occurrences | iDiff/utils/package_diff_utils_test.go:85-131 | one occurrence per location key of a sub-map, carrying that key and its info |
| PackageDiff.ChangeNoneIffBalanced | iDiff/utils/package_diff_utils_test.go:85-98 | a shared name gives no record exactly when its occurrences pair up class by class |
| PackageDiff.LayeredDiff | iDiff/utils/package_diff_utils_test.go:84-133 | Packages1/Packages2 hold the names only in one map with their location sub-maps verbatim, and the records are listed by increasing name |
| PackageDiff.LayeredRecords | iDiff/utils/package_diff_utils_test.go:120-131 | each record is the change of its shared name: the unpaired occurrences of each side |
| PackageDiff.LayeredChangedNames | iDiff/utils/package_diff_utils_test.go:85-131 | a name has a record exactly when it is in both maps and its occurrences do not pair up |
| PackageDiff.ChangeRecord | iDiff/utils/package_diff_utils_test.go:120-131 | every info in Info1 (Info2) is an occurrence of map1 (map2), and as many occurrences were paired off on each side |
| PackageDiff.LayeredSelf | iDiff/utils/package_diff_utils_test.go:84-133 | a layered map diffed against itself gives an empty diff (a general property of the layered rows; no table row diffs a map against itself) |
| PackageDiff.OtherLayerBalanced | iDiff/utils/package_diff_utils_test.go:86-92 | one occurrence at the same path under another layer directory, same Version and Size, pairs off |
| PackageDiff.LayeredBalancedEmpty | iDiff/utils/package_diff_utils_test.go:94-98 | two layered maps with the same names, every name balancing, give no copied names and no records |
| PackageDiff.LayeredAcrossLayers | iDiff/utils/package_diff_utils_test.go:84-99 | the row "MultiVersion call with identical Packages in different layers": pac5 and pac3 under `hash1/` and `hash2/` and pac4 at `samePlace` give the empty diff |
| PackageDiff.NoPairsAllUnpaired | iDiff/utils/package_diff_utils_test.go:126-130 | when no Version is shared, every occurrence is left unpaired (pac2: two against one) |
| PackageDiff.CheckPackageMapType | iDiff/utils/package_diff_utils_test.go:237-287 | success exactly when both are maps of one type; the result is that type, and multi is true exactly for the layered shape; a non-map is an error |
| PackageDiff.CheckPackageMapTypeTable | iDiff/utils/package_diff_utils_test.go:246-271 | the four rows of the shape-check table |
| PackageDiff.DiffMaps | iDiff/utils/package_diff_utils_test.go:135-166 | two flat maps give exactly the flat diff and two layered maps exactly the layered diff; every other pair is a Failure, a modelling choice (see Left out) |
| PackageDiff.PackageLessOrder | iDiff/utils/package_diff_utils_test.go:13 | ByPackage's Less is irreflexive and transitive, and two records are incomparable exactly when they have the same name |
| PackageDiff.MultiPackageLessOrder | iDiff/utils/package_diff_utils_test.go:19 | ByMultiPackage's Less is irreflexive and transitive, and two records are incomparable exactly when they have the same name |
| PackageDiff.VersionLessOrder | iDiff/utils/package_diff_utils_test.go:25 | ByPackageInfo's Less is irreflexive and transitive, and two infos are incomparable exactly when they have the same Version |
| PackageDiff.Swap | iDiff/utils/package_diff_utils_test.go:12 | exchanges two elements in place, a permutation |
| PackageDiff.SortedByPackageUnique | iDiff/utils/package_diff_utils_test.go:143-161 | two record lists sorted by package name, with the same members, are equal, so comparing after sorting ignores the order diffMaps produced |
| PackageReport.Buffer.constructor | iDiff/differs/package.go:28 | a new buffer is empty |
| PackageReport.Buffer.WriteString | iDiff/differs/package.go:30-61 | the buffer grows by exactly the written text |
| PackageReport.JoinLinesAppend | iDiff/differs/package.go:37-40 | writing two runs of lines is writing their concatenation |
| PackageReport.SplitJoin | iDiff/differs/package.go:37-61 | when no entry holds a newline, splitting the written text at newlines gives back exactly the entries |
| PackageReport.Entries | iDiff/differs/package.go:34-41 | a section's body has one line per entry, or a single line when there is none |
| PackageReport.HeadersOneLine | iDiff/differs/package.go:32-53 | for names without a newline, the three header texts hold no newline, so each is one line of the report |
| PackageReport.WriteSection | iDiff/differs/package.go:32-41 | the header line, then "none" or each entry followed by a newline, in list order |
| PackageReport.WriteSections | iDiff/differs/package.go:32-62 | the added, deleted and changed sections, in that fixed order |
| PackageReport.WriteReport | iDiff/differs/package.go:28-63 | "No files to diff\n" when adds is nil, otherwise the three sections |
| PackageReport.RenderReport | iDiff/differs/package.go:26-64 | the text written to a fresh buffer is the report of the three lists, branching on adds being nil |
| PackageReport.NoFilesText | iDiff/differs/package.go:29-30 | the nil-adds report is exactly the one line "No files to diff" |
| PackageReport.SectionTextLines | iDiff/differs/package.go:32-41 | a section's text is its lines, each followed by a newline |
| PackageReport.ReportLines | iDiff/differs/package.go:29-62 | the report's lines are "No files to diff" alone, or the three headed sections; the count is 3 + Σ max(1, \|list\|) |
| PackageReport.Package | iDiff/differs/package.go:11-65 | the directory diff rendered as written, with any I/O failure as the error |
| PackageReport.DeletionHidden | iDiff/differs/package.go:26-30 | one deleted entry and nothing added: the report is "No files to diff" |
| PackageReport.PackageCorrected | iDiff/differs/package.go:26-64 | the report with "No files to diff" reserved for two empty directories |
| PackageReport.SectionsNotNoFiles | iDiff/differs/package.go:29-33 | a three-section report is never the "No files to diff" text |
| PackageReport.DeletedListed | iDiff/differs/package.go:43-52 | every deleted entry is one of the report's lines |
| PackageReport.CorrectedReport | iDiff/differs/package.go:26-64 | corrected: "No files to diff" exactly when both directories are empty, and every deleted entry appears as a line |
| PackageReport.SetDifferNilMeansEmpty | iDiff/utils/fs_utils_test.go:28-29 | the set differ's added list is nil exactly for two empty directories |
| AptPackages.FindSep | iDiff/differs/aptDiff.go:40 | the first ": " at or after a position, or none |
| AptPackages.KeyValueIff | iDiff/differs/aptDiff.go:40-43 | a line gives (key, value) exactly when it is key + ": " + value with no further ": " in either part; lines with no separator or several are ignored |
| AptPackages.ScanSpec | iDiff/differs/aptDiff.go:36-50 | after n lines, the current package is the one the last "Package" line named ("" before any); a name is in the map when it was before, or a "Version" line was read while it was current; the last such line decides its version; all other names keep theirs |
| AptPackages.ScanStatusFile | iDiff/differs/aptDiff.go:36-50 | the scanner loop over one status file leaves exactly the map ScanSpec describes: the reference scan of all its lines from no current package |
| AptPackages.VersionBeforePackage | iDiff/differs/aptDiff.go:36-48 | a "Version" line before any "Package" line is stored under "" |
| AptPackages.StatusPathInjective | iDiff/differs/aptDiff.go:25-27 | distinct layer directories have distinct status paths |
| AptPackages.GetPackages | iDiff/differs/aptDiff.go:16-64 | the loop computes the reference fold: one status path per layer in listing (file-name) order, each existing status file scanned into the map, the first unopenable one ending the loop; an unreadable root gives the empty map and its error |
| AptPackages.Present | iDiff/differs/aptDiff.go:29-30 | every kept layer comes from the listing and has a status file |
| AptPackages.SkipAbsent | iDiff/differs/aptDiff.go:30-60 | layers without a status file make no difference to the result |
| AptPackages.OpenFailure | iDiff/differs/aptDiff.go:32-56 | the first unopenable status file ends the fold with the map built from the earlier layers and its error |
| AptPackages.FoldSnoc | iDiff/differs/aptDiff.go:29-50 | a status file read after the others is scanned into the map they built |
| AptPackages.LaterLayerWins | iDiff/differs/aptDiff.go:29-50 | a version the last layer (the layer directory with the greatest name) records for a package is the one returned, whatever earlier layers said |
| ImagePrep.ExtShape | iDiff/utils/image_prep_utils.go:104 | the extension is the last dot of the last path element and what follows, or "" when that element has no dot |
| ImagePrep.ExtIff | iDiff/utils/image_prep_utils.go:104 | a name has extension ".json" (any plain extension) exactly when it ends with it |
| ImagePrep.CreatedBy | iDiff/utils/image_prep_utils.go:115-117 | one command per history record, in order |
| ImagePrep.GetHistory | iDiff/utils/image_prep_utils.go:95-121 | the scan as written: unreadable listing gives [] and the error; qualifying files are read in listing (file-name) order, the first read error returns the list so far, and a second history source ends the scan |
| ImagePrep.HistoryFromAt | iDiff/utils/image_prep_utils.go:103-118 | one entry of the scan: skipped when it does not qualify; its read error; the end of the scan once a history is held; otherwise its records |
| ImagePrep.HistoryKept | iDiff/utils/image_prep_utils.go:111-114 | once a history is held, later files cannot change it, only fail to read |
| ImagePrep.HistoryFromOneFile | iDiff/utils/image_prep_utils.go:103-120 | the history is non-empty exactly when some qualifying file is the first to carry records after only empty or undecodable ones, and it is then that file's records; an error names an unreadable qualifying file |
| ImagePrep.ImageFromTar | iDiff/utils/image_prep_utils.go:123-131 | it succeeds exactly when extraction reports no error, an extraction error is returned as is, and on success the directory followed by the tar's extension is the tar path |
| ImagePrep.TarDirectory | iDiff/utils/image_prep_utils.go:129 | "x.tar" unpacks into "x" |
| ImagePrep.LastSlash | iDiff/utils/image_prep_utils.go:139-140 | the last '/' with text on both sides before a position, or none |
| ImagePrep.RemoveColons | iDiff/utils/image_prep_utils.go:141 | no ':' is left, every other character is kept as often as before, and a text without ':' is unchanged |
| ImagePrep.RemoveColonsConcat | iDiff/utils/image_prep_utils.go:141 | removing colons from a concatenation is the concatenation of the removals, so the kept characters stay in their order |
| ImagePrep.ImageNameOf | iDiff/utils/image_prep_utils.go:139-141 | "prefix/last" is named after last without colons; a reference without '/' has no match, where the Go index panics |
| ImagePrep.GetImage | iDiff/utils/image_prep_utils.go:50-83 | no accepting source check gives "Could not retrieve image from source"; a preparer error is returned as is; a history scan error is returned as is; an image is prepared only when the scan reports no error, and it keeps the source, holds the preparer's directory and the scanned history, and has a nil layer list |
| ImagePrep.ImageHistory | iDiff/utils/image_prep_utils.go:72-82 | a prepared image's history is non-empty exactly when some qualifying file is the first to carry records after only empty or undecodable ones, and it is then that file's records |
| Cmd.CheckArgNum | iDiff/cmd/iDiff.go:59-70 | accepts exactly 2 or 3 arguments; fewer than 2 gives the "at least two container IDs" message, more than 3 "Too many arguments." |
| Cmd.RunOutcomes | iDiff/cmd/iDiff.go:18-37 | a rejected count exits with the check's message; "hist" and "dir" run on the first two arguments; any other name is unknown; two arguments panic |
| Cmd.TwoArgumentsPanic | iDiff/cmd/iDiff.go:19-25 | two arguments pass the check, and `args[2]` is then out of range |
| Cmd.CheckArgNumCorrected | iDiff/cmd/iDiff.go:59-70 | corrected: accepts exactly three arguments; fewer than two keep the "at least two container IDs" message, two get a message asking for the differ, more than three keep "Too many arguments." |
| Cmd.RunCorrectedSafe | iDiff/cmd/iDiff.go:18-37 | with the corrected check no run panics; every run the original completes goes the same way; two arguments are refused with the missing-differ message |

## Left out

- LayerCorrelation.SameRelease: the `Layer` field is not compared when occurrences are paired; only Version and Size are (ContainsIgnoresLayer states it). The one table row that sets Layer (`iDiff/utils/package_diff_utils_test.go:207-215`) has a differing path as well, so no row tells the two readings apart. Comparing Layer would stop the same package in two layer directories from pairing.
- PackageDiff.DiffMaps: the tests call `diffMaps` only on two flat or two layered maps and do not fix what it returns for other shapes. The `Failure` results (the shape error, or an unsupported map type) are a modelling choice.
- The difflib sequence matcher (`iDiff/utils/fs_utils.go:85-87`) is a foreign library. Its matching blocks and grouped opcodes are inputs, constrained only by the bounds that `MatcherOutputFits` requires. That they are the matcher's actual output is not modelled.
- `GetDirectory` (`iDiff/utils/fs_utils.go:19-33`) and the JSON reading in `Package` are I/O: the directories are inputs. A file's size is the length of its contents in the abstract file system.
- The bodies of `getAddedFiles`, `getDeletedFiles`, `getModifiedFiles`, `diffMaps`, `contains` and `checkPackageMapType` are not part of this model. Their contracts come from the test tables.
- Go map iteration order is replaced by increasing key order. This affects the order of records and residues, which the tests sort away.
- Residues are not sorted by version inside a record. `sort.Sort` itself is not modelled, only `Swap` and the orderings.
- Runtime reflection in `checkPackageMapType` is replaced by the `PackageMap` variant. An `OtherMap` carries its Go type as a name.
- The `BuildLayerTargets` tests depend on the file system.
- Rendering to JSON or templates (`iDiff/utils/format_utils.go`) is left out.
- History fetching through Docker (`iDiff/differs/historyDiff.go`, `iDiff/differs/history.go`) is left out.
- The node package tests read on-disk fixtures.
- The scratch `test.go` is left out.
- AptPackages.StatusPath joins with '/' and does not model the path cleaning of `filepath.Join`.
- `bufio.Scanner`'s line splitting is not modelled: its 64 KiB token limit and its CR handling are out. The lines are given.
- `defer file.Close` is not modelled.
- `AptDiff` calls a function that does not exist.
- AptPackages.StatusFile treats any `os.Stat` failure as an absent file, as the code's `continue` does.
- ImagePrep.FileRead stands for a file read and its JSON decoding. An undecodable file is taken to decode to an empty history, and partial decodes of ill-typed JSON are not modelled.
- The glog messages are left out.
- The registry pull, `writeToTar` and `ExtractTar` are left out; the extraction error is an input.
- The `ImageToFS` preparers are left out.
- ImagePrep.GetImage takes a flag saying whether some source check accepted the reference. `GetImage`'s choice of preparer uses reflection and map order, and is not modelled.
- ImagePrep.ReferenceTail handles the single regular expression `^.+/(.+(:.+){0,1})$` only, not regular expressions in general.
- Printing, `os.Exit` and cobra wiring in `iDiff/cmd/iDiff.go` are left out.
- The bodies of `dirDiff` and `differs.History` are left out; `ImageToDir` is not part of this model.
- PackageReport.Package pairs `iDiff/differs/package.go` with the opcode `DiffDirectory` of `iDiff/utils/fs_utils.go:132-135`, although they come from different revisions: `package.go:12` and `:17` call a two-result `GetDirectory`, as `iDiff/utils/fs_utils_test.go:79` does, while `fs_utils.go:19` returns only the `Directory`, and the tests call `getAddedFiles`, `getDeletedFiles` and `getModifiedFiles`, which `fs_utils.go` does not define. The "No files to diff" finding holds for this pairing only: under the set-difference differ those tests describe, adds is nil exactly when both directories are empty (PackageReport.SetDifferNilMeansEmpty), and the nil check at `package.go:29` is then the intended rule.

## Findings

| source | as written | input that shows it | evidently intended | confidence | as-written member | corrected member |
|---|---|---|---|---|---|---|
| iDiff/differs/package.go:29 | "No files to diff" is printed whenever adds is nil, and the opcode `DiffDirectory` (`iDiff/utils/fs_utils.go:132-135`) leaves adds nil whenever nothing was added; the two files come from different revisions (see "## Left out"), so this pairing is the model's | d1 entries ["file1"], d2 entries [], opcodes [[('d',0,1,0,0)]], matches [(1,0,0)]: one deletion, and the report says "No files to diff" | report deletions and changes; "No files to diff" only when both directories are empty | medium, not executed | PackageReport.DeletionHidden | PackageReport.CorrectedReport |
| iDiff/cmd/iDiff.go:61-68 | `checkArgNum` accepts two arguments, but `Run` then reads `args[2]` | args ["img1", "img2"]: the check passes and `args[2]` is out of range | the check requires the differ argument (three arguments), as the usage line shows | high, not executed | Cmd.TwoArgumentsPanic | Cmd.RunCorrectedSafe |
