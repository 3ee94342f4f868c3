# UABEA command-line handler, modelled in Dafny

This project models the decision logic of the command-line front end of
UABEA (`UABEAvalonia/CommandLineHandler.cs`). It covers these commands:

- `batchexportbundle` and `batchimportbundle` export the entries of every
  bundle in a directory and import edited entries back;
- `applyemip` installs a mod package;
- `exportdumps` and `importdumps` dump objects whose display name matches a
  filter to text files, and import such dumps back by path id.

The filesystem is a `FileSystem` object whose `files` field maps paths to
bytes; a path exists exactly when it is a key. Its methods are the
`File.WriteAllBytes`, `File.Delete` and `File.Move` calls the handler makes.
Everything the serialisation library does is a function-typed field of
`BundleLib`, `InstallerLib` or `Saving.Writer` that the handler only calls:

- file type detection, the compression test, unpacking, the entry
  directory of a bundle and writing a bundle;
- reading a package, and patching bundles and assets files;
- writing an assets file.

Each operation is a function over values or a method over the
`FileSystem`. A method's contract ties it to a specification function, and
lemmas prove what the handler promises about those functions:

| module | what it covers |
|---|---|
| `Arguments` | splitting the command line into the main file name and the flag set |
| `Backups` | probing `<path>.bak0000` … `<path>.bak9999` |
| `Bundles` | the `.decomp` scratch file, entry export names and the import replacer list |
| `Batch` | the two directory batches, the single-bundle re-import, the export half of `exportdumps` and the candidate split of `importdumps` |
| `Installer` | the `applyemip` loop as a state machine over the filesystem |
| `DumpNames` | the dump file name, and recovering the path id with the pattern `-(?<hash>[a-f0-9]+)-(?<name>[^-]+)-(?<suffix>-?\d+)` through a leftmost, greedy scanner and `long.Parse` |
| `DataGrid` | the data-grid pass: 100-character truncation, dumping by name filter, importing by id, and the `isDumped`/`needSave` flags |
| `Saving` | grouping new-asset replacers by owning file, and writing the changed files |

## Model

| member | source | states |
|---|---|---|
| Arguments.GetMainFileName | UABEAvalonia/CommandLineHandler.cs:39-47 | the result is the first argument at index 1 or later that does not start with `-`, or `""` when there is none; `args[0]` is never looked at |
| Arguments.FirstNonFlagAt | UABEAvalonia/CommandLineHandler.cs:41-44 | when every argument from `from` up to `k` is a flag and `args[k]` is not, the scan returns `args[k]` |
| Arguments.FirstNonFlagNone | UABEAvalonia/CommandLineHandler.cs:41-46 | when only flags remain, the scan returns the empty string |
| Arguments.GetFlags | UABEAvalonia/CommandLineHandler.cs:49-58 | a string is in the result exactly when it is an argument at index 1 or later that starts with `-` |
| Strings.RemoveAll | UABEAvalonia/CommandLineHandler.cs:561 | `Replace("-", "")` leaves no `-` behind, and a string without `-` unchanged |
| Strings.RemoveAllCounts | UABEAvalonia/CommandLineHandler.cs:561 | the result is shorter by the number of `-` and keeps every other character with its multiplicity |
| Strings.RemoveAllConcat | UABEAvalonia/CommandLineHandler.cs:561 | removal distributes over concatenation, so the characters kept stay in their order |
| Strings.ToLowerAscii | UABEAvalonia/CommandLineHandler.cs:776 | lower-casing keeps the length, maps each character, and leaves no upper-case ASCII letter |
| Strings.PadLeftSpec | UABEAvalonia/CommandLineHandler.cs:96 | `PadLeft(4, '0')` puts `width - |s|` zeros before `s` and leaves longer strings alone |
| Strings.LastIndexOfIsLast | UABEAvalonia/CommandLineHandler.cs:567 | no occurrence of the character follows the index `LastIndexOf` returns |
| Strings.ContainsIff | UABEAvalonia/CommandLineHandler.cs:625 | `Contains` holds exactly when the needle occurs at some index |
| Strings.ParseNatToString | UABEAvalonia/CommandLineHandler.cs:96 | parsing the decimal text of a number gives the number back |
| Paths.GetFileName | UABEAvalonia/CommandLineHandler.cs:148 | the file name is a suffix of the path with no separator in it |
| Paths.FileNameAfterSeparator | UABEAvalonia/CommandLineHandler.cs:148 | the character before the file name, when there is one, is a separator |
| Paths.FileNameUnique | UABEAvalonia/CommandLineHandler.cs:148 | a separator-free suffix that a separator precedes, or the whole path, is the file name: the part after the last separator |
| Paths.GetDirectoryName | UABEAvalonia/CommandLineHandler.cs:548 | the directory name is no longer than the path |
| Paths.DirectoryNameSpec | UABEAvalonia/CommandLineHandler.cs:548 | the directory name is `""` without a separator, the root when the only separator before the file name is the first character, and otherwise the part that a separator joins to the file name |
| Paths.GetExtension | UABEAvalonia/CommandLineHandler.cs:704 | the extension is empty exactly when the file name has no `.` or ends with one; otherwise it is the suffix of the file name that starts with a `.` and holds no other |
| Paths.NameExtension | UABEAvalonia/CommandLineHandler.cs:704 | the extension of a file name, as characterised for GetExtension |
| Paths.ExtensionUnique | UABEAvalonia/CommandLineHandler.cs:704 | only one string meets that characterisation: the one GetExtension returns |
| Paths.FileNameOfCombine | UABEAvalonia/CommandLineHandler.cs:148 | combining a separator-free name onto a directory and taking the file name gives the name back |
| Paths.CombineInjective | UABEAvalonia/CommandLineHandler.cs:201 | two relative names combined onto one directory give the same path only if they are equal |
| Paths.JoinParts | UABEAvalonia/CommandLineHandler.cs:663 | joining a directory that does not end in `/` and a separator-free name with `/` gives back that name as the file name and that directory as the directory name |
| FileSystems.FileSystem.WriteAllBytes | UABEAvalonia/CommandLineHandler.cs:150 | the path holds the new bytes and nothing else changes |
| FileSystems.FileSystem.Move | UABEAvalonia/CommandLineHandler.cs:308-309 | the source is gone, the destination holds its bytes, and nothing else changes |
| FileSystems.FileSystem.Delete | UABEAvalonia/CommandLineHandler.cs:847 | the path is no longer a file and nothing else changes; deleting a missing file is not an error (the same call removes the scratch file at lines 156, 237, 312, 556 and 922) |
| FileSystems.WriteAllFrame | UABEAvalonia/CommandLineHandler.cs:140-151 | a sequence of writes creates each written path and leaves every other path untouched |
| FileSystems.WriteAllLookup | UABEAvalonia/CommandLineHandler.cs:140-151 | when the written paths are distinct, each one holds exactly the bytes written to it |
| Backups.BackupSuffixDigits | UABEAvalonia/CommandLineHandler.cs:96 | the suffix of a probed number is four digits that read back as that number |
| Backups.BackupNamesDistinct | UABEAvalonia/CommandLineHandler.cs:94-96 | the 10000 probed names are pairwise distinct |
| Backups.BackupNameShape | UABEAvalonia/CommandLineHandler.cs:96 | a backup name is the path followed by 8 characters, and is neither the path, `<path>.mod` nor `<path>.decomp` |
| Backups.NextBackupFromFirst | UABEAvalonia/CommandLineHandler.cs:94-100 | a chosen name is the first free candidate: it does not exist and every earlier candidate does |
| Backups.NextBackupFromNone | UABEAvalonia/CommandLineHandler.cs:94-104 | nothing is chosen exactly when every remaining candidate exists |
| Backups.NextBackupSpec | UABEAvalonia/CommandLineHandler.cs:92-105 | the name is `<path>.bak` plus the least free number padded to four digits; the result is null only when all 10000 names exist |
| Backups.NextBackupIsFree | UABEAvalonia/CommandLineHandler.cs:92-105 | a chosen name never exists yet and is one of the probed names |
| Backups.GetNextBackup | UABEAvalonia/CommandLineHandler.cs:92-105 | the probing loop returns a free probed name, or none exactly when all 10000 exist |
| Backups.NextBackup | UABEAvalonia/CommandLineHandler.cs:92-105 | the probe from `.bak0000` upward as a function: the first numbered name not in the filesystem, or none after 10000; NextBackupSpec and NextBackupIsFree state its properties |
| Bundles.DecompPath | UABEAvalonia/CommandLineHandler.cs:119-122 | the scratch file is `<file>.decomp` unless `-md` selects unpacking into memory |
| Bundles.DecompressBundle | UABEAvalonia/CommandLineHandler.cs:60-90 | the entries are read from the unpacked form; only a compressed bundle writes the scratch file, and only when one is named |
| Bundles.RemoveDecomp | UABEAvalonia/CommandLineHandler.cs:155-156 | the scratch file is deleted only when neither `-kd` nor `-md` is given and it exists |
| Bundles.ScratchFileFate | UABEAvalonia/CommandLineHandler.cs:155-156 | after decompressing and cleaning up, `<file>.decomp` is unchanged with `-md`, gone without `-md` and `-kd`, and holds the unpacked bundle with `-kd` alone when the bundle was compressed |
| Bundles.ExportNameFile | UABEAvalonia/CommandLineHandler.cs:145-148 | an exported entry's file name is `<entry>` with `-keepnames` and `<bundle file name>_<entry>` otherwise |
| Bundles.PrefixedNamesDistinct | UABEAvalonia/CommandLineHandler.cs:148 | distinct entries get distinct prefixed export names |
| Bundles.ExportEntries | UABEAvalonia/CommandLineHandler.cs:139-151 | the entries are written in directory order, each to its export name |
| Bundles.ExportedEntryHoldsData | UABEAvalonia/CommandLineHandler.cs:139-151 | without `-keepnames` and with unique entry names, each entry's export file holds that entry's bytes |
| Bundles.ImportReplacersInDirectoryOrder | UABEAvalonia/CommandLineHandler.cs:197-211 | replacers come in directory order, one for each entry whose `<dir>/<bundle>_<entry>` exists and none for the others; each has original name = new name = the entry, offset 0 and the file's length |
| Bundles.CollectReplacers | UABEAvalonia/CommandLineHandler.cs:194-211 | the loop builds exactly that replacer list, with one open stream per replacer on its matched file |
| Bundles.AllMatchedLength | UABEAvalonia/CommandLineHandler.cs:197-211 | when every entry has its match file, every entry gets a replacer |
| Bundles.AllMatchedAt | UABEAvalonia/CommandLineHandler.cs:197-211 | when every entry has its match file, the k-th replacer is entry k's |
| Bundles.AllMatched | UABEAvalonia/CommandLineHandler.cs:197-211 | when every entry has its match file, the replacers are the entries' own, in order |
| Bundles.ExportThenImport | UABEAvalonia/CommandLineHandler.cs:197-211 | exporting without `-keepnames` and then importing picks up every entry of a bundle with unique names, in order, each spanning exactly its exported bytes |
| Batch.BundleStep | UABEAvalonia/CommandLineHandler.cs:117-240 | one listed file of `batchexport` (117-159) or `batchimport` (172-240): a missing file stops the batch, a file that is not a bundle is skipped unchanged, a bundle is decompressed, its entries exported or replaced from the directory, and its scratch file removed; the lemmas below state these cases |
| Batch.RunBatch | UABEAvalonia/CommandLineHandler.cs:117-240 | the listed files handled in order from the original filesystem, each on the state the previous one left, stopping at the first missing file |
| Batch.MissingFileEndsBatch | UABEAvalonia/CommandLineHandler.cs:124-128 | a listed file that is missing when its turn comes ends the whole batch; the files after it are not touched |
| Batch.NonBundleSkipped | UABEAvalonia/CommandLineHandler.cs:130-134 | a listed file that is present but not a bundle when its turn comes leaves the run exactly as it was |
| Batch.NonBundlesSkipped | UABEAvalonia/CommandLineHandler.cs:130-134 | a listing of present files that are not bundles changes nothing and does not stop |
| Batch.ExportStepWritesEntries | UABEAvalonia/CommandLineHandler.cs:136-156 | exporting one bundle without `-keepnames` leaves each entry's bytes at `<dir>/<bundle>_<entry>` |
| Batch.BatchExportBundle | UABEAvalonia/CommandLineHandler.cs:107-160 | a missing directory changes nothing; otherwise the listed files are exported in order as the batch specification says |
| Batch.BatchImportBundle | UABEAvalonia/CommandLineHandler.cs:162-241 | a missing directory changes nothing; otherwise every listed bundle is rewritten in order with its matching entry files |
| Batch.BatchImportSingleBundle | UABEAvalonia/CommandLineHandler.cs:874-925 | a missing bundle changes nothing; otherwise the bundle is rewritten in place with its matching entry files |
| Batch.SingleImportRewrites | UABEAvalonia/CommandLineHandler.cs:918-922 | after the re-import the bundle holds the library's rewrite of its unpacked form and no scratch file is left |
| Batch.DumpFlags | UABEAvalonia/CommandLineHandler.cs:524-528 | a string is a dump flag exactly when it is an argument after the command that starts with `-` and is none of `-md`, `-keepnames`, `-kd` and `-fd` |
| Batch.StripLastExtension | UABEAvalonia/CommandLineHandler.cs:567 | the result is the text before the last `.`; there is none when the text has no `.` |
| Batch.FiltersOfSpec | UABEAvalonia/CommandLineHandler.cs:561 | the k-th filter of an enumeration is its k-th flag with every `-` removed |
| Batch.NameFilters | UABEAvalonia/CommandLineHandler.cs:559-564 | the flags are enumerated once each, in some order, and the k-th filter is the k-th flag of that order with every `-` removed |
| Batch.ExportBesideBundle | UABEAvalonia/CommandLineHandler.cs:537-567 | every entry is exported next to the bundle, the scratch file is removed, and the workspace file is the last export name cut at its last `.` |
| Batch.ExportForDumps | UABEAvalonia/CommandLineHandler.cs:521-567 | a missing bundle changes nothing; otherwise the bundle is exported and the k-th filter is the k-th dump flag of an enumeration of them all, each once, with `-` removed |
| Batch.FilterSpec | UABEAvalonia/CommandLineHandler.cs:702-711 | the collected dump files are exactly the listed siblings whose extension contains `txt` |
| Batch.LastWhereIsLast | UABEAvalonia/CommandLineHandler.cs:712-715 | the chosen assets file is the last listed sibling whose extension contains `_CAB-` (and not `txt`) |
| Batch.LastWhereNone | UABEAvalonia/CommandLineHandler.cs:712-723 | no assets file is chosen when no sibling qualifies |
| Batch.SplitDumpListing | UABEAvalonia/CommandLineHandler.cs:700-717 | the loop collects the dump files and keeps the last assets file |
| Batch.PlanDumpImport | UABEAvalonia/CommandLineHandler.cs:689-725 | a missing bundle stops the command; a bundle named without a directory stops it too, since listing the siblings of `""` throws at line 700; otherwise the pass runs only on an existing assets file chosen from the siblings, with the dump files as candidates |
| Installer.Step | UABEAvalonia/CommandLineHandler.cs:264-349 | one affected file: the backup name is chosen first, no free name or a missing target stops with the filesystem unchanged, otherwise the file is swapped; StepSwaps and StepFrame state the result |
| Installer.RunSteps | UABEAvalonia/CommandLineHandler.cs:264-350 | the install loop over the affected files in order, stopping at the first file whose step stops, with the filesystem as it was before that file |
| Installer.Install | UABEAvalonia/CommandLineHandler.cs:264-350 | the `applyemip` loop: RunSteps with the installer's own step; InstallAborts, InstallNext and EarlierFilesStaySwapped state its result |
| Installer.WrittenAt | UABEAvalonia/CommandLineHandler.cs:282-339 | decompressing and writing `.mod` change no path but the `.mod` and `.decomp` names |
| Installer.CleanupAt | UABEAvalonia/CommandLineHandler.cs:311-312 | the scratch clean-up changes no path but the scratch file |
| Installer.SwapFacts | UABEAvalonia/CommandLineHandler.cs:308-346 | the two renames put the original at the backup name and the `.mod` contents at the path, and remove `.mod` |
| Installer.SwapSpec | UABEAvalonia/CommandLineHandler.cs:269-349 | with a free backup name, the original bytes end at the backup name and the patched bytes at the path, no `.mod` is left, and only the path, `.mod`, `.decomp` and the backup change |
| Installer.StepSwaps | UABEAvalonia/CommandLineHandler.cs:264-349 | a swapped file's backup name was free and is one of its numbered backup names, and the swap facts hold for it |
| Installer.StepFrame | UABEAvalonia/CommandLineHandler.cs:264-349 | handling one file changes no path that does not start with its target |
| Installer.RunStepsAborts | UABEAvalonia/CommandLineHandler.cs:264-322 | a run that stops at file k is exactly the run over the first k files, and file k's own step reported the stop |
| Installer.InstallAborts | UABEAvalonia/CommandLineHandler.cs:273-322 | an `applyemip` run that stops at file k is exactly the run over the first k files: earlier files stay swapped, file k's `.mod` is never written, and the stop is due to no free backup name or a missing target |
| Installer.RunStepsStopsForGood | UABEAvalonia/CommandLineHandler.cs:275-322 | once the run has stopped, later affected files change nothing |
| Installer.RunStepsSegmentFrame | UABEAvalonia/CommandLineHandler.cs:264-350 | the files from m on leave a path alone when each of their steps does |
| Installer.InstallSegmentFrame | UABEAvalonia/CommandLineHandler.cs:264-350 | the files from m on leave alone every path that starts with none of their targets |
| Installer.EarlierFilesMissTarget | UABEAvalonia/CommandLineHandler.cs:264-350 | with independent targets, the files before j leave j's target as it was |
| Installer.LaterFilesMissTarget | UABEAvalonia/CommandLineHandler.cs:264-350 | with independent targets, the files after j leave every path under j's target alone |
| Installer.SwappedAfterOwnStep | UABEAvalonia/CommandLineHandler.cs:307-346 | with independent targets, right after its own step a file's original is at its backup, its patched bytes at its path, and no `.mod` is left |
| Installer.EarlierFilesStaySwapped | UABEAvalonia/CommandLineHandler.cs:307-346 | with independent targets, a swapped file stays swapped to the end of the run: original at its backup, patched bytes at its path, no `.mod` |
| Installer.RunStepsNext | UABEAvalonia/CommandLineHandler.cs:264-350 | one more affected file after an unstopped run: its step's status decides whether the run goes on or stops there |
| Installer.InstallNext | UABEAvalonia/CommandLineHandler.cs:264-350 | one more affected file extends an unstopped `applyemip` run by that file's step |
| Installer.SwapFile | UABEAvalonia/CommandLineHandler.cs:269-346 | in the source's order (decompress, write `.mod`, two renames, scratch clean-up) the filesystem ends as the swap specification says |
| Installer.InstallAffectedFile | UABEAvalonia/CommandLineHandler.cs:264-349 | handling one affected file does what the step specification says: no backup name or a missing target changes nothing, otherwise the file is swapped |
| Installer.ApplyEmip | UABEAvalonia/CommandLineHandler.cs:243-353 | a missing argument or package changes nothing; otherwise the run over the package's affected files is the specified install loop, ending complete or stopped at a file |
| DumpNames.RunEnd | UABEAvalonia/CommandLineHandler.cs:637 | a greedy character class takes the longest run of matching characters |
| DumpNames.SuffixEnd | UABEAvalonia/CommandLineHandler.cs:637 | `-?\d+` matches signed digits and stops only before a non-digit or at the end |
| DumpNames.MatchAtSound | UABEAvalonia/CommandLineHandler.cs:637-638 | a match the scanner reports at a position is a match of the pattern there, with the longest suffix |
| DumpNames.MatchAtComplete | UABEAvalonia/CommandLineHandler.cs:637-638 | the scanner misses no match at a position; it reports the same hash and name groups and a suffix at least as long |
| DumpNames.FirstMatchIsMatch | UABEAvalonia/CommandLineHandler.cs:638 | the reported match is the scanner's match at its own start |
| DumpNames.FirstMatchNoneBefore | UABEAvalonia/CommandLineHandler.cs:638 | no earlier start position has a match |
| DumpNames.FirstMatchLeftmost | UABEAvalonia/CommandLineHandler.cs:638 | the reported match is the leftmost; there is none only when no position matches |
| DumpNames.RegexFindsAMatch | UABEAvalonia/CommandLineHandler.cs:638-642 | the pattern matches somewhere exactly when a match is reported, and the reported groups satisfy the pattern |
| DumpNames.DumpFileName | UABEAvalonia/CommandLineHandler.cs:663 | the dump's file name: the assets file's directory and file name, the asset name and the path id, joined by `-` and ending `.txt`; DumpNameRoundTrip states what reading it back gives |
| DumpNames.ParseLong | UABEAvalonia/CommandLineHandler.cs:646 | a parsed id lies in the range of a `long` |
| DumpNames.ParseLongIntToString | UABEAvalonia/CommandLineHandler.cs:646 | parsing the text of a `long` gives it back |
| DumpNames.TaggedNameGroups | UABEAvalonia/CommandLineHandler.cs:637 | in `<lead>-<hash>-<name>-<suffix><rest>` the pattern's groups are the hash, the name and the suffix |
| DumpNames.RunEndPrefix | UABEAvalonia/CommandLineHandler.cs:637 | a greedy run inside a string ends where it did once a character outside the class is appended |
| DumpNames.NoMatchInLead | UABEAvalonia/CommandLineHandler.cs:637-638 | no match of the pattern starts inside a lead with inert dashes that a dash follows |
| DumpNames.NoMatchBeforeDash | UABEAvalonia/CommandLineHandler.cs:637-638 | the same, for every position of the lead |
| DumpNames.MatchAtIsGroups | UABEAvalonia/CommandLineHandler.cs:637-638 | a match with the longest suffix is what the scanner reports at its start |
| DumpNames.ExtractId | UABEAvalonia/CommandLineHandler.cs:637-646 | the id the first match's suffix carries, which always lies in the range of a `long`; there is none when nothing matches or the suffix does not parse |
| DumpNames.ExtractIdFromFirstMatch | UABEAvalonia/CommandLineHandler.cs:637-646 | a greedy match before which no position matches is the one reported |
| DumpNames.ExtractIdOfTaggedName | UABEAvalonia/CommandLineHandler.cs:637-648 | the id of `<lead>-<hash>-<name>-<id><rest>` is recovered when the lead's dashes are inert, the hash is lowercase hex, the name is non-empty without a dash, and the rest does not start with a digit |
| DumpNames.RunEndAt | UABEAvalonia/CommandLineHandler.cs:637 | a greedy run that holds up to a position and fails there ends there |
| DumpNames.OneDashInert | UABEAvalonia/CommandLineHandler.cs:637 | a lead whose only dash is followed by a non-empty hex run and then a character that is neither hex nor a dash has inert dashes |
| DumpNames.DumpNameRoundTrip | UABEAvalonia/CommandLineHandler.cs:637-663 | the id in a written dump's file name is parsed back as the object's path id when the assets file is `<stem>-<hex>`, the dashes of its directory and stem are inert (each followed by a possibly empty hex run that ends inside them at a non-dash), and the name is non-empty without a dash |
| DumpNameSample.UsageLeadIsInert | UABEAvalonia/CommandLineHandler.cs:377-381 | the lead of a dump written for the usage comment's bundle, `C:/Users/User/source/repos/UABEA-7/ReleaseFiles/modelist.bundle_CAB` (the comment's path with `/` for `\\`), has inert dashes |
| DumpNameSample.UsageLayoutRoundTrip | UABEAvalonia/CommandLineHandler.cs:377-381 | for an assets file `modelist.bundle_CAB-<hex>` beside that bundle, any dash-free name and any `long` id, the dump's file name gives the id back |
| DumpNameSample.SampleIdText | UABEAvalonia/CommandLineHandler.cs:646 | the id -5415249613762791440 prints as `-5415249613762791440` |
| DumpNameSample.SampleDumpName | UABEAvalonia/CommandLineHandler.cs:634-646 | the id extracted from the name quoted beside the pattern is -5415249613762791440 |
| DataGrid.Truncate | UABEAvalonia/CommandLineHandler.cs:596-599 | the result is a prefix of at most n characters, it is the input unchanged when that is short enough, and it is exactly n long otherwise |
| DataGrid.ItemOf | UABEAvalonia/CommandLineHandler.cs:594-613 | a row's name and type are prefixes of the display name and type of at most 100 characters; the row carries the asset's path id and file index |
| DataGrid.DumpsForSpec | UABEAvalonia/CommandLineHandler.cs:623-629 | a row is dumped exactly when some filter occurs in its shown name, and every dump is that row's |
| DataGrid.EmptyFilterHitsAll | UABEAvalonia/CommandLineHandler.cs:625 | a filter made from a flag of only dashes is empty and hits every name |
| DataGrid.ImportsForSpec | UABEAvalonia/CommandLineHandler.cs:632-655 | a candidate is imported into an asset exactly when the id extracted from its name equals the asset's path id |
| DataGrid.DumpSession.constructor | UABEAvalonia/CommandLineHandler.cs:393-396 | a pass starts with both flags false and no rows, dumps or imports |
| DataGrid.DumpSession.AddDataGridItem | UABEAvalonia/CommandLineHandler.cs:576-659 | the row is added (first for a new asset); it is dumped once per filter hit; every candidate carrying its id is imported; `isDumped` becomes true on a hit or when any candidate exists; `needSave` becomes true on an import |
| DataGrid.DumpSession.DumpMatching | UABEAvalonia/CommandLineHandler.cs:623-630 | the filter loop dumps once per filter the name contains, and sets `isDumped` exactly when one does |
| DataGrid.CollectImports | UABEAvalonia/CommandLineHandler.cs:632-655 | the candidate loop collects the candidates carrying the id, in order, each paired with it |
| DataGrid.DumpSession.ImportMatching | UABEAvalonia/CommandLineHandler.cs:632-655 | the candidate loop imports exactly the candidates carrying the id, sets `needSave` exactly when one does, and sets `isDumped` whenever a candidate exists |
| DataGrid.DumpSession.MakeDataGridItems | UABEAvalonia/CommandLineHandler.cs:483-516 | with a workspace, the rows are the assets' rows in order, and the flags and records are those of the whole pass; the names are printed when nothing was dumped, and the file is saved when something was imported |
| DataGrid.DumpSession.AddRow | UABEAvalonia/CommandLineHandler.cs:494-497 | one turn of the row loop extends every record of the pass by that asset's row |
| DataGrid.AllDumpsSpec | UABEAvalonia/CommandLineHandler.cs:623-629 | the pass dumps something exactly when some filter hits some asset's shown name |
| DataGrid.AllImportsSpec | UABEAvalonia/CommandLineHandler.cs:632-655 | the pass imports something, and so needs a save, exactly when some candidate carries some asset's path id |
| DataGrid.ExportedDumpImportedBack | UABEAvalonia/CommandLineHandler.cs:632-663 | a dump written by the pass is imported back into the same asset when its file is a candidate and the naming conditions hold |
| Saving.GroupByFileIsFilter | UABEAvalonia/CommandLineHandler.cs:767-783 | a file has a replacer list exactly when it owns some entry, and the list holds the replacers of the entries it owns, in table order |
| Saving.ReplacersForOwned | UABEAvalonia/CommandLineHandler.cs:776-782 | a file that owns an entry has a replacer |
| Saving.ReplacersForNone | UABEAvalonia/CommandLineHandler.cs:776-782 | a file that owns no entry has no replacers |
| Saving.GroupKeys | UABEAvalonia/CommandLineHandler.cs:769-783 | a loaded file gets a list exactly when some entry's lower-cased file name looks it up; unmatched entries are skipped |
| Saving.OwnerIgnoresCase | UABEAvalonia/CommandLineHandler.cs:776 | file names that are equal up to ASCII case find the same loaded file |
| Saving.GroupReplacers | UABEAvalonia/CommandLineHandler.cs:767-783 | the dictionary the loop fills is the grouping, and each list is its file's filter |
| Saving.TempPathDiffers | UABEAvalonia/CommandLineHandler.cs:831-833 | the `~<name>` file of a file named after its path is a different path |
| Saving.SaveOne | UABEAvalonia/CommandLineHandler.cs:823-859 | one changed file saved to disk: the written bytes go to `~<name>`, the original is deleted and `~<name>` renamed onto it; a failed write leaves its partial output at `~<name>`; SaveOneSpec states the outcome |
| Saving.SaveOneSpec | UABEAvalonia/CommandLineHandler.cs:823-859 | a successful write replaces the original with the new bytes and leaves no `~` file; a failed write leaves the original and the partial `~` file; nothing else changes |
| Saving.SaveOneFrame | UABEAvalonia/CommandLineHandler.cs:831-848 | saving a file touches only its path and its `~` path |
| Saving.SaveDisk | UABEAvalonia/CommandLineHandler.cs:817-860 | the changed files saved in order, each on the filesystem the previous save left, recording the position of each file that was replaced; a failure does not stop the rest |
| Saving.SaveDiskIds | UABEAvalonia/CommandLineHandler.cs:817-860 | the ids recorded as replaced are exactly the changed files whose write succeeds, in order |
| Saving.SaveDiskFrame | UABEAvalonia/CommandLineHandler.cs:817-860 | the disk branch leaves alone every path that is neither a changed file nor its `~` file |
| Saving.SaveChangedFile | UABEAvalonia/CommandLineHandler.cs:823-859 | saving one file does what the step specification says: write `~<name>`, delete the original, rename |
| Saving.SaveAssetsFile | UABEAvalonia/CommandLineHandler.cs:765-871 | the replacers are grouped, and the save is the specified disk loop over the changed files, returning the ids of the files replaced |

## Left out

- Real I/O is not modelled: streams, console output, `PrintHelp`, and the
  dispatch in `CLHMain`. Files are a map from path to bytes, and directories
  are a set of paths.
- Library calls never fail. Each is a total function, so the exceptions they
  can throw are not modelled: `bun.Write` throwing after `File.Open` has
  created the `.mod` file (lines 300-302), which leaves a partial `.mod` and
  ends `applyemip`; a corrupt bundle ending a batch in `DecompressBundle` when it
  is read or unpacked (lines 67 and 77); and `LoadAssetsFile` failing (lines
  412 and 423). Filesystem calls never fail either: `FileSystem.WriteAllBytes`
  writes even when the parent directory is not in `dirs` (an entry name that
  contains `/`, say), where `File.WriteAllBytes` and `File.Open` throw, and
  `Delete` and `Move` cannot fail for want of permission or because a file is
  in use. Only the assets writer of `SaveAssetsFile` can fail, through
  `Saving.Writer`'s `WriteFailed` result.
- The library is opaque. Bundle reading, unpacking and writing,
  `FileTypeDetector`, `BundleHelper`, installer-package parsing and assets
  writing are uninterpreted functions passed in as parameters. The offset and
  length of a `BundleReplacerFromStream` are recorded as values; no stream is
  read.
- Only `/` is a separator in paths, and `Path.Combine` honours a rooted second
  part. The .NET handling of `\`, drive letters and invalid characters is not
  modelled.
- GetDirectoryName: returns `""` for a path without a separator and `/` for
  the root itself, where .NET returns `null` for `""` and for the root; it
  keeps repeated separators (`a//b` gives `a/`), where .NET collapses them.
  The handler never passes such paths on a successful run.
- Existence tests are membership in the `files` and `dirs` maps. `File.Exists`
  and `Directory.Exists` are false for the empty path; the model matches that
  only for filesystems that hold nothing at `""`, which no real one does, and
  does not enforce it.
- Directory listings are not computed. `Directory.EnumerateFiles` and
  `Directory.GetFiles` with the `<file>_CAB-*` glob become a `listing`
  parameter in enumeration order.
- String operations are ordinal. `ToLower` only lower-cases ASCII letters,
  and `\d` only matches ASCII digits.
- DumpNames.ParseLong: a suffix outside the `long` range gives no id, where
  `long.Parse` throws and ends the process.
- Installer.ApplyEmip: a missing `args[2]` gives `ArgumentMissing`, and a
  missing target gives `TargetMissing`. The handler throws in both cases,
  and the run stops before that file's `.mod` is written either way.
- Batch.ExportForDumps: requires two arguments, which `CLHMain` guarantees.
  When the bundle has no entries, or the last export name has no `.`, the
  workspace file is `None` where `Substring` throws.
- Workspace loading is not part of this model. That covers
  `PrepareWorkspace`, `LoadOrAskTypeData`, `SetupContainers` and
  `UnityContainer` resolution, and also `AssetNameUtils.GetDisplayNameFast`.
  Assets arrive as values with their display name, type, path id and file.
- Dump text and JSON writing and reading are not modelled
  (`SingleExportDump`'s body, `SingleImportDump`). The dumps written and
  imported are recorded in `DumpSession.dumped` and `DumpSession.imported`.
  No file is created for them.
- `HashSet` enumeration order is unspecified, so `Batch.NameFilters` takes
  the flags in a nondeterministic order, which it reports as a ghost
  enumeration. The same holds for the order of the
  workspace's asset and new-asset dictionaries, which are sequences in
  enumeration order.
- The `ObservableCollection` is a sequence of rows. Its UI updates, and the
  `SetNewFile` pass after saving (lines 862-869), are not modelled.
- SaveAssetsFile does not model the bundle branch (lines 786-814). The
  handler builds its workspace with `fromBundle` false (line 421), so the
  branch is unreachable; it would also throw at line 788, because
  `ChangedAssetsDatas` (line 400) is never assigned.
- SaveAssetsFile does not model the re-open of the saved file (lines
  849-851). `LoadedFiles.IndexOf(file)` is the file's position, because
  changed files are given as positions. `File.Open` failing before any byte
  is written is not modelled separately from a failed write.
- Saving.SaveDiskIds and Saving.TempPathDiffers assume each loaded file is
  named after its path, as the library's loader names it. Without that, a
  `~` file can coincide with the original and the rename fails; SaveOne
  models that failure.
- Installer.EarlierFilesStaySwapped assumes no target is a prefix of
  another. Without that, a later file's backup, `.mod` or `.decomp` name can
  overwrite an earlier file's.
