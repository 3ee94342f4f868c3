/**
 * The batch commands over a directory (`batchexportbundle`,
 * `batchimportbundle`), the single-bundle re-import that ends `importdumps`,
 * and the export half of `exportdumps`. The directory listing is given as a
 * sequence: its order is the order the filesystem enumerates in.
 */
module Batch {
  import opened Options
  import opened Strings
  import opened Paths
  import opened FileSystems
  import opened Arguments
  import opened Bundles

  datatype Mode = Export | Import

  /** The filesystem during a batch, and whether a missing member has ended it. */
  datatype BatchState = BatchState(files: Files, stopped: bool)

  /**
   * One listed file: a missing file ends the batch, a file that is not a
   * bundle is skipped, and a bundle is decompressed, exported or re-imported
   * and its scratch file cleaned up.
   */
  function BundleStep(mode: Mode, lib: BundleLib, dir: Path, flags: set<string>, files: Files, file: Path): BatchState {
    if file !in files then BatchState(files, true)
    else if !lib.isBundle(files[file]) then BatchState(files, false)
    else
      var decomp := DecompPath(file, "-md" in flags);
      var unpackedFiles := AfterDecompress(lib, files, file, decomp);
      var data := Unpacked(lib, files[file]);
      var entries := lib.directory(data);
      var written :=
        match mode
        case Export => WriteAll(unpackedFiles, ExportOuts(dir, file, entries, "-keepnames" in flags))
        case Import =>
          var reps := ImportReplacers(unpackedFiles, dir, file, Names(entries));
          unpackedFiles[file := lib.write(data, reps, unpackedFiles)];
      BatchState(CleanupDecomp(flags, decomp, written), false)
  }

  /** The state after handling the listed files in order. */
  function RunBatch(mode: Mode, lib: BundleLib, dir: Path, flags: set<string>, files: Files, listing: seq<Path>): BatchState
    decreases |listing|
  {
    if listing == [] then BatchState(files, false)
    else
      var prev := RunBatch(mode, lib, dir, flags, files, listing[..|listing| - 1]);
      if prev.stopped then prev else BundleStep(mode, lib, dir, flags, prev.files, listing[|listing| - 1])
  }

  /** A listed file that is missing when its turn comes ends the whole batch: nothing after it is touched. */
  lemma {:induction false} MissingFileEndsBatch(mode: Mode, lib: BundleLib, dir: Path, flags: set<string>, files: Files, listing: seq<Path>, k: nat)
    requires k < |listing|
    requires var prev := RunBatch(mode, lib, dir, flags, files, listing[..k]);
      !prev.stopped && listing[k] !in prev.files
    ensures RunBatch(mode, lib, dir, flags, files, listing) ==
              BatchState(RunBatch(mode, lib, dir, flags, files, listing[..k]).files, true)
    decreases |listing|
  {
    if k < |listing| - 1 {
      var init := listing[..|listing| - 1];
      assert init[..k] == listing[..k];
      MissingFileEndsBatch(mode, lib, dir, flags, files, init, k);
    } else {
      assert listing[..|listing| - 1] == listing[..k];
    }
  }

  /** A listed file that is present but not a bundle when its turn comes is skipped: the run goes on unchanged. */
  lemma NonBundleSkipped(mode: Mode, lib: BundleLib, dir: Path, flags: set<string>, files: Files, listing: seq<Path>, k: nat)
    requires k < |listing|
    requires var prev := RunBatch(mode, lib, dir, flags, files, listing[..k]);
      !prev.stopped && listing[k] in prev.files && !lib.isBundle(prev.files[listing[k]])
    ensures RunBatch(mode, lib, dir, flags, files, listing[..k + 1]) == RunBatch(mode, lib, dir, flags, files, listing[..k])
  {
    assert listing[..k + 1][..k] == listing[..k];
  }

  /** Files that are not bundles are skipped: a listing of present non-bundles changes nothing and does not stop. */
  lemma {:induction false} NonBundlesSkipped(mode: Mode, lib: BundleLib, dir: Path, flags: set<string>, files: Files, listing: seq<Path>)
    requires forall i :: 0 <= i < |listing| ==> listing[i] in files && !lib.isBundle(files[listing[i]])
    ensures RunBatch(mode, lib, dir, flags, files, listing) == BatchState(files, false)
    decreases |listing|
  {
    if listing != [] {
      NonBundlesSkipped(mode, lib, dir, flags, files, listing[..|listing| - 1]);
    }
  }

  /**
   * Exporting one bundle without `-keepnames`: each entry (names unique,
   * none equal to the scratch file's name) ends up in
   * `<dir>/<bundle>_<entry>` with its own bytes.
   */
  lemma ExportStepWritesEntries(lib: BundleLib, dir: Path, flags: set<string>, files: Files, file: Path, i: nat)
    requires file in files && lib.isBundle(files[file]) && "-keepnames" !in flags
    requires var entries := lib.directory(Unpacked(lib, files[file]));
      UniqueNames(entries) && i < |entries| &&
      forall j :: 0 <= j < |entries| ==> PrefixedName(dir, file, entries[j].name) != file + ".decomp"
    ensures var entries := lib.directory(Unpacked(lib, files[file]));
      var after := BundleStep(Export, lib, dir, flags, files, file);
      var out := PrefixedName(dir, file, entries[i].name);
      !after.stopped && out in after.files && after.files[out] == entries[i].data
  {
    var decomp := DecompPath(file, "-md" in flags);
    var entries := lib.directory(Unpacked(lib, files[file]));
    ExportedEntryHoldsData(AfterDecompress(lib, files, file, decomp), dir, file, entries, i);
  }

  datatype BatchResult = DirectoryMissing | Ran(stopped: bool)

  /** `BatchExportBundle`: exports every entry of every bundle in the directory named on the command line. */
  method BatchExportBundle(fs: FileSystem, lib: BundleLib, args: seq<string>, listing: seq<Path>) returns (result: BatchResult)
    modifies fs
    ensures fs.dirs == old(fs.dirs)
    ensures MainFileName(args) !in old(fs.dirs) ==> result == DirectoryMissing && fs.files == old(fs.files)
    ensures MainFileName(args) in old(fs.dirs) ==>
              var s := RunBatch(Export, lib, MainFileName(args), Flags(args), old(fs.files), listing);
              result == Ran(s.stopped) && fs.files == s.files
  {
    var exportDirectory := GetMainFileName(args);
    if exportDirectory !in fs.dirs {
      return DirectoryMissing;
    }
    var flags := GetFlags(args);
    for i := 0 to |listing|
      invariant RunBatch(Export, lib, exportDirectory, flags, old(fs.files), listing[..i]) == BatchState(fs.files, false)
      invariant fs.dirs == old(fs.dirs)
    {
      var file := listing[i];
      assert listing[..i + 1][..i] == listing[..i];
      var decompFile := DecompPath(file, "-md" in flags);
      if file !in fs.files {
        MissingFileEndsBatch(Export, lib, exportDirectory, flags, old(fs.files), listing, i);
        return Ran(true);
      }
      if !lib.isBundle(fs.files[file]) {
        continue;
      }
      var data := DecompressBundle(fs, lib, file, decompFile);
      var entries := lib.directory(data);
      ExportEntries(fs, exportDirectory, file, entries, "-keepnames" in flags);
      RemoveDecomp(fs, flags, decompFile);
    }
    assert listing[..|listing|] == listing;
    return Ran(false);
  }

  /** `BatchImportBundle`: rewrites every bundle in the directory with the matching `<bundle>_<entry>` files. */
  method BatchImportBundle(fs: FileSystem, lib: BundleLib, args: seq<string>, listing: seq<Path>) returns (result: BatchResult)
    modifies fs
    ensures fs.dirs == old(fs.dirs)
    ensures MainFileName(args) !in old(fs.dirs) ==> result == DirectoryMissing && fs.files == old(fs.files)
    ensures MainFileName(args) in old(fs.dirs) ==>
              var s := RunBatch(Import, lib, MainFileName(args), Flags(args), old(fs.files), listing);
              result == Ran(s.stopped) && fs.files == s.files
  {
    var importDirectory := GetMainFileName(args);
    if importDirectory !in fs.dirs {
      return DirectoryMissing;
    }
    var flags := GetFlags(args);
    for i := 0 to |listing|
      invariant RunBatch(Import, lib, importDirectory, flags, old(fs.files), listing[..i]) == BatchState(fs.files, false)
      invariant fs.dirs == old(fs.dirs)
    {
      var file := listing[i];
      assert listing[..i + 1][..i] == listing[..i];
      var decompFile := DecompPath(file, "-md" in flags);
      if file !in fs.files {
        MissingFileEndsBatch(Import, lib, importDirectory, flags, old(fs.files), listing, i);
        return Ran(true);
      }
      if !lib.isBundle(fs.files[file]) {
        continue;
      }
      var data := DecompressBundle(fs, lib, file, decompFile);
      var entries := lib.directory(data);
      var reps, streams := CollectReplacers(fs.files, importDirectory, file, entries);
      var written := lib.write(data, reps, fs.files);
      fs.WriteAllBytes(file, written);
      RemoveDecomp(fs, flags, decompFile);
    }
    assert listing[..|listing|] == listing;
    return Ran(false);
  }

  /**
   * The filesystem after `BatchImportSingleBundle` on a present file: the
   * entries are matched next to the bundle, the bundle is rewritten, and its
   * scratch file is always removed.
   */
  function SingleImport(lib: BundleLib, files: Files, file: Path): Files
    requires file in files
  {
    var decomp := Some(file + ".decomp");
    var unpackedFiles := AfterDecompress(lib, files, file, decomp);
    var data := Unpacked(lib, files[file]);
    var reps := ImportReplacers(unpackedFiles, GetDirectoryName(file), file, Names(lib.directory(data)));
    unpackedFiles[file := lib.write(data, reps, unpackedFiles)] - {file + ".decomp"}
  }

  /** `BatchImportSingleBundle`: a missing bundle changes nothing; otherwise it is rewritten in place. */
  method BatchImportSingleBundle(fs: FileSystem, lib: BundleLib, file: Path) returns (done: bool)
    modifies fs
    ensures fs.dirs == old(fs.dirs)
    ensures done <==> file in old(fs.files)
    ensures !done ==> fs.files == old(fs.files)
    ensures done ==> fs.files == SingleImport(lib, old(fs.files), file)
  {
    if file !in fs.files {
      return false;
    }
    var decompFile := file + ".decomp";
    var data := DecompressBundle(fs, lib, file, Some(decompFile));
    var entries := lib.directory(data);
    var reps, streams := CollectReplacers(fs.files, GetDirectoryName(file), file, entries);
    var written := lib.write(data, reps, fs.files);
    fs.WriteAllBytes(file, written);
    ghost var rewritten := fs.files;
    if decompFile in fs.files {
      fs.Delete(decompFile);
    } else {
      assert rewritten - {decompFile} == rewritten;
    }
    assert fs.files == rewritten - {decompFile};
    return true;
  }

  /** The re-imported bundle keeps no scratch file and is the library's rewrite of its unpacked form. */
  lemma SingleImportRewrites(lib: BundleLib, files: Files, file: Path)
    requires file in files
    ensures var after := SingleImport(lib, files, file);
      var data := Unpacked(lib, files[file]);
      var unpackedFiles := AfterDecompress(lib, files, file, Some(file + ".decomp"));
      && file + ".decomp" !in after
      && file in after
      && after[file] == lib.write(data, ImportReplacers(unpackedFiles, GetDirectoryName(file), file, Names(lib.directory(data))), unpackedFiles)
  {
    assert file != file + ".decomp" by {
      assert |file| != |file + ".decomp"|;
    }
  }

  // The export half of `exportdumps`

  /** The flags of `exportdumps` that are dump filters: all but `-md`, `-keepnames`, `-kd` and `-fd`. */
  function DumpFlags(args: seq<string>): (r: set<string>)
    ensures forall f :: f in r <==>
      && (exists i :: 1 <= i < |args| && args[i] == f)
      && IsFlag(f) && f != "-md" && f != "-keepnames" && f != "-kd" && f != "-fd"
  {
    Flags(args) - {"-md", "-keepnames", "-kd", "-fd"}
  }

  /** `outName.Substring(0, outName.LastIndexOf('.'))`: `None` where that call would throw. */
  function StripLastExtension(s: string): (r: Option<string>)
    ensures r.None? <==> '.' !in s
    ensures r.Some? ==> |r.value| < |s| && s[|r.value|] == '.' && r.value == s[..|r.value|]
    ensures r.Some? ==> '.' !in s[|r.value| + 1..]
  {
    LastIndexOfIsLast(s, '.');
    var k := LastIndexOf(s, '.');
    if k < 0 then None else Some(s[..k])
  }

  /** The filesystem after the export half of `exportdumps` on a present bundle. */
  function DumpExportFiles(lib: BundleLib, files: Files, file: Path): Files
    requires file in files
  {
    var decomp := Some(file + ".decomp");
    var entries := lib.directory(Unpacked(lib, files[file]));
    WriteAll(AfterDecompress(lib, files, file, decomp), ExportOuts(GetDirectoryName(file), file, entries, false))
      - {file + ".decomp"}
  }

  /** The file the workspace is loaded from: the last exported entry's name up to its last `.`. */
  function WorkspaceFile(lib: BundleLib, files: Files, file: Path): Option<Path>
    requires file in files
  {
    var entries := lib.directory(Unpacked(lib, files[file]));
    var outName := if entries == [] then "" else PrefixedName(GetDirectoryName(file), file, entries[|entries| - 1].name);
    StripLastExtension(outName)
  }

  datatype DumpExportResult = BundleMissing | Exported(filters: seq<string>, workspaceFile: Option<Path>)

  /** The name filters of the flags enumerated in `order`: each with its `-` characters removed. */
  function FiltersOf(order: seq<string>): (r: seq<string>)
    ensures |r| == |order|
    decreases |order|
  {
    if order == [] then [] else FiltersOf(order[..|order| - 1]) + [RemoveAll(order[|order| - 1], '-')]
  }

  /** Each filter is its flag without `-`. */
  lemma {:induction false} FiltersOfSpec(order: seq<string>)
    ensures forall k :: 0 <= k < |order| ==> FiltersOf(order)[k] == RemoveAll(order[k], '-')
    decreases |order|
  {
    if order != [] {
      FiltersOfSpec(order[..|order| - 1]);
    }
  }

  /**
   * One name filter per flag, with its `-` characters removed, in the set's
   * enumeration order: `order` is that enumeration, each flag once.
   */
  method NameFilters(flags: set<string>) returns (filters: seq<string>, ghost order: seq<string>)
    ensures |order| == |flags| && forall f :: f in order <==> f in flags
    ensures forall k, l :: 0 <= k < l < |order| ==> order[k] != order[l]
    ensures |filters| == |order| && forall k :: 0 <= k < |order| ==> filters[k] == RemoveAll(order[k], '-')
  {
    filters, order := [], [];
    var rest := flags;
    while rest != {}
      invariant rest <= flags
      invariant forall f :: f in order <==> f in flags - rest
      invariant forall k, l :: 0 <= k < l < |order| ==> order[k] != order[l]
      invariant |order| + |rest| == |flags|
      invariant filters == FiltersOf(order)
      decreases |rest|
    {
      var flag :| flag in rest;
      assert flag !in order;
      assert (order + [flag])[..|order|] == order;
      filters := filters + [RemoveAll(flag, '-')];
      order := order + [flag];
      rest := rest - {flag};
    }
    assert flags - rest == flags;
    FiltersOfSpec(order);
  }

  /** Exports every entry of a present bundle next to it and removes its scratch file. */
  method ExportBesideBundle(fs: FileSystem, lib: BundleLib, file: Path) returns (workspaceFile: Option<Path>)
    requires file in fs.files
    modifies fs
    ensures fs.dirs == old(fs.dirs)
    ensures fs.files == DumpExportFiles(lib, old(fs.files), file)
    ensures workspaceFile == WorkspaceFile(lib, old(fs.files), file)
  {
    var decompFile := file + ".decomp";
    var data := DecompressBundle(fs, lib, file, Some(decompFile));
    var entries := lib.directory(data);
    var dir := GetDirectoryName(file);
    ExportEntries(fs, dir, file, entries, false);
    var outName := if entries == [] then "" else PrefixedName(dir, file, entries[|entries| - 1].name);
    ghost var exported := fs.files;
    assert exported == WriteAll(AfterDecompress(lib, old(fs.files), file, Some(decompFile)), ExportOuts(dir, file, entries, false));
    assert StripLastExtension(outName) == WorkspaceFile(lib, old(fs.files), file);
    if decompFile in fs.files {
      fs.Delete(decompFile);
    } else {
      assert exported - {decompFile} == exported;
    }
    workspaceFile := StripLastExtension(outName);
  }

  /**
   * `BatchExportAndDumpByName` up to loading the workspace: exports every
   * entry next to the bundle, removes the scratch file, and turns each
   * remaining flag (in the set's enumeration order, which is not specified)
   * into a name filter with its `-` characters removed.
   */
  method ExportForDumps(fs: FileSystem, lib: BundleLib, args: seq<string>) returns (result: DumpExportResult, ghost order: seq<string>)
    requires |args| >= 2
    modifies fs
    ensures fs.dirs == old(fs.dirs)
    ensures args[1] !in old(fs.files) ==> result == BundleMissing && fs.files == old(fs.files)
    ensures args[1] in old(fs.files) ==>
              && result.Exported?
              && fs.files == DumpExportFiles(lib, old(fs.files), args[1])
              && result.workspaceFile == WorkspaceFile(lib, old(fs.files), args[1])
              && |order| == |DumpFlags(args)| && (forall f :: f in order <==> f in DumpFlags(args))
              && (forall k, l :: 0 <= k < l < |order| ==> order[k] != order[l])
              && |result.filters| == |order|
              && forall k :: 0 <= k < |order| ==> result.filters[k] == RemoveAll(order[k], '-')
  {
    var flags := GetFlags(args);
    flags := flags - {"-md", "-keepnames", "-kd", "-fd"};
    assert flags == DumpFlags(args);
    var file := args[1];
    if file !in fs.files {
      return BundleMissing, [];
    }
    var workspaceFile := ExportBesideBundle(fs, lib, file);
    var filters;
    filters, order := NameFilters(flags);
    return Exported(filters, workspaceFile), order;
  }

  // The candidate split of `importdumps`

  /** A listed sibling whose extension contains `txt` is a dump to import. */
  predicate IsDumpText(f: Path) {
    Contains(GetExtension(f), "txt")
  }

  /** Otherwise, a sibling whose extension contains `_CAB-` is the assets file to load. */
  predicate IsCabFile(f: Path) {
    !IsDumpText(f) && Contains(GetExtension(f), "_CAB-")
  }

  /** The listed paths that pass `keep`, in listing order. */
  function Filter(listing: seq<Path>, keep: Path -> bool): seq<Path>
    decreases |listing|
  {
    if listing == [] then []
    else
      var f := listing[|listing| - 1];
      Filter(listing[..|listing| - 1], keep) + (if keep(f) then [f] else [])
  }

  /** The last listed path that passes `pick`, or the empty string. */
  function LastWhere(listing: seq<Path>, pick: Path -> bool): Path
    decreases |listing|
  {
    if listing == [] then ""
    else if pick(listing[|listing| - 1]) then listing[|listing| - 1]
    else LastWhere(listing[..|listing| - 1], pick)
  }

  /** The dump files among the listed siblings. */
  function DumpCandidates(listing: seq<Path>): seq<Path> {
    Filter(listing, IsDumpText)
  }

  /** The assets file among the listed siblings. */
  function CabFile(listing: seq<Path>): Path {
    LastWhere(listing, IsCabFile)
  }

  /** The filter keeps exactly the listed paths that pass, and no more than were listed. */
  lemma {:induction false} FilterSpec(listing: seq<Path>, keep: Path -> bool)
    ensures |Filter(listing, keep)| <= |listing|
    ensures forall f :: f in Filter(listing, keep) <==> f in listing && keep(f)
    decreases |listing|
  {
    if listing != [] {
      var init := listing[..|listing| - 1];
      FilterSpec(init, keep);
      assert listing == init + [listing[|listing| - 1]];
    }
  }

  /** A path found by `LastWhere` passes and is the last listed one that does; `k` is its position. */
  lemma {:induction false} LastWhereIsLast(listing: seq<Path>, pick: Path -> bool) returns (k: nat)
    requires LastWhere(listing, pick) != ""
    ensures k < |listing| && listing[k] == LastWhere(listing, pick) && pick(listing[k])
    ensures forall j :: k < j < |listing| ==> !pick(listing[j])
    decreases |listing|
  {
    var init := listing[..|listing| - 1];
    if pick(listing[|listing| - 1]) {
      k := |listing| - 1;
    } else {
      k := LastWhereIsLast(init, pick);
      assert listing[k] == init[k];
    }
  }

  /** `LastWhere` finds nothing when no listed path passes. */
  lemma {:induction false} LastWhereNone(listing: seq<Path>, pick: Path -> bool)
    requires forall j :: 0 <= j < |listing| ==> !pick(listing[j])
    ensures LastWhere(listing, pick) == ""
    decreases |listing|
  {
    if listing != [] {
      var init := listing[..|listing| - 1];
      assert forall j :: 0 <= j < |init| ==> init[j] == listing[j];
      LastWhereNone(init, pick);
    }
  }

  /** The loop over the listed siblings: dump files are collected, and the last assets file is kept. */
  method SplitDumpListing(listing: seq<Path>) returns (allTxt: seq<Path>, fileCAB: Path)
    ensures allTxt == DumpCandidates(listing) && fileCAB == CabFile(listing)
  {
    allTxt, fileCAB := [], "";
    for i := 0 to |listing|
      invariant allTxt == DumpCandidates(listing[..i]) && fileCAB == CabFile(listing[..i])
    {
      assert listing[..i + 1][..i] == listing[..i];
      assert listing[..i + 1][i] == listing[i];
      var ext := GetExtension(listing[i]);
      if Contains(ext, "txt") {
        allTxt := allTxt + [listing[i]];
      } else if Contains(ext, "_CAB-") {
        fileCAB := listing[i];
      }
    }
    assert listing[..|listing|] == listing;
  }

  /**
   * How `importdumps` proceeds: the bundle is missing, the listing call
   * throws, there is no assets file to load, or the pass runs.
   */
  datatype DumpImportPlan = FileMissing | NoListing | NothingToImport(allTxt: seq<Path>)
                          | ImportInto(file: Path, allTxt: seq<Path>, fileCAB: Path)

  /**
   * `BatchImportDumpToBundle` up to loading the workspace: `listing` is the
   * directory's `<file>_CAB-*` siblings. A bundle named without a directory
   * gives `Directory.GetFiles` an empty path, which throws and ends the
   * command. Otherwise the dump files are collected, and the pass runs on
   * the last assets file among them, which must exist.
   */
  method PlanDumpImport(files: Files, args: seq<string>, listing: seq<Path>) returns (plan: DumpImportPlan)
    ensures MainFileName(args) !in files <==> plan.FileMissing?
    ensures MainFileName(args) in files && GetDirectoryName(MainFileName(args)) == "" <==> plan.NoListing?
    ensures plan.NothingToImport? || plan.ImportInto? ==> plan.allTxt == DumpCandidates(listing)
    ensures plan.ImportInto? ==>
              && plan.file == MainFileName(args) && plan.fileCAB in files && plan.fileCAB in listing
              && IsCabFile(plan.fileCAB) && plan.fileCAB == CabFile(listing)
    ensures plan.NothingToImport? ==> CabFile(listing) == "" || CabFile(listing) !in files
  {
    var file := GetMainFileName(args);
    if file !in files {
      return FileMissing;
    }
    if GetDirectoryName(file) == "" {
      return NoListing;
    }
    var allTxt, fileCAB := SplitDumpListing(listing);
    if fileCAB == "" || fileCAB !in files {
      return NothingToImport(allTxt);
    }
    var k := LastWhereIsLast(listing, IsCabFile);
    return ImportInto(file, allTxt, fileCAB);
  }
}
