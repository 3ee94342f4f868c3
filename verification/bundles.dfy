/**
 * Bundle-level decisions shared by the batch commands, the dump commands and
 * the installer: decompression into a `.decomp` scratch file and its
 * clean-up, the names exported entries get, and the stream replacers built
 * when edited entries are imported back.
 */
module Bundles {
  import opened Options
  import opened Strings
  import opened Paths
  import opened FileSystems

  /** One directory entry of an uncompressed bundle, with the bytes it holds. */
  datatype Entry = Entry(name: string, data: Bytes)

  /**
   * A `BundleReplacerFromStream`: the entry `originalName` is rewritten as
   * `newName` with `length` bytes read from offset `offset` of the file at
   * `source`.
   */
  datatype BundleReplacer = FromStream(
    originalName: string, newName: string, hasSerializedData: bool,
    source: Path, offset: nat, length: nat)

  /**
   * The bundle services of the serialisation library, which the handler only
   * calls: file type detection, the compression test on the header,
   * unpacking, the entry directory of an uncompressed bundle (names and
   * payloads), and writing a bundle with replacers whose streams are read
   * from the filesystem.
   */
  datatype BundleLib = BundleLib(
    isBundle: Bytes -> bool,
    compressed: Bytes -> bool,
    unpack: Bytes -> Bytes,
    directory: Bytes -> seq<Entry>,
    write: (Bytes, seq<BundleReplacer>, Files) -> Bytes)

  /** The uncompressed form `DecompressBundle` reads entries from. */
  function Unpacked(lib: BundleLib, raw: Bytes): Bytes {
    if lib.compressed(raw) then lib.unpack(raw) else raw
  }

  /** The scratch file for `file`: `<file>.decomp`, or none when unpacking into memory. */
  function DecompPath(file: Path, inMemory: bool): (r: Option<Path>)
    ensures r.Some? <==> !inMemory
    ensures r.Some? ==> |r.value| == |file| + 7 && StartsWith(r.value, file)
  {
    if inMemory then None else Some(file + ".decomp")
  }

  /** The filesystem after `DecompressBundle`: only a compressed bundle writes its scratch file. */
  function AfterDecompress(lib: BundleLib, files: Files, file: Path, decomp: Option<Path>): Files
    requires file in files
  {
    if lib.compressed(files[file]) && decomp.Some? then files[decomp.value := lib.unpack(files[file])]
    else files
  }

  /** `DecompressBundle`: reads the bundle and, when it is compressed, unpacks it (into the scratch file if one is named). */
  method DecompressBundle(fs: FileSystem, lib: BundleLib, file: Path, decomp: Option<Path>) returns (data: Bytes)
    requires file in fs.files
    modifies fs
    ensures data == Unpacked(lib, old(fs.files)[file])
    ensures fs.files == AfterDecompress(lib, old(fs.files), file, decomp) && fs.dirs == old(fs.dirs)
  {
    data := fs.files[file];
    if lib.compressed(data) {
      var unpacked := lib.unpack(data);
      if decomp.Some? {
        fs.WriteAllBytes(decomp.value, unpacked);
      }
      data := unpacked;
    }
  }

  /** The scratch file is deleted unless `-kd` or `-md` is given, and only when it exists. */
  predicate DeletesDecomp(flags: set<string>, decomp: Option<Path>, files: Files) {
    "-kd" !in flags && "-md" !in flags && decomp.Some? && decomp.value in files
  }

  function CleanupDecomp(flags: set<string>, decomp: Option<Path>, files: Files): Files {
    if DeletesDecomp(flags, decomp, files) then files - {decomp.value} else files
  }

  method RemoveDecomp(fs: FileSystem, flags: set<string>, decomp: Option<Path>)
    modifies fs
    ensures fs.files == CleanupDecomp(flags, decomp, old(fs.files)) && fs.dirs == old(fs.dirs)
  {
    if "-kd" !in flags && "-md" !in flags && decomp.Some? && decomp.value in fs.files {
      fs.Delete(decomp.value);
    }
  }

  /**
   * What becomes of `<file>.decomp` once a bundle has been decompressed and
   * cleaned up: with `-md` it is left as it was; without `-md` and `-kd` it
   * is gone; with `-kd` alone it holds the unpacked bundle when the bundle was
   * compressed and is otherwise left as it was.
   */
  lemma ScratchFileFate(lib: BundleLib, flags: set<string>, files: Files, file: Path)
    requires file in files
    ensures var d := file + ".decomp";
      var decomp := DecompPath(file, "-md" in flags);
      var after := CleanupDecomp(flags, decomp, AfterDecompress(lib, files, file, decomp));
      && ("-md" in flags ==> (d in after <==> d in files) && (d in files ==> after[d] == files[d]))
      && ("-md" !in flags && "-kd" !in flags ==> d !in after)
      && ("-md" !in flags && "-kd" in flags ==>
            (d in after <==> d in files || lib.compressed(files[file])) &&
            (lib.compressed(files[file]) ==> after[d] == lib.unpack(files[file])) &&
            (!lib.compressed(files[file]) && d in files ==> after[d] == files[d]))
  {
  }

  // Entry names

  /** `<dir>/<bundle file name>_<entry>`: the name batch export writes and batch import looks for. */
  function PrefixedName(dir: Path, bundleFile: Path, entry: string): Path {
    Combine(dir, GetFileName(bundleFile) + "_" + entry)
  }

  /** The exported file of an entry: `<dir>/<entry>` with `-keepnames`, else the prefixed name. */
  function ExportName(dir: Path, bundleFile: Path, entry: string, keepNames: bool): Path {
    if keepNames then Combine(dir, entry) else PrefixedName(dir, bundleFile, entry)
  }

  /** The file name of an exported entry is the entry name, or the bundle's file name, `_` and the entry name. */
  lemma ExportNameFile(dir: Path, bundleFile: Path, entry: string, keepNames: bool)
    requires entry != "" && '/' !in entry
    ensures GetFileName(ExportName(dir, bundleFile, entry, keepNames)) ==
              if keepNames then entry else GetFileName(bundleFile) + "_" + entry
  {
    var prefixed := GetFileName(bundleFile) + "_" + entry;
    assert '/' !in prefixed by {
      assert forall i :: 0 <= i < |prefixed| ==> prefixed[i] in GetFileName(bundleFile) || prefixed[i] == '_' || prefixed[i] in entry;
    }
    FileNameOfCombine(dir, entry);
    FileNameOfCombine(dir, prefixed);
  }

  /** Distinct entries of one bundle get distinct prefixed names. */
  lemma PrefixedNamesDistinct(dir: Path, bundleFile: Path, a: string, b: string)
    requires a != b
    ensures PrefixedName(dir, bundleFile, a) != PrefixedName(dir, bundleFile, b)
  {
    var f := GetFileName(bundleFile);
    var pa, pb := f + "_" + a, f + "_" + b;
    assert !IsRooted(pa) && !IsRooted(pb) by {
      if f != "" { assert pa[0] == f[0] && pb[0] == f[0] && f[0] != '/'; }
    }
    assert pa[|f| + 1..] == a && pb[|f| + 1..] == b;
    if PrefixedName(dir, bundleFile, a) == PrefixedName(dir, bundleFile, b) {
      CombineInjective(dir, pa, pb);
    }
  }

  function Names(entries: seq<Entry>): (r: seq<string>)
    ensures |r| == |entries| && forall i :: 0 <= i < |entries| ==> r[i] == entries[i].name
  {
    seq(|entries|, i requires 0 <= i < |entries| => entries[i].name)
  }

  predicate UniqueNames(entries: seq<Entry>) {
    forall i, j :: 0 <= i < j < |entries| ==> entries[i].name != entries[j].name
  }

  // Batch export of entries

  /** The `(path, bytes)` pairs batch export writes for a bundle's entries, in directory order. */
  function ExportOuts(dir: Path, bundleFile: Path, entries: seq<Entry>, keepNames: bool): (r: seq<(Path, Bytes)>)
    ensures |r| == |entries|
    ensures forall i :: 0 <= i < |r| ==> r[i] == (ExportName(dir, bundleFile, entries[i].name, keepNames), entries[i].data)
  {
    seq(|entries|, i requires 0 <= i < |entries| => (ExportName(dir, bundleFile, entries[i].name, keepNames), entries[i].data))
  }

  /** Writes each entry of the bundle to its export name, in directory order. */
  method ExportEntries(fs: FileSystem, dir: Path, bundleFile: Path, entries: seq<Entry>, keepNames: bool)
    modifies fs
    ensures fs.files == WriteAll(old(fs.files), ExportOuts(dir, bundleFile, entries, keepNames))
    ensures fs.dirs == old(fs.dirs)
  {
    ghost var outs := ExportOuts(dir, bundleFile, entries, keepNames);
    for i := 0 to |entries|
      invariant fs.files == WriteAll(old(fs.files), outs[..i])
      invariant fs.dirs == old(fs.dirs)
    {
      var outName := ExportName(dir, bundleFile, entries[i].name, keepNames);
      fs.WriteAllBytes(outName, entries[i].data);
      assert outs[..i + 1][..i] == outs[..i];
    }
    assert outs[..|entries|] == outs;
  }

  /** Without `-keepnames`, every entry of a bundle with unique entry names is exported with its own bytes. */
  lemma ExportedEntryHoldsData(files: Files, dir: Path, bundleFile: Path, entries: seq<Entry>, i: nat)
    requires UniqueNames(entries) && i < |entries|
    ensures var after := WriteAll(files, ExportOuts(dir, bundleFile, entries, false));
      PrefixedName(dir, bundleFile, entries[i].name) in after &&
      after[PrefixedName(dir, bundleFile, entries[i].name)] == entries[i].data
  {
    var outs := ExportOuts(dir, bundleFile, entries, false);
    forall a, b | 0 <= a < b < |outs| ensures outs[a].0 != outs[b].0 {
      PrefixedNamesDistinct(dir, bundleFile, entries[a].name, entries[b].name);
    }
    WriteAllLookup(files, outs, i);
  }

  // Batch import of entries

  /** The replacer for entry `name`: the whole of its prefixed file, under the same entry name. */
  function StreamReplacer(files: Files, dir: Path, bundleFile: Path, name: string): BundleReplacer
    requires PrefixedName(dir, bundleFile, name) in files
  {
    var m := PrefixedName(dir, bundleFile, name);
    FromStream(name, name, true, m, 0, |files[m]|)
  }

  /** The replacers batch import builds: one per entry whose prefixed file exists, in directory order. */
  function ImportReplacers(files: Files, dir: Path, bundleFile: Path, names: seq<string>): seq<BundleReplacer>
    decreases |names|
  {
    if names == [] then []
    else
      var rest := ImportReplacers(files, dir, bundleFile, names[..|names| - 1]);
      var name := names[|names| - 1];
      if PrefixedName(dir, bundleFile, name) in files then rest + [StreamReplacer(files, dir, bundleFile, name)]
      else rest
  }

  lemma ImportReplacersNext(files: Files, dir: Path, bundleFile: Path, names: seq<string>, i: nat)
    requires i < |names|
    ensures ImportReplacers(files, dir, bundleFile, names[..i + 1]) ==
              ImportReplacers(files, dir, bundleFile, names[..i])
                + (if PrefixedName(dir, bundleFile, names[i]) in files then [StreamReplacer(files, dir, bundleFile, names[i])] else [])
  {
    assert names[..i + 1][..i] == names[..i];
  }

  /** The directory positions of the entries whose prefixed file exists, in increasing order. */
  function MatchedIndices(files: Files, dir: Path, bundleFile: Path, names: seq<string>): seq<nat>
    decreases |names|
  {
    if names == [] then []
    else
      var rest := MatchedIndices(files, dir, bundleFile, names[..|names| - 1]);
      if PrefixedName(dir, bundleFile, names[|names| - 1]) in files then rest + [|names| - 1] else rest
  }

  /**
   * Import replacers come in directory order, exactly one for each entry
   * whose `<dir>/<bundle>_<entry>` file exists: the k-th replacer belongs to
   * the k-th matching position, the positions increase, and a position is
   * matched exactly when its file exists. Each replacer keeps the entry's
   * name, starts at offset 0 and spans the whole file.
   */
  lemma {:induction false} ImportReplacersInDirectoryOrder(files: Files, dir: Path, bundleFile: Path, names: seq<string>)
    ensures var r := ImportReplacers(files, dir, bundleFile, names);
      var idx := MatchedIndices(files, dir, bundleFile, names);
      && |r| == |idx|
      && (forall k :: 0 <= k < |idx| ==> idx[k] < |names| && PrefixedName(dir, bundleFile, names[idx[k]]) in files)
      && (forall k :: 0 <= k < |idx| ==>
            var m := PrefixedName(dir, bundleFile, names[idx[k]]);
            r[k] == FromStream(names[idx[k]], names[idx[k]], true, m, 0, |files[m]|))
      && (forall k, l :: 0 <= k < l < |idx| ==> idx[k] < idx[l])
      && (forall j :: 0 <= j < |names| ==> (j in idx <==> PrefixedName(dir, bundleFile, names[j]) in files))
    decreases |names|
  {
    if names != [] {
      var init := names[..|names| - 1];
      ImportReplacersInDirectoryOrder(files, dir, bundleFile, init);
      forall j | 0 <= j < |init| ensures init[j] == names[j] { }
    }
  }

  /** One open stream per replacer, on the replacer's source file. */
  predicate OpenStreams(files: Files, reps: seq<BundleReplacer>, streams: seq<Path>) {
    |streams| == |reps| && forall k :: 0 <= k < |reps| ==> streams[k] == reps[k].source && streams[k] in files
  }

  lemma OpenStreamsNext(files: Files, reps: seq<BundleReplacer>, streams: seq<Path>, rep: BundleReplacer)
    requires OpenStreams(files, reps, streams) && rep.source in files
    ensures OpenStreams(files, reps + [rep], streams + [rep.source])
  {
    assert forall k :: 0 <= k < |reps| ==> (reps + [rep])[k] == reps[k] && (streams + [rep.source])[k] == streams[k];
  }

  /** `BatchImportBundle`'s loop: one stream replacer (and one open stream) per entry whose prefixed file exists. */
  method CollectReplacers(files: Files, dir: Path, bundleFile: Path, entries: seq<Entry>)
    returns (reps: seq<BundleReplacer>, streams: seq<Path>)
    ensures reps == ImportReplacers(files, dir, bundleFile, Names(entries))
    ensures |streams| == |reps| && forall k :: 0 <= k < |reps| ==> streams[k] == reps[k].source && streams[k] in files
  {
    ghost var names := Names(entries);
    reps, streams := [], [];
    for i := 0 to |entries|
      invariant reps == ImportReplacers(files, dir, bundleFile, names[..i])
      invariant OpenStreams(files, reps, streams)
    {
      var name := entries[i].name;
      var matchName := PrefixedName(dir, bundleFile, name);
      ImportReplacersNext(files, dir, bundleFile, names, i);
      if matchName in files {
        var length := |files[matchName]|;
        var rep := FromStream(name, name, true, matchName, 0, length);
        assert names[i] == name && rep == StreamReplacer(files, dir, bundleFile, names[i]);
        OpenStreamsNext(files, reps, streams, rep);
        reps := reps + [rep];
        streams := streams + [matchName];
      }
    }
    assert names[..|entries|] == names;
  }

  /**
   * Export without `-keepnames` followed by import: every entry of a bundle
   * with unique entry names is picked up again, in directory order, and its
   * replacer spans exactly the bytes that were exported for it.
   */
  lemma ExportThenImport(files: Files, dir: Path, bundleFile: Path, entries: seq<Entry>)
    requires UniqueNames(entries)
    ensures var after := WriteAll(files, ExportOuts(dir, bundleFile, entries, false));
      var r := ImportReplacers(after, dir, bundleFile, Names(entries));
      && |r| == |entries|
      && forall k :: 0 <= k < |entries| ==>
           r[k] == FromStream(entries[k].name, entries[k].name, true, PrefixedName(dir, bundleFile, entries[k].name), 0, |entries[k].data|)
  {
    var after := WriteAll(files, ExportOuts(dir, bundleFile, entries, false));
    forall k | 0 <= k < |entries| ensures PrefixedName(dir, bundleFile, entries[k].name) in after &&
        after[PrefixedName(dir, bundleFile, entries[k].name)] == entries[k].data {
      ExportedEntryHoldsData(files, dir, bundleFile, entries, k);
    }
    AllMatched(after, dir, bundleFile, Names(entries));
  }

  /** When every entry has its prefixed file, each entry yields a replacer. */
  lemma {:induction false} AllMatchedLength(files: Files, dir: Path, bundleFile: Path, names: seq<string>)
    requires forall j :: 0 <= j < |names| ==> PrefixedName(dir, bundleFile, names[j]) in files
    ensures |ImportReplacers(files, dir, bundleFile, names)| == |names|
    decreases |names|
  {
    if names != [] {
      var init := names[..|names| - 1];
      assert forall j :: 0 <= j < |init| ==> init[j] == names[j];
      AllMatchedLength(files, dir, bundleFile, init);
    }
  }

  /** When every entry has its prefixed file, the k-th replacer is entry k's. */
  lemma {:induction false} AllMatchedAt(files: Files, dir: Path, bundleFile: Path, names: seq<string>, k: nat)
    requires forall j :: 0 <= j < |names| ==> PrefixedName(dir, bundleFile, names[j]) in files
    requires k < |names|
    ensures |ImportReplacers(files, dir, bundleFile, names)| == |names|
    ensures ImportReplacers(files, dir, bundleFile, names)[k] == StreamReplacer(files, dir, bundleFile, names[k])
    decreases |names|
  {
    var init := names[..|names| - 1];
    assert forall j :: 0 <= j < |init| ==> init[j] == names[j];
    AllMatchedLength(files, dir, bundleFile, init);
    if k < |init| {
      AllMatchedAt(files, dir, bundleFile, init, k);
      assert init[k] == names[k];
    }
  }

  lemma AllMatched(files: Files, dir: Path, bundleFile: Path, names: seq<string>)
    requires forall j :: 0 <= j < |names| ==> PrefixedName(dir, bundleFile, names[j]) in files
    ensures var r := ImportReplacers(files, dir, bundleFile, names);
      |r| == |names| && forall k :: 0 <= k < |names| ==> r[k] == StreamReplacer(files, dir, bundleFile, names[k])
  {
    AllMatchedLength(files, dir, bundleFile, names);
    forall k | 0 <= k < |names|
      ensures ImportReplacers(files, dir, bundleFile, names)[k] == StreamReplacer(files, dir, bundleFile, names[k])
    {
      AllMatchedAt(files, dir, bundleFile, names, k);
    }
  }
}
