/**
 * Saving the changed assets files. The workspace's new-asset table is first
 * grouped by owning file: an entry's file name is lower-cased and looked up
 * among the loaded files, and entries whose file is not loaded are skipped.
 * Each changed file is then written with its group of replacers, either
 * into memory (when the assets came from a bundle) or to a `~<name>` file
 * next to it that replaces the original.
 */
module Saving {
  import opened Strings
  import opened Paths
  import opened FileSystems

  /** A loaded assets file: its file name and its path. */
  datatype LoadedFile = LoadedFile(name: string, path: Path)

  /** An entry of the new-asset table: the owning file's name as recorded, the object's path id, and its replacer. */
  datatype NewAsset = NewAsset(fileName: string, pathId: int, replacer: Bytes)

  /** The loaded-file lookup: lower-cased file name to the position of the loaded file. */
  type Lookup = map<string, nat>

  /** The replacers grouped by the position of their owning file. */
  type Groups = map<nat, seq<Bytes>>

  /** What writing a file with its replacers yields: the bytes, or a failure after `partial` bytes were produced. */
  datatype WriteResult = Written(data: Bytes) | WriteFailed(partial: Bytes)

  /** The assets-file writer, called with a loaded file's position and its replacers. */
  type Writer = (nat, seq<Bytes>) -> WriteResult

  /** `a` is owned by the loaded file at `f`: its lower-cased file name is looked up to `f`. */
  predicate OwnedBy(lookup: Lookup, a: NewAsset, f: nat) {
    var key := ToLowerAscii(a.fileName);
    key in lookup && lookup[key] == f
  }

  // Grouping

  /** The replacers of the entries owned by `f`, in table order. */
  function ReplacersFor(lookup: Lookup, assets: seq<NewAsset>, f: nat): seq<Bytes>
    decreases |assets|
  {
    if assets == [] then []
    else
      var a := assets[|assets| - 1];
      ReplacersFor(lookup, assets[..|assets| - 1], f) + (if OwnedBy(lookup, a, f) then [a.replacer] else [])
  }

  /** The dictionary `SaveAssetsFile` fills: each entry whose file is loaded is appended to its file's list. */
  function GroupByFile(lookup: Lookup, assets: seq<NewAsset>): Groups
    decreases |assets|
  {
    if assets == [] then map[]
    else
      var g := GroupByFile(lookup, assets[..|assets| - 1]);
      var a := assets[|assets| - 1];
      var key := ToLowerAscii(a.fileName);
      if key !in lookup then g
      else
        var f := lookup[key];
        g[f := (if f in g then g[f] else []) + [a.replacer]]
  }

  /**
   * The grouping is a filter: a file has a list exactly when it owns some
   * entry, and its list holds the replacers of the entries it owns, in table
   * order.
   */
  lemma {:induction false} GroupByFileIsFilter(lookup: Lookup, assets: seq<NewAsset>, f: nat)
    ensures f in GroupByFile(lookup, assets) <==> ReplacersFor(lookup, assets, f) != []
    ensures f in GroupByFile(lookup, assets) ==> GroupByFile(lookup, assets)[f] == ReplacersFor(lookup, assets, f)
    decreases |assets|
  {
    if assets != [] {
      GroupByFileIsFilter(lookup, assets[..|assets| - 1], f);
    }
  }

  /** A file that owns the entry at `i` has a replacer for it. */
  lemma {:induction false} ReplacersForOwned(lookup: Lookup, assets: seq<NewAsset>, f: nat, i: nat)
    requires i < |assets| && OwnedBy(lookup, assets[i], f)
    ensures ReplacersFor(lookup, assets, f) != []
    decreases |assets|
  {
    var init := assets[..|assets| - 1];
    if i < |init| {
      assert init[i] == assets[i];
      ReplacersForOwned(lookup, init, f, i);
    }
  }

  /** A file that owns no entry has no replacers. */
  lemma {:induction false} ReplacersForNone(lookup: Lookup, assets: seq<NewAsset>, f: nat)
    requires forall i :: 0 <= i < |assets| ==> !OwnedBy(lookup, assets[i], f)
    ensures ReplacersFor(lookup, assets, f) == []
    decreases |assets|
  {
    if assets != [] {
      var init := assets[..|assets| - 1];
      assert forall i :: 0 <= i < |init| ==> init[i] == assets[i];
      ReplacersForNone(lookup, init, f);
    }
  }

  /**
   * A loaded file gets a list exactly when some entry's lower-cased file
   * name looks it up; entries whose file is not loaded land in no list.
   */
  lemma GroupKeys(lookup: Lookup, assets: seq<NewAsset>, f: nat)
    ensures f in GroupByFile(lookup, assets) <==> exists i :: 0 <= i < |assets| && OwnedBy(lookup, assets[i], f)
  {
    GroupByFileIsFilter(lookup, assets, f);
    if exists i :: 0 <= i < |assets| && OwnedBy(lookup, assets[i], f) {
      var i :| 0 <= i < |assets| && OwnedBy(lookup, assets[i], f);
      ReplacersForOwned(lookup, assets, f, i);
    } else {
      ReplacersForNone(lookup, assets, f);
    }
  }

  /** The lookup ignores the case of ASCII letters: names equal up to case find the same file. */
  lemma {:induction false} OwnerIgnoresCase(lookup: Lookup, a: NewAsset, b: NewAsset, f: nat)
    requires |a.fileName| == |b.fileName|
    requires forall i :: 0 <= i < |a.fileName| ==> LowerChar(a.fileName[i]) == LowerChar(b.fileName[i])
    ensures OwnedBy(lookup, a, f) <==> OwnedBy(lookup, b, f)
  {
    assert ToLowerAscii(a.fileName) == ToLowerAscii(b.fileName);
  }

  lemma GroupByFileNext(lookup: Lookup, assets: seq<NewAsset>, i: nat)
    requires i < |assets|
    ensures var g := GroupByFile(lookup, assets[..i]);
      var key := ToLowerAscii(assets[i].fileName);
      GroupByFile(lookup, assets[..i + 1]) ==
        if key !in lookup then g
        else g[lookup[key] := (if lookup[key] in g then g[lookup[key]] else []) + [assets[i].replacer]]
  {
    assert assets[..i + 1][..i] == assets[..i];
  }

  /** `SaveAssetsFile`'s first loop: fills the file-to-replacers dictionary from the new-asset table. */
  method GroupReplacers(lookup: Lookup, assets: seq<NewAsset>) returns (fileToReplacer: Groups)
    ensures fileToReplacer == GroupByFile(lookup, assets)
    ensures forall f :: f in fileToReplacer ==> fileToReplacer[f] == ReplacersFor(lookup, assets, f)
  {
    fileToReplacer := map[];
    for i := 0 to |assets|
      invariant fileToReplacer == GroupByFile(lookup, assets[..i])
    {
      GroupByFileNext(lookup, assets, i);
      var key := ToLowerAscii(assets[i].fileName);
      if key in lookup {
        var file := lookup[key];
        if file !in fileToReplacer {
          fileToReplacer := fileToReplacer[file := []];
        }
        fileToReplacer := fileToReplacer[file := fileToReplacer[file] + [assets[i].replacer]];
      }
    }
    assert assets[..|assets|] == assets;
    forall f | f in fileToReplacer ensures fileToReplacer[f] == ReplacersFor(lookup, assets, f) {
      GroupByFileIsFilter(lookup, assets, f);
    }
  }

  // Writing the changed files

  /** The replacers a changed file is written with: its group, or none. */
  function ReplacersOf(groups: Groups, c: nat): seq<Bytes> {
    if c in groups then groups[c] else []
  }

  /** Every changed file is one of the loaded files. */
  predicate ValidChanged(loaded: seq<LoadedFile>, changed: seq<nat>) {
    forall i :: 0 <= i < |changed| ==> changed[i] < |loaded|
  }

  /** The positions of the changed files whose write succeeds, in order. */
  function WrittenIds(write: Writer, groups: Groups, changed: seq<nat>): seq<nat>
    decreases |changed|
  {
    if changed == [] then []
    else
      var c := changed[|changed| - 1];
      WrittenIds(write, groups, changed[..|changed| - 1]) + (if write(c, ReplacersOf(groups, c)).Written? then [c] else [])
  }

  /** The temporary `~<name>` file written next to a loaded file. */
  function TempPath(file: LoadedFile): Path {
    Combine(GetDirectoryName(file.path), "~" + file.name)
  }

  /** The effect of saving one file to disk: the filesystem, and whether the file was replaced. */
  datatype SaveStep = SaveStep(files: Files, saved: bool)

  /**
   * Saving one changed file to disk: write the temporary file (a failed
   * write leaves what was produced), delete the original and rename the
   * temporary file onto it (which fails when there is nothing to rename).
   */
  function SaveOne(write: Writer, groups: Groups, loaded: seq<LoadedFile>, files: Files, c: nat): SaveStep
    requires c < |loaded|
  {
    var file := loaded[c];
    var tmp := TempPath(file);
    match write(c, ReplacersOf(groups, c))
    case WriteFailed(partial) => SaveStep(files[tmp := partial], false)
    case Written(data) =>
      var deleted := files[tmp := data] - {file.path};
      if tmp in deleted then SaveStep(Moved(deleted, tmp, file.path), true)
      else SaveStep(deleted, false)
  }

  /** A loaded file named after its path, as the loader names them. */
  predicate NamedAfterPath(file: LoadedFile) {
    file.name == GetFileName(file.path)
  }

  /** The temporary file of a file named after its path is a different path. */
  lemma TempPathDiffers(file: LoadedFile)
    requires NamedAfterPath(file)
    ensures TempPath(file) != file.path
  {
    FileNameOfCombine(GetDirectoryName(file.path), "~" + file.name);
  }

  /**
   * A successful write replaces the original with the written bytes and
   * leaves no temporary file; a failed write leaves the original in place
   * and what was produced at the temporary path. Nothing else changes.
   */
  lemma SaveOneSpec(write: Writer, groups: Groups, loaded: seq<LoadedFile>, files: Files, c: nat)
    requires c < |loaded| && NamedAfterPath(loaded[c])
    ensures var file := loaded[c];
      var tmp := TempPath(file);
      var s := SaveOne(write, groups, loaded, files, c);
      match write(c, ReplacersOf(groups, c))
      case Written(data) =>
        && s.saved && file.path in s.files && s.files[file.path] == data && tmp !in s.files
        && forall p :: p != file.path && p != tmp ==> SameAt(s.files, files, p)
      case WriteFailed(partial) =>
        && !s.saved && SameAt(s.files, files, file.path)
        && tmp in s.files && s.files[tmp] == partial
        && forall p :: p != tmp ==> SameAt(s.files, files, p)
  {
    TempPathDiffers(loaded[c]);
  }

  /** Saving one file touches only its path and its temporary path. */
  lemma SaveOneFrame(write: Writer, groups: Groups, loaded: seq<LoadedFile>, files: Files, c: nat, p: Path)
    requires c < |loaded| && p != loaded[c].path && p != TempPath(loaded[c])
    ensures SameAt(SaveOne(write, groups, loaded, files, c).files, files, p)
  {
  }

  /** The result of saving the changed files to disk: the filesystem and the positions of the replaced files. */
  datatype SaveRun = SaveRun(files: Files, ids: seq<nat>)

  /** The disk branch of `SaveAssetsFile` over the changed files, in order; a failed file does not stop the others. */
  function SaveDisk(write: Writer, groups: Groups, loaded: seq<LoadedFile>, files: Files, changed: seq<nat>): SaveRun
    requires ValidChanged(loaded, changed)
    decreases |changed|
  {
    if changed == [] then SaveRun(files, [])
    else
      var c := changed[|changed| - 1];
      var prev := SaveDisk(write, groups, loaded, files, changed[..|changed| - 1]);
      var s := SaveOne(write, groups, loaded, prev.files, c);
      SaveRun(s.files, prev.ids + (if s.saved then [c] else []))
  }

  /** When loaded files are named after their paths, the replaced files are exactly those whose write succeeds. */
  lemma {:induction false} SaveDiskIds(write: Writer, groups: Groups, loaded: seq<LoadedFile>, files: Files, changed: seq<nat>)
    requires ValidChanged(loaded, changed)
    requires forall c :: 0 <= c < |loaded| ==> NamedAfterPath(loaded[c])
    ensures SaveDisk(write, groups, loaded, files, changed).ids == WrittenIds(write, groups, changed)
    decreases |changed|
  {
    if changed != [] {
      var init := changed[..|changed| - 1];
      SaveDiskIds(write, groups, loaded, files, init);
      var prev := SaveDisk(write, groups, loaded, files, init);
      SaveOneSpec(write, groups, loaded, prev.files, changed[|changed| - 1]);
    }
  }

  /** A path that is neither a changed file's path nor its temporary path keeps its contents. */
  lemma {:induction false} SaveDiskFrame(write: Writer, groups: Groups, loaded: seq<LoadedFile>, files: Files,
                                         changed: seq<nat>, p: Path)
    requires ValidChanged(loaded, changed)
    requires forall i :: 0 <= i < |changed| ==> p != loaded[changed[i]].path && p != TempPath(loaded[changed[i]])
    ensures SameAt(SaveDisk(write, groups, loaded, files, changed).files, files, p)
    decreases |changed|
  {
    if changed != [] {
      var init := changed[..|changed| - 1];
      assert forall i :: 0 <= i < |init| ==> init[i] == changed[i];
      SaveDiskFrame(write, groups, loaded, files, init, p);
      var prev := SaveDisk(write, groups, loaded, files, init);
      SaveOneFrame(write, groups, loaded, prev.files, changed[|changed| - 1], p);
    }
  }

  /** Saves one changed file to disk as `SaveAssetsFile` does, reporting whether the original was replaced. */
  method SaveChangedFile(fs: FileSystem, write: Writer, groups: Groups, loaded: seq<LoadedFile>, c: nat)
    returns (saved: bool)
    requires c < |loaded|
    modifies fs
    ensures fs.dirs == old(fs.dirs)
    ensures SaveStep(fs.files, saved) == SaveOne(write, groups, loaded, old(fs.files), c)
  {
    var replacers := if c in groups then groups[c] else [];
    var file := loaded[c];
    var newName := "~" + file.name;
    var dir := GetDirectoryName(file.path);
    var filePath := Combine(dir, newName);
    var w := write(c, replacers);
    if w.WriteFailed? {
      fs.WriteAllBytes(filePath, w.partial);
      return false;
    }
    fs.WriteAllBytes(filePath, w.data);
    fs.Delete(file.path);
    if filePath !in fs.files {
      return false;
    }
    fs.Move(filePath, file.path);
    return true;
  }

  /**
   * `SaveAssetsFile` as the handler reaches it, with a workspace that is not
   * from a bundle: groups the new assets by file, then saves every changed
   * file to disk and returns the positions of the files replaced.
   */
  method SaveAssetsFile(fs: FileSystem, write: Writer, lookup: Lookup, assets: seq<NewAsset>,
                        loaded: seq<LoadedFile>, changed: seq<nat>)
    returns (changedFileIds: seq<nat>)
    requires ValidChanged(loaded, changed)
    modifies fs
    ensures fs.dirs == old(fs.dirs)
    ensures SaveDisk(write, GroupByFile(lookup, assets), loaded, old(fs.files), changed) == SaveRun(fs.files, changedFileIds)
  {
    var fileToReplacer := GroupReplacers(lookup, assets);
    changedFileIds := [];
    for i := 0 to |changed|
      invariant SaveDisk(write, fileToReplacer, loaded, old(fs.files), changed[..i]) == SaveRun(fs.files, changedFileIds)
      invariant fs.dirs == old(fs.dirs)
    {
      assert changed[..i + 1][..i] == changed[..i];
      var saved := SaveChangedFile(fs, write, fileToReplacer, loaded, changed[i]);
      if saved {
        changedFileIds := changedFileIds + [changed[i]];
      }
    }
    assert changed[..|changed|] == changed;
  }
}
