/**
 * The abstract filesystem the handler works on: a map from path to file
 * contents (a path is a file exactly when it is a key) and a set of
 * directories. Its methods are the System.IO.File calls the handler makes.
 */
module FileSystems {
  import opened Paths

  type Bytes = seq<bv8>

  type Files = map<Path, Bytes>

  class FileSystem {
    var files: Files
    var dirs: set<Path>

    constructor (files: Files, dirs: set<Path>)
      ensures this.files == files && this.dirs == dirs
    {
      this.files := files;
      this.dirs := dirs;
    }

    /** `File.WriteAllBytes` and `File.Open(p, FileMode.Create)`: creates or truncates. */
    method WriteAllBytes(p: Path, data: Bytes)
      modifies this
      ensures files == old(files)[p := data] && dirs == old(dirs)
    {
      files := files[p := data];
    }

    /** `File.Delete`: a missing file is not an error. */
    method Delete(p: Path)
      modifies this
      ensures files == old(files) - {p} && dirs == old(dirs)
    {
      files := files - {p};
    }

    /** `File.Move`: the source must exist and the destination must not. */
    method Move(src: Path, dst: Path)
      requires src in files && dst !in files
      modifies this
      ensures files == Moved(old(files), src, dst) && dirs == old(dirs)
    {
      files := Moved(files, src, dst);
    }
  }

  /** `p` is present in both or absent from both, with the same contents. */
  predicate SameAt(a: Files, b: Files, p: Path) {
    (p in a <==> p in b) && (p in a ==> a[p] == b[p])
  }

  /** The filesystem after renaming `src` to `dst`. */
  function Moved(files: Files, src: Path, dst: Path): (r: Files)
    requires src in files
    ensures src != dst ==> src !in r
    ensures dst in r && r[dst] == files[src]
    ensures forall p :: p != src && p != dst ==> (p in r <==> p in files) && (p in r ==> r[p] == files[p])
  {
    (files - {src})[dst := files[src]]
  }

  /** The filesystem after writing each `(path, bytes)` pair of `outs`, in order. */
  function WriteAll(files: Files, outs: seq<(Path, Bytes)>): Files
    decreases |outs|
  {
    if outs == [] then files
    else WriteAll(files, outs[..|outs| - 1])[outs[|outs| - 1].0 := outs[|outs| - 1].1]
  }

  /** Paths written by `outs` are present afterwards; all other paths are untouched. */
  lemma {:induction false} WriteAllFrame(files: Files, outs: seq<(Path, Bytes)>, p: Path)
    ensures (forall i :: 0 <= i < |outs| ==> outs[i].0 != p) ==>
              (p in WriteAll(files, outs) <==> p in files) &&
              (p in files ==> WriteAll(files, outs)[p] == files[p])
    ensures (exists i :: 0 <= i < |outs| && outs[i].0 == p) ==> p in WriteAll(files, outs)
    decreases |outs|
  {
    if outs != [] {
      WriteAllFrame(files, outs[..|outs| - 1], p);
      if exists i :: 0 <= i < |outs| && outs[i].0 == p {
        var i :| 0 <= i < |outs| && outs[i].0 == p;
        if i < |outs| - 1 {
          assert outs[..|outs| - 1][i].0 == p;
        }
      }
    }
  }

  /** When the written paths are distinct, each holds exactly the bytes written to it. */
  lemma {:induction false} WriteAllLookup(files: Files, outs: seq<(Path, Bytes)>, i: nat)
    requires i < |outs|
    requires forall a, b :: 0 <= a < b < |outs| ==> outs[a].0 != outs[b].0
    ensures outs[i].0 in WriteAll(files, outs) && WriteAll(files, outs)[outs[i].0] == outs[i].1
    decreases |outs|
  {
    if i < |outs| - 1 {
      WriteAllLookup(files, outs[..|outs| - 1], i);
    }
  }
}
