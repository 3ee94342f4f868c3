/**
 * `applyemip`: installing a mod package. For each affected file in order a
 * free backup name is chosen (the whole run stops when there is none), the
 * patched contents are written to `<path>.mod`, the original is renamed to
 * the backup name and the `.mod` file is renamed to the original path.
 * Nothing is rolled back: files handled before a stop stay swapped.
 */
module Installer {
  import opened Options
  import opened Strings
  import opened Paths
  import opened FileSystems
  import opened Arguments
  import opened Backups
  import opened Bundles

  /** One file a package changes, with the serialised replacers for it. */
  datatype AffectedFile = AffectedFile(path: Path, isBundle: bool, replacers: seq<Bytes>)

  /** An installer package as read from an `.emip` file. */
  datatype Package = Package(modName: string, modCreators: string, description: string, affectedFiles: seq<AffectedFile>)

  /**
   * The library services the installer calls: the bundle services, package
   * parsing, and writing a bundle (from its uncompressed form) or an assets
   * file with a package's replacers applied.
   */
  datatype InstallerLib = InstallerLib(
    bundles: BundleLib,
    readPackage: Bytes -> Package,
    patchBundle: (Bytes, seq<Bytes>) -> Bytes,
    patchAssets: (Bytes, seq<Bytes>) -> Bytes)

  /** How `applyemip` ends: the two argument errors, a full run, or a stop at the affected file `index`. */
  datatype Outcome = ArgumentMissing | EmipMissing | Completed | BackupsExhausted(index: nat) | TargetMissing(index: nat)

  datatype StepStatus = Swapped | NoBackup | NoTarget

  /** The effect of handling one affected file; `files` is unchanged unless `status` is `Swapped`. */
  datatype StepResult = StepResult(status: StepStatus, files: Files)

  /** The installed path of an affected file: its path under the root directory. */
  function Target(rootDir: Path, af: AffectedFile): Path {
    Combine(rootDir, af.path)
  }

  /** The contents written to `<path>.mod`, computed from the original contents. */
  function ModContent(lib: InstallerLib, af: AffectedFile, original: Bytes): Bytes {
    if af.isBundle then lib.patchBundle(Unpacked(lib.bundles, original), af.replacers)
    else lib.patchAssets(original, af.replacers)
  }

  /**
   * The filesystem once `<path>.mod` is written: a bundle is first
   * decompressed (into its scratch file unless `-md` is given).
   */
  function Written(lib: InstallerLib, flags: set<string>, files: Files, t: Path, af: AffectedFile): Files
    requires t in files
  {
    var unpacked := if af.isBundle then AfterDecompress(lib.bundles, files, t, DecompPath(t, "-md" in flags)) else files;
    unpacked[t + ".mod" := ModContent(lib, af, files[t])]
  }

  /** The swap proper: the original goes to the backup name, `.mod` to the original path, then a bundle's scratch file is cleaned up. */
  function Swap(lib: InstallerLib, flags: set<string>, files: Files, t: Path, bak: Path, af: AffectedFile): Files
    requires t in files && bak !in files && bak != t && bak != t + ".mod" && bak != t + ".decomp"
  {
    var written := Written(lib, flags, files, t, af);
    assert |t + ".mod"| != |t|;
    var swapped := Moved(Moved(written, t, bak), t + ".mod", t);
    if af.isBundle then CleanupDecomp(flags, DecompPath(t, "-md" in flags), swapped) else swapped
  }

  /**
   * One affected file. The backup name is chosen first, and a missing
   * target stops the run before anything is written.
   */
  function Step(lib: InstallerLib, flags: set<string>, rootDir: Path, files: Files, af: AffectedFile): StepResult {
    var t := Target(rootDir, af);
    var bak := NextBackup(files, t);
    if bak.None? then StepResult(NoBackup, files)
    else if t !in files then StepResult(NoTarget, files)
    else
      NextBackupIsFree(files, t);
      BackupNameShape(t, bak.value);
      StepResult(Swapped, Swap(lib, flags, files, t, bak.value, af))
  }

  /** The result of a run over the affected files: the filesystem and how the run ended. */
  datatype Run = Run(files: Files, outcome: Outcome)

  /** A way of handling one affected file, given the filesystem before it. */
  type StepFn = (Files, AffectedFile) -> StepResult

  /**
   * The install loop over `afs`, in order, for any way `step` of handling one
   * file; a stop leaves the filesystem as it was before that file.
   */
  function RunSteps(step: StepFn, files: Files, afs: seq<AffectedFile>): Run
    decreases |afs|
  {
    if afs == [] then Run(files, Completed)
    else
      var prev := RunSteps(step, files, afs[..|afs| - 1]);
      if !prev.outcome.Completed? then prev
      else
        var s := step(prev.files, afs[|afs| - 1]);
        match s.status
        case Swapped => Run(s.files, Completed)
        case NoBackup => Run(prev.files, BackupsExhausted(|afs| - 1))
        case NoTarget => Run(prev.files, TargetMissing(|afs| - 1))
  }

  /** `applyemip`'s way of handling one affected file. */
  function StepOf(lib: InstallerLib, flags: set<string>, rootDir: Path): StepFn {
    (files: Files, af: AffectedFile) => Step(lib, flags, rootDir, files, af)
  }

  /** The `applyemip` install loop. */
  function Install(lib: InstallerLib, flags: set<string>, rootDir: Path, files: Files, afs: seq<AffectedFile>): Run {
    RunSteps(StepOf(lib, flags, rootDir), files, afs)
  }

  /** Writing `.mod` (and a bundle's scratch file) leaves every other path alone. */
  lemma WrittenAt(lib: InstallerLib, flags: set<string>, files: Files, t: Path, af: AffectedFile, p: Path)
    requires t in files && p != t + ".mod" && p != t + ".decomp"
    ensures SameAt(Written(lib, flags, files, t, af), files, p)
  {
  }

  /** Cleaning up touches nothing but the scratch file. */
  lemma CleanupAt(flags: set<string>, decomp: Option<Path>, files: Files, p: Path)
    requires decomp.None? || p != decomp.value
    ensures SameAt(CleanupDecomp(flags, decomp, files), files, p)
  {
  }

  /** The two renames of a step: the original goes to the backup name, the new content to the original path. */
  lemma SwapFacts(written: Files, t: Path, bak: Path, mod: Path)
    requires t in written && mod in written && bak !in written
    requires t != mod && t != bak && mod != bak
    ensures var r := Moved(Moved(written, t, bak), mod, t);
      && bak in r && r[bak] == written[t] && t in r && r[t] == written[mod] && mod !in r
      && forall p :: p != t && p != mod && p != bak ==> SameAt(r, written, p)
  {
  }

  /**
   * The swap of a file with a free backup name: the original contents are
   * at the backup name, the patched contents at the original path, no
   * `.mod` file is left, and only the path, its `.mod`, its `.decomp` and
   * the backup name change.
   */
  lemma SwapSpec(lib: InstallerLib, flags: set<string>, files: Files, t: Path, bak: Path, af: AffectedFile)
    requires t in files && bak !in files && bak != t && bak != t + ".mod" && bak != t + ".decomp"
    ensures var after := Swap(lib, flags, files, t, bak, af);
      && bak in after && after[bak] == files[t]
      && t in after && after[t] == ModContent(lib, af, files[t])
      && t + ".mod" !in after
      && forall p :: p != t && p != t + ".mod" && p != t + ".decomp" && p != bak ==> SameAt(after, files, p)
  {
    var mod := t + ".mod";
    var d := t + ".decomp";
    assert |mod| != |t| && |d| != |t| && |d| != |mod|;
    var written := Written(lib, flags, files, t, af);
    WrittenAt(lib, flags, files, t, af, t);
    WrittenAt(lib, flags, files, t, af, bak);
    SwapFacts(written, t, bak, mod);
    var swapped := Moved(Moved(written, t, bak), mod, t);
    var decomp := DecompPath(t, "-md" in flags);
    CleanupAt(flags, decomp, swapped, t);
    CleanupAt(flags, decomp, swapped, mod);
    CleanupAt(flags, decomp, swapped, bak);
    forall p | p != t && p != mod && p != d && p != bak
      ensures SameAt(Swap(lib, flags, files, t, bak, af), files, p)
    {
      CleanupAt(flags, decomp, swapped, p);
      WrittenAt(lib, flags, files, t, af, p);
    }
  }

  /** A swapped file's backup name is a fresh one of its numbered backup names; then `SwapSpec` applies. */
  lemma StepSwaps(lib: InstallerLib, flags: set<string>, rootDir: Path, files: Files, af: AffectedFile)
    requires Step(lib, flags, rootDir, files, af).status == Swapped
    ensures var t := Target(rootDir, af);
      var bak := NextBackup(files, t);
      var after := Step(lib, flags, rootDir, files, af).files;
      && t in files && bak.Some? && bak.value !in files && IsBackupName(t, bak.value)
      && bak.value in after && after[bak.value] == files[t]
      && t in after && after[t] == ModContent(lib, af, files[t])
      && t + ".mod" !in after
      && forall p :: p != t && p != t + ".mod" && p != t + ".decomp" && p != bak.value ==> SameAt(after, files, p)
  {
    var t := Target(rootDir, af);
    var bak := NextBackup(files, t);
    NextBackupIsFree(files, t);
    BackupNameShape(t, bak.value);
    SwapSpec(lib, flags, files, t, bak.value, af);
  }

  /** A step changes nothing at a path that does not start with its target. */
  lemma StepFrame(lib: InstallerLib, flags: set<string>, rootDir: Path, files: Files, af: AffectedFile, p: Path)
    requires !StartsWith(p, Target(rootDir, af))
    ensures SameAt(Step(lib, flags, rootDir, files, af).files, files, p)
  {
    var t := Target(rootDir, af);
    if Step(lib, flags, rootDir, files, af).status == Swapped {
      StepSwaps(lib, flags, rootDir, files, af);
      var bak := NextBackup(files, t).value;
      BackupNameShape(t, bak);
      assert (t + ".mod")[..|t|] == t && (t + ".decomp")[..|t|] == t;
    }
  }

  /**
   * A run that stops at file `k` leaves the filesystem exactly as the first
   * `k` files left it, and `k` is the file whose step reported the stop.
   */
  lemma {:induction false} RunStepsAborts(step: StepFn, files: Files, afs: seq<AffectedFile>)
    ensures var r := RunSteps(step, files, afs);
      !r.outcome.Completed? ==>
        && (r.outcome.BackupsExhausted? || r.outcome.TargetMissing?)
        && r.outcome.index < |afs|
        && RunSteps(step, files, afs[..r.outcome.index]) == Run(r.files, Completed)
        && (r.outcome.BackupsExhausted? ==> step(r.files, afs[r.outcome.index]).status == NoBackup)
        && (r.outcome.TargetMissing? ==> step(r.files, afs[r.outcome.index]).status == NoTarget)
    decreases |afs|
  {
    if afs != [] {
      var init := afs[..|afs| - 1];
      var prev := RunSteps(step, files, init);
      if !prev.outcome.Completed? {
        RunStepsAborts(step, files, init);
        var k := prev.outcome.index;
        assert init[..k] == afs[..k] && init[k] == afs[k];
      }
    }
  }

  /**
   * An `applyemip` run that stops at file `k` leaves the filesystem exactly as
   * the first `k` files left it: those stay swapped, and file `k` (whose
   * `.mod` is never written) and the later ones are untouched. It stops for
   * want of a backup name only when file `k` has none free.
   */
  lemma InstallAborts(lib: InstallerLib, flags: set<string>, rootDir: Path, files: Files, afs: seq<AffectedFile>)
    ensures var r := Install(lib, flags, rootDir, files, afs);
      !r.outcome.Completed? ==>
        && (r.outcome.BackupsExhausted? || r.outcome.TargetMissing?)
        && r.outcome.index < |afs|
        && Install(lib, flags, rootDir, files, afs[..r.outcome.index]) == Run(r.files, Completed)
        && (r.outcome.BackupsExhausted? ==>
              NextBackup(r.files, Target(rootDir, afs[r.outcome.index])).None?)
        && (r.outcome.TargetMissing? ==>
              Step(lib, flags, rootDir, r.files, afs[r.outcome.index]).status == NoTarget)
  {
    var step := StepOf(lib, flags, rootDir);
    RunStepsAborts(step, files, afs);
    var r := RunSteps(step, files, afs);
    if !r.outcome.Completed? {
      assert step(r.files, afs[r.outcome.index]) == Step(lib, flags, rootDir, r.files, afs[r.outcome.index]);
    }
  }

  /** Once a run has stopped, further affected files change nothing. */
  lemma {:induction false} RunStepsStopsForGood(step: StepFn, files: Files, afs: seq<AffectedFile>, more: seq<AffectedFile>)
    requires !RunSteps(step, files, afs).outcome.Completed?
    ensures RunSteps(step, files, afs + more) == RunSteps(step, files, afs)
    decreases |more|
  {
    if more == [] {
      assert afs + more == afs;
    } else {
      var init := more[..|more| - 1];
      assert (afs + more)[..|afs + more| - 1] == afs + init;
      RunStepsStopsForGood(step, files, afs, init);
    }
  }

  /** The affected files from `m` on leave `p` alone when each of their steps does. */
  lemma {:induction false} RunStepsSegmentFrame(step: StepFn, files: Files, afs: seq<AffectedFile>, m: nat, p: Path)
    requires m <= |afs|
    requires forall j, f :: m <= j < |afs| ==> SameAt(step(f, afs[j]).files, f, p)
    ensures SameAt(RunSteps(step, files, afs).files, RunSteps(step, files, afs[..m]).files, p)
    decreases |afs|
  {
    if |afs| == m {
      assert afs[..m] == afs;
    } else {
      var init := afs[..|afs| - 1];
      assert init[..m] == afs[..m];
      forall j, f | m <= j < |init| ensures SameAt(step(f, init[j]).files, f, p) {
        assert init[j] == afs[j];
      }
      RunStepsSegmentFrame(step, files, init, m, p);
      var prev := RunSteps(step, files, init);
      assert SameAt(step(prev.files, afs[|afs| - 1]).files, prev.files, p);
    }
  }

  /** The affected files from `m` on leave alone every path that starts with none of their targets. */
  lemma InstallSegmentFrame(lib: InstallerLib, flags: set<string>, rootDir: Path, files: Files,
                            afs: seq<AffectedFile>, m: nat, p: Path)
    requires m <= |afs|
    requires forall j :: m <= j < |afs| ==> !StartsWith(p, Target(rootDir, afs[j]))
    ensures SameAt(Install(lib, flags, rootDir, files, afs).files, Install(lib, flags, rootDir, files, afs[..m]).files, p)
  {
    var step := StepOf(lib, flags, rootDir);
    forall j, f | m <= j < |afs| ensures SameAt(step(f, afs[j]).files, f, p) {
      StepFrame(lib, flags, rootDir, f, afs[j], p);
    }
    RunStepsSegmentFrame(step, files, afs, m, p);
  }

  /** No target is a prefix of another affected file's target (so in particular no two are equal). */
  predicate Independent(rootDir: Path, afs: seq<AffectedFile>) {
    forall i, j :: 0 <= i < |afs| && 0 <= j < |afs| && i != j ==> !StartsWith(Target(rootDir, afs[i]), Target(rootDir, afs[j]))
  }

  /** Two prefixes of one string are prefixes of each other. */
  lemma PrefixesComparable(s: string, a: string, b: string)
    requires StartsWith(s, a) && StartsWith(s, b) && |a| <= |b|
    ensures StartsWith(b, a)
  {
    assert b[..|a|] == s[..|b|][..|a|];
  }

  /** With independent targets, a path under one file's target is under no other file's target. */
  lemma OtherTargetsMiss(rootDir: Path, afs: seq<AffectedFile>, j: nat, p: Path)
    requires Independent(rootDir, afs) && j < |afs| && StartsWith(p, Target(rootDir, afs[j]))
    ensures forall i :: 0 <= i < |afs| && i != j ==> !StartsWith(p, Target(rootDir, afs[i]))
  {
    var t := Target(rootDir, afs[j]);
    forall i | 0 <= i < |afs| && i != j ensures !StartsWith(p, Target(rootDir, afs[i])) {
      var u := Target(rootDir, afs[i]);
      if StartsWith(p, u) {
        if |t| <= |u| {
          PrefixesComparable(p, t, u);
        } else {
          PrefixesComparable(p, u, t);
        }
        assert false;
      }
    }
  }

  /** With independent targets, the files before `j` leave `j`'s target alone. */
  lemma EarlierFilesMissTarget(lib: InstallerLib, flags: set<string>, rootDir: Path, files: Files,
                               afs: seq<AffectedFile>, j: nat)
    requires Independent(rootDir, afs) && j < |afs|
    ensures SameAt(Install(lib, flags, rootDir, files, afs[..j]).files, files, Target(rootDir, afs[j]))
  {
    var t := Target(rootDir, afs[j]);
    var before := afs[..j];
    OtherTargetsMiss(rootDir, afs, j, t) by { assert t[..|t|] == t; }
    assert before[..0] == [];
    forall i | 0 <= i < |before| ensures !StartsWith(t, Target(rootDir, before[i])) {
      assert before[i] == afs[i];
    }
    InstallSegmentFrame(lib, flags, rootDir, files, before, 0, t);
  }

  /** With independent targets, the files after `j` leave alone every path that starts with `j`'s target. */
  lemma LaterFilesMissTarget(lib: InstallerLib, flags: set<string>, rootDir: Path, files: Files,
                             afs: seq<AffectedFile>, j: nat, p: Path)
    requires Independent(rootDir, afs) && j < |afs| && StartsWith(p, Target(rootDir, afs[j]))
    ensures SameAt(Install(lib, flags, rootDir, files, afs).files, Install(lib, flags, rootDir, files, afs[..j + 1]).files, p)
  {
    OtherTargetsMiss(rootDir, afs, j, p);
    InstallSegmentFrame(lib, flags, rootDir, files, afs, j + 1, p);
  }

  /** With independent targets, file `j` is swapped right after its own step. */
  lemma SwappedAfterOwnStep(lib: InstallerLib, flags: set<string>, rootDir: Path, files: Files,
                            afs: seq<AffectedFile>, j: nat)
    requires Independent(rootDir, afs)
    requires j < |afs| && Install(lib, flags, rootDir, files, afs[..j + 1]).outcome.Completed?
    ensures var t := Target(rootDir, afs[j]);
      var bak := NextBackup(Install(lib, flags, rootDir, files, afs[..j]).files, t);
      var now := Install(lib, flags, rootDir, files, afs[..j + 1]).files;
      && t in files && bak.Some? && IsBackupName(t, bak.value)
      && bak.value in now && now[bak.value] == files[t]
      && t in now && now[t] == ModContent(lib, afs[j], files[t])
      && t + ".mod" !in now
  {
    var mid := Install(lib, flags, rootDir, files, afs[..j]).files;
    assert Install(lib, flags, rootDir, files, afs[..j]).outcome.Completed? by {
      assert afs[..j + 1][..j] == afs[..j];
    }
    InstallNext(lib, flags, rootDir, files, afs, j);
    EarlierFilesMissTarget(lib, flags, rootDir, files, afs, j);
    StepSwaps(lib, flags, rootDir, mid, afs[j]);
  }

  /**
   * With independent targets, a file the run has swapped stays swapped
   * whatever happens later: its original contents are at its backup name,
   * its patched contents at its path, and its `.mod` file is gone.
   */
  lemma EarlierFilesStaySwapped(lib: InstallerLib, flags: set<string>, rootDir: Path, files: Files,
                                afs: seq<AffectedFile>, j: nat)
    requires Independent(rootDir, afs)
    requires j < |afs| && Install(lib, flags, rootDir, files, afs[..j + 1]).outcome.Completed?
    ensures var t := Target(rootDir, afs[j]);
      var bak := NextBackup(Install(lib, flags, rootDir, files, afs[..j]).files, t);
      var fin := Install(lib, flags, rootDir, files, afs).files;
      && t in files && bak.Some?
      && bak.value in fin && fin[bak.value] == files[t]
      && t in fin && fin[t] == ModContent(lib, afs[j], files[t])
      && t + ".mod" !in fin
  {
    var t := Target(rootDir, afs[j]);
    SwappedAfterOwnStep(lib, flags, rootDir, files, afs, j);
    var bak := NextBackup(Install(lib, flags, rootDir, files, afs[..j]).files, t).value;
    BackupNameShape(t, bak);
    var mod := t + ".mod";
    assert StartsWith(mod, t) by { assert mod[..|t|] == t; }
    LaterFilesMissTarget(lib, flags, rootDir, files, afs, j, bak);
    LaterFilesMissTarget(lib, flags, rootDir, files, afs, j, t) by { assert t[..|t|] == t; }
    LaterFilesMissTarget(lib, flags, rootDir, files, afs, j, mod);
  }

  /** One more affected file after an `applyemip` run that has not stopped so far. */
  lemma InstallNext(lib: InstallerLib, flags: set<string>, rootDir: Path, files: Files, afs: seq<AffectedFile>, i: nat)
    requires i < |afs| && Install(lib, flags, rootDir, files, afs[..i]).outcome.Completed?
    ensures var prev := Install(lib, flags, rootDir, files, afs[..i]).files;
      var s := Step(lib, flags, rootDir, prev, afs[i]);
      Install(lib, flags, rootDir, files, afs[..i + 1]) ==
        Run(s.files, match s.status
                     case Swapped => Completed
                     case NoBackup => BackupsExhausted(i)
                     case NoTarget => TargetMissing(i))
  {
    var step := StepOf(lib, flags, rootDir);
    assert Install(lib, flags, rootDir, files, afs[..i]) == RunSteps(step, files, afs[..i]);
    assert Install(lib, flags, rootDir, files, afs[..i + 1]) == RunSteps(step, files, afs[..i + 1]);
    RunStepsNext(step, files, afs, i);
    var prev := Install(lib, flags, rootDir, files, afs[..i]).files;
    assert step(prev, afs[i]) == Step(lib, flags, rootDir, prev, afs[i]);
  }

  /** One more affected file after a run that has not stopped so far: its step decides how the run goes on. */
  lemma RunStepsNext(step: StepFn, files: Files, afs: seq<AffectedFile>, i: nat)
    requires i < |afs| && RunSteps(step, files, afs[..i]).outcome.Completed?
    ensures var prev := RunSteps(step, files, afs[..i]).files;
      var s := step(prev, afs[i]);
      RunSteps(step, files, afs[..i + 1]) ==
        match s.status
        case Swapped => Run(s.files, Completed)
        case NoBackup => Run(prev, BackupsExhausted(i))
        case NoTarget => Run(prev, TargetMissing(i))
  {
    var next := afs[..i + 1];
    assert next[..|next| - 1] == afs[..i] && next[|next| - 1] == afs[i];
    assert RunSteps(step, files, next[..|next| - 1]) == RunSteps(step, files, afs[..i]);
  }

  /** Writes `<path>.mod` and swaps it in for the original, which goes to the backup name. */
  method SwapFile(fs: FileSystem, lib: InstallerLib, flags: set<string>, target: Path, bak: Path, af: AffectedFile)
    requires target in fs.files && bak !in fs.files
    requires bak != target && bak != target + ".mod" && bak != target + ".decomp"
    modifies fs
    ensures fs.files == Swap(lib, flags, old(fs.files), target, bak, af) && fs.dirs == old(fs.dirs)
  {
    var modFile := target + ".mod";
    assert |modFile| != |target|;
    if af.isBundle {
      var decompFile := DecompPath(target, "-md" in flags);
      var data := DecompressBundle(fs, lib.bundles, target, decompFile);
      fs.WriteAllBytes(modFile, lib.patchBundle(data, af.replacers));
      fs.Move(target, bak);
      fs.Move(modFile, target);
      RemoveDecomp(fs, flags, decompFile);
    } else {
      var data := fs.files[target];
      fs.WriteAllBytes(modFile, lib.patchAssets(data, af.replacers));
      fs.Move(target, bak);
      fs.Move(modFile, target);
    }
  }

  /** Handles one affected file as `applyemip` does, reporting whether it was swapped or why the run stops. */
  method InstallAffectedFile(fs: FileSystem, lib: InstallerLib, flags: set<string>, rootDir: Path, af: AffectedFile)
    returns (status: StepStatus)
    modifies fs
    ensures fs.dirs == old(fs.dirs)
    ensures StepResult(status, fs.files) == Step(lib, flags, rootDir, old(fs.files), af)
  {
    var target := Combine(rootDir, af.path);
    var bakFile := GetNextBackup(fs.files, target);
    if bakFile.None? {
      return NoBackup;
    }
    if target !in fs.files {
      return NoTarget;
    }
    NextBackupIsFree(fs.files, target);
    BackupNameShape(target, bakFile.value);
    SwapFile(fs, lib, flags, target, bakFile.value, af);
    return Swapped;
  }

  /** `ApplyEmip`: reads the package named by `args[1]` and installs it under the root directory `args[2]`. */
  method ApplyEmip(fs: FileSystem, lib: InstallerLib, args: seq<string>) returns (outcome: Outcome)
    modifies fs
    ensures fs.dirs == old(fs.dirs)
    ensures |args| < 3 ==> outcome == ArgumentMissing && fs.files == old(fs.files)
    ensures |args| >= 3 && args[1] !in old(fs.files) ==> outcome == EmipMissing && fs.files == old(fs.files)
    ensures |args| >= 3 && args[1] in old(fs.files) ==>
              var pkg := lib.readPackage(old(fs.files)[args[1]]);
              Install(lib, Flags(args), args[2], old(fs.files), pkg.affectedFiles) == Run(fs.files, outcome)
  {
    var flags := GetFlags(args);
    if |args| < 3 {
      return ArgumentMissing;
    }
    var emipFile := args[1];
    var rootDir := args[2];
    if emipFile !in fs.files {
      return EmipMissing;
    }
    var pkg := lib.readPackage(fs.files[emipFile]);
    var afs := pkg.affectedFiles;
    for i := 0 to |afs|
      invariant Install(lib, flags, rootDir, old(fs.files), afs[..i]) == Run(fs.files, Completed)
      invariant fs.dirs == old(fs.dirs)
    {
      InstallNext(lib, flags, rootDir, old(fs.files), afs, i);
      var status := InstallAffectedFile(fs, lib, flags, rootDir, afs[i]);
      if status != Swapped {
        outcome := if status == NoBackup then BackupsExhausted(i) else TargetMissing(i);
        RunStepsStopsForGood(StepOf(lib, flags, rootDir), old(fs.files), afs[..i + 1], afs[i + 1..]);
        assert afs[..i + 1] + afs[i + 1..] == afs;
        return;
      }
    }
    assert afs[..|afs|] == afs;
    return Completed;
  }
}
