/**
 * Choosing a backup name for a file about to be replaced: the first of
 * `<path>.bak0000` ... `<path>.bak9999` that does not exist yet.
 */
module Backups {
  import opened Options
  import opened Strings
  import opened FileSystems
  import opened Paths

  /** How many backup names are probed. */
  const MaxBackups: nat := 10000

  /** The four-digit, zero-padded suffix of backup number `i`. */
  function BackupSuffix(i: nat): string {
    PadLeft(NatToString(i), 4, '0')
  }

  /** `<path>.bak` followed by `i` padded to four digits. */
  function BackupName(path: Path, i: nat): Path {
    path + ".bak" + BackupSuffix(i)
  }

  /** `name` is one of the backup names probed for `path`. */
  ghost predicate IsBackupName(path: Path, name: Path) {
    exists i :: 0 <= i < MaxBackups && name == BackupName(path, i)
  }

  /** The first free backup name from number `from` on, or `None`. */
  function NextBackupFrom(files: Files, path: Path, from: nat): Option<Path>
    decreases MaxBackups - from
  {
    if from >= MaxBackups then None
    else if BackupName(path, from) !in files then Some(BackupName(path, from))
    else NextBackupFrom(files, path, from + 1)
  }

  /** The backup name the installer uses for `path` in the filesystem `files`. */
  function NextBackup(files: Files, path: Path): Option<Path> {
    NextBackupFrom(files, path, 0)
  }

  /** Every suffix of a probed number is exactly four digits and names that number. */
  lemma BackupSuffixDigits(i: nat)
    requires i < MaxBackups
    ensures |BackupSuffix(i)| == 4 && AllDigits(BackupSuffix(i))
    ensures ParseNat(BackupSuffix(i)) == i
  {
    var s := NatToString(i);
    NatToStringLength(i, 4);
    ParseNatToString(i);
    ParseNatLeadingZeros(4 - |s|, s);
    assert BackupSuffix(i) == Repeat('0', 4 - |s|) + s;
  }

  /** The 10000 probed names are pairwise distinct. */
  lemma BackupNamesDistinct(path: Path, i: nat, j: nat)
    requires i < MaxBackups && j < MaxBackups && i != j
    ensures BackupName(path, i) != BackupName(path, j)
  {
    BackupSuffixDigits(i);
    BackupSuffixDigits(j);
    var n := |path| + 4;
    assert BackupName(path, i)[n..] == BackupSuffix(i);
    assert BackupName(path, j)[n..] == BackupSuffix(j);
  }

  /** A backup name is eight characters longer than its path and starts with it. */
  lemma BackupNameShape(path: Path, name: Path)
    requires IsBackupName(path, name)
    ensures |name| == |path| + 8 && name[..|path|] == path
    ensures name != path + ".mod" && name != path + ".decomp" && name != path
  {
    var i :| 0 <= i < MaxBackups && name == BackupName(path, i);
    BackupNameShapeAt(path, i);
  }

  lemma BackupNameShapeAt(path: Path, i: nat)
    requires i < MaxBackups
    ensures |BackupName(path, i)| == |path| + 8 && BackupName(path, i)[..|path|] == path
  {
    BackupSuffixDigits(i);
  }

  /** A chosen name is the first free candidate from `from` on; `i` is its number. */
  lemma {:induction false} NextBackupFromFirst(files: Files, path: Path, from: nat) returns (i: nat)
    requires NextBackupFrom(files, path, from).Some?
    ensures from <= i < MaxBackups && NextBackupFrom(files, path, from) == Some(BackupName(path, i))
    ensures BackupName(path, i) !in files && forall j :: from <= j < i ==> BackupName(path, j) in files
    decreases MaxBackups - from
  {
    if BackupName(path, from) !in files {
      i := from;
    } else {
      i := NextBackupFromFirst(files, path, from + 1);
    }
  }

  /** No name is chosen from `from` on exactly when every candidate from `from` on exists. */
  lemma {:induction false} NextBackupFromNone(files: Files, path: Path, from: nat)
    ensures NextBackupFrom(files, path, from).None? <==> forall i :: from <= i < MaxBackups ==> BackupName(path, i) in files
    decreases MaxBackups - from
  {
    if from < MaxBackups {
      NextBackupFromNone(files, path, from + 1);
    }
  }

  /**
   * The chosen name is the least free one: it does not exist, every earlier
   * candidate does, and no name is chosen exactly when all 10000 exist.
   */
  lemma NextBackupSpec(files: Files, path: Path)
    ensures var r := NextBackup(files, path);
      && (r.Some? ==> r.value !in files && IsBackupName(path, r.value))
      && (r.Some? ==> exists i :: 0 <= i < MaxBackups && r.value == BackupName(path, i)
                        && forall j :: 0 <= j < i ==> BackupName(path, j) in files)
      && (r.None? <==> forall i :: 0 <= i < MaxBackups ==> BackupName(path, i) in files)
  {
    NextBackupFromNone(files, path, 0);
    if NextBackup(files, path).Some? {
      var i := NextBackupFromFirst(files, path, 0);
    }
  }

  /** The chosen name, when there is one, is a free backup name of `path`. */
  lemma NextBackupIsFree(files: Files, path: Path)
    ensures var r := NextBackup(files, path);
      r.Some? ==> r.value !in files && IsBackupName(path, r.value)
  {
    if NextBackup(files, path).Some? {
      var i := NextBackupFromFirst(files, path, 0);
    }
  }

  /** `GetNextBackup`: probes the candidates in order and returns the first free one, or `None`. */
  method GetNextBackup(files: Files, path: Path) returns (r: Option<Path>)
    ensures r.Some? ==> r.value !in files
    ensures r.Some? ==> exists i :: 0 <= i < MaxBackups && r.value == BackupName(path, i)
                          && forall j :: 0 <= j < i ==> BackupName(path, j) in files
    ensures r.None? <==> forall i :: 0 <= i < MaxBackups ==> BackupName(path, i) in files
    ensures r == NextBackup(files, path)
  {
    var i := 0;
    while i < MaxBackups
      invariant 0 <= i <= MaxBackups
      invariant forall j :: 0 <= j < i ==> BackupName(path, j) in files
      invariant NextBackupFrom(files, path, i) == NextBackup(files, path)
    {
      var bakName := BackupName(path, i);
      if bakName !in files {
        return Some(bakName);
      }
      i := i + 1;
    }
    return None;
  }
}
