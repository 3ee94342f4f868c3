/**
 * Splitting the command line. `args[0]` is the command; the arguments after
 * it are either flags (they start with `-`) or the main file name.
 */
module Arguments {
  import opened Strings

  predicate IsFlag(a: string) {
    StartsWith(a, "-")
  }

  /** The first non-flag argument at or after index `from`, or the empty string. */
  function FirstNonFlag(args: seq<string>, from: nat): (r: string)
    decreases |args| - from
  {
    if from >= |args| then ""
    else if !IsFlag(args[from]) then args[from]
    else FirstNonFlag(args, from + 1)
  }

  /** The main file name of a command line: its first non-flag argument after the command. */
  function MainFileName(args: seq<string>): string {
    FirstNonFlag(args, 1)
  }

  /** The flags of a command line: every argument after the command that starts with `-`. */
  function Flags(args: seq<string>): (r: set<string>)
    ensures forall a :: a in r <==> exists i :: 1 <= i < |args| && args[i] == a && IsFlag(a)
  {
    set i | 1 <= i < |args| && IsFlag(args[i]) :: args[i]
  }

  /** With only flags from `from` on, there is no non-flag argument to find. */
  lemma {:induction false} FirstNonFlagNone(args: seq<string>, from: nat)
    requires forall i :: from <= i < |args| ==> IsFlag(args[i])
    ensures FirstNonFlag(args, from) == ""
    decreases |args| - from
  {
    if from < |args| {
      FirstNonFlagNone(args, from + 1);
    }
  }

  /** The first non-flag argument at or after `from` is the one found. */
  lemma {:induction false} FirstNonFlagAt(args: seq<string>, from: nat, k: nat)
    requires from <= k < |args| && !IsFlag(args[k])
    requires forall j :: from <= j < k ==> IsFlag(args[j])
    ensures FirstNonFlag(args, from) == args[k]
    decreases k - from
  {
    if from < k {
      FirstNonFlagAt(args, from + 1, k);
    }
  }

  /** `GetMainFileName`: scans the arguments after the command and returns the first non-flag. */
  method GetMainFileName(args: seq<string>) returns (r: string)
    ensures (forall i :: 1 <= i < |args| ==> IsFlag(args[i])) ==> r == ""
    ensures forall k :: 1 <= k < |args| && !IsFlag(args[k]) && (forall j :: 1 <= j < k ==> IsFlag(args[j])) ==> r == args[k]
    ensures r == MainFileName(args)
  {
    if forall i :: 1 <= i < |args| ==> IsFlag(args[i]) {
      FirstNonFlagNone(args, 1);
    }
    forall k | 1 <= k < |args| && !IsFlag(args[k]) && (forall j :: 1 <= j < k ==> IsFlag(args[j])) {
      FirstNonFlagAt(args, 1, k);
    }
    var i := 1;
    while i < |args|
      invariant 1 <= i
      invariant forall j :: 1 <= j < i && j < |args| ==> IsFlag(args[j])
    {
      if !IsFlag(args[i]) {
        return args[i];
      }
      i := i + 1;
    }
    return "";
  }

  /** `GetFlags`: collects every argument after the command that starts with `-`. */
  method GetFlags(args: seq<string>) returns (flags: set<string>)
    ensures forall a :: a in flags <==> exists i :: 1 <= i < |args| && args[i] == a && IsFlag(a)
    ensures flags == Flags(args)
  {
    flags := {};
    var i := 1;
    while i < |args|
      invariant 1 <= i
      invariant forall a :: a in flags <==> exists j :: 1 <= j < i && j < |args| && args[j] == a && IsFlag(a)
    {
      if IsFlag(args[i]) {
        flags := flags + {args[i]};
      }
      i := i + 1;
    }
  }
}
