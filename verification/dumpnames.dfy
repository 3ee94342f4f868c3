/**
 * The names of text dumps: the file a dumped object is written to, and the
 * recovery of an object's path id from a dump file's name with the pattern
 * `-(?<hash>[a-f0-9]+)-(?<name>[^-]+)-(?<suffix>-?\d+)`, matched as the
 * regular-expression engine does (leftmost start, greedy groups), followed
 * by `long.Parse` of the suffix.
 */
module DumpNames {
  import opened Options
  import opened Strings
  import opened Paths

  /** `<dir>/<file>-<name>-<pathId>.txt` for an object of the assets file at `instPath`. */
  function DumpFileName(instPath: Path, name: string, pathId: int): Path {
    GetDirectoryName(instPath) + "/" + GetFileName(instPath) + "-" + name + "-" + IntToString(pathId) + ".txt"
  }

  predicate IsHex(c: char) {
    '0' <= c <= '9' || 'a' <= c <= 'f'
  }

  predicate NotDash(c: char) {
    c != '-'
  }

  /** The end of the longest run of characters satisfying `p` that starts at `i`. */
  function RunEnd(s: string, i: nat, p: char -> bool): (r: nat)
    requires i <= |s|
    ensures i <= r <= |s|
    ensures forall k :: i <= k < r ==> p(s[k])
    ensures r < |s| ==> !p(s[r])
    decreases |s| - i
  {
    if i < |s| && p(s[i]) then RunEnd(s, i + 1, p) else i
  }

  /** What `-?\d+` matches: digits, optionally after one `-`. */
  predicate SignedDigits(t: string) {
    (|t| > 0 && AllDigits(t)) || (|t| > 1 && t[0] == '-' && AllDigits(t[1..]))
  }

  /**
   * A match of the pattern: `s[start]` and `s[hashEnd]` and `s[nameEnd]` are
   * the three dashes, the hash group is `s[start + 1..hashEnd]`, the name
   * group `s[hashEnd + 1..nameEnd]` and the suffix group `s[nameEnd + 1..end]`.
   */
  datatype Groups = Groups(start: nat, hashEnd: nat, nameEnd: nat, end: nat)

  /** The pattern matches `s` with these groups. */
  predicate PatternAt(s: string, g: Groups) {
    && g.start < g.hashEnd < g.nameEnd < g.end <= |s|
    && s[g.start] == '-' && g.start + 1 < g.hashEnd
    && (forall k :: g.start + 1 <= k < g.hashEnd ==> IsHex(s[k]))
    && s[g.hashEnd] == '-' && g.hashEnd + 1 < g.nameEnd
    && (forall k :: g.hashEnd + 1 <= k < g.nameEnd ==> s[k] != '-')
    && s[g.nameEnd] == '-'
    && SignedDigits(s[g.nameEnd + 1..g.end])
  }

  /**
   * The end of the suffix group starting at `q`: `-?` takes the dash when a
   * digit follows it, and `\d+` takes every digit.
   */
  function SuffixEnd(s: string, q: nat): (r: Option<nat>)
    requires q <= |s|
    ensures r.Some? ==> q < r.value <= |s| && SignedDigits(s[q..r.value])
    ensures r.Some? ==> r.value == |s| || !IsDigit(s[r.value])
  {
    if q + 1 < |s| && s[q] == '-' && IsDigit(s[q + 1]) then
      var e := RunEnd(s, q + 1, IsDigit);
      assert AllDigits(s[q..e][1..]) by { assert s[q..e][1..] == s[q + 1..e]; }
      Some(e)
    else if q < |s| && IsDigit(s[q]) then
      Some(RunEnd(s, q, IsDigit))
    else None
  }

  /** The match the engine finds when it tries start position `i`. */
  function MatchAt(s: string, i: nat): (r: Option<Groups>)
    requires i <= |s|
    ensures r.Some? ==> r.value.start == i < r.value.hashEnd < r.value.nameEnd < r.value.end <= |s|
  {
    if i < |s| && s[i] == '-' then
      var h := RunEnd(s, i + 1, IsHex);
      if i + 1 < h < |s| && s[h] == '-' then
        var n := RunEnd(s, h + 1, NotDash);
        if h + 1 < n < |s| then
          match SuffixEnd(s, n + 1)
          case Some(e) => Some(Groups(i, h, n, e))
          case None => None
        else None
      else None
    else None
  }

  /** When the engine reports a match at a start position, it is a match of the pattern there with the longest suffix. */
  lemma MatchAtSound(s: string, i: nat)
    requires i <= |s| && MatchAt(s, i).Some?
    ensures PatternAt(s, MatchAt(s, i).value)
    ensures MatchAt(s, i).value.end == |s| || !IsDigit(s[MatchAt(s, i).value.end])
  {
  }

  /**
   * The engine misses no match at a start position, and the one it reports
   * is the greedy one: the same hash and name, and the longest suffix.
   */
  lemma MatchAtComplete(s: string, g: Groups)
    requires PatternAt(s, g)
    ensures MatchAt(s, g.start).Some?
    ensures MatchAt(s, g.start).value.hashEnd == g.hashEnd && MatchAt(s, g.start).value.nameEnd == g.nameEnd
    ensures MatchAt(s, g.start).value.end >= g.end
  {
    var i := g.start;
    var h := RunEnd(s, i + 1, IsHex);
    assert h == g.hashEnd;
    var n := RunEnd(s, h + 1, NotDash);
    assert n == g.nameEnd;
    var t := s[n + 1..g.end];
    assert s[n + 1] == t[0];
    if s[n + 1] == '-' {
      assert t[1..] == s[n + 2..g.end];
      assert IsDigit(t[1]);
      forall k | n + 2 <= k < g.end ensures IsDigit(s[k]) {
        assert s[k] == t[1..][k - n - 2];
      }
    } else {
      forall k | n + 1 <= k < g.end ensures IsDigit(s[k]) {
        assert s[k] == t[k - n - 1];
      }
    }
  }

  /** The engine tries start positions from `i` on and reports the first match. */
  function FirstMatch(s: string, i: nat): (r: Option<Groups>)
    requires i <= |s|
    ensures r.Some? ==> i <= r.value.start < r.value.hashEnd < r.value.nameEnd < r.value.end <= |s|
    decreases |s| - i
  {
    if i == |s| then None
    else match MatchAt(s, i)
      case Some(g) => Some(g)
      case None => FirstMatch(s, i + 1)
  }

  /** The reported match is the match the engine finds at its own start position. */
  lemma {:induction false} FirstMatchIsMatch(s: string, i: nat)
    requires i <= |s| && FirstMatch(s, i).Some?
    ensures MatchAt(s, FirstMatch(s, i).value.start) == FirstMatch(s, i)
    decreases |s| - i
  {
    if MatchAt(s, i).None? {
      FirstMatchIsMatch(s, i + 1);
    }
  }

  /** No start position before the reported match, nor any at all when none is reported, has a match. */
  lemma {:induction false} FirstMatchNoneBefore(s: string, i: nat, j: nat)
    requires i <= j <= |s|
    requires FirstMatch(s, i).None? || j < FirstMatch(s, i).value.start
    ensures MatchAt(s, j).None?
    decreases j - i
  {
    if i < j {
      assert MatchAt(s, i).None?;
      FirstMatchNoneBefore(s, i + 1, j);
    }
  }

  /** The reported match is the leftmost one; there is none only when no start position has one. */
  lemma FirstMatchLeftmost(s: string, i: nat)
    requires i <= |s|
    ensures FirstMatch(s, i).Some? ==>
              var g := FirstMatch(s, i).value;
              i <= g.start <= |s| && MatchAt(s, g.start) == Some(g)
              && forall j :: i <= j < g.start ==> MatchAt(s, j).None?
    ensures FirstMatch(s, i).None? ==> forall j :: i <= j <= |s| ==> MatchAt(s, j).None?
  {
    if FirstMatch(s, i).Some? {
      FirstMatchIsMatch(s, i);
    }
    forall j | i <= j <= |s| && (FirstMatch(s, i).None? || j < FirstMatch(s, i).value.start)
      ensures MatchAt(s, j).None?
    {
      FirstMatchNoneBefore(s, i, j);
    }
  }

  /** The pattern matches somewhere in `s` exactly when the engine reports a match. */
  lemma RegexFindsAMatch(s: string)
    ensures FirstMatch(s, 0).Some? <==> exists g :: PatternAt(s, g)
    ensures FirstMatch(s, 0).Some? ==> PatternAt(s, FirstMatch(s, 0).value)
  {
    FirstMatchLeftmost(s, 0);
    if FirstMatch(s, 0).Some? {
      MatchAtSound(s, FirstMatch(s, 0).value.start);
    } else {
      forall g | PatternAt(s, g) ensures false {
        MatchAtComplete(s, g);
      }
    }
  }

  const LongMin: int := -0x8000_0000_0000_0000
  const LongMax: int := 0x7FFF_FFFF_FFFF_FFFF

  predicate InLong(x: int) {
    LongMin <= x <= LongMax
  }

  /** `long.Parse` of what `-?\d+` matched; `None` where it would overflow. */
  function ParseLong(t: string): (r: Option<int>)
    ensures r.Some? ==> InLong(r.value)
  {
    if |t| > 1 && t[0] == '-' && AllDigits(t[1..]) then
      var v := -(ParseNat(t[1..]) as int);
      if InLong(v) then Some(v) else None
    else if AllDigits(t) then
      var v := ParseNat(t);
      if InLong(v) then Some(v) else None
    else None
  }

  /** Printing a `long` and parsing it back gives the same number. */
  lemma ParseLongIntToString(x: int)
    requires InLong(x)
    ensures ParseLong(IntToString(x)) == Some(x)
  {
    if x < 0 {
      var t := IntToString(x);
      assert t[1..] == NatToString(-x);
      ParseNatToString(-x);
    } else {
      ParseNatToString(x);
    }
  }

  /** The path id a dump file's name carries, if its name matches the pattern. */
  function ExtractId(fileName: string): (r: Option<int>)
    ensures r.Some? ==> InLong(r.value)
  {
    match FirstMatch(fileName, 0)
    case None => None
    case Some(g) => ParseLong(fileName[g.nameEnd + 1..g.end])
  }

  /**
   * Every dash of `lead` is followed by a run of hex digits (possibly empty)
   * that ends inside `lead` at a character other than a dash, so no match
   * of the pattern can start at it whatever follows `lead`.
   */
  predicate InertDashes(lead: string) {
    forall j :: 0 <= j < |lead| && lead[j] == '-' ==>
      var h := RunEnd(lead, j + 1, IsHex);
      h == j + 1 || (h < |lead| && lead[h] != '-')
  }

  /** A run that holds up to `k` and stops at `k` ends there. */
  lemma {:induction false} RunEndAt(s: string, i: nat, k: nat, p: char -> bool)
    requires i <= k < |s| && !p(s[k])
    requires forall m :: i <= m < k ==> p(s[m])
    ensures RunEnd(s, i, p) == k
    decreases k - i
  {
    if i < k {
      RunEndAt(s, i + 1, k, p);
    }
  }

  /**
   * A lead whose one dash is followed by hex digits and then a character
   * that is neither hex nor a dash, such as a separator, has inert dashes.
   */
  lemma OneDashInert(pre: string, hex: string, post: string)
    requires '-' !in pre && '-' !in post
    requires |hex| > 0 && forall k :: 0 <= k < |hex| ==> IsHex(hex[k])
    requires |post| > 0 && !IsHex(post[0]) && post[0] != '-'
    ensures InertDashes(pre + "-" + hex + post)
  {
    var lead := pre + "-" + hex + post;
    var a := |pre|;
    var h := a + 1 + |hex|;
    forall j | 0 <= j < |lead| && lead[j] == '-'
      ensures var e := RunEnd(lead, j + 1, IsHex); e == j + 1 || (e < |lead| && lead[e] != '-')
    {
      if j == a {
        forall m | j + 1 <= m < h ensures IsHex(lead[m]) {
          assert lead[m] == hex[m - a - 1];
        }
        assert lead[h] == post[0];
        RunEndAt(lead, j + 1, h, IsHex);
      }
    }
  }

  lemma NoDashIsInert(lead: string)
    requires '-' !in lead
    ensures InertDashes(lead)
  {
  }

  /** A run inside `s` that `t`'s first character would not continue ends where it ends in `s`. */
  lemma {:induction false} RunEndPrefix(s: string, t: string, i: nat, p: char -> bool)
    requires i <= |s| && |t| > 0 && !p(t[0])
    ensures RunEnd(s + t, i, p) == RunEnd(s, i, p)
    decreases |s| - i
  {
    if i < |s| {
      assert (s + t)[i] == s[i];
      if p(s[i]) {
        RunEndPrefix(s, t, i + 1, p);
      }
    } else {
      assert (s + t)[i] == t[0];
    }
  }

  /** No match starts inside a lead with inert dashes when a dash follows the lead. */
  lemma NoMatchInLead(lead: string, t: string, j: nat)
    requires InertDashes(lead) && |t| > 0 && t[0] == '-' && j < |lead|
    ensures MatchAt(lead + t, j).None?
  {
    var s := lead + t;
    assert s[j] == lead[j];
    if lead[j] == '-' {
      RunEndPrefix(lead, t, j + 1, IsHex);
      var h := RunEnd(lead, j + 1, IsHex);
      assert h == j + 1 || (h < |lead| && lead[h] != '-');
      assert RunEnd(s, j + 1, IsHex) == h;
      if h < |lead| {
        assert s[h] == lead[h];
      }
    }
  }

  /** No match starts inside a lead with inert dashes that a dash follows. */
  lemma NoMatchBeforeDash(lead: string, s: string)
    requires InertDashes(lead) && |lead| < |s| && s[..|lead|] == lead && s[|lead|] == '-'
    ensures forall j :: 0 <= j < |lead| ==> MatchAt(s, j).None?
  {
    var t := s[|lead|..];
    assert lead + t == s;
    forall j | 0 <= j < |lead| ensures MatchAt(s, j).None? {
      NoMatchInLead(lead, t, j);
    }
  }

  /** The groups of `<lead>-<hash>-<name>-<suffix><rest>` that follow the lead. */
  lemma TaggedNameGroups(lead: string, hash: string, name: string, suffix: string, rest: string)
    requires |hash| > 0 && forall k :: 0 <= k < |hash| ==> IsHex(hash[k])
    requires |name| > 0 && '-' !in name
    requires SignedDigits(suffix)
    requires rest == [] || !IsDigit(rest[0])
    ensures var s := lead + "-" + hash + "-" + name + "-" + suffix + rest;
      var n := |lead| + |hash| + |name| + 2;
      var g := Groups(|lead|, |lead| + |hash| + 1, n, n + 1 + |suffix|);
      && PatternAt(s, g)
      && s[n + 1..g.end] == suffix
      && (g.end == |s| || !IsDigit(s[g.end]))
      && s[..|lead|] == lead
  {
    var s := lead + "-" + hash + "-" + name + "-" + suffix + rest;
    var a := |lead|;
    var h := a + 1 + |hash|;
    var n := h + 1 + |name|;
    var e := n + 1 + |suffix|;
    assert s[a] == '-' && s[h] == '-' && s[n] == '-';
    assert s[a + 1..h] == hash;
    assert s[h + 1..n] == name;
    assert s[n + 1..e] == suffix;
    assert s[e..] == rest;
    forall k | a + 1 <= k < h ensures IsHex(s[k]) {
      assert s[k] == s[a + 1..h][k - a - 1];
    }
    forall k | h + 1 <= k < n ensures s[k] != '-' {
      assert s[k] == s[h + 1..n][k - h - 1];
    }
  }

  /** The engine reports a match with the longest suffix as it stands. */
  lemma MatchAtIsGroups(s: string, g: Groups)
    requires PatternAt(s, g) && (g.end == |s| || !IsDigit(s[g.end]))
    ensures MatchAt(s, g.start) == Some(g)
  {
    MatchAtComplete(s, g);
    MatchAtSound(s, g.start);
  }

  /**
   * A match with the longest suffix, before which no start position has a
   * match, is the one the engine reports, so the id is parsed from its suffix.
   */
  lemma ExtractIdFromFirstMatch(s: string, g: Groups)
    requires PatternAt(s, g) && (g.end == |s| || !IsDigit(s[g.end]))
    requires forall j :: 0 <= j < g.start ==> MatchAt(s, j).None?
    ensures FirstMatch(s, 0) == Some(g)
  {
    MatchAtIsGroups(s, g);
    FirstMatchLeftmost(s, 0);
  }

  /**
   * The id is recovered from `<lead>-<hash>-<name>-<id><rest>` when the
   * lead's dashes are inert, the hash is lowercase hex, the name is
   * non-empty without a dash, and the rest does not start with a digit.
   */
  lemma ExtractIdOfTaggedName(lead: string, hash: string, name: string, id: int, rest: string)
    requires InertDashes(lead)
    requires |hash| > 0 && forall k :: 0 <= k < |hash| ==> IsHex(hash[k])
    requires |name| > 0 && '-' !in name
    requires InLong(id)
    requires rest == [] || !IsDigit(rest[0])
    ensures ExtractId(lead + "-" + hash + "-" + name + "-" + IntToString(id) + rest) == Some(id)
  {
    var suffix := IntToString(id);
    assert SignedDigits(suffix) by {
      if id < 0 { assert suffix[1..] == NatToString(-id); }
    }
    var s := lead + "-" + hash + "-" + name + "-" + suffix + rest;
    TaggedNameGroups(lead, hash, name, suffix, rest);
    var n := |lead| + |hash| + |name| + 2;
    var g := Groups(|lead|, |lead| + |hash| + 1, n, n + 1 + |suffix|);
    NoMatchBeforeDash(lead, s);
    ExtractIdFromFirstMatch(s, g);
    assert ExtractId(s) == ParseLong(suffix);
    ParseLongIntToString(id);
  }

  /**
   * A dump written for an object is imported back into that object: the id
   * in `DumpFileName` is recovered when the assets file is named
   * `<stem>-<hex hash>`, the dashes of the directory and the stem are inert,
   * and the display name is non-empty without a dash.
   */
  lemma DumpNameRoundTrip(instPath: Path, stem: string, hash: string, name: string, pathId: int)
    requires InertDashes(GetDirectoryName(instPath) + "/" + stem)
    requires GetFileName(instPath) == stem + "-" + hash
    requires |hash| > 0 && forall k :: 0 <= k < |hash| ==> IsHex(hash[k])
    requires |name| > 0 && '-' !in name
    requires InLong(pathId)
    ensures ExtractId(DumpFileName(instPath, name, pathId)) == Some(pathId)
  {
    var root := GetDirectoryName(instPath) + "/";
    var lead := root + stem;
    ConcatAssoc(root, stem + "-", hash);
    ConcatAssoc(root, stem, "-");
    assert root + GetFileName(instPath) == lead + "-" + hash;
    ExtractIdOfTaggedName(lead, hash, name, pathId, ".txt");
  }
}

/** The dump file name quoted in the handler beside the pattern, worked through. */
module DumpNameSample {
  import opened Options
  import opened Strings
  import opened DumpNames
  import opened Paths

  /** The repository directory of the usage comment up to its dash, with `/` as separator. */
  const UsageRepo := "C:/Users/User" + "/source/repos/UABEA"

  /** The release directory of the usage comment, `<repo>-7/ReleaseFiles`. */
  const UsageDirectory := UsageRepo + "-7" + "/ReleaseFiles"

  /** The assets file of the usage comment's bundle, as the sample dump name shows it. */
  const UsageStem := "modelist.bundle_CAB"

  /** What follows `UABEA-7` in the usage comment's lead. */
  const UsageTail := "/ReleaseFiles" + "/" + UsageStem

  /**
   * The lead of a dump written for the usage comment's bundle has inert
   * dashes: the one in `UABEA-7` is followed by a hex digit and a separator.
   */
  lemma UsageLeadIsInert()
    ensures InertDashes(UsageDirectory + "/" + UsageStem)
  {
    UsageRepoHasNoDash();
    UsageTailHasNoDash();
    UsageLeadPieces();
    OneDashInert(UsageRepo, "7", UsageTail);
  }

  /** The part of the lead before its dash holds no dash. */
  lemma UsageRepoHasNoDash()
    ensures '-' !in UsageRepo
  {
  }

  /** The part of the lead after `UABEA-7` holds no dash. */
  lemma UsageTailHasNoDash()
    ensures '-' !in UsageTail
  {
  }

  /** The lead split at its dash. */
  lemma UsageLeadPieces()
    ensures UsageDirectory + "/" + UsageStem == UsageRepo + "-" + "7" + UsageTail
  {
    ConcatAssoc(UsageRepo + "-" + "7", "/ReleaseFiles", "/");
    ConcatAssoc(UsageRepo + "-" + "7", "/ReleaseFiles" + "/", UsageStem);
  }

  /**
   * A dump written for an object of the usage comment's bundle, in its
   * `UABEA-7` release directory, is imported back into that object.
   */
  lemma UsageLayoutRoundTrip(hash: string, name: string, pathId: int)
    requires |hash| > 0 && forall k :: 0 <= k < |hash| ==> IsHex(hash[k])
    requires |name| > 0 && '-' !in name
    requires InLong(pathId)
    ensures ExtractId(DumpFileName(UsageDirectory + "/" + (UsageStem + "-" + hash), name, pathId)) == Some(pathId)
  {
    var f := UsageStem + "-" + hash;
    assert '/' !in f by {
      forall k | 0 <= k < |f| ensures f[k] != '/' {
        if k >= |UsageStem| + 1 {
          assert f[k] == hash[k - |UsageStem| - 1];
        }
      }
    }
    JoinParts(UsageDirectory, f);
    UsageLeadIsInert();
    DumpNameRoundTrip(UsageDirectory + "/" + f, UsageStem, hash, name, pathId);
  }

  /** The digits of the sample id, the conversion unfolded a few digits at a time. */
  lemma SampleIdDigits7()
    ensures NatToString(5415249) == "5415249"
  {
    assert NatToString(5) == "5";
    assert NatToString(54) == "54";
    assert NatToString(541) == "541";
    assert NatToString(5415) == "5415";
    assert NatToString(54152) == "54152";
    assert NatToString(541524) == "541524";
  }

  lemma SampleIdDigits13()
    ensures NatToString(5415249613762) == "5415249613762"
  {
    SampleIdDigits7();
    assert NatToString(5415249) == "5415249";
    assert NatToString(54152496) == "54152496";
    assert NatToString(541524961) == "541524961";
    assert NatToString(5415249613) == "5415249613";
    assert NatToString(54152496137) == "54152496137";
    assert NatToString(541524961376) == "541524961376";
  }

  lemma SampleIdDigits()
    ensures NatToString(5415249613762791440) == "5415249613762791440"
  {
    SampleIdDigits13();
    assert NatToString(5415249613762) == "5415249613762";
    assert NatToString(54152496137627) == "54152496137627";
    assert NatToString(541524961376279) == "541524961376279";
    assert NatToString(5415249613762791) == "5415249613762791";
    assert NatToString(54152496137627914) == "54152496137627914";
    assert NatToString(541524961376279144) == "541524961376279144";
  }

  /** The text of the sample id: the sign's dash, then the digits. */
  lemma SampleIdText()
    ensures IntToString(-5415249613762791440) == "-" + "5415249613762791440"
  {
    SampleIdDigits();
  }

  /** The pieces of the sample name: a lead and a display name without dashes, and a lowercase hex hash. */
  lemma SamplePieces()
    ensures '-' !in "modelist.bundle_CAB" && '-' !in "TextMeshProUGUI"
    ensures var hash := "ce8a676bf4c36383835289e02833cef7";
      forall k :: 0 <= k < |hash| ==> IsHex(hash[k])
  {
  }

  /**
   * The dump file name quoted beside the pattern in the handler,
   * `modelist.bundle_CAB-ce8a676bf4c36383835289e02833cef7-TextMeshProUGUI--5415249613762791440.txt`
   * (written here in its pieces, the id's text as its sign and its digits),
   * carries the id -5415249613762791440.
   */
  lemma SampleDumpName()
    ensures ExtractId("modelist.bundle_CAB" + "-" + "ce8a676bf4c36383835289e02833cef7" + "-" + "TextMeshProUGUI"
                      + "-" + ("-" + "5415249613762791440") + ".txt") == Some(-5415249613762791440)
  {
    SampleIdText();
    SamplePieces();
    NoDashIsInert("modelist.bundle_CAB");
    ExtractIdOfTaggedName("modelist.bundle_CAB", "ce8a676bf4c36383835289e02833cef7", "TextMeshProUGUI",
                          -5415249613762791440, ".txt");
  }
}
