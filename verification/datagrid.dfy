/**
 * The data-grid pass of the dump commands: one row per loaded asset, with
 * its display name and type cut to 100 characters. While the rows are
 * built, an asset whose name contains a dump filter is dumped to a text
 * file, and a candidate dump file whose name carries the asset's path id is
 * imported into it. Two flags record what happened: `isDumped` (some dump
 * was written, or there were candidate dump files) and `needSave` (some
 * dump was imported, so the assets file must be saved).
 */
module DataGrid {
  import opened Options
  import opened Strings
  import opened Paths
  import opened DumpNames

  /** The longest display name or type shown in a row. */
  const MaxShownLength: nat := 100

  /** `s[..n]` when `s` is longer than `n`. */
  function Truncate(s: string, n: nat): (r: string)
    ensures |r| <= n && |r| <= |s| && r == s[..|r|]
    ensures |s| <= n ==> r == s
    ensures |s| > n ==> |r| == n
  {
    if |s| > n then s[..n] else s
  }

  /**
   * A loaded asset as the workspace describes it: display name and type
   * (as the name utilities produce them), path id, the index of its file
   * and that file's path.
   */
  datatype Asset = Asset(displayName: string, typeName: string, pathId: int, fileId: int, filePath: Path)

  /**
   * One export of an object's dump: the assets file it belongs to, the
   * shown name of its row and its path id. The text goes to `FileName()`.
   */
  datatype Dump = Dump(instPath: Path, name: string, pathId: int) {
    function FileName(): Path {
      DumpFileName(instPath, name, pathId)
    }
  }

  /** A row of the data grid. */
  datatype Item = Item(name: string, typeName: string, pathId: int, fileId: int)

  function ItemOf(a: Asset): (item: Item)
    ensures |item.name| <= MaxShownLength && |item.typeName| <= MaxShownLength
    ensures |item.name| <= |a.displayName| && |item.typeName| <= |a.typeName|
    ensures item.name == a.displayName[..|item.name|] && item.typeName == a.typeName[..|item.typeName|]
    ensures item.pathId == a.pathId && item.fileId == a.fileId
  {
    Item(Truncate(a.displayName, MaxShownLength), Truncate(a.typeName, MaxShownLength), a.pathId, a.fileId)
  }

  /** Some filter occurs in the name. */
  predicate AnyFilterHits(filters: seq<string>, name: string) {
    exists i :: 0 <= i < |filters| && Contains(name, filters[i])
  }

  /** The dumps written for a row named `name`: `dump` once for each filter the name contains. */
  function DumpsFor(filters: seq<string>, name: string, dump: Dump): seq<Dump>
    decreases |filters|
  {
    if filters == [] then []
    else
      DumpsFor(filters[..|filters| - 1], name, dump)
        + (if Contains(name, filters[|filters| - 1]) then [dump] else [])
  }

  /** A row is dumped exactly when some filter hits its name, and every dump is `dump` itself. */
  lemma {:induction false} DumpsForSpec(filters: seq<string>, name: string, dump: Dump)
    ensures |DumpsFor(filters, name, dump)| > 0 <==> AnyFilterHits(filters, name)
    ensures forall k :: 0 <= k < |DumpsFor(filters, name, dump)| ==> DumpsFor(filters, name, dump)[k] == dump
    decreases |filters|
  {
    if filters != [] {
      var init := filters[..|filters| - 1];
      DumpsForSpec(init, name, dump);
      if AnyFilterHits(init, name) {
        var i :| 0 <= i < |init| && Contains(name, init[i]);
        assert filters[i] == init[i];
      }
      if AnyFilterHits(filters, name) && !Contains(name, filters[|filters| - 1]) {
        var i :| 0 <= i < |filters| && Contains(name, filters[i]);
        assert init[i] == filters[i];
      }
    }
  }

  /** An empty filter (a flag made only of dashes) hits every name. */
  lemma EmptyFilterHitsAll(filters: seq<string>, name: string)
    requires "" in filters
    ensures AnyFilterHits(filters, name)
  {
    var i :| 0 <= i < |filters| && filters[i] == "";
    assert Contains(name, filters[i]);
  }

  /** The candidate dump files imported into an asset: those whose name carries its path id. */
  function ImportsFor(candidates: seq<Path>, pathId: int): seq<Path>
    decreases |candidates|
  {
    if candidates == [] then []
    else
      var f := candidates[|candidates| - 1];
      ImportsFor(candidates[..|candidates| - 1], pathId) + (if ExtractId(f) == Some(pathId) then [f] else [])
  }

  lemma {:induction false} ImportsForSpec(candidates: seq<Path>, pathId: int)
    ensures forall f :: f in ImportsFor(candidates, pathId) <==> f in candidates && ExtractId(f) == Some(pathId)
    decreases |candidates|
  {
    if candidates != [] {
      var init := candidates[..|candidates| - 1];
      ImportsForSpec(init, pathId);
      assert candidates == init + [candidates[|candidates| - 1]];
    }
  }

  lemma DumpsForNext(filters: seq<string>, i: nat, name: string, dump: Dump)
    requires i < |filters|
    ensures DumpsFor(filters[..i + 1], name, dump) ==
              DumpsFor(filters[..i], name, dump) + (if Contains(name, filters[i]) then [dump] else [])
  {
    assert filters[..i + 1][..i] == filters[..i];
  }

  lemma ImportsForNext(candidates: seq<Path>, i: nat, pathId: int)
    requires i < |candidates|
    ensures PairWith(ImportsFor(candidates[..i + 1], pathId), pathId) ==
              PairWith(ImportsFor(candidates[..i], pathId), pathId)
                + (if ExtractId(candidates[i]) == Some(pathId) then [(candidates[i], pathId)] else [])
  {
    assert candidates[..i + 1][..i] == candidates[..i];
  }

  /** The import half of the candidate loop: each candidate whose name carries `pathId`, in order. */
  method CollectImports(candidates: seq<Path>, pathId: int) returns (found: seq<(Path, int)>)
    ensures found == PairWith(ImportsFor(candidates, pathId), pathId)
  {
    found := [];
    for i := 0 to |candidates|
      invariant found == PairWith(ImportsFor(candidates[..i], pathId), pathId)
    {
      ImportsForNext(candidates, i, pathId);
      var fileTxt := candidates[i];
      var id := ExtractId(fileTxt);
      if id.Some? && id.value == pathId {
        found := found + [(fileTxt, pathId)];
      }
    }
    assert candidates[..|candidates|] == candidates;
  }

  /** The static state of the dump pass. */
  class DumpSession {
    var isDumped: bool
    var needSave: bool
    /** The name filters taken from the command line. */
    var dumpByNames: seq<string>
    /** The candidate dump files found next to the bundle. */
    var allTxt: seq<Path>
    /** The data-grid rows. */
    var items: seq<Item>
    /** The dumps exported, in order. */
    var dumped: seq<Dump>
    /** The dumps imported, in order, with the path id of the asset each went into. */
    var imported: seq<(Path, int)>

    constructor(dumpByNames: seq<string>, allTxt: seq<Path>)
      ensures this.dumpByNames == dumpByNames && this.allTxt == allTxt
      ensures !isDumped && !needSave && items == [] && dumped == [] && imported == []
    {
      this.dumpByNames := dumpByNames;
      this.allTxt := allTxt;
      isDumped := false;
      needSave := false;
      items := [];
      dumped := [];
      imported := [];
    }

    /**
     * `AddDataGridItem`: adds the asset's row (first for a new asset, last
     * otherwise), dumps it once per filter its shown name contains, and
     * imports every candidate dump that carries its path id.
     */
    method AddDataGridItem(a: Asset, isNewAsset: bool) returns (item: Item)
      modifies this
      ensures item == ItemOf(a)
      ensures items == if isNewAsset then [item] + old(items) else old(items) + [item]
      ensures dumped == old(dumped) + DumpsFor(dumpByNames, item.name, DumpOf(a))
      ensures imported == old(imported) + PairWith(ImportsFor(allTxt, a.pathId), a.pathId)
      ensures isDumped == (old(isDumped) || AnyFilterHits(dumpByNames, item.name) || |allTxt| > 0)
      ensures needSave == (old(needSave) || |ImportsFor(allTxt, a.pathId)| > 0)
      ensures dumpByNames == old(dumpByNames) && allTxt == old(allTxt)
    {
      var name := Truncate(a.displayName, MaxShownLength);
      var typeName := Truncate(a.typeName, MaxShownLength);
      item := Item(name, typeName, a.pathId, a.fileId);
      if !isNewAsset {
        items := items + [item];
      } else {
        items := [item] + items;
      }

      DumpMatching(name, Dump(a.filePath, name, a.pathId));
      ImportMatching(a.pathId);
    }

    /** The filter loop of `AddDataGridItem`: `dump` is exported once for each filter that `name` contains. */
    method DumpMatching(name: string, dump: Dump)
      modifies this
      ensures dumped == old(dumped) + DumpsFor(dumpByNames, name, dump)
      ensures isDumped == (old(isDumped) || AnyFilterHits(dumpByNames, name))
      ensures needSave == old(needSave) && imported == old(imported) && items == old(items)
      ensures dumpByNames == old(dumpByNames) && allTxt == old(allTxt)
    {
      DumpsForSpec(dumpByNames, name, dump);
      var filters := dumpByNames;
      for i := 0 to |filters|
        invariant dumped == old(dumped) + DumpsFor(filters[..i], name, dump)
        invariant isDumped == (old(isDumped) || |DumpsFor(filters[..i], name, dump)| > 0)
        invariant needSave == old(needSave) && imported == old(imported) && items == old(items)
        invariant dumpByNames == old(dumpByNames) && allTxt == old(allTxt)
      {
        DumpsForNext(filters, i, name, dump);
        if Contains(name, filters[i]) {
          ConcatAssoc(old(dumped), DumpsFor(filters[..i], name, dump), [dump]);
          dumped := dumped + [dump];
          isDumped := true;
        }
      }
      assert filters[..|filters|] == filters;
    }

    /** The candidate loop of `AddDataGridItem`: every candidate marks the pass dumped; those carrying `pathId` are imported. */
    method ImportMatching(pathId: int)
      modifies this
      ensures imported == old(imported) + PairWith(ImportsFor(allTxt, pathId), pathId)
      ensures needSave == (old(needSave) || |ImportsFor(allTxt, pathId)| > 0)
      ensures isDumped == (old(isDumped) || |allTxt| > 0)
      ensures dumped == old(dumped) && items == old(items)
      ensures dumpByNames == old(dumpByNames) && allTxt == old(allTxt)
    {
      var found := CollectImports(allTxt, pathId);
      imported := imported + found;
      needSave := needSave || |found| > 0;
      isDumped := isDumped || |allTxt| > 0;
    }

    /**
     * `MakeDataGridItems`: with a loaded workspace, builds the rows for the
     * assets in order; then the names are printed when nothing was dumped,
     * and the assets file is saved when something was imported.
     */
    method MakeDataGridItems(assets: seq<Asset>, loaded: bool) returns (printed: seq<string>, save: bool)
      modifies this
      ensures !loaded ==> items == [] && printed == [] && !save
      ensures !loaded ==> isDumped == old(isDumped) && needSave == old(needSave) && dumped == old(dumped) && imported == old(imported)
      ensures loaded ==> items == Items(assets)
      ensures loaded ==> dumped == old(dumped) + AllDumps(dumpByNames, assets)
      ensures loaded ==> imported == old(imported) + AllImports(allTxt, assets)
      ensures loaded ==> isDumped == (old(isDumped) || |AllDumps(dumpByNames, assets)| > 0 || (|allTxt| > 0 && |assets| > 0))
      ensures loaded ==> needSave == (old(needSave) || |AllImports(allTxt, assets)| > 0)
      ensures printed == if loaded && !isDumped then Names(items) else []
      ensures save == (loaded && needSave)
      ensures dumpByNames == old(dumpByNames) && allTxt == old(allTxt)
    {
      items := [];
      if !loaded {
        return [], false;
      }
      for i := 0 to |assets|
        invariant items == Items(assets[..i])
        invariant dumped == old(dumped) + AllDumps(dumpByNames, assets[..i])
        invariant imported == old(imported) + AllImports(allTxt, assets[..i])
        invariant isDumped == (old(isDumped) || |AllDumps(dumpByNames, assets[..i])| > 0 || (|allTxt| > 0 && i > 0))
        invariant needSave == (old(needSave) || |AllImports(allTxt, assets[..i])| > 0)
        invariant dumpByNames == old(dumpByNames) && allTxt == old(allTxt)
      {
        AddRow(assets, i, old(dumped), old(imported), old(isDumped), old(needSave));
      }
      assert assets[..|assets|] == assets;
      printed := [];
      if !isDumped {
        printed := Names(items);
      }
      save := needSave;
    }

    /** One turn of the loop of `MakeDataGridItems`: the row for `assets[i]` extends every record of the pass. */
    method AddRow(assets: seq<Asset>, i: nat, ghost dumped0: seq<Dump>, ghost imported0: seq<(Path, int)>, ghost isDumped0: bool, ghost needSave0: bool)
      requires i < |assets|
      requires items == Items(assets[..i])
      requires dumped == dumped0 + AllDumps(dumpByNames, assets[..i])
      requires imported == imported0 + AllImports(allTxt, assets[..i])
      requires isDumped == (isDumped0 || |AllDumps(dumpByNames, assets[..i])| > 0 || (|allTxt| > 0 && i > 0))
      requires needSave == (needSave0 || |AllImports(allTxt, assets[..i])| > 0)
      modifies this
      ensures items == Items(assets[..i + 1])
      ensures dumped == dumped0 + AllDumps(dumpByNames, assets[..i + 1])
      ensures imported == imported0 + AllImports(allTxt, assets[..i + 1])
      ensures isDumped == (isDumped0 || |AllDumps(dumpByNames, assets[..i + 1])| > 0 || |allTxt| > 0)
      ensures needSave == (needSave0 || |AllImports(allTxt, assets[..i + 1])| > 0)
      ensures dumpByNames == old(dumpByNames) && allTxt == old(allTxt)
    {
      PassNext(dumpByNames, allTxt, assets, i);
      var a := assets[i];
      ghost var dumps := AllDumps(dumpByNames, assets[..i]);
      ghost var imports := AllImports(allTxt, assets[..i]);
      ghost var rowDumps := DumpsFor(dumpByNames, ItemOf(a).name, DumpOf(a));
      ghost var rowImports := PairWith(ImportsFor(allTxt, a.pathId), a.pathId);
      DumpsForSpec(dumpByNames, ItemOf(a).name, DumpOf(a));
      ConcatAssoc(dumped0, dumps, rowDumps);
      ConcatAssoc(imported0, imports, rowImports);
      var _ := AddDataGridItem(a, false);
    }
  }

  function PairWith(files: seq<Path>, pathId: int): (r: seq<(Path, int)>)
    ensures |r| == |files| && forall k :: 0 <= k < |files| ==> r[k] == (files[k], pathId)
  {
    seq(|files|, k requires 0 <= k < |files| => (files[k], pathId))
  }

  /** The rows built for the assets, in order. */
  function Items(assets: seq<Asset>): (r: seq<Item>)
    ensures |r| == |assets| && forall k :: 0 <= k < |assets| ==> r[k] == ItemOf(assets[k])
  {
    seq(|assets|, k requires 0 <= k < |assets| => ItemOf(assets[k]))
  }

  function Names(items: seq<Item>): (r: seq<string>)
    ensures |r| == |items| && forall k :: 0 <= k < |items| ==> r[k] == items[k].name
  {
    seq(|items|, k requires 0 <= k < |items| => items[k].name)
  }

  /** The dump of an asset's row. */
  function DumpOf(a: Asset): Dump {
    Dump(a.filePath, ItemOf(a).name, a.pathId)
  }

  /** The dump files the whole pass writes, asset by asset. */
  function AllDumps(filters: seq<string>, assets: seq<Asset>): seq<Dump>
    decreases |assets|
  {
    if assets == [] then []
    else
      var a := assets[|assets| - 1];
      AllDumps(filters, assets[..|assets| - 1]) + DumpsFor(filters, ItemOf(a).name, DumpOf(a))
  }

  /** The dumps the whole pass imports, asset by asset. */
  function AllImports(candidates: seq<Path>, assets: seq<Asset>): seq<(Path, int)>
    decreases |assets|
  {
    if assets == [] then []
    else
      var a := assets[|assets| - 1];
      AllImports(candidates, assets[..|assets| - 1]) + PairWith(ImportsFor(candidates, a.pathId), a.pathId)
  }

  lemma PassNext(filters: seq<string>, candidates: seq<Path>, assets: seq<Asset>, i: nat)
    requires i < |assets|
    ensures Items(assets[..i + 1]) == Items(assets[..i]) + [ItemOf(assets[i])]
    ensures AllDumps(filters, assets[..i + 1]) ==
              AllDumps(filters, assets[..i]) + DumpsFor(filters, ItemOf(assets[i]).name, DumpOf(assets[i]))
    ensures AllImports(candidates, assets[..i + 1]) ==
              AllImports(candidates, assets[..i]) + PairWith(ImportsFor(candidates, assets[i].pathId), assets[i].pathId)
  {
    assert assets[..i + 1][..i] == assets[..i];
  }

  /** Some filter hits the shown name of the asset. */
  predicate Hit(filters: seq<string>, a: Asset) {
    AnyFilterHits(filters, ItemOf(a).name)
  }

  /** Some candidate dump file carries the path id. */
  predicate CarriesId(candidates: seq<Path>, pathId: int) {
    exists f :: f in candidates && ExtractId(f) == Some(pathId)
  }

  /** Something is dumped exactly when a filter hits some asset's shown name. */
  lemma {:induction false} AllDumpsSpec(filters: seq<string>, assets: seq<Asset>)
    ensures |AllDumps(filters, assets)| > 0 <==> exists k :: 0 <= k < |assets| && Hit(filters, assets[k])
    decreases |assets|
  {
    if assets != [] {
      var init := assets[..|assets| - 1];
      var a := assets[|assets| - 1];
      AllDumpsSpec(filters, init);
      var last := DumpsFor(filters, ItemOf(a).name, DumpOf(a));
      assert |AllDumps(filters, assets)| == |AllDumps(filters, init)| + |last|;
      assert |last| > 0 <==> Hit(filters, a) by {
        DumpsForSpec(filters, ItemOf(a).name, DumpOf(a));
      }
      if |AllDumps(filters, init)| > 0 {
        var k :| 0 <= k < |init| && Hit(filters, init[k]);
        assert assets[k] == init[k];
      } else if |last| > 0 {
        assert Hit(filters, assets[|assets| - 1]);
      }
      if exists k :: 0 <= k < |assets| && Hit(filters, assets[k]) {
        var k :| 0 <= k < |assets| && Hit(filters, assets[k]);
        if k < |init| {
          assert init[k] == assets[k];
        }
      }
    }
  }

  /** The file is saved exactly when some candidate dump carries the path id of some asset. */
  lemma {:induction false} AllImportsSpec(candidates: seq<Path>, assets: seq<Asset>)
    ensures |AllImports(candidates, assets)| > 0 <==> exists k :: 0 <= k < |assets| && CarriesId(candidates, assets[k].pathId)
    decreases |assets|
  {
    if assets != [] {
      var init := assets[..|assets| - 1];
      var a := assets[|assets| - 1];
      AllImportsSpec(candidates, init);
      var last := ImportsFor(candidates, a.pathId);
      assert |AllImports(candidates, assets)| == |AllImports(candidates, init)| + |last|;
      assert |last| > 0 <==> CarriesId(candidates, a.pathId) by {
        ImportsForSpec(candidates, a.pathId);
        if |last| > 0 {
          assert last[0] in last;
        }
        if CarriesId(candidates, a.pathId) {
          var f :| f in candidates && ExtractId(f) == Some(a.pathId);
          assert f in last;
        }
      }
      assert forall k :: 0 <= k < |init| ==> init[k] == assets[k];
      if CarriesId(candidates, a.pathId) {
        assert assets[|assets| - 1] == a;
      }
    }
  }

  /**
   * A dump exported by the pass is picked up by the next pass over the same
   * asset: once its file is among the candidates, it is imported into the
   * asset it came from. This needs the naming conditions of
   * `DumpNameRoundTrip`: an assets file named `<stem>-<hex hash>` with inert
   * dashes in its directory and stem, a shown name without a dash, and a
   * path id that fits in a long.
   */
  lemma ExportedDumpImportedBack(a: Asset, stem: string, hash: string, candidates: seq<Path>)
    requires InertDashes(GetDirectoryName(a.filePath) + "/" + stem)
    requires GetFileName(a.filePath) == stem + "-" + hash
    requires |hash| > 0 && forall k :: 0 <= k < |hash| ==> IsHex(hash[k])
    requires |ItemOf(a).name| > 0 && '-' !in ItemOf(a).name
    requires InLong(a.pathId)
    requires DumpOf(a).FileName() in candidates
    ensures DumpOf(a).FileName() in ImportsFor(candidates, a.pathId)
  {
    DumpNameRoundTrip(a.filePath, stem, hash, ItemOf(a).name, a.pathId);
    ImportsForSpec(candidates, a.pathId);
  }
}
