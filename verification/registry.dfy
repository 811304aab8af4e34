/**
  The mod registry: every jar of the folder, in iteration order, read by
  the path extractor; mods without a usable id or with an ignored id are
  skipped, ignored dependency ids are dropped, and the record is stored
  under its id, a later jar replacing an earlier one with the same id.
 */
module Registry {
  import opened Wrappers
  import opened PyDict
  import opened Exclusion
  import opened Manifest
  import opened Extractor

  /**
    What the scanner stores: a record with a non-empty id that is not
    ignored, and a dependency dict without ignored ids.
   */
  predicate Admissible(rec: ModRecord) {
    && rec.meta.id.Some? && rec.meta.id.value != "" && !ShouldIgnore(rec.meta.id.value)
    && rec.meta.depends.Valid()
    && forall d :: d in rec.meta.depends.vals ==> !ShouldIgnore(d)
  }

  /** The record a folder file contributes, dependencies already filtered; `None` when it is skipped. */
  function Admitted(jar: JarFile): (r: Option<ModRecord>)
    ensures r.Some? ==> Admissible(r.value)
  {
    match FromPath(jar)
    case None => None
    case Some(rec) =>
      if rec.meta.id.Some? && rec.meta.id.value != "" && !ShouldIgnore(rec.meta.id.value)
      then
        NormalizedDependsValid(jar.archive.value);
        Some(ModRecord(rec.meta.(depends := WithoutIgnored(rec.meta.depends)), rec.source))
      else None
  }

  /** What each file of the folder contributes, in order. */
  function Contributions(folder: seq<JarFile>): seq<Option<ModRecord>> {
    seq(|folder|, i requires 0 <= i < |folder| => Admitted(folder[i]))
  }

  /** `mods[info["id"]] = info` for each contribution in turn. */
  function Register(entries: seq<Option<ModRecord>>): Dict<ModRecord> {
    if entries == [] then Empty()
    else
      var mods := Register(entries[..|entries| - 1]);
      var last := entries[|entries| - 1];
      if last.Some? && last.value.meta.id.Some? then mods.Put(last.value.meta.id.value, last.value) else mods
  }

  /** The registry `scan_mod_folder` returns for `folder`. */
  function ScanSpec(folder: seq<JarFile>): Dict<ModRecord> {
    Register(Contributions(folder))
  }

  /**
    Every entry has a non-empty id that is not ignored and is stored under
    that id, and no ignored id is left among its dependencies.
   */
  predicate WellFormed(mods: Dict<ModRecord>) {
    && mods.Valid()
    && forall k :: k in mods.vals ==>
         && k != "" && !ShouldIgnore(k) && mods.vals[k].meta.id == Some(k)
         && mods.vals[k].meta.depends.Valid()
         && forall d :: d in mods.vals[k].meta.depends.vals ==> !ShouldIgnore(d)
  }

  /**
    One iteration of the scan: read the file, skip it without a usable or
    with an ignored id, and drop the ignored dependencies.
   */
  method AdmitFile(jar: JarFile) returns (r: Option<ModRecord>)
    ensures r == Admitted(jar)
  {
    var info := ExtractModMetadata(jar);
    if info.Some? && info.value.meta.id.Some? && info.value.meta.id.value != "" && !ShouldIgnore(info.value.meta.id.value) {
      NormalizedDependsValid(jar.archive.value);
      // filter ignored dependencies
      var depends := WithoutIgnored(info.value.meta.depends);
      return Some(info.value.(meta := info.value.meta.(depends := depends)));
    }
    return None;
  }

  /** Storing an admissible record under its id keeps the registry well formed. */
  lemma StoreKeepsWellFormed(mods: Dict<ModRecord>, rec: ModRecord)
    requires WellFormed(mods) && Admissible(rec)
    ensures WellFormed(mods.Put(rec.meta.id.value, rec))
  {
    var id := rec.meta.id.value;
    var stored := mods.Put(id, rec);
    forall k | k in stored.vals
      ensures k != "" && !ShouldIgnore(k) && stored.vals[k].meta.id == Some(k)
      ensures stored.vals[k].meta.depends.Valid()
      ensures forall d :: d in stored.vals[k].meta.depends.vals ==> !ShouldIgnore(d)
    {
      if k != id {
        assert stored.vals[k] == mods.vals[k];
      }
    }
  }

  /** `scan_mod_folder` */
  method ScanModFolder(folder: seq<JarFile>) returns (mods: Dict<ModRecord>)
    ensures mods == ScanSpec(folder)
    ensures WellFormed(mods)
  {
    ghost var contributions := Contributions(folder);
    mods := Empty();
    for i := 0 to |folder|
      invariant mods == Register(contributions[..i])
      invariant WellFormed(mods)
    {
      assert contributions[..i + 1][..i] == contributions[..i];
      var info := AdmitFile(folder[i]);
      assert contributions[i] == info;
      if info.Some? {
        StoreKeepsWellFormed(mods, info.value);
        mods := mods.Put(info.value.meta.id.value, info.value);
      }
    }
    assert contributions[..|folder|] == contributions;
  }

  /** Some contribution carries the id `k`. */
  predicate Carries(entries: seq<Option<ModRecord>>, k: string) {
    exists i :: 0 <= i < |entries| && entries[i].Some? && entries[i].value.meta.id == Some(k)
  }

  lemma {:induction false} RegisterKeys(entries: seq<Option<ModRecord>>, k: string)
    ensures k in Register(entries).vals <==> Carries(entries, k)
  {
    if entries != [] {
      var n := |entries| - 1;
      var init := entries[..n];
      RegisterKeys(init, k);
      if Carries(init, k) {
        var i :| 0 <= i < |init| && init[i].Some? && init[i].value.meta.id == Some(k);
        assert entries[i] == init[i];
      }
      if Carries(entries, k) {
        var i :| 0 <= i < |entries| && entries[i].Some? && entries[i].value.meta.id == Some(k);
        if i < n {
          assert init[i] == entries[i];
        }
      }
    }
  }

  lemma {:induction false} RegisterLastWins(entries: seq<Option<ModRecord>>, i: nat)
    requires i < |entries| && entries[i].Some? && entries[i].value.meta.id.Some?
    requires forall j :: i < j < |entries| && entries[j].Some? ==> entries[j].value.meta.id != entries[i].value.meta.id
    ensures var k := entries[i].value.meta.id.value;
      k in Register(entries).vals && Register(entries).vals[k] == entries[i].value
  {
    var n := |entries| - 1;
    if i < n {
      var init := entries[..n];
      assert init[i] == entries[i];
      assert forall j :: i < j < |init| ==> init[j] == entries[j];
      RegisterLastWins(init, i);
    }
  }

  /** The registry holds exactly the ids of the admitted files. */
  lemma ScanKeys(folder: seq<JarFile>, k: string)
    ensures k in ScanSpec(folder).vals <==>
      exists i :: 0 <= i < |folder| && Admitted(folder[i]).Some? && Admitted(folder[i]).value.meta.id == Some(k)
  {
    var c := Contributions(folder);
    RegisterKeys(c, k);
    if Carries(c, k) {
      var i :| 0 <= i < |c| && c[i].Some? && c[i].value.meta.id == Some(k);
      assert c[i] == Admitted(folder[i]);
    }
    if exists i :: 0 <= i < |folder| && Admitted(folder[i]).Some? && Admitted(folder[i]).value.meta.id == Some(k) {
      var i :| 0 <= i < |folder| && Admitted(folder[i]).Some? && Admitted(folder[i]).value.meta.id == Some(k);
      assert c[i] == Admitted(folder[i]);
      assert Carries(c, k);
    }
  }

  /**
    Under each id the registry holds the record of the last admitted file
    with that id: a later jar replaces an earlier one.
   */
  lemma ScanLastWins(folder: seq<JarFile>, i: nat)
    requires i < |folder| && Admitted(folder[i]).Some?
    requires forall j :: i < j < |folder| && Admitted(folder[j]).Some? ==>
      Admitted(folder[j]).value.meta.id != Admitted(folder[i]).value.meta.id
    ensures var k := Admitted(folder[i]).value.meta.id.value;
      k in ScanSpec(folder).vals && ScanSpec(folder).vals[k] == Admitted(folder[i]).value
  {
    RegisterLastWins(Contributions(folder), i);
  }

  /**
    What an admitted record holds: the extractor's record for the file,
    with the ignored ids removed from its dependencies and every other
    dependency and flag unchanged.
   */
  lemma AdmittedRecord(jar: JarFile)
    ensures Admitted(jar).Some? <==>
      FromPath(jar).Some? && FromPath(jar).value.meta.id.Some? &&
      FromPath(jar).value.meta.id.value != "" && !ShouldIgnore(FromPath(jar).value.meta.id.value)
    ensures Admitted(jar).Some? ==>
      var rec, orig := Admitted(jar).value, FromPath(jar).value;
      && rec.source == jar && rec.meta.id == orig.meta.id && rec.meta.name == orig.meta.name
      && (forall d :: d in rec.meta.depends.vals <==> d in orig.meta.depends.vals && !ShouldIgnore(d))
      && (forall d :: d in rec.meta.depends.vals ==> rec.meta.depends.vals[d] == orig.meta.depends.vals[d])
  {
  }
}
