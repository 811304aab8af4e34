/**
  The metadata extractor: the Fabric, modern Forge and legacy `mcmod.info`
  manifests, tried in that order, each normalised to one `ModInfo`. The
  source spells this detection twice, once for an archive read from bytes
  and once for a folder file; both copies run the same steps and are
  modelled by the one method `ReadManifest`.
 */
module Extractor {
  import opened Wrappers
  import opened PyDict
  import opened Manifest

  /**
    How one schema branch ends: it returns (a record, or `None`), or it does
    not return — its manifest is not listed, or reading it raised and the
    `except: pass` moved on — and the next branch is tried.
   */
  datatype Attempt = Returns(result: Option<ModInfo>) | FallsThrough

  /** `entry.get("name") or mod_id`: an absent or empty name falls back to the id. */
  function NameOr(name: Option<string>, id: Option<string>): Option<string> {
    if name.Some? && name.value != "" then name else id
  }

  /** What `x.get(key, {}).keys()` or `x.get(key, [])` iterates; `None` where that raises. */
  function Listed<T>(f: Field<seq<T>>): Option<seq<T>> {
    match f
    case Absent => Some([])
    case Present(xs) => Some(xs)
    case Unusable => None
  }

  // ---------------------------------------------------------------- Fabric

  /** The three Fabric loops: hard dependencies, then recommended, then suggested. */
  function FabricDepends(hard: seq<string>, recommended: seq<string>, suggested: seq<string>): Dict<bool> {
    PutAll(PutAll(PutAll(Empty(), hard, true), recommended, false), suggested, false)
  }

  function FabricAttempt(doc: FabricDoc): Attempt {
    match doc
    case FabricNotObject => FallsThrough
    case FabricObject(id, name, depends, recommends, suggests, _) =>
      var hard := Listed(depends);
      var recommended := Listed(recommends);
      var suggested := Listed(suggests);
      if hard.None? || recommended.None? || suggested.None? then FallsThrough
      else Returns(Some(ModInfo(id, NameOr(name, id), FabricDepends(hard.value, recommended.value, suggested.value))))
  }

  // ------------------------------------------------------------ Forge (modern)

  /** `dep.get("mandatory", False)` */
  function Mandatory(m: Option<bool>): bool {
    if m.Some? then m.value else false
  }

  predicate AllTables(deps: seq<ForgeDep>) {
    forall i :: 0 <= i < |deps| ==> deps[i].ForgeDepTable?
  }

  /** The Forge loop `depends[dep_id] = {"required": required}`; `None` when an element is not a table. */
  function ForgeDepends(d: Dict<bool>, deps: seq<ForgeDep>): (r: Option<Dict<bool>>)
    requires d.Valid()
    ensures r.Some? <==> AllTables(deps)
    ensures r.Some? ==> r.value.Valid() && d.vals.Keys <= r.value.vals.Keys
  {
    if deps == [] then Some(d)
    else
      var init := ForgeDepends(d, deps[..|deps| - 1]);
      var last := deps[|deps| - 1];
      assert AllTables(deps) <==> AllTables(deps[..|deps| - 1]) && last.ForgeDepTable?;
      if init.None? || last.ForgeDepNotTable? then None
      else Some(init.value.Put(last.modId, Mandatory(last.mandatory)))
  }

  /** `data.get("dependencies", {}).get(mod_id, [])`; `None` where that raises. */
  function OwnDependencies(f: Field<map<string, Option<seq<ForgeDep>>>>, modId: Option<string>): Option<seq<ForgeDep>> {
    match f
    case Absent => Some([])
    case Unusable => None
    case Present(table) => if modId.Some? && modId.value in table then table[modId.value] else Some([])
  }

  function ForgeAttempt(doc: ForgeDoc): Attempt {
    match doc.mods
    case NoMods => Returns(None)
    case ModsNotIndexable => FallsThrough
    case ModTables(entries) =>
      if entries == [] then Returns(None)
      else match entries[0]
        case ForgeModNotTable => FallsThrough
        case ForgeModTable(modId, displayName) =>
          var deps := OwnDependencies(doc.dependencies, modId);
          if deps.None? then FallsThrough
          else
            var depends := ForgeDepends(Empty(), deps.value);
            if depends.None? then FallsThrough
            else Returns(Some(ModInfo(modId, NameOr(displayName, modId), depends.value)))
  }

  // --------------------------------------------------------- Legacy mcmod.info

  function LegacyAttempt(doc: McmodDoc): Attempt {
    match doc
    case McmodNotList => FallsThrough
    case McmodList(entries) =>
      if entries == [] then FallsThrough
      else match entries[0]
        case McmodNotObject => FallsThrough
        case McmodObject(modid, name, dependencies, requiredMods) =>
          var general := Listed(dependencies);
          var required := Listed(requiredMods);
          if general.None? || required.None? then FallsThrough
          else Returns(Some(ModInfo(modid, NameOr(name, modid), LegacyDepends(general.value, required.value))))
  }

  /** The two `mcmod.info` loops; both mark their ids as required. */
  function LegacyDepends(general: seq<string>, required: seq<string>): Dict<bool> {
    PutAll(PutAll(Empty(), general, true), required, true)
  }

  // ----------------------------------------------------------- Detection order

  function FabricStep(a: Archive): Attempt {
    if FabricManifest in a.names && a.fabric.Some? then FabricAttempt(a.fabric.value) else FallsThrough
  }

  function ForgeStep(a: Archive): Attempt {
    if ForgeManifest in a.names && a.forge.Some? then ForgeAttempt(a.forge.value) else FallsThrough
  }

  function LegacyStep(a: Archive): Attempt {
    if LegacyManifest in a.names && a.legacy.Some? then LegacyAttempt(a.legacy.value) else FallsThrough
  }

  /** The first branch that returns decides; when none does, the result is `None`. */
  function Normalize(a: Archive): Option<ModInfo> {
    var fabric := FabricStep(a);
    var forge := ForgeStep(a);
    var legacy := LegacyStep(a);
    if fabric.Returns? then fabric.result
    else if forge.Returns? then forge.result
    else if legacy.Returns? then legacy.result
    else None
  }

  /** `extract_metadata_from_bytes`: bytes that do not open as an archive give `None`. */
  function FromBytes(raw: Option<Archive>): Option<ModInfo> {
    if raw.None? then None else Normalize(raw.value)
  }

  /** `extract_mod_metadata`: the same record, tagged with its file. */
  function FromPath(jar: JarFile): Option<ModRecord> {
    match FromBytes(jar.archive)
    case None => None
    case Some(m) => Some(ModRecord(m, jar))
  }

  /** Whatever the schema, a record's dependency map is a well-formed dict. */
  lemma NormalizedDependsValid(a: Archive)
    ensures Normalize(a).Some? ==> Normalize(a).value.depends.Valid()
  {
  }

  // ------------------------------------------------------------------ Methods

  /** `for dep in ks: depends[dep] = {"required": required}` */
  method FillAll(d: Dict<bool>, ks: seq<string>, required: bool) returns (r: Dict<bool>)
    requires d.Valid()
    ensures r == PutAll(d, ks, required)
  {
    r := d;
    for i := 0 to |ks|
      invariant r == PutAll(d, ks[..i], required)
    {
      assert ks[..i + 1][..i] == ks[..i];
      r := r.Put(ks[i], required);
    }
    assert ks[..|ks|] == ks;
  }

  /** The Forge dependency loop; `None` stands for the exception a non-table element raises. */
  method FillForge(deps: seq<ForgeDep>) returns (r: Option<Dict<bool>>)
    ensures r == ForgeDepends(Empty(), deps)
  {
    var depends: Dict<bool> := Empty();
    for i := 0 to |deps|
      invariant ForgeDepends(Empty(), deps[..i]) == Some(depends)
    {
      assert deps[..i + 1][..i] == deps[..i];
      if deps[i].ForgeDepNotTable? {
        return None;
      }
      depends := depends.Put(deps[i].modId, Mandatory(deps[i].mandatory));
    }
    assert deps[..|deps|] == deps;
    r := Some(depends);
  }

  /** The Fabric branch: `Returns` where the source returns, `FallsThrough` where it passes on. */
  method ReadFabric(a: Archive) returns (r: Attempt)
    ensures r == FabricStep(a)
  {
    if FabricManifest in a.names && a.fabric.Some? && a.fabric.value.FabricObject? {
      var data := a.fabric.value;
      var hard, recommended, suggested := Listed(data.depends), Listed(data.recommends), Listed(data.suggests);
      if hard.Some? && recommended.Some? && suggested.Some? {
        var depends := FillAll(Empty(), hard.value, true);
        depends := FillAll(depends, recommended.value, false);
        depends := FillAll(depends, suggested.value, false);
        return Returns(Some(ModInfo(data.id, NameOr(data.name, data.id), depends)));
      }
    }
    return FallsThrough;
  }

  /** The modern Forge branch; an empty `mods` list returns `None` outright. */
  method ReadForge(a: Archive) returns (r: Attempt)
    ensures r == ForgeStep(a)
  {
    if ForgeManifest in a.names && a.forge.Some? {
      var data := a.forge.value;
      if data.mods.NoMods? || (data.mods.ModTables? && data.mods.entries == []) {
        return Returns(None);
      }
      if data.mods.ModTables? && data.mods.entries[0].ForgeModTable? {
        var modId := data.mods.entries[0].modId;
        var name := NameOr(data.mods.entries[0].displayName, modId);
        var depArr := OwnDependencies(data.dependencies, modId);
        if depArr.Some? {
          var depends := FillForge(depArr.value);
          if depends.Some? {
            return Returns(Some(ModInfo(modId, name, depends.value)));
          }
        }
      }
    }
    return FallsThrough;
  }

  /** The legacy `mcmod.info` branch. */
  method ReadLegacy(a: Archive) returns (r: Attempt)
    ensures r == LegacyStep(a)
  {
    if LegacyManifest in a.names && a.legacy.Some? && a.legacy.value.McmodList? && a.legacy.value.entries != [] {
      var entry := a.legacy.value.entries[0];
      if entry.McmodObject? {
        var general, required := Listed(entry.dependencies), Listed(entry.requiredMods);
        if general.Some? && required.Some? {
          var depends := FillAll(Empty(), general.value, true);
          depends := FillAll(depends, required.value, true);
          return Returns(Some(ModInfo(entry.modid, NameOr(entry.name, entry.modid), depends)));
        }
      }
    }
    return FallsThrough;
  }

  /** The three schema branches of both extractors, in order. */
  method ReadManifest(a: Archive) returns (r: Option<ModInfo>)
    ensures r == Normalize(a)
  {
    var fabric := ReadFabric(a);
    if fabric.Returns? {
      return fabric.result;
    }
    var forge := ReadForge(a);
    if forge.Returns? {
      return forge.result;
    }
    var legacy := ReadLegacy(a);
    if legacy.Returns? {
      return legacy.result;
    }
    return None;
  }

  /** `extract_metadata_from_bytes` */
  method ExtractMetadataFromBytes(raw: Option<Archive>) returns (r: Option<ModInfo>)
    ensures r == FromBytes(raw)
  {
    if raw.None? {
      return None;
    }
    r := ReadManifest(raw.value);
  }

  /**
    `extract_mod_metadata`: the record the bytes extractor gives for the
    same archive, plus the file it came from.
   */
  method ExtractModMetadata(jar: JarFile) returns (r: Option<ModRecord>)
    ensures r == FromPath(jar)
    ensures r.Some? <==> FromBytes(jar.archive).Some?
    ensures r.Some? ==> r.value.meta == FromBytes(jar.archive).value && r.value.source == jar
  {
    if jar.archive.None? {
      return None;
    }
    var info := ReadManifest(jar.archive.value);
    if info.None? {
      return None;
    }
    r := Some(ModRecord(info.value, jar));
  }

  // --------------------------------------------------------------- Properties

  /**
    The Fabric dependency map holds the keys of the three categories, and a
    key is required exactly when only the hard category lists it: a later
    category overwrites the flag.
   */
  lemma FabricDependsMeaning(hard: seq<string>, recommended: seq<string>, suggested: seq<string>, k: string)
    ensures k in FabricDepends(hard, recommended, suggested).vals <==> k in hard || k in recommended || k in suggested
    ensures k in FabricDepends(hard, recommended, suggested).vals ==>
      (FabricDepends(hard, recommended, suggested).vals[k] <==> k in hard && k !in recommended && k !in suggested)
  {
    var first := PutAll(Empty(), hard, true);
    var second := PutAll(first, recommended, false);
    PutAllKeys(Empty(), hard, true, k);
    PutAllKeys(first, recommended, false, k);
    PutAllKeys(second, suggested, false, k);
    if k in hard || k in recommended || k in suggested {
      if k in hard || k in recommended {
        if k in hard {
          PutAllValues(Empty(), hard, true, k);
        }
        PutAllValues(first, recommended, false, k);
      }
      PutAllValues(second, suggested, false, k);
    }
  }

  /** The `mcmod.info` dependency map holds the ids of both lists, all required. */
  lemma LegacyDependsMeaning(general: seq<string>, required: seq<string>, k: string)
    ensures k in LegacyDepends(general, required).vals <==> k in general || k in required
    ensures k in LegacyDepends(general, required).vals ==> LegacyDepends(general, required).vals[k]
  {
    var first := PutAll(Empty(), general, true);
    PutAllKeys(Empty(), general, true, k);
    PutAllKeys(first, required, true, k);
    if k in general || k in required {
      if k in general {
        PutAllValues(Empty(), general, true, k);
      }
      PutAllValues(first, required, true, k);
    }
  }

  /**
    Fabric: the branch returns exactly when the manifest is an object whose
    three dependency categories are objects or missing. Then the id is the
    declared one, an absent or empty name falls back to it, every key of the
    three categories is a dependency, and it is required exactly when it is
    a hard dependency that neither later category lists again.
   */
  lemma FabricBranch(doc: FabricDoc)
    ensures FabricAttempt(doc).Returns? <==>
      doc.FabricObject? && !doc.depends.Unusable? && !doc.recommends.Unusable? && !doc.suggests.Unusable?
    ensures FabricAttempt(doc).Returns? ==>
      var info := FabricAttempt(doc).result;
      var hard, recommended, suggested := Listed(doc.depends).value, Listed(doc.recommends).value, Listed(doc.suggests).value;
      && info.Some?
      && info.value.id == doc.id
      && info.value.name == (if doc.name.None? || doc.name == Some("") then doc.id else doc.name)
      && (forall k :: k in info.value.depends.vals <==> k in hard || k in recommended || k in suggested)
      && (forall k :: k in info.value.depends.vals ==>
            (info.value.depends.vals[k] <==> k in hard && k !in recommended && k !in suggested))
  {
    if FabricAttempt(doc).Returns? {
      var hard, recommended, suggested := Listed(doc.depends).value, Listed(doc.recommends).value, Listed(doc.suggests).value;
      forall k {
        FabricDependsMeaning(hard, recommended, suggested, k);
      }
    }
  }

  /** Some entry of `deps` names the id `k`. */
  predicate Names(deps: seq<ForgeDep>, k: string) {
    exists i :: 0 <= i < |deps| && deps[i].ForgeDepTable? && deps[i].modId == k
  }

  /** Forge: the keys are those already present plus every entry's `modId`. */
  lemma {:induction false} ForgeKeys(d: Dict<bool>, deps: seq<ForgeDep>, k: string)
    requires d.Valid() && AllTables(deps)
    ensures k in ForgeDepends(d, deps).value.vals <==> k in d.vals || Names(deps, k)
  {
    if deps != [] {
      var n := |deps| - 1;
      var init := deps[..n];
      assert AllTables(init);
      ForgeKeys(d, init, k);
      var prev := ForgeDepends(d, init).value;
      var r := ForgeDepends(d, deps).value;
      assert r == prev.Put(deps[n].modId, Mandatory(deps[n].mandatory));
      if k == deps[n].modId {
        assert deps[n].ForgeDepTable?;
        assert k in r.vals && Names(deps, k);
      } else {
        assert k in r.vals <==> k in prev.vals;
        if Names(init, k) {
          var i :| 0 <= i < |init| && init[i].ForgeDepTable? && init[i].modId == k;
          assert deps[i] == init[i];
          assert Names(deps, k);
        }
        if Names(deps, k) {
          var i :| 0 <= i < |deps| && deps[i].ForgeDepTable? && deps[i].modId == k;
          assert i != n;
          assert init[i] == deps[i];
          assert Names(init, k);
        }
      }
    }
  }

  /** The `mandatory` flag of the last entry naming `k`, if any entry does. */
  function LastFlag(deps: seq<ForgeDep>, k: string): Option<bool> {
    if deps == [] then None
    else
      var last := deps[|deps| - 1];
      if last.ForgeDepTable? && last.modId == k then Some(Mandatory(last.mandatory))
      else LastFlag(deps[..|deps| - 1], k)
  }

  /**
    Forge: a key's flag is that of the last entry naming it; a key no entry
    names keeps its value.
   */
  lemma {:induction false} ForgeValue(d: Dict<bool>, deps: seq<ForgeDep>, k: string)
    requires d.Valid() && AllTables(deps) && k in ForgeDepends(d, deps).value.vals
    ensures LastFlag(deps, k).Some? ==> ForgeDepends(d, deps).value.vals[k] == LastFlag(deps, k).value
    ensures LastFlag(deps, k).None? ==> k in d.vals && ForgeDepends(d, deps).value.vals[k] == d.vals[k]
  {
    if deps != [] {
      var n := |deps| - 1;
      var init, last := deps[..n], deps[n];
      assert AllTables(init) by {
        forall j | 0 <= j < |init| ensures init[j].ForgeDepTable? {
          assert init[j] == deps[j];
        }
      }
      var prev := ForgeDepends(d, init).value;
      assert ForgeDepends(d, deps) == Some(prev.Put(last.modId, Mandatory(last.mandatory)));
      if last.modId != k {
        ForgeValue(d, init, k);
      }
    }
  }

  /** An entry that no later entry overrides is the one `LastFlag` finds. */
  lemma {:induction false} LastFlagOfFinalEntry(deps: seq<ForgeDep>, i: nat)
    requires AllTables(deps)
    requires i < |deps| && forall j :: i < j < |deps| ==> deps[j].modId != deps[i].modId
    ensures LastFlag(deps, deps[i].modId) == Some(Mandatory(deps[i].mandatory))
  {
    var n := |deps| - 1;
    if i < n {
      var init := deps[..n];
      assert deps[n].modId != deps[i].modId;
      assert AllTables(init) by {
        forall j | 0 <= j < |init| ensures init[j].ForgeDepTable? {
          assert init[j] == deps[j];
        }
      }
      assert init[i] == deps[i];
      assert forall j :: i < j < |init| ==> init[j] == deps[j];
      LastFlagOfFinalEntry(init, i);
    }
  }

  /**
    Forge: an entry's `mandatory` (default false) is the flag of its id
    unless a later entry names the same id.
   */
  lemma ForgeLastEntryWins(d: Dict<bool>, deps: seq<ForgeDep>, i: nat)
    requires d.Valid() && AllTables(deps)
    requires i < |deps| && forall j :: i < j < |deps| ==> deps[j].modId != deps[i].modId
    ensures deps[i].modId in ForgeDepends(d, deps).value.vals
    ensures ForgeDepends(d, deps).value.vals[deps[i].modId] == Mandatory(deps[i].mandatory)
  {
    var k := deps[i].modId;
    assert Names(deps, k);
    ForgeKeys(d, deps, k);
    ForgeValue(d, deps, k);
    LastFlagOfFinalEntry(deps, i);
  }

  /**
    Forge: an empty or missing `mods` list returns `None` and nothing else
    does. Otherwise only `mods[0]` counts: its `modId` is the id, its
    `displayName` (or the id) the name, and the dependencies are those listed
    under its own id, each entry's `mandatory` deciding unless a later entry
    names the same id.
   */
  lemma ForgeBranch(doc: ForgeDoc)
    ensures ForgeAttempt(doc) == Returns(None) <==> doc.mods.NoMods? || doc.mods == ModTables([])
    ensures doc.mods.ModTables? && doc.mods.entries != [] ==>
      forall rest :: ForgeAttempt(doc.(mods := ModTables([doc.mods.entries[0]] + rest))) == ForgeAttempt(doc)
    ensures ForgeAttempt(doc).FallsThrough? <==>
      || doc.mods.ModsNotIndexable?
      || (&& doc.mods.ModTables? && doc.mods.entries != []
          && (|| doc.mods.entries[0].ForgeModNotTable?
              || OwnDependencies(doc.dependencies, doc.mods.entries[0].modId).None?
              || !AllTables(OwnDependencies(doc.dependencies, doc.mods.entries[0].modId).value)))
    ensures ForgeAttempt(doc).Returns? && ForgeAttempt(doc).result.Some? <==>
      && doc.mods.ModTables? && doc.mods.entries != [] && doc.mods.entries[0].ForgeModTable?
      && OwnDependencies(doc.dependencies, doc.mods.entries[0].modId).Some?
      && AllTables(OwnDependencies(doc.dependencies, doc.mods.entries[0].modId).value)
    ensures ForgeAttempt(doc).Returns? && ForgeAttempt(doc).result.Some? ==>
      var info := ForgeAttempt(doc).result.value;
      && doc.mods.ModTables? && doc.mods.entries != [] && doc.mods.entries[0].ForgeModTable?
      && var first := doc.mods.entries[0];
      && info.id == first.modId
      && info.name == NameOr(first.displayName, first.modId)
      && OwnDependencies(doc.dependencies, first.modId).Some?
      && var deps := OwnDependencies(doc.dependencies, first.modId).value;
      && (forall k :: k in info.depends.vals <==> Names(deps, k))
      && (forall i :: 0 <= i < |deps| && (forall j :: i < j < |deps| ==> deps[j].modId != deps[i].modId) ==>
            info.depends.vals[deps[i].modId] == Mandatory(deps[i].mandatory))
  {
    var attempt := ForgeAttempt(doc);
    if attempt.Returns? && attempt.result.Some? {
      var first := doc.mods.entries[0];
      var deps := OwnDependencies(doc.dependencies, first.modId).value;
      var info := attempt.result.value;
      forall k {
        ForgeKeys(Empty(), deps, k);
      }
      forall i | 0 <= i < |deps| && (forall j :: i < j < |deps| ==> deps[j].modId != deps[i].modId)
        ensures info.depends.vals[deps[i].modId] == Mandatory(deps[i].mandatory)
      {
        ForgeLastEntryWins(Empty(), deps, i);
      }
    }
  }

  /**
    Legacy `mcmod.info`: only the first element of a non-empty list is read,
    and every id in `dependencies` and in `requiredMods` is required. A
    non-list, an empty list or a malformed first element gives no record.
   */
  lemma LegacyBranch(doc: McmodDoc)
    ensures LegacyAttempt(doc) != Returns(None)
    ensures LegacyAttempt(doc).Returns? <==>
      && doc.McmodList? && doc.entries != [] && doc.entries[0].McmodObject?
      && !doc.entries[0].dependencies.Unusable? && !doc.entries[0].requiredMods.Unusable?
    ensures LegacyAttempt(doc).Returns? ==>
      var entry := doc.entries[0];
      var info := LegacyAttempt(doc).result.value;
      var general, required := Listed(entry.dependencies).value, Listed(entry.requiredMods).value;
      && info.id == entry.modid
      && info.name == NameOr(entry.name, entry.modid)
      && (forall k :: k in info.depends.vals <==> k in general || k in required)
      && (forall k :: k in info.depends.vals ==> info.depends.vals[k])
  {
    if LegacyAttempt(doc).Returns? {
      var entry := doc.entries[0];
      forall k {
        LegacyDependsMeaning(Listed(entry.dependencies).value, Listed(entry.requiredMods).value, k);
      }
    }
  }

  /**
    Detection order: a Fabric manifest that cannot be read (it does not
    decode, is not an object, or a dependency category is not an object)
    does not stop detection; the Forge manifest decides next.
   */
  lemma BrokenFabricFallsThrough(a: Archive)
    requires FabricManifest in a.names
    requires a.fabric.None? || a.fabric.value.FabricNotObject? || a.fabric.value.depends.Unusable?
             || a.fabric.value.recommends.Unusable? || a.fabric.value.suggests.Unusable?
    requires ForgeStep(a).Returns?
    ensures Normalize(a) == ForgeStep(a).result
  {
  }

  /**
    Detection order: a Forge manifest that is missing, does not decode, or
    is malformed (`mods` not indexable, `mods[0]` not a table, the
    dependency table unusable, or one of its entries not a table) does not
    stop detection either: `mcmod.info` decides, and without a usable one
    the result is `None`.
   */
  lemma BrokenForgeFallsThrough(a: Archive)
    requires FabricStep(a).FallsThrough?
    requires || ForgeManifest !in a.names || a.forge.None?
             || (var doc := a.forge.value;
                 || doc.mods.ModsNotIndexable?
                 || (&& doc.mods.ModTables? && doc.mods.entries != []
                     && (|| doc.mods.entries[0].ForgeModNotTable?
                         || OwnDependencies(doc.dependencies, doc.mods.entries[0].modId).None?
                         || !AllTables(OwnDependencies(doc.dependencies, doc.mods.entries[0].modId).value))))
    ensures Normalize(a) == (if LegacyStep(a).Returns? then LegacyStep(a).result else None)
  {
    if ForgeManifest in a.names && a.forge.Some? {
      ForgeBranch(a.forge.value);
    }
  }

  /**
    Detection order: an empty Forge `mods` list ends detection with no
    record, even when a usable `mcmod.info` is also present.
   */
  lemma EmptyForgeModsStopsDetection(a: Archive)
    requires FabricStep(a).FallsThrough?
    requires ForgeManifest in a.names && a.forge.Some?
    requires a.forge.value.mods == ModTables([]) || a.forge.value.mods.NoMods?
    ensures Normalize(a) == None
  {
  }

  /** Detection order: a readable Fabric manifest wins over the other two. */
  lemma FabricFirst(a: Archive)
    requires FabricManifest in a.names && a.fabric.Some?
    requires FabricAttempt(a.fabric.value).Returns?
    ensures Normalize(a).Some? && Normalize(a) == FabricAttempt(a.fabric.value).result
  {
    FabricBranch(a.fabric.value);
  }
}
