/**
  The archives the analysis reads, as data. An archive is its list of entry
  names plus, for each of the three manifest files, the value the JSON or
  TOML decoder produces for it, plus the archives that its bundled `.jar`
  entries open as. Decoding itself is not modelled: a manifest that does not
  decode is `None`.

  Manifest fields are typed by how the code uses them. A field whose
  container shape the code relies on is a `Field`: `Absent` when the key is
  missing (the code then uses its default), `Unusable` when the value has a
  shape on which the code's access raises (`.keys()` on a list, iterating
  `null`, `.get` on a string).
 */
module Manifest {
  import opened Wrappers
  import opened PyDict

  datatype Field<T> = Absent | Present(value: T) | Unusable

  /** An element of the Fabric `jars` list (used only by the embedding detector). */
  datatype JarDecl =
    | JarDeclObject(id: Field<string>)  // `id` is Unusable when it is not a string
    | JarDeclNotObject

  /**
    `fabric.mod.json`. `depends`, `recommends` and `suggests` hold the keys
    of the JSON objects, in document order.
   */
  datatype FabricDoc =
    | FabricObject(id: Option<string>, name: Option<string>,
                   depends: Field<seq<string>>, recommends: Field<seq<string>>,
                   suggests: Field<seq<string>>, jars: Field<seq<JarDecl>>)
    | FabricNotObject

  /** An element of the `mods` array of `META-INF/mods.toml`. */
  datatype ForgeMod =
    | ForgeModTable(modId: Option<string>, displayName: Option<string>)
    | ForgeModNotTable

  /**
    The `mods` value of `META-INF/mods.toml`: `NoMods` when it is missing or
    any other falsy value, `ModsNotIndexable` when it is truthy but `mods[0]`
    or `mods[0].get` raises (a non-empty table or string, a number).
   */
  datatype ModsValue =
    | NoMods
    | ModTables(entries: seq<ForgeMod>)
    | ModsNotIndexable

  /** An element of a `[[dependencies.<modId>]]` array. */
  datatype ForgeDep =
    | ForgeDepTable(modId: string, mandatory: Option<bool>)
    | ForgeDepNotTable

  /**
    `META-INF/mods.toml`. `dependencies` maps a mod id to what iterating its
    value yields, or `None` when that value cannot be iterated.
   */
  datatype ForgeDoc = ForgeDoc(mods: ModsValue, dependencies: Field<map<string, Option<seq<ForgeDep>>>>)

  /**
    An element of the legacy `mcmod.info` list. `dependencies` and
    `requiredMods` hold what iterating the value yields.
   */
  datatype McmodEntry =
    | McmodObject(modid: Option<string>, name: Option<string>,
                  dependencies: Field<seq<string>>, requiredMods: Field<seq<string>>)
    | McmodNotObject

  datatype McmodDoc = McmodList(entries: seq<McmodEntry>) | McmodNotList

  const FabricManifest: string := "fabric.mod.json"
  const ForgeManifest: string := "META-INF/mods.toml"
  const LegacyManifest: string := "mcmod.info"

  /**
    An opened archive. A manifest field is only consulted when its file is
    in `names`. `nested` maps an entry name to the archive its bytes open as;
    an entry missing from it does not open as an archive.
   */
  datatype Archive = Archive(names: seq<string>,
                             fabric: Option<FabricDoc>,
                             forge: Option<ForgeDoc>,
                             legacy: Option<McmodDoc>,
                             nested: map<string, Archive>)

  /** A file of the scanned folder; `archive` is `None` when it does not open as a zip archive. */
  datatype JarFile = JarFile(path: string, archive: Option<Archive>)

  /** The normalised `{id, name, depends}` record; `depends` maps an id to its `required` flag. */
  datatype ModInfo = ModInfo(id: Option<string>, name: Option<string>, depends: Dict<bool>)

  /** A record read from a folder file, with the `_path` it came from. */
  datatype ModRecord = ModRecord(meta: ModInfo, source: JarFile)
}
