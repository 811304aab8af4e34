# ModpackGraphviz core, modelled in Dafny

ModpackGraphviz reads a folder of Minecraft mod archives (`.jar` files).
For each archive it reads one of three manifest formats:

- Fabric `fabric.mod.json`;
- modern Forge `META-INF/mods.toml`;
- legacy Forge `mcmod.info`.

From the manifest it takes the mod's id, display name and declared dependencies.
It drops the game, the loaders and the Fabric API modules.
It then draws a dependency graph, where each dependency edge is one of three kinds:

- **satisfied**: the dependency is installed, or some installed archive bundles it;
- **missing and required**;
- **missing and optional**.

The graph also holds one placeholder node per missing id.

The model follows the modules of the program:

| module | file | what it holds |
|---|---|---|
| `Wrappers` | `wrappers.dfy` | `Option` |
| `Text` | `text.dfy` | ASCII `lower()`, `startswith`/`endswith`/`in`; the code-point order `sorted` uses, with an insertion sort (`SortIds`) proved to produce it |
| `PyDict` | `dict.dfy` | Python's insertion-ordered `dict`: a key sequence plus a map. `d[k] = v` keeps the place of an existing key. |
| `Exclusion` | `exclusion.dfy` | `IGNORED_MODS`, `should_ignore`, and the scanner's dependency filter |
| `Manifest` | `manifest.dfy` | an archive as its entry names, the decoded manifest of each schema, and the archives that its bundled entries open as. Decoded manifests are typed; `Unusable` marks a value on which the Python access raises. |
| `Extractor` | `extractor.dfy` | the three schema branches shared by `extract_metadata_from_bytes` and `extract_mod_metadata`. `ReadManifest` is proved equal to the specification `Normalize`, and each branch's meaning is stated as a lemma. |
| `Embedding` | `embedding.dfy` | `is_dependency_embedded`: one method per heuristic, each proved equal to a predicate, and the detector proved equal to their disjunction |
| `Registry` | `registry.dfy` | `scan_mod_folder`: a loop over the folder proved equal to a specification, with lemmas on which ids it keeps and which record wins |
| `Graph` | `graph.dfy` | the node/edge classification of `export_to_dot`, as a method returning the graph as data |

An exception that the source catches becomes a value:

- `None` when the whole function gives up;
- `FallsThrough` when a schema branch's `except: pass` hands over to the next branch.

A branch's `return None` is `Returns(None)`, and it ends detection.

## Model

| member | source | states |
|---|---|---|
| `PyDict.Dict.Put` | main.py:282 | `d[k] = v`: `k` maps to `v` and every other key keeps its value. A new key goes last; an existing key keeps its place. A valid dict stays valid. |
| `PyDict.PutAll` | main.py:64-69 | a loop of assignments keeps a valid dict valid |
| `PyDict.PutAllKeys` | main.py:64-69 | after assigning a list of keys one by one, the keys are the earlier ones plus the listed ones |
| `PyDict.PutAllValues` | main.py:64-69 | after assigning a list of keys one by one, each listed key maps to the assigned value and every other key keeps its value |
| `Text.Insert` | main.py:334-342 | inserting an id into a strictly ascending list keeps it strictly ascending, adds that id and nothing else |
| `Text.SortIds` | main.py:334-342 | `sorted(set)`: strictly ascending in code-point order, holding exactly the set's elements, each once |
| `Text.LowerIdempotent` | main.py:40 | lowering an already lowered string changes nothing |
| `Exclusion.IgnoreIsCaseInsensitive` | main.py:39-40 | the filter is case-insensitive: an id is ignored exactly when its lower-case form is |
| `Exclusion.IgnoreExamples` | main.py:39-40 | `Fabric-API` and `MINECRAFT` are ignored whatever their case; the empty id and `sodium` are not |
| `Exclusion.KeptKeysOrder` | main.py:276-280 | the keys that survive the filter keep their relative order |
| `Exclusion.WithoutIgnored` | main.py:276-280 | the filtered dependency dict is a valid dict that holds exactly the non-ignored keys, with their original values and in their original relative order |
| `Extractor.FabricDependsMeaning` | main.py:62-69 | the Fabric dependency map holds the keys of the three categories; a key is required exactly when only `depends` lists it, because a later category overwrites the flag |
| `Extractor.LegacyDependsMeaning` | main.py:109-113 | the `mcmod.info` dependency map holds the ids of both lists, every one of them required |
| `Extractor.ForgeDepends` | main.py:90-94 | the Forge dependency loop succeeds exactly when every element is a table, and then keeps every key it started with |
| `Extractor.ForgeKeys` | main.py:90-94 | after the Forge dependency loop, the keys are the earlier keys plus every entry's `modId` |
| `Extractor.ForgeValue` | main.py:91-94 | a key's flag is the `mandatory` value of the last entry that names it; a key that no entry names keeps its value |
| `Extractor.LastFlagOfFinalEntry` | main.py:91-94 | an entry that no later entry overrides supplies the last flag for its id |
| `Extractor.ForgeLastEntryWins` | main.py:91-94 | an entry's `mandatory` value, defaulting to false, is its id's flag unless a later entry names the same id |
| `Extractor.FillAll` | main.py:64-69 | the `for dep in ...: depends[dep] = {...}` loop computes `PutAll` |
| `Extractor.FillForge` | main.py:90-94 | the Forge dependency loop computes `ForgeDepends`; a non-table element ends it with no result |
| `Extractor.ReadFabric` | main.py:54-74 | the Fabric branch computes `FabricStep`: it returns a record, or falls through when the manifest is missing, does not decode or is malformed |
| `Extractor.ReadForge` | main.py:76-98 | the modern Forge branch computes `ForgeStep`; an empty `mods` list returns `None` |
| `Extractor.ReadLegacy` | main.py:100-116 | the `mcmod.info` branch computes `LegacyStep` |
| `Extractor.ReadManifest` | main.py:54-118 | the three schema branches, tried in order, compute `Normalize`: the first branch that returns decides, and if none does the result is `None` |
| `Extractor.ExtractMetadataFromBytes` | main.py:48-118 | bytes that do not open as an archive give `None`; otherwise the result is `Normalize` |
| `Extractor.ExtractModMetadata` | main.py:190-260 | the path extractor gives a record exactly when the bytes extractor does for the same archive, with the same id, name and dependencies, plus the file it came from |
| `Extractor.FabricBranch` | main.py:54-74 | the Fabric branch returns exactly when the manifest is an object whose three dependency categories are usable. The id is kept, and an absent or empty name falls back to the id. The keys are the union of the three categories. A key is required exactly when it is a hard dependency that neither `recommends` nor `suggests` lists again. |
| `Extractor.ForgeBranch` | main.py:76-98 | an empty or missing `mods` list returns `None`, and nothing else does. The branch falls through to `mcmod.info` exactly when `mods` is not indexable, `mods[0]` is not a table, the dependency table is unusable, or an entry is not a table. It returns a record in every other case. Only `mods[0]` matters: later elements never change the outcome. The id is the first element's `modId`; the name is its `displayName`, falling back to the id. The dependencies are exactly the ids listed under the mod's own id, each flagged by its last entry's `mandatory`. |
| `Extractor.LegacyBranch` | main.py:100-116 | `mcmod.info` never returns `None` itself. It returns exactly when it holds a non-empty list whose first element is an object with usable lists. Then every id in `dependencies` or `requiredMods` is a dependency, and all of them are required. |
| `Extractor.BrokenFabricFallsThrough` | main.py:54-98 | an unreadable Fabric manifest does not stop detection; the Forge manifest decides next |
| `Extractor.BrokenForgeFallsThrough` | main.py:76-118 | once the Fabric branch falls through, a Forge manifest that is missing, does not decode or is malformed does not stop detection: `mcmod.info` decides, and without a usable one the result is `None` |
| `Extractor.EmptyForgeModsStopsDetection` | main.py:76-84 | once the Fabric branch falls through, an empty Forge `mods` list ends detection with `None`, even when a usable `mcmod.info` is present |
| `Extractor.FabricFirst` | main.py:54-71 | a readable Fabric manifest decides the result, whatever else the archive holds |
| `Embedding.NestedJarHit` | main.py:135-149 | heuristic 1 answers true exactly when some `.jar` entry under `META-INF/jars/` or `META-INF/jarjar/` opens as an archive whose manifest declares a non-empty id that lowers to the dependency |
| `Embedding.NamespaceHit` | main.py:151-158 | heuristic 2 answers true exactly when some path starts with `assets/<dep>/` or `data/<dep>/` |
| `Embedding.ClassPackageHit` | main.py:160-171 | heuristic 3 answers true exactly when some lowered path is a `.class` file under `<dep>/`, `com/<dep>/`, `net/<dep>/` or `io/<dep>/` |
| `Embedding.JarsScanSound` | main.py:176-178 | a match the `jars` loop reaches is a usable element whose lowered id contains the dependency, with only usable elements before it |
| `Embedding.JarsScanComplete` | main.py:176-178 | the `jars` loop reaches every matching element that no malformed element precedes |
| `Embedding.JarsEntriesHit` | main.py:176-181 | the `jars` loop answers true exactly when some element's lowered id contains the dependency and no element up to it is malformed |
| `Embedding.JarsListHit` | main.py:173-181 | heuristic 4 applies that loop to the `jars` list of a readable Fabric manifest, and answers false otherwise |
| `Embedding.IsDependencyEmbedded` | main.py:125-183 | the detector answers `Embedded`: false for a file that does not open, otherwise the disjunction of the four heuristics on the lowered id |
| `Embedding.BundledManifestEmbeds` | main.py:135-149 | a bundled jar whose manifest declares the id, in any letter case, makes the dependency embedded |
| `Embedding.NoDeclaringBundleNoNestedHit` | main.py:135-149 | heuristic 1 finds nothing when no bundled jar under either directory has a manifest that declares the id |
| `Embedding.BundledJarsMatchNoPath` | main.py:151-181 | heuristics 2 to 4 find nothing in an archive whose entries are all bundled jars: no namespace folder, no class file, no Fabric manifest |
| `Embedding.OtherBundledIdDoesNotEmbed` | main.py:125-183 | an archive holding nothing but bundled jars, none of whose manifests declares the id, does not embed the dependency |
| `Embedding.NamespaceCaseSensitive` | main.py:126-158 | `assets/foo/` embeds `FOO`, but `assets/Foo/` does not embed `foo`: the id is lowered, the paths are not |
| `Embedding.JarsListMatchesSubstring` | main.py:173-181 | the `jars` test is a substring test: an entry `Fabric-API` embeds `api` |
| `Embedding.JarsListStopsAtMalformed` | main.py:173-183 | a malformed `jars` element ends the loop, so a matching element after it is never seen |
| `Registry.Admitted` | main.py:272-280 | an admitted record has a non-empty, non-ignored id and a valid dependency dict without ignored ids |
| `Registry.AdmitFile` | main.py:272-280 | one iteration of the scan computes `Admitted` for its file |
| `Registry.StoreKeepsWellFormed` | main.py:282 | storing an admitted record under its id keeps the registry well formed |
| `Registry.ScanModFolder` | main.py:267-284 | the scan loop computes `ScanSpec`. Every key is non-empty, not ignored and equal to its record's id. No ignored id is left among any record's dependencies. |
| `Registry.RegisterKeys` | main.py:271-282 | the stored ids are exactly the ids carried by the contributions |
| `Registry.RegisterLastWins` | main.py:271-282 | a contribution with no later contribution of the same id is what that id maps to |
| `Registry.ScanKeys` | main.py:267-284 | the registry holds exactly the ids of the admitted files |
| `Registry.ScanLastWins` | main.py:271-282 | a later jar with the same id replaces an earlier one |
| `Registry.AdmittedRecord` | main.py:272-280 | a file is admitted exactly when the extractor gives a record with a non-empty, non-ignored id. The admitted record keeps the source, id and name. Its dependencies are the extractor's minus the ignored ids, with their flags unchanged. |
| `Graph.ProbeEmbedded` | main.py:315-320 | the probe answers true exactly when some registered mod's archive embeds the dependency |
| `Graph.ClassifyDependency` | main.py:311-331 | a dependency's status is `Classify`: satisfied when it is installed (with no probe) or embedded somewhere; otherwise missing, required or optional by its flag |
| `Graph.AddModEdges` | main.py:310-331 | the inner loop appends one mod's edges, in its dependency order, and adds each missing target to the set of its severity |
| `Graph.ExportGraph` | main.py:291-342 | the graph has one node per installed mod, in registry order, and the edges `Edges`. The two placeholder lists are strictly ascending and hold exactly the targets of the missing-required and missing-optional edges. |
| `Graph.ModEdgesMeaning` | main.py:310-331 | a mod's edges are exactly its declared dependencies, each with its classification |
| `Graph.EdgesOfMeaning` | main.py:309-331 | an edge is among the first `n` mods' edges exactly when it starts at one of them and is drawn for one of its declared dependencies |
| `Graph.EdgeIff` | main.py:309-331 | there is an edge `from -> to` with status `st` exactly when `from` is registered, declares `to`, and `st` classifies it |
| `Graph.TargetDeclared` | main.py:326-331 | every target of an edge with a given status is a declared dependency with that classification |
| `Graph.DeclaredTarget` | main.py:326-331 | every declared dependency with a given classification is the target of an edge with that status |
| `Graph.TargetsOfEdges` | main.py:309-331 | the targets of the edges with a given status are exactly the declared ids with that classification |
| `Graph.MissingRequiredMeaning` | main.py:312-328 | an id gets a missing-required node exactly when it is not installed, no registered archive embeds it, and some mod requires it |
| `Graph.MissingOptionalMeaning` | main.py:312-331 | an id gets a missing-optional node exactly when it is not installed, no registered archive embeds it, and some mod declares it as optional |
| `Graph.NoIgnoredEndpoints` | main.py:309-331 | on a scanned registry, every edge starts at a registered mod, and no edge starts or ends at an ignored id |
| `Graph.ResolvedDependency` | main.py:312-324 | a dependency that is installed or embedded somewhere gets a satisfied edge and no placeholder node |
| `Graph.PlaceholdersOnce` | main.py:333-342 | each placeholder list holds every id once |
| `Graph.SameIdInBothSets` | main.py:294-331 | the two missing sets are not reconciled: an id that one mod requires and another declares as optional, and that nothing installs or embeds, is in both |

## Left out

- Reading the folder (`glob`), opening archives (`zipfile`) and decoding JSON and TOML are not modelled. A file is given as its path and its archive, already decoded. The archive also carries what each bundled entry opens as.
- The DOT text, its labels and colours, and writing the output file are not modelled. `ExportGraph` returns the nodes, the classified edges and the two sorted placeholder lists. The text is produced from these in order.
- The `print` of each probe, the command-line parsing and the main entry point are not modelled.
- `lower()` is ASCII only, so `ShouldIgnore`, `IsDependencyEmbedded` and `Text.Lower` do not fold non-ASCII letters as Python does.
- Identifier values that are not strings are not modelled; the model's ids are strings throughout. The Fabric categories are not affected: they are read with `.keys()`, so their elements are always strings, and a category that is not an object raises and is modelled as `Unusable`. In the other places, Python behaves as follows:
  - A non-zero number as a mod's own id makes `should_ignore` raise on `int.lower()` (main.py:40, called at main.py:273). Nothing catches this, so the scan itself aborts. A zero id is falsy and the file is skipped.
  - A non-zero number in an `mcmod.info` dependency list raises the same way in the dependency filter (main.py:279), and the scan aborts.
  - A zero in an `mcmod.info` list passes the filter, because `should_ignore` returns it and it is falsy. The export's probe then raises on `lower()` (main.py:126, reached from main.py:318).
  - `null` in an `mcmod.info` list, or a Forge dependency entry without `modId`, puts `None` among the keys. It also passes the filter, and the export's probe then raises on `None.lower()` in the same way.
  - An object or a list in an `mcmod.info` list cannot be a dict key. The `TypeError` at main.py:111 is caught by the branch's `except: pass`, so the branch falls through and the result is `None`.
- `ForgeBranch`: `mandatory` is modelled as a boolean or absent. A non-boolean value, which Python would use by truthiness, is not modelled.
- `IsDependencyEmbedded`: the archives are assumed not to change between the scan and the probe. A bundled entry whose bytes cannot be read counts as not matching, as the source's `except: pass` does.
- `SortIds`: `sorted` is modelled by an insertion sort whose result, a strictly ascending list of the set's elements, is the one `sorted` yields. Python's sorting algorithm itself is not modelled.
- `PyDict.PutAllKeys`: states which keys the dict holds after a loop of assignments, not their order. The order follows from `Put`, which appends a new key and keeps the place of an existing one.
- The registry's records drop the `_path` key in favour of a `source` field holding the same file.
