/**
  The embedding detector: whether a dependency is bundled inside an
  archive instead of installed as a file of its own. Four heuristics are
  tried in order and the first that matches answers true.
 */
module Embedding {
  import opened Wrappers
  import opened Text
  import opened Manifest
  import opened Extractor

  /** Directories that hold bundled jars. */
  const NestedJarDirs: seq<string> := ["META-INF/jars/", "META-INF/jarjar/"]

  predicate IsBundledJar(name: string, dir: string) {
    StartsWith(name, dir) && EndsWith(name, ".jar")
  }

  /** `jar.read(name)` followed by opening the bytes as an archive. */
  function Bundled(a: Archive, name: string): Option<Archive> {
    if name in a.nested then Some(a.nested[name]) else None
  }

  /** `meta and meta["id"] and meta["id"].lower() == dep` for the bundled archive. */
  predicate DeclaresId(raw: Option<Archive>, dep: string) {
    var meta := FromBytes(raw);
    meta.Some? && meta.value.id.Some? && meta.value.id.value != "" && Lower(meta.value.id.value) == dep
  }

  /** Heuristic 1: a bundled jar whose own manifest declares the id. */
  predicate ByNestedJar(a: Archive, dep: string) {
    exists p, i :: 0 <= p < |NestedJarDirs| && 0 <= i < |a.names| &&
      IsBundledJar(a.names[i], NestedJarDirs[p]) && DeclaresId(Bundled(a, a.names[i]), dep)
  }

  function NamespaceDirs(dep: string): seq<string> {
    ["assets/" + dep + "/", "data/" + dep + "/"]
  }

  /** Heuristic 2: an asset or data namespace folder named after the id (paths compared as written). */
  predicate ByNamespace(a: Archive, dep: string) {
    exists q, i :: 0 <= q < 2 && 0 <= i < |a.names| && StartsWith(a.names[i], NamespaceDirs(dep)[q])
  }

  function PackageDirs(dep: string): seq<string> {
    [dep + "/", "com/" + dep + "/", "net/" + dep + "/", "io/" + dep + "/"]
  }

  predicate InPackage(n: string, dep: string) {
    exists q :: 0 <= q < 4 && StartsWith(n, PackageDirs(dep)[q])
  }

  /** Heuristic 3: a class file, path lowered, under a package folder named after the id. */
  predicate ByClassPackage(a: Archive, dep: string) {
    exists i :: 0 <= i < |a.names| && InPackage(Lower(a.names[i]), dep) && EndsWith(Lower(a.names[i]), ".class")
  }

  /** An element of `jars` on which `entry.get("id", "").lower()` does not raise. */
  predicate DeclUsable(e: JarDecl) {
    e.JarDeclObject? && !e.id.Unusable?
  }

  /** `entry.get("id", "")` */
  function DeclId(e: JarDecl): string
    requires DeclUsable(e)
  {
    if e.id.Present? then e.id.value else ""
  }

  /**
    Heuristic 4: some element of the Fabric `jars` list has an id that,
    lowered, contains the dependency id, and no element before it (nor it)
    made the loop raise.
   */
  predicate ByJarsList(a: Archive, dep: string) {
    && FabricManifest in a.names && a.fabric.Some? && a.fabric.value.FabricObject?
    && var jars := Listed(a.fabric.value.jars);
       jars.Some? && EntriesHit(jars.value, dep)
  }

  /** Some element's lowered id contains `dep`, and every element up to it is usable. */
  predicate EntriesHit(entries: seq<JarDecl>, dep: string) {
    exists i :: 0 <= i < |entries| && (forall j :: 0 <= j <= i ==> DeclUsable(entries[j])) &&
      Contains(Lower(DeclId(entries[i])), dep)
  }

  /** The answer of `is_dependency_embedded`; a file that does not open embeds nothing. */
  predicate Embedded(jar: JarFile, depId: string) {
    && jar.archive.Some?
    && var a, dep := jar.archive.value, Lower(depId);
       ByNestedJar(a, dep) || ByNamespace(a, dep) || ByClassPackage(a, dep) || ByJarsList(a, dep)
  }

  /** Heuristic 1 as the source loops over it: each directory, then each entry. */
  method NestedJarHit(a: Archive, dep: string) returns (r: bool)
    ensures r == ByNestedJar(a, dep)
  {
    var paths := a.names;
    for p := 0 to |NestedJarDirs|
      invariant forall p', i :: 0 <= p' < p && 0 <= i < |paths| ==>
        !(IsBundledJar(paths[i], NestedJarDirs[p']) && DeclaresId(Bundled(a, paths[i]), dep))
    {
      for i := 0 to |paths|
        invariant forall p', i' :: 0 <= p' < p && 0 <= i' < |paths| ==>
          !(IsBundledJar(paths[i'], NestedJarDirs[p']) && DeclaresId(Bundled(a, paths[i']), dep))
        invariant forall i' :: 0 <= i' < i ==>
          !(IsBundledJar(paths[i'], NestedJarDirs[p]) && DeclaresId(Bundled(a, paths[i']), dep))
      {
        if IsBundledJar(paths[i], NestedJarDirs[p]) {
          var meta := ExtractMetadataFromBytes(Bundled(a, paths[i]));
          if meta.Some? && meta.value.id.Some? && meta.value.id.value != "" && Lower(meta.value.id.value) == dep {
            return true;
          }
        }
      }
    }
    return false;
  }

  /** Heuristic 2: `any(p.startswith(ns) for p in paths)` for each namespace folder. */
  method NamespaceHit(a: Archive, dep: string) returns (r: bool)
    ensures r == ByNamespace(a, dep)
  {
    var paths := a.names;
    var namespaces := NamespaceDirs(dep);
    for q := 0 to 2
      invariant forall q', i :: 0 <= q' < q && 0 <= i < |paths| ==> !StartsWith(paths[i], namespaces[q'])
    {
      for i := 0 to |paths|
        invariant forall q', i' :: 0 <= q' < q && 0 <= i' < |paths| ==> !StartsWith(paths[i'], namespaces[q'])
        invariant forall i' :: 0 <= i' < i ==> !StartsWith(paths[i'], namespaces[q])
      {
        if StartsWith(paths[i], namespaces[q]) {
          return true;
        }
      }
    }
    return false;
  }

  /** Heuristic 3: each entry, lowered, against the package folders. */
  method ClassPackageHit(a: Archive, dep: string) returns (r: bool)
    ensures r == ByClassPackage(a, dep)
  {
    var paths := a.names;
    for i := 0 to |paths|
      invariant forall i' :: 0 <= i' < i ==> !(InPackage(Lower(paths[i']), dep) && EndsWith(Lower(paths[i']), ".class"))
    {
      var n := Lower(paths[i]);
      if InPackage(n, dep) && EndsWith(n, ".class") {
        return true;
      }
    }
    return false;
  }

  /** The `jars` loop as it runs: element by element, a malformed one ending it with false. */
  predicate JarsScan(entries: seq<JarDecl>, dep: string) {
    if entries == [] then false
    else if !DeclUsable(entries[0]) then false
    else Contains(Lower(DeclId(entries[0])), dep) || JarsScan(entries[1..], dep)
  }

  /** A match the loop reaches is a usable element, with only usable ones before it. */
  lemma {:induction false} JarsScanSound(entries: seq<JarDecl>, dep: string)
    requires JarsScan(entries, dep)
    ensures EntriesHit(entries, dep)
  {
    var rest := entries[1..];
    if !Contains(Lower(DeclId(entries[0])), dep) {
      JarsScanSound(rest, dep);
      var i :| 0 <= i < |rest| && (forall j :: 0 <= j <= i ==> DeclUsable(rest[j])) &&
        Contains(Lower(DeclId(rest[i])), dep);
      assert entries[i + 1] == rest[i];
      assert forall j :: 1 <= j <= i + 1 ==> entries[j] == rest[j - 1];
      assert forall j :: 0 <= j <= i + 1 ==> DeclUsable(entries[j]);
      assert Contains(Lower(DeclId(entries[i + 1])), dep);
    } else {
      assert forall j :: 0 <= j <= 0 ==> DeclUsable(entries[j]);
    }
  }

  /** The loop reaches every match that no malformed element precedes. */
  lemma {:induction false} JarsScanComplete(entries: seq<JarDecl>, dep: string)
    requires EntriesHit(entries, dep)
    ensures JarsScan(entries, dep)
  {
    var i :| 0 <= i < |entries| && (forall j :: 0 <= j <= i ==> DeclUsable(entries[j])) &&
      Contains(Lower(DeclId(entries[i])), dep);
    assert DeclUsable(entries[0]);
    if i != 0 && !Contains(Lower(DeclId(entries[0])), dep) {
      var rest := entries[1..];
      assert rest[i - 1] == entries[i];
      assert forall j :: 0 <= j <= i - 1 ==> rest[j] == entries[j + 1];
      assert forall j :: 0 <= j <= i - 1 ==> DeclUsable(rest[j]);
      assert Contains(Lower(DeclId(rest[i - 1])), dep);
      JarsScanComplete(rest, dep);
    }
  }

  /** The `jars` loop; a malformed element raises and ends it with false. */
  method JarsEntriesHit(entries: seq<JarDecl>, dep: string) returns (r: bool)
    ensures r == EntriesHit(entries, dep)
  {
    if JarsScan(entries, dep) {
      JarsScanSound(entries, dep);
    }
    if EntriesHit(entries, dep) {
      JarsScanComplete(entries, dep);
    }
    for i := 0 to |entries|
      invariant JarsScan(entries[i..], dep) == JarsScan(entries, dep)
    {
      assert entries[i..][1..] == entries[i + 1..];
      if !DeclUsable(entries[i]) {
        return false;
      }
      if Contains(Lower(DeclId(entries[i])), dep) {
        return true;
      }
    }
    return false;
  }

  /** Heuristic 4: the `jars` list of a readable Fabric manifest. */
  method JarsListHit(a: Archive, dep: string) returns (r: bool)
    ensures r == ByJarsList(a, dep)
  {
    if FabricManifest in a.names && a.fabric.Some? && a.fabric.value.FabricObject? {
      var jars := Listed(a.fabric.value.jars);
      if jars.Some? {
        r := JarsEntriesHit(jars.value, dep);
        return;
      }
    }
    return false;
  }

  /** `is_dependency_embedded`: the four heuristics in order, the first hit answering true. */
  method IsDependencyEmbedded(jar: JarFile, depId: string) returns (r: bool)
    ensures r == Embedded(jar, depId)
  {
    var dep := Lower(depId);
    if jar.archive.None? {
      return false;
    }
    var a := jar.archive.value;
    r := NestedJarHit(a, dep);
    if r {
      return;
    }
    r := NamespaceHit(a, dep);
    if r {
      return;
    }
    r := ClassPackageHit(a, dep);
    if r {
      return;
    }
    r := JarsListHit(a, dep);
  }

  /**
    A bundled jar under either directory whose manifest declares the
    dependency's id, in any letter case, makes the dependency embedded.
   */
  lemma BundledManifestEmbeds(path: string, a: Archive, name: string, depId: string)
    requires name in a.names && name in a.nested
    requires IsBundledJar(name, "META-INF/jars/") || IsBundledJar(name, "META-INF/jarjar/")
    requires var m := Normalize(a.nested[name]);
      m.Some? && m.value.id.Some? && m.value.id.value != "" && Lower(m.value.id.value) == Lower(depId)
    ensures Embedded(JarFile(path, Some(a)), depId)
  {
    var i :| 0 <= i < |a.names| && a.names[i] == name;
    var p := if IsBundledJar(name, "META-INF/jars/") then 0 else 1;
    assert IsBundledJar(a.names[i], NestedJarDirs[p]) && DeclaresId(Bundled(a, a.names[i]), Lower(depId));
  }

  /** Heuristic 1 finds nothing when no bundled jar's manifest declares the id. */
  lemma NoDeclaringBundleNoNestedHit(a: Archive, dep: string)
    requires forall i :: 0 <= i < |a.names| && IsBundledJar(a.names[i], "META-INF/jars/") ==>
      !DeclaresId(Bundled(a, a.names[i]), dep)
    requires forall i :: 0 <= i < |a.names| && IsBundledJar(a.names[i], "META-INF/jarjar/") ==>
      !DeclaresId(Bundled(a, a.names[i]), dep)
    ensures !ByNestedJar(a, dep)
  {
    forall p, i | 0 <= p < |NestedJarDirs| && 0 <= i < |a.names|
      ensures !(IsBundledJar(a.names[i], NestedJarDirs[p]) && DeclaresId(Bundled(a, a.names[i]), dep))
    {
      assert NestedJarDirs[p] == "META-INF/jars/" || NestedJarDirs[p] == "META-INF/jarjar/";
    }
  }

  /**
    Heuristics 2 to 4 look at namespace folders, class files and the Fabric
    manifest; an archive whose entries are all bundled jars has none of them.
   */
  lemma BundledJarsMatchNoPath(a: Archive, dep: string)
    requires forall i :: 0 <= i < |a.names| ==>
      IsBundledJar(a.names[i], "META-INF/jars/") || IsBundledJar(a.names[i], "META-INF/jarjar/")
    ensures !ByNamespace(a, dep) && !ByClassPackage(a, dep) && !ByJarsList(a, dep)
  {
    forall i | 0 <= i < |a.names|
      ensures a.names[i][0] == 'M' && !EndsWith(Lower(a.names[i]), ".class")
    {
      var name := a.names[i];
      var n := Lower(name);
      assert name[|name| - 1] == 'r';
      assert n[|n| - 1] == 'r';
    }
    forall q, i | 0 <= q < 2 && 0 <= i < |a.names|
      ensures !StartsWith(a.names[i], NamespaceDirs(dep)[q])
    {
      assert NamespaceDirs(dep)[q][0] != 'M';
    }
    assert FabricManifest[0] != 'M';
  }

  /**
    An archive that holds nothing but bundled jars, none of whose manifests
    declares the dependency's id, does not embed the dependency.
   */
  lemma OtherBundledIdDoesNotEmbed(path: string, a: Archive, depId: string)
    requires forall i :: 0 <= i < |a.names| ==>
      IsBundledJar(a.names[i], "META-INF/jars/") || IsBundledJar(a.names[i], "META-INF/jarjar/")
    requires forall i :: 0 <= i < |a.names| ==> !DeclaresId(Bundled(a, a.names[i]), Lower(depId))
    ensures !Embedded(JarFile(path, Some(a)), depId)
  {
    NoDeclaringBundleNoNestedHit(a, Lower(depId));
    BundledJarsMatchNoPath(a, Lower(depId));
  }

  /**
    Namespace folders are matched as written: the id is lowered but the
    archive's paths are not, so `assets/Foo/` does not embed `foo`, while
    `assets/foo/` embeds it whatever the case of the requested id.
   */
  lemma NamespaceCaseSensitive()
    ensures Embedded(JarFile("x.jar", Some(Archive(["assets/foo/icon.png"], None, None, None, map[]))), "FOO")
    ensures !Embedded(JarFile("x.jar", Some(Archive(["assets/Foo/icon.png"], None, None, None, map[]))), "foo")
  {
    var hit := Archive(["assets/foo/icon.png"], None, None, None, map[]);
    assert Lower("FOO") == "foo";
    assert StartsWith(hit.names[0], NamespaceDirs("foo")[0]);
    var miss := Archive(["assets/Foo/icon.png"], None, None, None, map[]);
    var name := miss.names[0];
    assert Lower("foo") == "foo";
    assert !ByNamespace(miss, "foo") by {
      forall q | 0 <= q < 2 ensures !StartsWith(name, NamespaceDirs("foo")[q]) {
        assert name[7] != NamespaceDirs("foo")[q][7] || name[0] != NamespaceDirs("foo")[q][0];
      }
    }
    assert !ByClassPackage(miss, "foo") by {
      var n := Lower(name);
      assert n[|n| - 1] == 'g';
    }
    assert !ByNestedJar(miss, "foo") by {
      assert name[0] == 'a';
      forall p | 0 <= p < 2 ensures !StartsWith(name, NestedJarDirs[p]) {
        assert NestedJarDirs[p][0] == 'M';
      }
    }
  }

  /**
    The `jars` heuristic is a substring test on the lowered entry id: an
    entry `Fabric-API` embeds the dependency `api`.
   */
  lemma JarsListMatchesSubstring(path: string, a: Archive)
    requires FabricManifest in a.names && a.fabric.Some? && a.fabric.value.FabricObject?
    requires a.fabric.value.jars == Present([JarDeclObject(Present("Fabric-API"))])
    ensures Embedded(JarFile(path, Some(a)), "api")
  {
    var e := JarDeclObject(Present("Fabric-API"));
    assert Lower("api") == "api";
    assert Lower(DeclId(e)) == "fabric-api";
    assert StartsWith(Lower(DeclId(e))[7..], "api");
    assert Contains(Lower(DeclId(e)), "api");
    var jars := Listed(a.fabric.value.jars);
    assert jars == Some([e]);
    assert forall j :: 0 <= j <= 0 ==> DeclUsable(jars.value[j]);
    assert Contains(Lower(DeclId(jars.value[0])), Lower("api"));
  }

  /**
    A malformed element of `jars` ends the loop: elements after it are
    never examined, so an archive whose only evidence sits behind one does
    not embed the dependency.
   */
  lemma JarsListStopsAtMalformed(path: string, a: Archive, depId: string)
    requires |a.names| == 1 && a.names[0] == FabricManifest && a.fabric.Some? && a.fabric.value.FabricObject?
    requires var jars := a.fabric.value.jars;
      jars.Present? && |jars.value| == 2 && jars.value[0] == JarDeclNotObject &&
      jars.value[1] == JarDeclObject(Present(depId))
    ensures !Embedded(JarFile(path, Some(a)), depId)
  {
    var name, dep := a.names[0], Lower(depId);
    assert name[0] == 'f';
    assert name[|name| - 1] == 'n';
    assert !ByNestedJar(a, dep) by {
      forall p | 0 <= p < 2 ensures !StartsWith(name, NestedJarDirs[p]) {
        assert NestedJarDirs[p][0] == 'M';
      }
    }
    assert !ByNamespace(a, dep) by {
      forall q | 0 <= q < 2 ensures !StartsWith(name, NamespaceDirs(dep)[q]) {
        assert NamespaceDirs(dep)[q][0] != 'f';
      }
    }
    assert !ByClassPackage(a, dep) by {
      var n := Lower(name);
      assert n[|n| - 1] == 'n';
    }
    assert !ByJarsList(a, dep) by {
      var jars := a.fabric.value.jars.value;
      assert !DeclUsable(jars[0]);
    }
  }
}
