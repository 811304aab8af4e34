/**
  The graph builder of `export_to_dot`: one node per installed mod, one
  edge per declared dependency classified as satisfied, missing and
  required, or missing and optional, and one placeholder node per distinct
  missing id in each of the two missing sets, in sorted order. The DOT text
  itself is not modelled; the classification is returned as data.
 */
module Graph {
  import opened Wrappers
  import opened Text
  import opened PyDict
  import opened Manifest
  import opened Embedding
  import opened Exclusion
  import Registry

  datatype Status = Satisfied | MissingRequired | MissingOptional

  datatype Edge = Edge(from: string, to: string, status: Status)

  /** An installed mod's node: its id and display name. */
  datatype Node = Node(id: string, name: Option<string>)

  datatype Graph = Graph(mods: seq<Node>, edges: seq<Edge>,
                         missingRequired: seq<string>, missingOptional: seq<string>)

  /** What the builder reads: a dict of records whose dependency maps are dicts too. */
  predicate Input(mods: Dict<ModRecord>) {
    mods.Valid() && forall k :: k in mods.vals ==> mods.vals[k].meta.depends.Valid()
  }

  /** Some registered mod's archive embeds `dep`. */
  predicate EmbeddedSomewhere(mods: Dict<ModRecord>, dep: string) {
    exists k {:trigger Embedded(mods.vals[k].source, dep)} :: k in mods.vals && Embedded(mods.vals[k].source, dep)
  }

  /**
    The status of a dependency: an installed id is satisfied without a
    probe, otherwise it is satisfied when some mod embeds it, and missing
    with its own severity when none does.
   */
  function Classify(mods: Dict<ModRecord>, dep: string, required: bool): Status {
    if dep in mods.vals || EmbeddedSomewhere(mods, dep) then Satisfied
    else if required then MissingRequired
    else MissingOptional
  }

  /** The edges of one mod, in the order of its dependency map. */
  function ModEdges(mods: Dict<ModRecord>, from: string, deps: Dict<bool>): seq<Edge>
    requires deps.Valid()
  {
    seq(|deps.keys|, i requires 0 <= i < |deps.keys| =>
      Edge(from, deps.keys[i], Classify(mods, deps.keys[i], deps.vals[deps.keys[i]])))
  }

  /** The edges of the first `n` mods, in registry order. */
  function EdgesOf(mods: Dict<ModRecord>, n: nat): seq<Edge>
    requires Input(mods) && n <= |mods.keys|
  {
    if n == 0 then []
    else
      var k := mods.keys[n - 1];
      EdgesOf(mods, n - 1) + ModEdges(mods, k, mods.vals[k].meta.depends)
  }

  function Edges(mods: Dict<ModRecord>): seq<Edge>
    requires Input(mods)
  {
    EdgesOf(mods, |mods.keys|)
  }

  /** The targets of the edges with status `st`. */
  function Targets(edges: seq<Edge>, st: Status): set<string> {
    set i | 0 <= i < |edges| && edges[i].status == st :: edges[i].to
  }

  function InstalledNodes(mods: Dict<ModRecord>): seq<Node>
    requires mods.Valid()
  {
    seq(|mods.keys|, i requires 0 <= i < |mods.keys| => Node(mods.keys[i], mods.vals[mods.keys[i]].meta.name))
  }

  lemma TargetsAppend(edges: seq<Edge>, e: Edge, st: Status)
    ensures Targets(edges + [e], st) == Targets(edges, st) + (if e.status == st then {e.to} else {})
  {
    var all := edges + [e];
    forall x | x in Targets(all, st)
      ensures x in Targets(edges, st) + (if e.status == st then {e.to} else {})
    {
      var i :| 0 <= i < |all| && all[i].status == st && all[i].to == x;
      if i < |edges| {
        assert edges[i] == all[i];
      }
    }
    forall x | x in Targets(edges, st)
      ensures x in Targets(all, st)
    {
      var i :| 0 <= i < |edges| && edges[i].status == st && edges[i].to == x;
      assert all[i] == edges[i];
    }
    if e.status == st {
      assert all[|edges|] == e;
    }
  }

  /** The probe loop: every registered mod's archive in order, stopping at the first hit. */
  method ProbeEmbedded(mods: Dict<ModRecord>, dep: string) returns (found: bool)
    requires mods.Valid()
    ensures found == EmbeddedSomewhere(mods, dep)
  {
    found := false;
    for j := 0 to |mods.keys|
      invariant forall j' :: 0 <= j' < j ==> !Embedded(mods.vals[mods.keys[j']].source, dep)
    {
      var hit := IsDependencyEmbedded(mods.vals[mods.keys[j]].source, dep);
      if hit {
        return true;
      }
    }
    forall k | k in mods.vals
      ensures !Embedded(mods.vals[k].source, dep)
    {
      var j :| 0 <= j < |mods.keys| && mods.keys[j] == k;
    }
  }

  /** One dependency of the edge loop: probe only when it is not installed, then classify. */
  method ClassifyDependency(mods: Dict<ModRecord>, dep: string, required: bool) returns (status: Status)
    requires mods.Valid()
    ensures status == Classify(mods, dep, required)
  {
    var depMissing := dep !in mods.vals;
    if depMissing {
      var embedded := ProbeEmbedded(mods, dep);
      depMissing := !embedded;
    }
    if !depMissing {
      status := Satisfied;
    } else if required {
      status := MissingRequired;
    } else {
      status := MissingOptional;
    }
  }

  /**
    The inner edge loop for one mod: an edge per dependency, in the order
    of its dependency map, each missing target added to its set.
   */
  method AddModEdges(mods: Dict<ModRecord>, modId: string, deps: Dict<bool>,
                     edges0: seq<Edge>, required0: set<string>, optional0: set<string>)
    returns (edges: seq<Edge>, missingRequired: set<string>, missingOptional: set<string>)
    requires mods.Valid() && deps.Valid()
    requires required0 == Targets(edges0, MissingRequired) && optional0 == Targets(edges0, MissingOptional)
    ensures edges == edges0 + ModEdges(mods, modId, deps)
    ensures missingRequired == Targets(edges, MissingRequired) && missingOptional == Targets(edges, MissingOptional)
  {
    edges, missingRequired, missingOptional := edges0, required0, optional0;
    for j := 0 to |deps.keys|
      invariant edges == edges0 + ModEdges(mods, modId, deps)[..j]
      invariant missingRequired == Targets(edges, MissingRequired)
      invariant missingOptional == Targets(edges, MissingOptional)
    {
      var dep := deps.keys[j];
      var status := ClassifyDependency(mods, dep, deps.vals[dep]);
      if status == MissingRequired {
        missingRequired := missingRequired + {dep};
      } else if status == MissingOptional {
        missingOptional := missingOptional + {dep};
      }
      var e := Edge(modId, dep, status);
      assert e == ModEdges(mods, modId, deps)[j];
      TargetsAppend(edges, e, MissingRequired);
      TargetsAppend(edges, e, MissingOptional);
      assert ModEdges(mods, modId, deps)[..j + 1] == ModEdges(mods, modId, deps)[..j] + [e];
      edges := edges + [e];
    }
    assert ModEdges(mods, modId, deps)[..|deps.keys|] == ModEdges(mods, modId, deps);
  }

  /** The classification part of `export_to_dot`. */
  method ExportGraph(mods: Dict<ModRecord>) returns (g: Graph)
    requires Input(mods)
    ensures g.mods == InstalledNodes(mods)
    ensures g.edges == Edges(mods)
    ensures StrictlySorted(g.missingRequired) && forall x :: x in g.missingRequired <==> x in Targets(g.edges, MissingRequired)
    ensures StrictlySorted(g.missingOptional) && forall x :: x in g.missingOptional <==> x in Targets(g.edges, MissingOptional)
  {
    // Nodes for installed mods
    var nodes: seq<Node> := [];
    for i := 0 to |mods.keys|
      invariant nodes == InstalledNodes(mods)[..i]
    {
      nodes := nodes + [Node(mods.keys[i], mods.vals[mods.keys[i]].meta.name)];
    }
    assert InstalledNodes(mods)[..|mods.keys|] == InstalledNodes(mods);

    // Edges
    var edges: seq<Edge> := [];
    var missingRequired: set<string> := {};
    var missingOptional: set<string> := {};
    for i := 0 to |mods.keys|
      invariant edges == EdgesOf(mods, i)
      invariant missingRequired == Targets(edges, MissingRequired)
      invariant missingOptional == Targets(edges, MissingOptional)
    {
      var modId := mods.keys[i];
      edges, missingRequired, missingOptional :=
        AddModEdges(mods, modId, mods.vals[modId].meta.depends, edges, missingRequired, missingOptional);
    }

    // Nodes for missing dependencies
    var required := SortIds(missingRequired);
    var optional := SortIds(missingOptional);
    g := Graph(nodes, edges, required, optional);
  }

  // --------------------------------------------------------------- Properties

  /** Mod `from` is registered and lists `to` among its dependencies. */
  predicate Declares(mods: Dict<ModRecord>, from: string, to: string) {
    from in mods.vals && to in mods.vals[from].meta.depends.vals
  }

  /** The edges of one mod are exactly its declared dependencies, each classified. */
  lemma ModEdgesMeaning(mods: Dict<ModRecord>, from: string, deps: Dict<bool>, e: Edge)
    requires deps.Valid()
    ensures e in ModEdges(mods, from, deps) <==>
      e.from == from && e.to in deps.vals && e.status == Classify(mods, e.to, deps.vals[e.to])
  {
    var mine := ModEdges(mods, from, deps);
    if e in mine {
      var j :| 0 <= j < |mine| && mine[j] == e;
      assert deps.keys[j] in deps.vals;
    }
    if e.from == from && e.to in deps.vals && e.status == Classify(mods, e.to, deps.vals[e.to]) {
      var j :| 0 <= j < |deps.keys| && deps.keys[j] == e.to;
      assert mine[j] == e;
    }
  }

  /** `e` is the edge the builder draws for one declared dependency of `e.from`. */
  predicate Drawn(mods: Dict<ModRecord>, e: Edge) {
    Declares(mods, e.from, e.to) && e.status == Classify(mods, e.to, mods.vals[e.from].meta.depends.vals[e.to])
  }

  lemma {:induction false} EdgesOfMeaning(mods: Dict<ModRecord>, n: nat, e: Edge)
    requires Input(mods) && n <= |mods.keys|
    ensures e in EdgesOf(mods, n) <==> (exists i :: 0 <= i < n && mods.keys[i] == e.from) && Drawn(mods, e)
  {
    if n > 0 {
      EdgesOfMeaning(mods, n - 1, e);
      var k := mods.keys[n - 1];
      var deps := mods.vals[k].meta.depends;
      ModEdgesMeaning(mods, k, deps, e);
      assert e in EdgesOf(mods, n) <==> e in EdgesOf(mods, n - 1) || e in ModEdges(mods, k, deps);
    }
  }

  /**
    There is an edge from `from` to `to` exactly when `from` is registered
    and declares `to`, and its status is that dependency's classification.
   */
  lemma EdgeIff(mods: Dict<ModRecord>, from: string, to: string, st: Status)
    requires Input(mods)
    ensures Edge(from, to, st) in Edges(mods) <==>
      Declares(mods, from, to) && st == Classify(mods, to, mods.vals[from].meta.depends.vals[to])
  {
    EdgesOfMeaning(mods, |mods.keys|, Edge(from, to, st));
    if Declares(mods, from, to) {
      var i :| 0 <= i < |mods.keys| && mods.keys[i] == from;
    }
  }

  /** Every target of an edge with status `st` is a declared id that `st` classifies. */
  lemma TargetDeclared(mods: Dict<ModRecord>, x: string, st: Status)
    requires Input(mods) && x in Targets(Edges(mods), st)
    ensures exists k :: Declares(mods, k, x) && Classify(mods, x, mods.vals[k].meta.depends.vals[x]) == st
  {
    var edges := Edges(mods);
    var i :| 0 <= i < |edges| && edges[i].status == st && edges[i].to == x;
    EdgeIff(mods, edges[i].from, x, st);
  }

  /** Every declared id that `st` classifies is the target of an edge with status `st`. */
  lemma DeclaredTarget(mods: Dict<ModRecord>, k: string, x: string, st: Status)
    requires Input(mods) && Declares(mods, k, x) && Classify(mods, x, mods.vals[k].meta.depends.vals[x]) == st
    ensures x in Targets(Edges(mods), st)
  {
    var edges := Edges(mods);
    EdgeIff(mods, k, x, st);
    var i :| 0 <= i < |edges| && edges[i] == Edge(k, x, st);
  }

  /** The targets of the edges with status `st` are the declared ids that `st` classifies. */
  lemma TargetsOfEdges(mods: Dict<ModRecord>, x: string, st: Status)
    requires Input(mods)
    ensures x in Targets(Edges(mods), st) <==>
      exists k :: Declares(mods, k, x) && Classify(mods, x, mods.vals[k].meta.depends.vals[x]) == st
  {
    if x in Targets(Edges(mods), st) {
      TargetDeclared(mods, x, st);
    }
    if exists k :: Declares(mods, k, x) && Classify(mods, x, mods.vals[k].meta.depends.vals[x]) == st {
      var k :| Declares(mods, k, x) && Classify(mods, x, mods.vals[k].meta.depends.vals[x]) == st;
      DeclaredTarget(mods, k, x, st);
    }
  }

  /**
    An id is in the missing-required set exactly when it is neither
    installed nor embedded anywhere and some mod requires it.
   */
  lemma MissingRequiredMeaning(mods: Dict<ModRecord>, x: string)
    requires Input(mods)
    ensures x in Targets(Edges(mods), MissingRequired) <==>
      x !in mods.vals && !EmbeddedSomewhere(mods, x) &&
      exists k :: Declares(mods, k, x) && mods.vals[k].meta.depends.vals[x]
  {
    TargetsOfEdges(mods, x, MissingRequired);
  }

  /**
    An id is in the missing-optional set exactly when it is neither
    installed nor embedded anywhere and some mod declares it as optional.
   */
  lemma MissingOptionalMeaning(mods: Dict<ModRecord>, x: string)
    requires Input(mods)
    ensures x in Targets(Edges(mods), MissingOptional) <==>
      x !in mods.vals && !EmbeddedSomewhere(mods, x) &&
      exists k :: Declares(mods, k, x) && !mods.vals[k].meta.depends.vals[x]
  {
    TargetsOfEdges(mods, x, MissingOptional);
  }

  /** On a scanned registry no edge starts or ends at an ignored id. */
  lemma NoIgnoredEndpoints(mods: Dict<ModRecord>)
    requires Registry.WellFormed(mods)
    ensures Input(mods)
    ensures forall e :: e in Edges(mods) ==> !ShouldIgnore(e.from) && !ShouldIgnore(e.to) && e.from in mods.vals
  {
    forall e | e in Edges(mods)
      ensures !ShouldIgnore(e.from) && !ShouldIgnore(e.to) && e.from in mods.vals
    {
      EdgeIff(mods, e.from, e.to, e.status);
    }
  }

  /**
    A dependency that is installed, or that some registered archive
    embeds, gets a satisfied edge and no placeholder node.
   */
  lemma ResolvedDependency(mods: Dict<ModRecord>, from: string, to: string)
    requires Input(mods) && Declares(mods, from, to)
    requires to in mods.vals || EmbeddedSomewhere(mods, to)
    ensures Edge(from, to, Satisfied) in Edges(mods)
    ensures to !in Targets(Edges(mods), MissingRequired) && to !in Targets(Edges(mods), MissingOptional)
  {
    EdgeIff(mods, from, to, Satisfied);
    MissingRequiredMeaning(mods, to);
    MissingOptionalMeaning(mods, to);
  }

  /** The placeholder lists of a built graph hold each id once. */
  lemma PlaceholdersOnce(g: Graph)
    requires StrictlySorted(g.missingRequired) && StrictlySorted(g.missingOptional)
    ensures forall i, j :: 0 <= i < j < |g.missingRequired| ==> g.missingRequired[i] != g.missingRequired[j]
    ensures forall i, j :: 0 <= i < j < |g.missingOptional| ==> g.missingOptional[i] != g.missingOptional[j]
  {
    StrictlySortedDistinct(g.missingRequired);
    StrictlySortedDistinct(g.missingOptional);
  }

  /**
    The two missing sets are not reconciled: when one mod requires an id
    and another declares it as optional, and nothing installs or embeds it,
    the id is in both.
   */
  lemma SameIdInBothSets(mods: Dict<ModRecord>, a: string, b: string, x: string)
    requires Input(mods) && x !in mods.vals && !EmbeddedSomewhere(mods, x)
    requires Declares(mods, a, x) && mods.vals[a].meta.depends.vals[x]
    requires Declares(mods, b, x) && !mods.vals[b].meta.depends.vals[x]
    ensures x in Targets(Edges(mods), MissingRequired) && x in Targets(Edges(mods), MissingOptional)
  {
    MissingRequiredMeaning(mods, x);
    MissingOptionalMeaning(mods, x);
  }
}
