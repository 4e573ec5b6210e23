/**
 * The dependency graph of `AbstractImportGraph`: nodes, edges, forward and
 * reverse adjacency kept in lockstep, the file-name filters an edge must
 * pass, and the in-place level steps of the hierarchy.
 */
module Graph {
  import opened Wrappers
  import opened Resolver
  import opened Levels

  /** A compiled pattern, known by its full-match test on a file name. */
  type Regex = string -> bool

  /** An adjacency entry read as a set: no entry means no neighbours. */
  function Neighbours(m: map<string, set<string>>, k: string): (r: set<string>)
    ensures k !in m ==> r == {}
    ensures k in m ==> r == m[k]
  {
    if k in m then m[k] else {}
  }

  /** The edges from `source` to each of `targets`. */
  function EdgesFrom(source: string, targets: set<string>): (r: set<(string, string)>)
    ensures forall x, y :: (x, y) in r <==> x == source && y in targets
  {
    set t | t in targets :: (source, t)
  }

  /** The edges and nodes recorded for the kept targets, grown by one more kept target. */
  lemma RecordedStep(edges0: set<(string, string)>, nodes0: set<string>,
                     edges: set<(string, string)>, nodes: set<string>,
                     source: string, kept: set<string>, t: string)
    requires edges == edges0 + EdgesFrom(source, kept)
    requires nodes == nodes0 + (if kept == {} then {} else {source} + kept)
    ensures edges + {(source, t)} == edges0 + EdgesFrom(source, kept + {t})
    ensures nodes + {source, t} == nodes0 + ({source} + (kept + {t}))
  {
    assert EdgesFrom(source, kept + {t}) == EdgesFrom(source, kept) + {(source, t)};
  }

  /** The edge from `x` to `y` is in `edges`. */
  predicate Linked(edges: set<(string, string)>, x: string, y: string)
  {
    (x, y) in edges
  }

  /** `v` is in the adjacency entry of `k`. */
  predicate Listed(m: map<string, set<string>>, k: string, v: string)
  {
    k in m && v in m[k]
  }

  /**
   * Every endpoint is a node; an edge is present exactly when it is in the
   * forward entry of its tail and in the reverse entry of its head; and no
   * entry is empty (entries are only created by adding an edge).
   */
  ghost predicate Consistent(nodes: set<string>, edges: set<(string, string)>,
                             adj: map<string, set<string>>, radj: map<string, set<string>>)
  {
    && (forall x, y | Linked(edges, x, y) :: x in nodes && y in nodes)
    && (forall x, y :: Linked(edges, x, y) <==> Listed(adj, x, y))
    && (forall x, y :: Linked(edges, x, y) <==> Listed(radj, y, x))
    && (forall x | x in adj :: adj[x] != {})
    && (forall y | y in radj :: radj[y] != {})
  }

  /** Recording a new edge in all four parts keeps them consistent. */
  lemma InsertKeepsConsistent(nodes: set<string>, edges: set<(string, string)>,
                              adj: map<string, set<string>>, radj: map<string, set<string>>,
                              tail: string, head: string)
    requires Consistent(nodes, edges, adj, radj)
    ensures Consistent(nodes + {tail, head}, edges + {(tail, head)},
                       adj[tail := Neighbours(adj, tail) + {head}],
                       radj[head := Neighbours(radj, head) + {tail}])
  {
    var edges', adj', radj' := edges + {(tail, head)},
      adj[tail := Neighbours(adj, tail) + {head}], radj[head := Neighbours(radj, head) + {tail}];
    forall x, y ensures Linked(edges', x, y) <==> Listed(adj', x, y) {
      assert Linked(edges', x, y) <==> Linked(edges, x, y) || (x == tail && y == head);
      assert Linked(edges, x, y) <==> Listed(adj, x, y);
    }
    forall x, y ensures Linked(edges', x, y) <==> Listed(radj', y, x) {
      assert Linked(edges', x, y) <==> Linked(edges, x, y) || (x == tail && y == head);
      assert Linked(edges, x, y) <==> Listed(radj, y, x);
    }
    forall x, y | Linked(edges', x, y) ensures x in nodes + {tail, head} && y in nodes + {tail, head} {
      assert Linked(edges, x, y) || (x == tail && y == head);
    }
  }

  /** Recording an edge that is already present changes none of the four parts. */
  lemma InsertPresentIsNoOp(nodes: set<string>, edges: set<(string, string)>,
                            adj: map<string, set<string>>, radj: map<string, set<string>>,
                            tail: string, head: string)
    requires Consistent(nodes, edges, adj, radj)
    requires (tail, head) in edges
    ensures nodes + {tail, head} == nodes
    ensures edges + {(tail, head)} == edges
    ensures adj[tail := Neighbours(adj, tail) + {head}] == adj
    ensures radj[head := Neighbours(radj, head) + {tail}] == radj
  {
    assert Linked(edges, tail, head);
    assert Listed(adj, tail, head) && Listed(radj, head, tail);
    assert Neighbours(adj, tail) + {head} == adj[tail];
    assert Neighbours(radj, head) + {tail} == radj[head];
  }

  /** The forward entry of `node` holds exactly its out-edges' heads, and exists only when one does. */
  lemma OutEdgesListed(nodes: set<string>, edges: set<(string, string)>,
                       adj: map<string, set<string>>, radj: map<string, set<string>>, node: string)
    requires Consistent(nodes, edges, adj, radj)
    ensures forall y :: (node, y) in edges <==> node in adj && y in adj[node]
    ensures node in adj ==> exists y :: (node, y) in edges
  {
    forall y ensures (node, y) in edges <==> node in adj && y in adj[node] {
      assert Linked(edges, node, y) <==> Listed(adj, node, y);
    }
    if node in adj {
      var y :| y in adj[node];
      assert (node, y) in edges;
    }
  }

  /** The reverse entry of `node` holds exactly its in-edges' tails, and exists only when one does. */
  lemma InEdgesListed(nodes: set<string>, edges: set<(string, string)>,
                      adj: map<string, set<string>>, radj: map<string, set<string>>, node: string)
    requires Consistent(nodes, edges, adj, radj)
    ensures forall x :: (x, node) in edges <==> node in radj && x in radj[node]
    ensures node in radj ==> exists x :: (x, node) in edges
  {
    forall x ensures (x, node) in edges <==> node in radj && x in radj[node] {
      assert Linked(edges, x, node) <==> Listed(radj, node, x);
    }
    if node in radj {
      var x :| x in radj[node];
      assert (x, node) in edges;
    }
  }

  class ImportGraph {
    /** The inclusion pattern, if one was given. */
    const filenameRegex: Option<Regex>
    /** The exclusion patterns. */
    const excludeRegexes: seq<Regex>

    var nodes: set<string>
    var edges: set<(string, string)>
    /** Forward adjacency: an entry exists only for a node with an out-edge. */
    var adjacency: map<string, set<string>>
    /** Reverse adjacency: an entry exists only for a node with an in-edge. */
    var reverseAdjacency: map<string, set<string>>
    var nodeHierarchy: map<string, int>

    /** The graph invariant, on the current fields. */
    ghost predicate Valid()
      reads this
    {
      Consistent(nodes, edges, adjacency, reverseAdjacency)
    }

    /** `__init__`: an empty graph; no exclusion list means none. */
    constructor (filenameRegex: Option<Regex>, excludeFiles: Option<seq<Regex>>)
      ensures Valid()
      ensures this.filenameRegex == filenameRegex
      ensures excludeRegexes == excludeFiles.GetOr([])
      ensures nodes == {} && edges == {} && adjacency == map[] && reverseAdjacency == map[]
      ensures nodeHierarchy == map[]
    {
      this.filenameRegex := filenameRegex;
      this.excludeRegexes := excludeFiles.GetOr([]);
      nodes, edges := {}, {};
      adjacency, reverseAdjacency := map[], map[];
      nodeHierarchy := map[];
    }

    /** `imported_modules`: the modules `node` imports, or None when it has no out-edge. */
    function ImportedModules(node: string): (r: Option<set<string>>)
      reads this
      requires Valid()
      ensures r.None? <==> forall y :: (node, y) !in edges
      ensures r.Some? ==> forall y :: y in r.value <==> (node, y) in edges
    {
      OutEdgesListed(nodes, edges, adjacency, reverseAdjacency, node);
      if node in adjacency then Some(adjacency[node]) else None
    }

    /** `importing_modules`: the modules importing `node`, or None when it has no in-edge. */
    function ImportingModules(node: string): (r: Option<set<string>>)
      reads this
      requires Valid()
      ensures r.None? <==> forall x :: (x, node) !in edges
      ensures r.Some? ==> forall x :: x in r.value <==> (x, node) in edges
    {
      InEdgesListed(nodes, edges, adjacency, reverseAdjacency, node);
      if node in reverseAdjacency then Some(reverseAdjacency[node]) else None
    }

    /** `_files_match_regex`: no inclusion pattern, or both files fully match it. */
    function FilesMatchRegex(fromName: string, toName: string, registry: Registry): (r: bool)
      ensures filenameRegex.None? ==> r
      ensures filenameRegex.Some? ==>
        (r <==> filenameRegex.value(ModuleFilePath(fromName, registry))
                && filenameRegex.value(ModuleFilePath(toName, registry)))
    {
      match filenameRegex
      case None => true
      case Some(regex) =>
        regex(ModuleFilePath(fromName, registry)) && regex(ModuleFilePath(toName, registry))
    }

    /** Some exclusion pattern fully matches `file`. */
    predicate Excludes(file: string)
    {
      exists k :: 0 <= k < |excludeRegexes| && excludeRegexes[k](file)
    }

    /** `_files_are_excluded`: stops at the first pattern matching either file. */
    method FilesAreExcluded(fromName: string, toName: string, registry: Registry) returns (excluded: bool)
      ensures excluded <==> Excludes(ModuleFilePath(fromName, registry)) || Excludes(ModuleFilePath(toName, registry))
    {
      var fromFile, toFile := ModuleFilePath(fromName, registry), ModuleFilePath(toName, registry);
      var i := 0;
      while i < |excludeRegexes|
        invariant 0 <= i <= |excludeRegexes|
        invariant forall k | 0 <= k < i :: !excludeRegexes[k](fromFile) && !excludeRegexes[k](toFile)
      {
        if excludeRegexes[i](fromFile) || excludeRegexes[i](toFile) {
          return true;
        }
        i := i + 1;
      }
      return false;
    }

    /** The filter an edge must pass to be recorded. */
    predicate KeepsEdge(fromName: string, toName: string, registry: Registry)
    {
      && FilesMatchRegex(fromName, toName, registry)
      && !Excludes(ModuleFilePath(fromName, registry))
      && !Excludes(ModuleFilePath(toName, registry))
    }

    /** `_should_keep_edge`. */
    method ShouldKeepEdge(fromName: string, toName: string, registry: Registry) returns (keep: bool)
      ensures keep <==> KeepsEdge(fromName, toName, registry)
    {
      var matched := FilesMatchRegex(fromName, toName, registry);
      if !matched {
        return false;
      }
      var excluded := FilesAreExcluded(fromName, toName, registry);
      keep := !excluded;
    }

    /** An exclusion match on either endpoint drops the edge, whatever the inclusion pattern says. */
    lemma ExclusionWins(fromName: string, toName: string, registry: Registry)
      requires Excludes(ModuleFilePath(fromName, registry)) || Excludes(ModuleFilePath(toName, registry))
      ensures !KeepsEdge(fromName, toName, registry)
    {
    }

    /** Both files fully matching the inclusion pattern, and no exclusion matching, keeps the edge. */
    lemma IncludedAndNotExcludedKept(fromName: string, toName: string, registry: Registry)
      requires filenameRegex.Some?
      requires filenameRegex.value(ModuleFilePath(fromName, registry))
      requires filenameRegex.value(ModuleFilePath(toName, registry))
      requires forall k | 0 <= k < |excludeRegexes| ::
        !excludeRegexes[k](ModuleFilePath(fromName, registry)) && !excludeRegexes[k](ModuleFilePath(toName, registry))
      ensures KeepsEdge(fromName, toName, registry)
    {
    }

    /**
     * An endpoint that is not loaded is filtered by the empty file name: it
     * passes an inclusion pattern that fully matches "" and is dropped by an
     * exclusion pattern that does.
     */
    lemma UnloadedEndpointFiledAsEmpty(fromName: string, toName: string, registry: Registry)
      requires toName !in registry
      ensures Excludes("") ==> !KeepsEdge(fromName, toName, registry)
      ensures KeepsEdge(fromName, toName, registry) ==> filenameRegex.None? || filenameRegex.value("")
      ensures filenameRegex.None? && !Excludes("") && !Excludes(ModuleFilePath(fromName, registry))
              ==> KeepsEdge(fromName, toName, registry)
    {
    }

    /** The targets among `names` whose edge from `fromName` passes the filter. */
    function KeptTargets(fromName: string, names: seq<string>, registry: Registry): set<string>
    {
      if names == [] then {}
      else
        var last := names[|names| - 1];
        KeptTargets(fromName, names[..|names| - 1], registry)
          + (if KeepsEdge(fromName, last, registry) then {last} else {})
    }

    /** The kept targets are exactly the names whose edge passes the filter. */
    lemma {:induction false} KeptTargetsExactly(fromName: string, names: seq<string>, registry: Registry)
      ensures forall n :: n in KeptTargets(fromName, names, registry) <==> n in names && KeepsEdge(fromName, n, registry)
    {
      if names != [] {
        var init := names[..|names| - 1];
        KeptTargetsExactly(fromName, init, registry);
        assert forall n :: n in names <==> n in init || n == names[|names| - 1] by {
          assert names == init + [names[|names| - 1]];
        }
      }
    }

    /** `_add_node`. */
    method AddNode(node: string)
      requires Valid()
      modifies this`nodes
      ensures Valid()
      ensures nodes == old(nodes) + {node}
    {
      if node !in nodes {
        nodes := nodes + {node};
      }
    }

    /**
     * `_add_edge`: both endpoints become nodes, the edge is recorded in the
     * edge set and in both adjacency maps; adding a present edge changes nothing.
     */
    method AddEdge(tail: string, head: string)
      requires Valid()
      modifies this`nodes, this`edges, this`adjacency, this`reverseAdjacency
      ensures Valid()
      ensures nodes == old(nodes) + {tail, head}
      ensures edges == old(edges) + {(tail, head)}
      ensures adjacency == old(adjacency)[tail := Neighbours(old(adjacency), tail) + {head}]
      ensures reverseAdjacency == old(reverseAdjacency)[head := Neighbours(old(reverseAdjacency), head) + {tail}]
      ensures (tail, head) in old(edges) ==>
        && nodes == old(nodes) && edges == old(edges)
        && adjacency == old(adjacency) && reverseAdjacency == old(reverseAdjacency)
    {
      ghost var n0, e0, a0, r0 := nodes, edges, adjacency, reverseAdjacency;
      if tail !in nodes {
        AddNode(tail);
      }
      if head !in nodes {
        AddNode(head);
      }
      assert nodes == n0 + {tail, head};
      assert edges == e0 && adjacency == a0 && reverseAdjacency == r0;
      if (tail, head) !in edges {
        InsertKeepsConsistent(nodes, edges, adjacency, reverseAdjacency, tail, head);
        edges := edges + {(tail, head)};
        adjacency := adjacency[tail := Neighbours(adjacency, tail) + {head}];
        reverseAdjacency := reverseAdjacency[head := Neighbours(reverseAdjacency, head) + {tail}];
      } else {
        InsertPresentIsNoOp(nodes, edges, adjacency, reverseAdjacency, tail, head);
      }
    }

    /**
     * `add_import`: records an edge from the importing module to each name
     * the import resolves to, exactly for those edges the filter keeps.
     */
    method AddImport(action: ImportAction, registry: Registry)
      requires Valid()
      modifies this`nodes, this`edges, this`adjacency, this`reverseAdjacency
      ensures Valid()
      ensures var kept := KeptTargets(FromName(action), ImportedNames(action, registry.Keys), registry);
        && edges == old(edges) + EdgesFrom(FromName(action), kept)
        && nodes == old(nodes) + (if kept == {} then {} else {FromName(action)} + kept)
    {
      AddEdgesTo(FromName(action), ImportedNames(action, registry.Keys), registry);
    }

    /** The loop of `add_import`, over the names the import resolved to. */
    method AddEdgesTo(source: string, names: seq<string>, registry: Registry)
      requires Valid()
      modifies this`nodes, this`edges, this`adjacency, this`reverseAdjacency
      ensures Valid()
      ensures var kept := KeptTargets(source, names, registry);
        && edges == old(edges) + EdgesFrom(source, kept)
        && nodes == old(nodes) + (if kept == {} then {} else {source} + kept)
    {
      var i := 0;
      while i < |names|
        invariant 0 <= i <= |names|
        invariant Valid()
        invariant var kept := KeptTargets(source, names[..i], registry);
          && edges == old(edges) + EdgesFrom(source, kept)
          && nodes == old(nodes) + (if kept == {} then {} else {source} + kept)
      {
        ghost var kept := KeptTargets(source, names[..i], registry);
        assert names[..i + 1][..i] == names[..i];
        ghost var kept' := KeptTargets(source, names[..i + 1], registry);
        assert kept' == kept + (if KeepsEdge(source, names[i], registry) then {names[i]} else {});
        var keep := ShouldKeepEdge(source, names[i], registry);
        if keep {
          RecordedStep(old(edges), old(nodes), edges, nodes, source, kept, names[i]);
          ghost var e0, n0 := edges, nodes;
          AddEdge(source, names[i]);
          assert edges == e0 + {(source, names[i])} && nodes == n0 + {source, names[i]};
          assert kept' == kept + {names[i]};
        } else {
          assert kept' == kept;
        }
        i := i + 1;
      }
      assert names[..|names|] == names;
    }

    /**
     * The subtree shift of `_build_hierarchy`: every node of `children` is
     * lowered by the shared node's recorded level minus `level`.
     */
    method ShiftSubtree(children: set<string>, node: string, level: int)
      requires node in children
      modifies this`nodeHierarchy
      ensures nodeHierarchy == Shifted(old(nodeHierarchy), children, Level(old(nodeHierarchy), node) - level)
      ensures nodeHierarchy[node] == level
      ensures forall a, b | a in children && b in children ::
        nodeHierarchy[a] - nodeHierarchy[b] == Level(old(nodeHierarchy), a) - Level(old(nodeHierarchy), b)
      ensures forall n | n in old(nodeHierarchy) && n !in children :: nodeHierarchy[n] == old(nodeHierarchy)[n]
    {
      var offset := Level(nodeHierarchy, node) - level;
      var rest := children;
      while rest != {}
        invariant rest <= children
        invariant nodeHierarchy == Shifted(old(nodeHierarchy), children - rest, offset)
        decreases rest
      {
        var n :| n in rest;
        ShiftedStep(old(nodeHierarchy), children - rest, n, offset);
        nodeHierarchy := nodeHierarchy[n := Level(nodeHierarchy, n) - offset];
        assert children - rest + {n} == children - (rest - {n});
        rest := rest - {n};
      }
      ShiftAlignsSharedNode(old(nodeHierarchy), children, node, level);
    }

    /**
     * The normalisation of `_build_hierarchy`: fails (the source's `min` of
     * an empty sequence) on an empty hierarchy, otherwise subtracts the
     * smallest level from every level.
     */
    method NormaliseHierarchy() returns (ok: bool)
      modifies this`nodeHierarchy
      ensures ok <==> old(nodeHierarchy) != map[]
      ensures !ok ==> nodeHierarchy == old(nodeHierarchy)
      ensures ok ==> exists lo :: IsMinimum(old(nodeHierarchy), lo)
                                  && nodeHierarchy == Shifted(old(nodeHierarchy), old(nodeHierarchy).Keys, lo)
      ensures ok ==> && nodeHierarchy.Keys == old(nodeHierarchy).Keys
                     && (forall n | n in nodeHierarchy :: nodeHierarchy[n] >= 0)
                     && (exists n :: n in nodeHierarchy && nodeHierarchy[n] == 0)
                     && (forall a, b | a in nodeHierarchy && b in nodeHierarchy ::
                           nodeHierarchy[a] - nodeHierarchy[b] == old(nodeHierarchy)[a] - old(nodeHierarchy)[b])
    {
      if nodeHierarchy == map[] {
        return false;
      }
      var keys := nodeHierarchy.Keys;
      var first :| first in keys;
      var lo := nodeHierarchy[first];
      ghost var lowest := first;
      var rest := keys - {first};
      while rest != {}
        invariant rest <= keys
        invariant lowest in keys && nodeHierarchy[lowest] == lo
        invariant forall k | k in keys - rest :: lo <= nodeHierarchy[k]
        decreases rest
      {
        var k :| k in rest;
        if nodeHierarchy[k] < lo {
          lo, lowest := nodeHierarchy[k], k;
        }
        rest := rest - {k};
      }
      assert IsMinimum(old(nodeHierarchy), lo);
      rest := keys;
      while rest != {}
        invariant rest <= keys
        invariant nodeHierarchy == Shifted(old(nodeHierarchy), keys - rest, lo)
        decreases rest
      {
        var n :| n in rest;
        ShiftedStep(old(nodeHierarchy), keys - rest, n, lo);
        nodeHierarchy := nodeHierarchy[n := Level(nodeHierarchy, n) - lo];
        assert keys - rest + {n} == keys - (rest - {n});
        rest := rest - {n};
      }
      assert keys - rest == old(nodeHierarchy).Keys;
      NormalisedFromZero(old(nodeHierarchy), lo);
      ok := true;
    }
  }
}
