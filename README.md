# importgraph, modelled in Dafny

importgraph records which module imports which while a Python program runs.
It wraps the import primitive. For every observed import it resolves the
requested name, fromlist and relative level into fully qualified module names.
It then records an edge from the importing module to each name in a
dependency graph, subject to file-name filters. This project models that core
(`importgraph.py`) and proves what it promises:

- `Dotted`: Python's `str.split('.')` and `'.'.join(...)` on module names, with
  both round trips.
- `Resolver`: the `ImportAction` class. It covers the requester's name, the
  candidate path built for each fromlist item, the search for the longest
  loaded prefix, the resolved names, and a module's file path. The module
  registry (`sys.modules`) is a parameter: a map from loaded names to a module
  that may have a `__file__`.
- `Graph`: the `AbstractImportGraph` store as a class. Its fields are the
  nodes, the edges, and the forward and reverse adjacency maps, and `Valid()`
  is the invariant that ties them together. The class also holds the inclusion
  and exclusion filters and `add_import`. A compiled regular expression is
  represented by its full-match test, a `string -> bool` function.
- `Levels`: the two self-contained steps of `_build_hierarchy`. The first
  shifts a subtree so that a shared node takes the current traversal's level.
  The second normalises the levels so the smallest is 0. The class methods
  `ShiftSubtree` and `NormaliseHierarchy` run them in place on the hierarchy
  map.
- `ResolverExamples`, `GraphExamples`: the `ImportAction` cases of the
  repository's tests, plus further scenarios of importgraph.py's behaviour
  (an attribute cut back to its module, misses collapsing to `""`, a plain
  import, recording one edge twice), stated on the model.

Behaviours of the code worth noting:

- Relative level 0: the code slices `segments[:-0]`, which is empty. The base
  of an absolute `from` import is therefore empty.
- Resolution misses: the empty path joins to `""`, and `add_import` records an
  edge to the node `""` when the file filter keeps it.
- File filters: a module that is not loaded, or has no `__file__`, is filtered
  by the empty file name `""`. It passes an inclusion pattern that fully
  matches `""` and is dropped by an exclusion pattern that matches `""`.
- Adjacency queries: `imported_modules` and `importing_modules` return None
  for any node without an edge in that direction, including a node that is in
  the graph.

## Model

| member | source | states |
|---|---|---|
| Dotted.Split | importgraph.py:48 | `split('.')` yields at least one segment, and no segment contains a dot |
| Dotted.Join | importgraph.py:74 | `'.'.join`: no segments give `""`, one segment gives itself, and with more the first segment is followed by a dot; JoinSplit and SplitJoin make it the inverse of Split |
| Dotted.JoinSplit | importgraph.py:48-52 | joining the pieces of a split gives back the original name |
| Dotted.SplitJoin | importgraph.py:83 | splitting the dotted join of dot-free segments gives back the segments |
| Resolver.FromName | importgraph.py:35-41 | the requester is the globals' `__name__`; with no globals, or no such key, it is `<unknown>` |
| Resolver.SliceTo | importgraph.py:49 | Python's `s[:stop]`: a prefix of `s`; a non-negative stop is clamped to the length, a negative stop counts back from the end and is clamped at 0 |
| Resolver.RelativeBase | importgraph.py:48-49 | `segs[:-level]` is a prefix of the segments; it is empty for level 0 or a level reaching the first segment, and otherwise drops exactly `level` segments |
| Resolver.TargetSegments | importgraph.py:50-51 | an empty target adds no segments; otherwise there is at least one segment, none contains a dot, and they join back to the target |
| Resolver.BuildImportedPaths | importgraph.py:43-52 | one candidate per fromlist item, in order; each is the base, then the target's segments, then that item as the last segment |
| Resolver.CandidatesDistinct | tests/test_importgraph.py:54-58 | distinct fromlist items give distinct candidate paths |
| Resolver.LongestLoadedPrefix | importgraph.py:73-75 | searching down from length `i` finds a prefix that is loaded or empty, with no longer prefix up to `i` loaded |
| Resolver.LastModuleInPath | importgraph.py:71-76 | the result is a prefix of the path; a non-empty result is loaded; no longer prefix is loaded; a loaded full path is returned whole |
| Resolver.LastModuleIsLongestLoaded | importgraph.py:71-76 | when the prefix of length k is loaded and no longer one is, exactly that prefix is returned |
| Resolver.MissResolvesToEmpty | importgraph.py:76 | when no non-empty prefix is loaded, the result is the empty path, which joins to `""` |
| Resolver.Dedup | importgraph.py:82 | the set comprehension: the same members, no repeats, never longer than the input |
| Resolver.ResolvedModulePaths | importgraph.py:81-82 | the resolved paths are exactly the longest loaded prefixes of the candidates, without repeats, and no more than the fromlist items |
| Resolver.ImportedNames | importgraph.py:78-83 | a plain import gives exactly `[name]`; a from-import gives the join of some candidate's resolved path for each entry, includes every candidate's resolved name, and has exactly one entry per distinct resolved path, so no more than the items |
| Resolver.EmptyFromlistImportsNothing | importgraph.py:78-83 | an empty fromlist resolves to no names |
| Resolver.MissGivesEmptyName | importgraph.py:76-83 | a candidate with no loaded prefix puts the name `""` among the imported names |
| Resolver.ModuleFilePath | importgraph.py:54-69 | an unloaded module, or one without `__file__`, has file path `""`; otherwise the path is its `__file__` |
| Levels.Level | importgraph.py:141 | reading the `defaultdict(int)` gives 0 for a missing node |
| Levels.Shifted | importgraph.py:155-156 | the shifted hierarchy has the old nodes plus the shifted group |
| Levels.ShiftAlignsSharedNode | importgraph.py:153-156 | the shared node lands on the traversal's level; differences inside the shifted group are preserved; nodes outside it keep their levels |
| Levels.NormalisedFromZero | importgraph.py:163-165 | subtracting the minimum keeps the same nodes, makes every level at least 0 and some level exactly 0, and preserves all differences |
| Graph.Neighbours | importgraph.py:137-138 | a missing adjacency entry reads as the empty set |
| Graph.EdgesFrom | importgraph.py:168-169 | the edges from the requester are exactly the pairs with that source and a kept target |
| Graph.InsertKeepsConsistent | importgraph.py:130-138 | inserting an edge into nodes, edges and both adjacency maps preserves the invariant: every edge is listed forward and backward, endpoints are nodes, and no entry is empty |
| Graph.InsertPresentIsNoOp | importgraph.py:134 | inserting an edge that is already present leaves nodes, edges and both adjacency maps unchanged |
| Graph.OutEdgesListed | importgraph.py:101-102 | under the invariant, a node's forward entry holds exactly its out-edges' heads, and it exists only if the node has an out-edge |
| Graph.InEdgesListed | importgraph.py:104-105 | under the invariant, a node's reverse entry holds exactly its in-edges' tails, and it exists only if the node has an in-edge |
| Graph.ImportGraph.constructor | importgraph.py:87-98 | a new graph is empty and valid, and a missing exclusion list means no exclusion patterns |
| Graph.ImportGraph.ImportedModules | importgraph.py:101-102 | None exactly when the node has no out-edge, even if it is a node; otherwise exactly the heads of its out-edges |
| Graph.ImportGraph.ImportingModules | importgraph.py:104-105 | None exactly when the node has no in-edge; otherwise exactly the tails of its in-edges |
| Graph.ImportGraph.FilesMatchRegex | importgraph.py:107-112 | with no inclusion pattern every edge passes; otherwise it passes if and only if both files fully match |
| Graph.ImportGraph.FilesAreExcluded | importgraph.py:114-121 | true if and only if some exclusion pattern fully matches either endpoint's file |
| Graph.ImportGraph.ShouldKeepEdge | importgraph.py:123-124 | keeps the edge if and only if the inclusion test passes and neither file is excluded |
| Graph.ImportGraph.ExclusionWins | importgraph.py:114-124 | an exclusion match on either endpoint drops the edge, even when the inclusion pattern matches |
| Graph.ImportGraph.IncludedAndNotExcludedKept | importgraph.py:107-124 | both files matching the inclusion pattern, with no exclusion match, keeps the edge |
| Graph.ImportGraph.UnloadedEndpointFiledAsEmpty | importgraph.py:62-69 | an unloaded endpoint is tested as the file name `""`, against both inclusion and exclusion |
| Graph.ImportGraph.KeptTargetsExactly | importgraph.py:168-170 | the kept targets are exactly the resolved names whose edge passes the filter |
| Graph.ImportGraph.AddNode | importgraph.py:126-128 | adds the node, and only the node; the invariant is kept |
| Graph.ImportGraph.AddEdge | importgraph.py:130-138 | both endpoints become nodes; the edge is added to the edge set and to both adjacency maps; nothing else changes; adding a present edge changes nothing; the invariant is kept |
| Graph.ImportGraph.AddImport | importgraph.py:167-171 | adds exactly the edges from the requester to the resolved names that pass the filter, plus their endpoints; the invariant is kept |
| Graph.ImportGraph.AddEdgesTo | importgraph.py:168-171 | the loop over the resolved names: adds exactly the kept edges and their endpoints |
| Graph.ImportGraph.ShiftSubtree | importgraph.py:153-156 | lowers every node of the subtree by the shared node's recorded level minus its traversal level; the shared node ends at that level; differences inside the subtree are preserved; other nodes are unchanged |
| Graph.ImportGraph.NormaliseHierarchy | importgraph.py:163-165 | fails on an empty hierarchy (the source's `min` of nothing); otherwise subtracts the minimum from every level, so the same nodes end up with levels ≥ 0, one at 0, and differences preserved |
| ResolverExamples.FromNameCases | tests/test_importgraph.py:11-24 | `__name__` present, empty globals and no globals |
| ResolverExamples.SiblingImports | tests/test_importgraph.py:29-38 | `from . import module2` and `from . import module2, module3` inside `some.module` |
| ResolverExamples.RelativeModuleImport | tests/test_importgraph.py:31-32 | `from .module2 import SomeClass` inside `some.module` |
| ResolverExamples.ParentImport | tests/test_importgraph.py:33-34 | `from .. import module` inside `some.module` gives `('module',)` |
| ResolverExamples.AbsoluteFromImport | tests/test_importgraph.py:35-36 | level 0 keeps none of the importer's segments |
| ResolverExamples.EverythingLoaded | tests/test_importgraph.py:61-70 | with the full path loaded, the whole path is returned |
| ResolverExamples.ClassAttributeResolvesToModule | importgraph.py:71-76 | a class name after a loaded module is cut back to the module |
| ResolverExamples.AttributeTrimmedToModule | importgraph.py:78-83 | `from .module2 import SomeClass` with only `some.module2` loaded depends on `some.module2` |
| ResolverExamples.MissesCollapse | importgraph.py:78-83 | two items that both miss resolve to the one empty path and give the single name `""` |
| ResolverExamples.PlainImport | importgraph.py:79-80 | a plain import depends on exactly the requested name |

## Left out

- `ImportGraphCommand` (importgraph.py:210-311) is left out. It covers argument parsing, rebinding `builtins.__import__`, the directory walk of `_collect_module_names`, changes to `sys.path`, and printing or saving output. All of this is I/O and runtime hooking.
- `DotImportGraph` and the abstract `save`/`to_string` are left out: they only hand the graph to the graphviz library. `CouplingGraph` and `ModuleClusterer` are empty stubs.
- The traversal loop of `_build_hierarchy` (importgraph.py:140-162) is not modelled. Nothing calls it, and as written it cannot finish. It iterates the None that `imported_modules` returns for a leaf. It has no visited set, so a cycle never ends. It calls `min` on an empty map for an empty graph. Only its shift step and its normalise step are modelled.
- The live registry, `__file__` and the regular-expression engine are parameters. A registry entry bound to None counts as not loaded. A `__file__` of None is not modelled. Errors from compiling a pattern are not modelled.
- The `imported_module` argument of `ImportAction` is never read and is not modelled. Globals are modelled as a map from strings to strings.
- Resolver.ImportedNames: the source lists the names in the iteration order of a Python set, which the model does not fix. The model takes first-occurrence order. Only the set of recorded edges depends on the names, and that set is order-independent.
- The relative level is a `nat`, where the source's parameter is an `int`: a negative level makes the wrapped `old_import` raise (importgraph.py:263) before an `ImportAction` is built (importgraph.py:264).
- The adjacency queries `imported_modules` and `importing_modules` (importgraph.py:102, 105) return the stored set itself, which aliases the graph's state; the model returns it as a value. No caller in importgraph.py mutates the returned set.
- deptree.py is an earlier revision of the same resolver, and setup.py and tests/conftest.py hold no logic; none of them is part of this model.
