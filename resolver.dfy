/**
 * Turning one observed import into the dotted module names the importing
 * module now depends on (the `ImportAction` class of importgraph.py).
 *
 * The live module registry (`sys.modules`) is a parameter: a map from the
 * name of every loaded module to what is known about it.
 */
module Resolver {
  import opened Wrappers
  import opened Dotted

  /** The placeholder requester used when the importing context has no `__name__`. */
  const UnknownModuleName: string := "<unknown>"

  /** A loaded module, as far as the model needs it: its `__file__`, if it has one. */
  datatype Module = Module(file: Option<string>)

  /** `sys.modules`: the loaded module names and their modules. */
  type Registry = map<string, Module>

  /**
   * One observed call of the import primitive: the requested `name`, the
   * importing context's globals (None when the caller passed none), the
   * `fromlist` (None for a plain `import name`) and the relative `level`.
   */
  datatype ImportAction = ImportAction(
    name: string,
    globals: Option<map<string, string>>,
    fromlist: Option<seq<string>>,
    level: nat)

  /** `from_name`: the importing module's `__name__`, or the placeholder. */
  function FromName(a: ImportAction): (r: string)
    ensures a.globals.Some? && "__name__" in a.globals.value ==> r == a.globals.value["__name__"]
    ensures a.globals.None? || "__name__" !in a.globals.value ==> r == UnknownModuleName
  {
    match a.globals
    case None => UnknownModuleName
    case Some(g) => if "__name__" in g then g["__name__"] else UnknownModuleName
  }

  /** Python's slice `s[:stop]`: a negative stop counts from the end, and both ends clamp. */
  function SliceTo<T>(s: seq<T>, stop: int): (r: seq<T>)
    ensures r <= s
    ensures 0 <= stop ==> |r| == if stop > |s| then |s| else stop
    ensures stop < 0 ==> |r| == if |s| + stop < 0 then 0 else |s| + stop
  {
    var k := if stop < 0 then (if stop + |s| < 0 then 0 else stop + |s|)
             else (if stop > |s| then |s| else stop);
    s[..k]
  }

  /**
   * The base of a relative import: `segs[:-level]`. As Python evaluates it,
   * level 0 keeps nothing (`-0` is `0`), and so does a level that reaches
   * past the first segment.
   */
  function RelativeBase(segs: seq<string>, level: nat): (r: seq<string>)
    ensures r <= segs
    ensures |r| == if level == 0 || level >= |segs| then 0 else |segs| - level
  {
    SliceTo(segs, -(level as int))
  }

  /** The segments `name` contributes to a candidate path: none when it is empty. */
  function TargetSegments(name: string): (r: seq<string>)
    ensures name == "" ==> r == []
    ensures name != "" ==> Join(r) == name
    ensures name != "" ==> |r| >= 1 && forall i | 0 <= i < |r| :: '.' !in r[i]
  {
    if name != "" then (JoinSplit(name); Split(name)) else []
  }

  /**
   * `_build_imported_paths`: one candidate path per `fromlist` item, in
   * order; each is the relative base, then the target's segments, then the item.
   */
  function BuildImportedPaths(a: ImportAction): (r: seq<seq<string>>)
    requires a.fromlist.Some?
    ensures |r| == |a.fromlist.value|
    ensures forall i | 0 <= i < |r| ::
      var prefix := RelativeBase(Split(FromName(a)), a.level) + TargetSegments(a.name);
      |r[i]| == |prefix| + 1 && r[i][..|prefix|] == prefix && r[i][|prefix|] == a.fromlist.value[i]
  {
    var items := a.fromlist.value;
    var prefix := RelativeBase(Split(FromName(a)), a.level) + TargetSegments(a.name);
    seq(|items|, i requires 0 <= i < |items| => prefix + [items[i]])
  }

  /** Distinct `fromlist` items give distinct candidate paths. */
  lemma CandidatesDistinct(a: ImportAction)
    requires a.fromlist.Some?
    requires forall i, j | 0 <= i < j < |a.fromlist.value| :: a.fromlist.value[i] != a.fromlist.value[j]
    ensures var r := BuildImportedPaths(a);
      forall i, j | 0 <= i < j < |r| :: r[i] != r[j]
  {
    var r := BuildImportedPaths(a);
    var prefix := RelativeBase(Split(FromName(a)), a.level) + TargetSegments(a.name);
    forall i, j | 0 <= i < j < |r| ensures r[i] != r[j] {
      assert r[i][|prefix|] != r[j][|prefix|];
    }
  }

  /**
   * The search of `_last_module_in_path` from prefix length `i` down to 0:
   * the first prefix whose dotted name is loaded, or the empty path.
   */
  function LongestLoadedPrefix(path: seq<string>, i: nat, loaded: set<string>): (r: seq<string>)
    requires i <= |path|
    ensures r <= path[..i]
    ensures r != [] ==> Join(r) in loaded
    ensures forall j | |r| < j <= i :: Join(path[..j]) !in loaded
    decreases i
  {
    if Join(path[..i]) in loaded then path[..i]
    else if i == 0 then []
    else LongestLoadedPrefix(path, i - 1, loaded)
  }

  /**
   * `_last_module_in_path`: the longest prefix of `path` that names a loaded
   * module, or the empty path when no prefix does.
   */
  function LastModuleInPath(path: seq<string>, loaded: set<string>): (r: seq<string>)
    ensures r <= path
    ensures r != [] ==> Join(r) in loaded
    ensures forall j | |r| < j <= |path| :: Join(path[..j]) !in loaded
    ensures Join(path) in loaded ==> r == path
  {
    assert path[..|path|] == path;
    LongestLoadedPrefix(path, |path|, loaded)
  }

  /**
   * The result is determined: when the prefix of length `k` is loaded and
   * no longer prefix is, that prefix is the module found.
   */
  lemma LastModuleIsLongestLoaded(path: seq<string>, loaded: set<string>, k: nat)
    requires k <= |path|
    requires Join(path[..k]) in loaded
    requires forall j | k < j <= |path| :: Join(path[..j]) !in loaded
    ensures LastModuleInPath(path, loaded) == path[..k]
  {
    var r := LastModuleInPath(path, loaded);
    assert r == path[..|r|];
    assert !(|r| < k);
  }

  /** A resolution miss: no non-empty prefix of `path` is loaded, so the result is the empty path. */
  lemma MissResolvesToEmpty(path: seq<string>, loaded: set<string>)
    requires forall j | 1 <= j <= |path| :: Join(path[..j]) !in loaded
    ensures LastModuleInPath(path, loaded) == []
    ensures Join(LastModuleInPath(path, loaded)) == ""
  {
    var r := LastModuleInPath(path, loaded);
    assert r == path[..|r|];
  }

  /** The set comprehension of `imported_names`, kept in first-occurrence order. */
  function Dedup(s: seq<seq<string>>): (r: seq<seq<string>>)
    ensures |r| <= |s|
    ensures forall x :: x in r <==> x in s
    ensures forall i, j | 0 <= i < j < |r| :: r[i] != r[j]
  {
    if |s| == 0 then []
    else
      var t := Dedup(s[..|s| - 1]);
      assert forall x :: x in s <==> x in s[..|s| - 1] || x == s[|s| - 1];
      if s[|s| - 1] in t then t else t + [s[|s| - 1]]
  }

  /** The resolved module path of every candidate of a `from` import, without repeats. */
  function ResolvedModulePaths(a: ImportAction, loaded: set<string>): (r: seq<seq<string>>)
    requires a.fromlist.Some?
    ensures |r| <= |a.fromlist.value|
    ensures forall i, j | 0 <= i < j < |r| :: r[i] != r[j]
    ensures forall p :: p in r <==> exists c :: c in BuildImportedPaths(a) && p == LastModuleInPath(c, loaded)
  {
    var cands := BuildImportedPaths(a);
    var resolved := seq(|cands|, i requires 0 <= i < |cands| => LastModuleInPath(cands[i], loaded));
    assert forall p :: p in resolved <==> exists c :: c in cands && p == LastModuleInPath(c, loaded) by {
      forall p | p in resolved ensures exists c :: c in cands && p == LastModuleInPath(c, loaded) {
        var i :| 0 <= i < |resolved| && resolved[i] == p;
        assert cands[i] in cands;
      }
      forall p | exists c :: c in cands && p == LastModuleInPath(c, loaded) ensures p in resolved {
        var c :| c in cands && p == LastModuleInPath(c, loaded);
        var i :| 0 <= i < |cands| && cands[i] == c;
        assert resolved[i] == p;
      }
    }
    Dedup(resolved)
  }

  /**
   * `imported_names`: `[name]` for a plain import; for a `from` import, the
   * dotted name of every distinct resolved path. A miss joins to "".
   */
  function ImportedNames(a: ImportAction, loaded: set<string>): (r: seq<string>)
    ensures a.fromlist.None? ==> r == [a.name]
    ensures a.fromlist.Some? ==> |r| <= |a.fromlist.value|
    ensures a.fromlist.Some? ==> |r| == |ResolvedModulePaths(a, loaded)|
    ensures a.fromlist.Some? ==> forall n | n in r ::
      exists c :: c in BuildImportedPaths(a) && n == Join(LastModuleInPath(c, loaded))
    ensures a.fromlist.Some? ==> forall c | c in BuildImportedPaths(a) ::
      Join(LastModuleInPath(c, loaded)) in r
  {
    match a.fromlist
    case None => [a.name]
    case Some(_) =>
      var paths := ResolvedModulePaths(a, loaded);
      var names := seq(|paths|, i requires 0 <= i < |paths| => Join(paths[i]));
      assert forall c | c in BuildImportedPaths(a) :: Join(LastModuleInPath(c, loaded)) in names by {
        forall c | c in BuildImportedPaths(a) ensures Join(LastModuleInPath(c, loaded)) in names {
          var p := LastModuleInPath(c, loaded);
          assert p in paths;
          var i :| 0 <= i < |paths| && paths[i] == p;
          assert names[i] == Join(p);
        }
      }
      assert forall n | n in names :: exists c :: c in BuildImportedPaths(a) && n == Join(LastModuleInPath(c, loaded)) by {
        forall n | n in names ensures exists c :: c in BuildImportedPaths(a) && n == Join(LastModuleInPath(c, loaded)) {
          var i :| 0 <= i < |names| && names[i] == n;
          assert paths[i] in paths;
        }
      }
      names
  }

  /** An empty `fromlist` depends on nothing. */
  lemma EmptyFromlistImportsNothing(a: ImportAction, loaded: set<string>)
    requires a.fromlist == Some([])
    ensures ImportedNames(a, loaded) == []
  {
  }

  /**
   * The quirk of a miss: a `from` import whose candidate has no loaded
   * prefix contributes the empty name "".
   */
  lemma MissGivesEmptyName(a: ImportAction, loaded: set<string>, k: nat)
    requires a.fromlist.Some? && k < |a.fromlist.value|
    requires var c := BuildImportedPaths(a)[k]; forall j | 1 <= j <= |c| :: Join(c[..j]) !in loaded
    ensures "" in ImportedNames(a, loaded)
  {
    var c := BuildImportedPaths(a)[k];
    MissResolvesToEmpty(c, loaded);
    assert c in BuildImportedPaths(a);
  }

  /**
   * `module_file_path`: the `__file__` of a loaded module, and "" when the
   * name is not loaded or the module has no `__file__`.
   */
  function ModuleFilePath(name: string, registry: Registry): (r: string)
    ensures name !in registry ==> r == ""
    ensures name in registry && registry[name].file.None? ==> r == ""
    ensures name in registry && registry[name].file.Some? ==> r == registry[name].file.value
  {
    if name in registry then registry[name].file.GetOr("") else ""
  }
}
