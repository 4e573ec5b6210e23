/** Scenarios from the repository's tests and from importgraph.py's behaviour. */
module ResolverExamples {
  import opened Wrappers
  import opened Dotted
  import opened Resolver

  /** A `from` import made inside the module named `requester`. */
  function FromInside(requester: string, name: string, items: seq<string>, level: nat): ImportAction
  {
    ImportAction(name, Some(map["__name__" := requester]), Some(items), level)
  }

  /** Two dot-free names joined by a dot split into those two names. */
  lemma SplitTwoSegments(x: string, y: string)
    requires '.' !in x && '.' !in y
    ensures Split(x + "." + y) == [x, y]
  {
    SplitAtFirstDot(x, y);
    SplitWithoutDot(y);
  }

  lemma ConcatSomeModule()
    ensures "some" + "." + "module" == "some.module"
  {
  }

  /** `some.module`, the importer of the scenarios below, has two segments. */
  lemma SplitSomeModule()
    ensures Split("some.module") == ["some", "module"]
  {
    ConcatSomeModule();
    SplitTwoSegments("some", "module");
  }

  lemma ConcatSomeModule2()
    ensures "some" + "." + "module2" == "some.module2"
  {
  }

  lemma SplitSomeModule2()
    ensures Split("some.module2") == ["some", "module2"]
  {
    ConcatSomeModule2();
    SplitTwoSegments("some", "module2");
  }

  lemma TargetModule2()
    ensures TargetSegments("module2") == ["module2"]
  {
    SplitWithoutDot("module2");
  }

  lemma TargetSomeModule2()
    ensures TargetSegments("some.module2") == ["some", "module2"]
  {
    SplitSomeModule2();
  }

  lemma JoinSomeModule2Class()
    ensures Join(["some", "module2"]) == "some.module2"
    ensures Join(["some", "module2", "SomeClass"]) != "some.module2"
  {
    ConcatSomeModule2();
    assert |Join(["some", "module2", "SomeClass"])| == 22;
  }

  /** `from_name` with a `__name__`, with empty globals and with no globals. */
  lemma FromNameCases()
    ensures FromName(ImportAction("x", Some(map["__name__" := "an.importing.module"]), None, 0)) == "an.importing.module"
    ensures FromName(ImportAction("x", Some(map[]), None, 0)) == "<unknown>"
    ensures FromName(ImportAction("x", None, None, 0)) == "<unknown>"
  {
  }

  /** `from . import module2` and `from . import module2, module3` inside `some.module`. */
  lemma SiblingImports(requester: string)
    requires Split(requester) == ["some", "module"]
    ensures BuildImportedPaths(FromInside(requester, "", ["module2"], 1)) == [["some", "module2"]]
    ensures BuildImportedPaths(FromInside(requester, "", ["module2", "module3"], 1))
         == [["some", "module2"], ["some", "module3"]]
  {
    assert RelativeBase(["some", "module"], 1) == ["some"];
    var r := BuildImportedPaths(FromInside(requester, "", ["module2"], 1));
    assert r[0] == ["some", "module2"];
    var r2 := BuildImportedPaths(FromInside(requester, "", ["module2", "module3"], 1));
    assert r2[0] == ["some", "module2"] && r2[1] == ["some", "module3"];
  }

  /** `from .module2 import SomeClass` inside `some.module`. */
  lemma RelativeModuleImport(requester: string)
    requires Split(requester) == ["some", "module"]
    ensures BuildImportedPaths(FromInside(requester, "module2", ["SomeClass"], 1)) == [["some", "module2", "SomeClass"]]
  {
    var a := FromInside(requester, "module2", ["SomeClass"], 1);
    assert FromName(a) == requester;
    assert RelativeBase(["some", "module"], 1) == ["some"];
    TargetModule2();
    var prefix := RelativeBase(Split(FromName(a)), a.level) + TargetSegments(a.name);
    assert prefix == ["some", "module2"];
    var r := BuildImportedPaths(a);
    assert |r| == 1 && r[0][..2] == prefix && |r[0]| == 3 && r[0][2] == "SomeClass";
    assert r[0] == ["some", "module2", "SomeClass"];
  }

  /** `from .. import module` inside `some.module`: two levels up leaves no base. */
  lemma ParentImport(requester: string)
    requires Split(requester) == ["some", "module"]
    ensures BuildImportedPaths(FromInside(requester, "", ["module"], 2)) == [["module"]]
  {
    var r := BuildImportedPaths(FromInside(requester, "", ["module"], 2));
    assert r[0] == ["module"];
  }

  /** `from some.module2 import SomeClass`: level 0 keeps none of the importer's segments. */
  lemma AbsoluteFromImport(requester: string)
    requires Split(requester) == ["some", "module"]
    ensures BuildImportedPaths(FromInside(requester, "some.module2", ["SomeClass"], 0)) == [["some", "module2", "SomeClass"]]
  {
    TargetSomeModule2();
    var r := BuildImportedPaths(FromInside(requester, "some.module2", ["SomeClass"], 0));
    assert r[0] == ["some", "module2", "SomeClass"];
  }

  /** With every name loaded, the whole path is the module found. */
  lemma EverythingLoaded(loaded: set<string>)
    requires "some.module.path" in loaded
    ensures LastModuleInPath(["some", "module", "path"], loaded) == ["some", "module", "path"]
  {
    assert Join(["some", "module", "path"]) == "some.module.path";
  }

  /** `SomeClass` is not a loaded module, so the path is cut back to `some.module2`. */
  lemma ClassAttributeResolvesToModule()
    ensures LastModuleInPath(["some", "module2", "SomeClass"], {"some.module2"}) == ["some", "module2"]
  {
    var path := ["some", "module2", "SomeClass"];
    assert path[..2] == ["some", "module2"] && path[..3] == path;
    JoinSomeModule2Class();
    LastModuleIsLongestLoaded(path, {"some.module2"}, 2);
  }

  /** A `from` import whose items resolve to a single path names that path alone. */
  lemma OnePathOneName(a: ImportAction, loaded: set<string>, p: seq<string>)
    requires a.fromlist.Some? && ResolvedModulePaths(a, loaded) == [p]
    ensures ImportedNames(a, loaded) == [Join(p)]
  {
  }

  /** The one candidate of `from .module2 import SomeClass` resolves to `some.module2`. */
  lemma AttributeTrimmedPaths(requester: string)
    requires Split(requester) == ["some", "module"]
    ensures ResolvedModulePaths(FromInside(requester, "module2", ["SomeClass"], 1), {"some.module2"}) == [["some", "module2"]]
  {
    var a := FromInside(requester, "module2", ["SomeClass"], 1);
    RelativeModuleImport(requester);
    ClassAttributeResolvesToModule();
    var cands := BuildImportedPaths(a);
    var resolved := seq(|cands|, i requires 0 <= i < |cands| => LastModuleInPath(cands[i], {"some.module2"}));
    assert resolved == [["some", "module2"]];
    assert Dedup(resolved) == [["some", "module2"]];
  }

  /**
   * `from .module2 import SomeClass` where `some.module2` is loaded and
   * `SomeClass` is an attribute, not a module: the edge goes to the module.
   */
  lemma AttributeTrimmedToModule(requester: string)
    requires Split(requester) == ["some", "module"]
    ensures ImportedNames(FromInside(requester, "module2", ["SomeClass"], 1), {"some.module2"}) == ["some.module2"]
  {
    AttributeTrimmedPaths(requester);
    OnePathOneName(FromInside(requester, "module2", ["SomeClass"], 1), {"some.module2"}, ["some", "module2"]);
    JoinSomeModule2Class();
  }

  /**
   * `from x import a, b` with nothing loaded: both items miss, resolve to the
   * same empty path, and give the single name "".
   */
  lemma MissesCollapse(requester: string)
    ensures ImportedNames(FromInside(requester, "", ["a", "b"], 0), {}) == [""]
  {
    var a := FromInside(requester, "", ["a", "b"], 0);
    var cands := BuildImportedPaths(a);
    forall c | c in cands ensures LastModuleInPath(c, {}) == [] {
      MissResolvesToEmpty(c, {});
    }
    assert cands[0] in cands && cands[1] in cands;
    var resolved := seq(|cands|, i requires 0 <= i < |cands| => LastModuleInPath(cands[i], {}));
    assert resolved == [[], []];
    assert Dedup([[]]) == [[]];
    assert Dedup(resolved) == [[]];
    assert ResolvedModulePaths(a, {}) == [[]];
    OnePathOneName(a, {}, []);
  }

  /** A plain `import` depends on exactly the requested name. */
  lemma PlainImport(name: string, loaded: set<string>)
    ensures ImportedNames(ImportAction(name, None, None, 0), loaded) == [name]
  {
  }
}

/** Scenarios on the dependency graph. */
module GraphExamples {
  import opened Wrappers
  import opened Resolver
  import opened Graph

  /** Recording one edge twice; a node with no out-edge has no forward entry. */
  method RecordTwice()
  {
    var g := new ImportGraph(None, None);
    g.AddEdge("app", "app.util");
    g.AddEdge("app", "app.util");
    assert g.edges == {("app", "app.util")};
    assert g.nodes == {"app", "app.util"};
    var out := g.ImportedModules("app");
    assert out.Some? && "app.util" in out.value;
    assert out.value == {"app.util"};
    assert "app.util" in g.nodes && g.ImportedModules("app.util") == None;
    assert g.ImportingModules("app") == None;
  }
}
