/** Collecting the source graph from seeds with a stack worklist. */
module ModuleCollection {
  import opened Orders
  import opened Graphs
  import opened TopologicalSort
  import opened ModuleWalk

  /** Imports between spelled paths. */
  function PathGraph(files: map<string, FileResult>): Graph<string> {
    map p | p in files && files[p].Parsed? :: Elements(files[p].imports)
  }

  ghost predicate FromSeeds(files: map<string, FileResult>, seeds: seq<string>, path: string) {
    exists s :: s in seeds && Reaches(PathGraph(files), s, path)
  }

  lemma SeedReached(files: map<string, FileResult>, seeds: seq<string>, s: string)
    requires s in seeds
    ensures FromSeeds(files, seeds, s)
  {
    ReachesSelf(PathGraph(files), s);
  }

  lemma ImportReached(files: map<string, FileResult>, seeds: seq<string>, path: string, i: nat)
    requires FromSeeds(files, seeds, path) && Read(files, path).Parsed? && i < |Read(files, path).imports|
    ensures FromSeeds(files, seeds, Read(files, path).imports[i])
  {
    var s :| s in seeds && Reaches(PathGraph(files), s, path);
    ReachesEdge(PathGraph(files), s, path, files[path].imports[i]);
  }

  /** Every module is a parsed file some seed leads to, recorded under its own key with the keys of its imports. */
  ghost predicate Sound(files: map<string, FileResult>, key: string -> string, seeds: seq<string>,
                        modules: seq<Module>, edges: map<string, set<string>>) {
    && Distinct(Keys(modules)) && Elements(Keys(modules)) == edges.Keys
    && (forall m :: m in modules ==> m.key == key(m.content) && m.key in edges && FromSeeds(files, seeds, m.content))
    && (forall m :: m in modules ==>
          Read(files, m.content).Parsed? && edges[m.key] == ImportKeys(Read(files, m.content).imports, key))
  }

  /** Nothing the seeds or the recorded edges point at is missing. */
  ghost predicate Complete(key: string -> string, seeds: seq<string>, edges: map<string, set<string>>) {
    && (forall s :: s in seeds ==> key(s) in edges)
    && Closed(edges, edges.Keys)
  }

  predicate Waiting(key: string -> string, stack: seq<string>, k: string) {
    exists i :: 0 <= i < |stack| && key(stack[i]) == k
  }

  /** Push the imports that were not processed yet and record an edge for every import. */
  method PushImports(imports: seq<string>, key: string -> string, processed: set<string>, stack0: seq<string>)
      returns (stack: seq<string>, deps: set<string>)
    ensures deps == ImportKeys(imports, key)
    ensures forall p :: p in stack ==> p in stack0 || p in imports
    ensures stack0 <= stack && forall d :: d in deps ==> d in processed || Waiting(key, stack, d)
    ensures stack == stack0 + Fresh(imports, key, processed)
  {
    stack, deps := stack0, {};
    for i := 0 to |imports|
      invariant deps == ImportKeys(imports[..i], key)
      invariant forall p :: p in stack ==> p in stack0 || p in imports
      invariant stack0 <= stack && forall d :: d in deps ==> d in processed || Waiting(key, stack, d)
      invariant stack == stack0 + Fresh(imports[..i], key, processed)
    {
      assert imports[..i + 1][..i] == imports[..i];
      var dep := key(imports[i]);
      ghost var before := stack;
      if dep !in processed {
        stack := stack + [imports[i]];
        assert key(stack[|stack| - 1]) == dep;
      }
      forall d | d in deps ensures d in processed || Waiting(key, stack, d) {
        if d !in processed {
          var j :| 0 <= j < |before| && key(before[j]) == d;
          assert key(stack[j]) == d;
        }
      }
      deps := deps + {dep};
      assert ImportKeys(imports[..i + 1], key) == ImportKeys(imports[..i], key) + {dep} by {
        assert imports[..i + 1][i] == imports[i];
        forall d | d in ImportKeys(imports[..i], key) ensures d in ImportKeys(imports[..i + 1], key) {
          var j :| 0 <= j < i && key(imports[..i][j]) == d;
          assert imports[..i + 1][j] == imports[..i][j];
        }
      }
    }
    assert imports[..|imports|] == imports;
  }

  ghost predicate Pending(key: string -> string, seeds: seq<string>, edges: map<string, set<string>>, stack: seq<string>) {
    && (forall s :: s in seeds ==> key(s) in edges || Waiting(key, stack, key(s)))
    && (forall k, d :: k in edges && d in edges[k] ==> d in edges || Waiting(key, stack, d))
  }

  lemma PopProcessed(key: string -> string, seeds: seq<string>, edges: map<string, set<string>>, stack: seq<string>)
    requires stack != [] && Pending(key, seeds, edges, stack) && key(stack[|stack| - 1]) in edges
    ensures Pending(key, seeds, edges, stack[..|stack| - 1])
  {
    var rest := stack[..|stack| - 1];
    forall k | Waiting(key, stack, k) && k !in edges ensures Waiting(key, rest, k) {
      var i :| 0 <= i < |stack| && key(stack[i]) == k;
      assert rest[i] == stack[i];
    }
  }

  lemma PopProcessing(key: string -> string, seeds: seq<string>, edges: map<string, set<string>>, stack: seq<string>,
                      next: seq<string>, deps: set<string>)
    requires stack != [] && Pending(key, seeds, edges, stack) && stack[..|stack| - 1] <= next
    requires forall d :: d in deps ==> d in edges || d == key(stack[|stack| - 1]) || Waiting(key, next, d)
    ensures Pending(key, seeds, edges[key(stack[|stack| - 1]) := deps], next)
  {
    var file := stack[|stack| - 1];
    forall k | Waiting(key, stack, k) && k !in edges && k != key(file) ensures Waiting(key, next, k) {
      var i :| 0 <= i < |stack| && key(stack[i]) == k;
      assert next[i] == stack[i];
    }
  }

  lemma NothingPending(key: string -> string, seeds: seq<string>, edges: map<string, set<string>>)
    requires Pending(key, seeds, edges, [])
    ensures Complete(key, seeds, edges)
  {
    forall k | k in edges ensures edges[k] <= edges.Keys {
      forall d | d in edges[k] ensures d in edges {}
    }
  }

  lemma AddModule(files: map<string, FileResult>, key: string -> string, seeds: seq<string>,
                  modules: seq<Module>, edges: map<string, set<string>>, file: string)
    requires Sound(files, key, seeds, modules, edges) && key(file) !in edges
    requires FromSeeds(files, seeds, file) && Read(files, file).Parsed?
    ensures Sound(files, key, seeds, modules + [Module(key(file), file)],
                  edges[key(file) := ImportKeys(Read(files, file).imports, key)])
  {
    KeysAppend(modules, Module(key(file), file));
    assert key(file) !in Elements(Keys(modules));
  }

  ghost predicate AllReached(files: map<string, FileResult>, seeds: seq<string>, stack: seq<string>) {
    forall p :: p in stack ==> FromSeeds(files, seeds, p)
  }

  /** Recorded edges lead from a seed's identity to `k`. */
  ghost predicate KeyReached(key: string -> string, seeds: seq<string>, edges: map<string, set<string>>, k: string) {
    exists s :: s in seeds && Reaches(edges, key(s), k)
  }

  /** Recorded edges lead from the seeds to everything recorded and everything on the stack. */
  ghost predicate EdgesLead(key: string -> string, seeds: seq<string>, edges: map<string, set<string>>,
                            stack: seq<string>) {
    && (forall k :: k in edges ==> KeyReached(key, seeds, edges, k))
    && (forall p :: p in stack ==> KeyReached(key, seeds, edges, key(p)))
  }

  lemma SeedsLead(key: string -> string, seeds: seq<string>)
    ensures EdgesLead(key, seeds, map[], seeds)
  {
    forall p | p in seeds ensures KeyReached(key, seeds, map[], key(p)) {
      ReachesSelf<string>(map[], key(p));
    }
  }

  /** More recorded edges keep what was reached. */
  lemma KeyReachedGrows(key: string -> string, seeds: seq<string>, edges: map<string, set<string>>, file: string,
                        deps: set<string>, k: string)
    requires KeyReached(key, seeds, edges, k) && key(file) !in edges
    ensures KeyReached(key, seeds, edges[key(file) := deps], k)
  {
    var more := edges[key(file) := deps];
    var s :| s in seeds && Reaches(edges, key(s), k);
    var p :| IsPath(edges, p, key(s), k);
    forall i | 0 <= i < |p| - 1 ensures Edge(more, p[i], p[i + 1]) {
      assert Edge(edges, p[i], p[i + 1]);
    }
    assert IsPath(more, p, key(s), k);
  }

  lemma StepLeads(key: string -> string, seeds: seq<string>, edges: map<string, set<string>>, stack: seq<string>,
                  file: string, imports: seq<string>, next: seq<string>)
    requires EdgesLead(key, seeds, edges, stack) && file in stack && key(file) !in edges
    requires forall p :: p in next ==> p in stack || p in imports
    ensures EdgesLead(key, seeds, edges[key(file) := ImportKeys(imports, key)], next)
  {
    var deps := ImportKeys(imports, key);
    var more := edges[key(file) := deps];
    KeyReachedGrows(key, seeds, edges, file, deps, key(file));
    forall k | k in more ensures KeyReached(key, seeds, more, k) {
      if k != key(file) { KeyReachedGrows(key, seeds, edges, file, deps, k); }
    }
    forall p | p in next ensures KeyReached(key, seeds, more, key(p)) {
      if p in stack {
        KeyReachedGrows(key, seeds, edges, file, deps, key(p));
      } else {
        var i :| 0 <= i < |imports| && imports[i] == p;
        assert key(imports[i]) in deps;
        ReachedAlong(key, seeds, more, key(file), key(p));
      }
    }
  }

  lemma ReachedAlong(key: string -> string, seeds: seq<string>, edges: map<string, set<string>>, k: string, d: string)
    requires KeyReached(key, seeds, edges, k) && Edge(edges, k, d)
    ensures KeyReached(key, seeds, edges, d)
  {
    var s :| s in seeds && Reaches(edges, key(s), k);
    ReachesEdge(edges, key(s), k, d);
  }

  /** A complete walk whose edges lead everywhere has recorded exactly the identities its edges lead to. */
  lemma RecordedIsReached(key: string -> string, seeds: seq<string>, edges: map<string, set<string>>)
    requires Complete(key, seeds, edges) && EdgesLead(key, seeds, edges, [])
    ensures forall k :: k in edges <==> KeyReached(key, seeds, edges, k)
  {
    hide Reaches, IsPath;
    forall k | KeyReached(key, seeds, edges, k) ensures k in edges {
      var s :| s in seeds && Reaches(edges, key(s), k);
      ReachesStaysInside(edges, edges.Keys, key(s), k);
    }
  }

  lemma SeedsPending(files: map<string, FileResult>, key: string -> string, seeds: seq<string>)
    ensures AllReached(files, seeds, seeds) && Pending(key, seeds, map[], seeds)
  {
    forall s | s in seeds ensures FromSeeds(files, seeds, s) && Waiting(key, seeds, key(s)) {
      SeedReached(files, seeds, s);
      var i :| 0 <= i < |seeds| && seeds[i] == s;
      assert key(seeds[i]) == key(s);
    }
  }

  lemma PushedReached(files: map<string, FileResult>, seeds: seq<string>, stack: seq<string>, file: string, next: seq<string>)
    requires AllReached(files, seeds, stack) && file in stack && Read(files, file).Parsed?
    requires forall p :: p in next ==> p in stack || p in Read(files, file).imports
    ensures AllReached(files, seeds, next)
  {
    forall p | p in next ensures FromSeeds(files, seeds, p) {
      if p in Read(files, file).imports {
        var i :| 0 <= i < |Read(files, file).imports| && Read(files, file).imports[i] == p;
        ImportReached(files, seeds, file, i);
      }
    }
  }

  datatype Walk = Walk(stack: seq<string>, modules: seq<Module>, edges: map<string, set<string>>)

  ghost predicate WalkValid(files: map<string, FileResult>, key: string -> string, seeds: seq<string>, w: Walk) {
    && Sound(files, key, seeds, w.modules, w.edges) && Pending(key, seeds, w.edges, w.stack)
    && AllReached(files, seeds, w.stack) && EdgesLead(key, seeds, w.edges, w.stack)
  }

  /** Take one path off the stack and, when its identity is new and the file parses, collect it. */
  method VisitTop(files: map<string, FileResult>, key: string -> string, ghost seeds: seq<string>, w: Walk)
      returns (next: Walk, failure: Option<string>)
    requires WalkValid(files, key, seeds, w) && w.stack != []
    ensures failure.Some? ==>
      var top := w.stack[|w.stack| - 1]; FromSeeds(files, seeds, top) && Read(files, top) == Failed(failure.value)
    ensures failure.None? ==> WalkValid(files, key, seeds, next)
    ensures VisitAll(files, key, w.stack, Collected(w.modules, w.edges)) ==
      if failure.Some? then Error(w.stack[|w.stack| - 1], failure.value)
      else VisitAll(files, key, next.stack, Collected(next.modules, next.edges))
    ensures failure.None? && next.edges.Keys == w.edges.Keys ==> |next.stack| < |w.stack|
    ensures failure.None? && next.edges.Keys != w.edges.Keys ==>
      w.edges.Keys < next.edges.Keys && exists p :: p in files && next.edges.Keys == w.edges.Keys + {key(p)}
  {
    hide WalkValid, FromSeeds, VisitAll, Fresh;
    WalkStep(files, key, w.stack, Collected(w.modules, w.edges));
    var file := w.stack[|w.stack| - 1];
    var rest := w.stack[..|w.stack| - 1];
    var fileKey := key(file);
    next, failure := w, None;
    TopReached(files, key, seeds, w);
    if fileKey in w.edges {
      VisitedAgain(files, key, seeds, w);
      next := w.(stack := rest);
      return;
    }
    var result := Read(files, file);
    if result.Failed? {
      failure := Some(result.error);
      return;
    }
    var stack, deps := PushImports(result.imports, key, w.edges.Keys + {fileKey}, rest);
    VisitedFirst(files, key, seeds, w, stack);
    next := Walk(stack, w.modules + [Module(fileKey, file)], w.edges[fileKey := deps]);
    assert next.edges.Keys == w.edges.Keys + {fileKey};
  }

  lemma TopReached(files: map<string, FileResult>, key: string -> string, seeds: seq<string>, w: Walk)
    requires WalkValid(files, key, seeds, w) && w.stack != []
    ensures FromSeeds(files, seeds, w.stack[|w.stack| - 1])
  {
    assert w.stack[|w.stack| - 1] in w.stack;
  }

  lemma VisitedAgain(files: map<string, FileResult>, key: string -> string, seeds: seq<string>, w: Walk)
    requires WalkValid(files, key, seeds, w) && w.stack != [] && key(w.stack[|w.stack| - 1]) in w.edges
    ensures WalkValid(files, key, seeds, w.(stack := w.stack[..|w.stack| - 1]))
  {
    hide Sound, FromSeeds, KeyReached, Pending;
    PopProcessed(key, seeds, w.edges, w.stack);
  }

  lemma VisitedFirst(files: map<string, FileResult>, key: string -> string, seeds: seq<string>, w: Walk,
                     stack: seq<string>)
    requires WalkValid(files, key, seeds, w) && w.stack != [] && key(w.stack[|w.stack| - 1]) !in w.edges
    requires Read(files, w.stack[|w.stack| - 1]).Parsed?
    requires var imports, rest := Read(files, w.stack[|w.stack| - 1]).imports, w.stack[..|w.stack| - 1];
      && rest <= stack && (forall p :: p in stack ==> p in rest || p in imports)
      && forall d :: d in ImportKeys(imports, key) ==>
           d in w.edges.Keys + {key(w.stack[|w.stack| - 1])} || Waiting(key, stack, d)
    ensures var file, deps := w.stack[|w.stack| - 1], ImportKeys(Read(files, w.stack[|w.stack| - 1]).imports, key);
      WalkValid(files, key, seeds, Walk(stack, w.modules + [Module(key(file), file)], w.edges[key(file) := deps]))
  {
    hide Sound, Pending, EdgesLead, AllReached, Waiting, ImportKeys, FromSeeds;
    var file := w.stack[|w.stack| - 1];
    var imports := Read(files, file).imports;
    assert file in w.stack;
    TopReached(files, key, seeds, w);
    PushedReached(files, seeds, w.stack, file, stack);
    PopProcessing(key, seeds, w.edges, w.stack, stack, ImportKeys(imports, key));
    AddModule(files, key, seeds, w.modules, w.edges, file);
    StepLeads(key, seeds, w.edges, w.stack, file, imports, stack);
  }

  /**
   The worklist ends. On success the modules are sound and complete, so their keys are pairwise distinct and every
   recorded edge ends at a collected module, and exactly the identities that the recorded edges lead to from the seeds
   are collected; on failure the reported file is one the seeds lead to. Modules, edges and failures are those of the
   plain recursive walk, in its order.
   */
  method Collect(files: map<string, FileResult>, key: string -> string, seeds: seq<string>) returns (r: Result)
    ensures r.Collected? ==> Sound(files, key, seeds, r.modules, r.edges) && Complete(key, seeds, r.edges)
    ensures r.Collected? ==> forall k :: k in r.edges <==> KeyReached(key, seeds, r.edges, k)
    ensures r.Error? ==> FromSeeds(files, seeds, r.path) && Read(files, r.path) == Failed(r.error)
    ensures r == VisitAll(files, key, seeds, Collected([], map[]))
  {
    var w := Walk(seeds, [], map[]);
    ghost var universe := set p | p in files :: key(p);
    SeedsPending(files, key, seeds);
    SeedsLead(key, seeds);
    while w.stack != []
      invariant WalkValid(files, key, seeds, w) && w.edges.Keys <= universe
      invariant VisitAll(files, key, seeds, Collected([], map[])) == VisitAll(files, key, w.stack, Collected(w.modules, w.edges))
      decreases universe - w.edges.Keys, |w.stack|
    {
      ghost var before := w.edges.Keys;
      var next, failure := VisitTop(files, key, seeds, w);
      if failure.Some? {
        return Error(w.stack[|w.stack| - 1], failure.value);
      }
      w := next;
      Shrinks(universe, before, w.edges.Keys);
    }
    NothingPending(key, seeds, w.edges);
    RecordedIsReached(key, seeds, w.edges);
    return Collected(w.modules, w.edges);
  }

  lemma Shrinks(universe: set<string>, before: set<string>, after: set<string>)
    ensures before < after <= universe ==> universe - after < universe - before
  {
    if before < after <= universe {
      var k :| k in after && k !in before;
      assert k in universe - before && k !in universe - after;
    }
  }

  /** Two spellings of one identity read the same: both fail, or both import the same identities. */
  ghost predicate SpellingIndependent(files: map<string, FileResult>, key: string -> string) {
    forall p, q :: key(p) == key(q) ==>
      match (Read(files, p), Read(files, q))
      case (Parsed(i), Parsed(j)) => ImportKeys(i, key) == ImportKeys(j, key)
      case (Failed(_), Failed(_)) => true
      case _ => false
  }

  lemma {:induction false} CollectedAlongPath(files: map<string, FileResult>, key: string -> string, seeds: seq<string>,
                                              modules: seq<Module>, edges: map<string, set<string>>, path: seq<string>,
                                              a: string, b: string)
    requires SpellingIndependent(files, key) && Sound(files, key, seeds, modules, edges) && Complete(key, seeds, edges)
    requires IsPath(PathGraph(files), path, a, b) && key(a) in edges
    ensures key(b) in edges
    decreases |path|
  {
    if |path| > 1 {
      PathDrop(PathGraph(files), path, a, b, 0);
      PathDrop(PathGraph(files), path, a, b, 1);
      var m := ModuleOf(modules, edges, key(a));
      var i :| 0 <= i < |files[a].imports| && files[a].imports[i] == path[1];
      assert key(path[1]) in ImportKeys(files[a].imports, key);
      assert edges[key(a)] == ImportKeys(Read(files, a).imports, key);
      CollectedAlongPath(files, key, seeds, modules, edges, path[1..], path[1], b);
    }
  }

  lemma ModuleOf(modules: seq<Module>, edges: map<string, set<string>>, k: string) returns (m: Module)
    requires Elements(Keys(modules)) == edges.Keys && k in edges
    ensures m in modules && m.key == k
  {
    assert k in Elements(Keys(modules));
    var i :| 0 <= i < |modules| && Keys(modules)[i] == k;
    m := modules[i];
  }

  /**
   When spellings do not matter, a successful collection is exactly the set of identities reachable from the seeds, each
   collected once, and every file reachable from the seeds parsed: collection fails exactly when one of them does not.
   */
  lemma CollectionIsReachability(files: map<string, FileResult>, key: string -> string, seeds: seq<string>,
                                 modules: seq<Module>, edges: map<string, set<string>>)
    requires SpellingIndependent(files, key) && Sound(files, key, seeds, modules, edges) && Complete(key, seeds, edges)
    ensures forall k :: k in edges <==> exists p :: FromSeeds(files, seeds, p) && key(p) == k
    ensures forall p :: FromSeeds(files, seeds, p) ==> Read(files, p).Parsed?
  {
    forall p | FromSeeds(files, seeds, p) ensures key(p) in edges && Read(files, p).Parsed? {
      var s :| s in seeds && Reaches(PathGraph(files), s, p);
      var path :| IsPath(PathGraph(files), path, s, p);
      CollectedAlongPath(files, key, seeds, modules, edges, path, s, p);
      var m := ModuleOf(modules, edges, key(p));
      assert key(m.content) == key(p);
    }
    forall k | k in edges ensures exists p :: FromSeeds(files, seeds, p) && key(p) == k {
      var m := ModuleOf(modules, edges, k);
    }
  }

  /** Collection followed by the sort: a permutation of the collected identities, dependencies first where acyclic. */
  method CollectAndSort(files: map<string, FileResult>, key: string -> string, seeds: seq<string>)
      returns (r: Result, ghost collected: seq<Module>)
    ensures r.Error? ==> FromSeeds(files, seeds, r.path) && Read(files, r.path) == Failed(r.error)
    ensures r.Collected? ==> Sound(files, key, seeds, collected, r.edges) && Complete(key, seeds, r.edges)
    ensures r.Collected? ==> multiset(r.modules) == multiset(collected)
    ensures r.Collected? ==> Keys(r.modules) == SortKeys(Keys(collected), r.edges)
    ensures VisitAll(files, key, seeds, Collected([], map[]))
      == if r.Collected? then Collected(collected, r.edges) else r
  {
    collected := [];
    r := Collect(files, key, seeds);
    if r.Collected? {
      collected := r.modules;
      var sorted := Sort(r.modules, r.edges);
      KeptKeysLoseDuplicates(collected);
      SortKeepsEveryModuleIff(collected, r.edges);
      RestrictComplete(Keys(collected), r.edges);
      SortedPermutes(collected, sorted);
      r := Collected(sorted, r.edges);
    }
  }

  lemma RestrictComplete(keys: seq<string>, edges: map<string, set<string>>)
    requires Elements(keys) == edges.Keys && Closed(edges, edges.Keys)
    ensures Restrict(Elements(keys), edges) == edges
  {
    var g := Restrict(Elements(keys), edges);
    forall k | k in edges ensures g[k] == edges[k] {}
  }

  lemma SortedPermutes(modules: seq<Module>, sorted: seq<Module>)
    requires Distinct(Keys(modules)) && multiset(Keys(sorted)) == multiset(Keys(modules))
    requires forall m :: m in sorted ==> exists i: nat :: LastAt(modules, m.key, i) && modules[i] == m
    ensures multiset(sorted) == multiset(modules)
  {
    SameMultisetDistinct(Keys(modules), Keys(sorted));
    forall i, j | 0 <= i < j < |modules| ensures modules[i] != modules[j] { assert Keys(modules)[i] != Keys(modules)[j]; }
    forall i, j | 0 <= i < j < |sorted| ensures sorted[i] != sorted[j] { assert Keys(sorted)[i] != Keys(sorted)[j]; }
    forall m ensures m in Elements(sorted) <==> m in Elements(modules) {
      if m in modules {
        var i :| 0 <= i < |modules| && modules[i] == m;
        assert Keys(modules)[i] in multiset(Keys(sorted));
        var j :| 0 <= j < |sorted| && Keys(sorted)[j] == m.key;
        assert sorted[j] in sorted;
        var l: nat :| LastAt(modules, sorted[j].key, l) && modules[l] == sorted[j];
        assert Keys(modules)[l] == Keys(modules)[i];
      }
    }
    DistinctSameElements(sorted, modules);
  }
}
