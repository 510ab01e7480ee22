/** Dependency-first ordering of modules, with a deterministic fallback for cycles. */
module TopologicalSort {
  import opened Orders
  import opened Graphs

  datatype Module = Module(key: string, content: string)

  function Keys(modules: seq<Module>): (r: seq<string>)
    ensures |r| == |modules| && forall i :: 0 <= i < |r| ==> r[i] == modules[i].key
  {
    seq(|modules|, i requires 0 <= i < |modules| => modules[i].key)
  }

  /** Indexing by key keeps the last module of each key, at that module's discovery position. */
  function KeptKeys(modules: seq<Module>): seq<string> {
    if modules == [] then []
    else if modules[0].key in Keys(modules[1..]) then KeptKeys(modules[1..])
    else [modules[0].key] + KeptKeys(modules[1..])
  }

  predicate LastAt(modules: seq<Module>, k: string, i: nat) {
    i < |modules| && modules[i].key == k && forall j :: i < j < |modules| ==> modules[j].key != k
  }

  /** The dependency graph restricted to the collected modules. */
  function Restrict(keys: set<string>, edges: map<string, set<string>>): Graph<string> {
    map k | k in keys :: if k in edges then (set d | d in edges[k] && d in keys) else {}
  }

  // ---- specification: emit the earliest module whose dependencies are all emitted ----

  predicate Ready(g: Graph<string>, done: set<string>, k: string) {
    k in g && k !in done && g[k] <= done
  }

  function FirstReady(keys: seq<string>, g: Graph<string>, done: set<string>): (r: Option<string>)
    ensures r.Some? ==> r.value in keys && Ready(g, done, r.value)
    ensures r.None? ==> forall k :: k in keys ==> !Ready(g, done, k)
  {
    if keys == [] then None
    else if Ready(g, done, keys[0]) then Some(keys[0])
    else FirstReady(keys[1..], g, done)
  }

  function Emit(keys: seq<string>, g: Graph<string>, done: seq<string>): seq<string>
    decreases Elements(keys) - Elements(done)
  {
    match FirstReady(keys, g, Elements(done))
    case None => done
    case Some(k) =>
      assert k in Elements(keys) - Elements(done) && k !in Elements(keys) - Elements(done + [k]);
      assert Elements(done + [k]) == Elements(done) + {k};
      Emit(keys, g, done + [k])
  }

  /** The keys not yet emitted, latest discovered first. */
  function Unresolved(keys: seq<string>, done: seq<string>): seq<string> {
    if keys == [] then []
    else if keys[0] in done then Unresolved(keys[1..], done)
    else Unresolved(keys[1..], done) + [keys[0]]
  }

  function SortKeys(keys: seq<string>, g: Graph<string>): seq<string> {
    var prefix := Emit(keys, g, []);
    prefix + Unresolved(keys, prefix)
  }

  // ---- what the specification promises ----

  lemma {:induction false} EmitProperties(keys: seq<string>, g: Graph<string>, done: seq<string>)
    requires Distinct(done) && Elements(done) <= Elements(keys) && SuccessorsFirst(g, done)
    requires forall d :: d in done ==> d in g
    ensures var r := Emit(keys, g, done);
      && Distinct(r) && Elements(r) <= Elements(keys) && SuccessorsFirst(g, r)
      && (forall k :: k in keys ==> !Ready(g, Elements(r), k))
    decreases Elements(keys) - Elements(done)
  {
    match FirstReady(keys, g, Elements(done)) {
      case None =>
      case Some(k) =>
        var next := done + [k];
        assert Elements(next) == Elements(done) + {k};
        assert k in Elements(keys) - Elements(done);
        forall j, d | 0 <= j < |next| && Edge(g, next[j], d) ensures d in next[..j] {
          if j < |done| {
            assert Edge(g, done[j], d) && next[..j] == done[..j];
          } else {
            assert next[..j] == done;
          }
        }
        EmitProperties(keys, g, next);
    }
  }

  lemma {:induction false} UnresolvedElements(keys: seq<string>, done: seq<string>)
    ensures forall k :: k in Unresolved(keys, done) <==> k in keys && k !in done
    ensures Distinct(keys) ==> Distinct(Unresolved(keys, done))
  {
    if keys != [] {
      UnresolvedElements(keys[1..], done);
      assert keys == [keys[0]] + keys[1..];
    }
  }

  /**
   The emitted prefix is exactly the modules from which no dependency cycle can be reached, and each of them comes after
   all of its dependencies.
   */
  lemma PrefixIsTheAcyclicPart(keys: seq<string>, edges: map<string, set<string>>)
    ensures var g := Restrict(Elements(keys), edges);
      var prefix := Emit(keys, g, []);
      && SuccessorsFirst(g, prefix)
      && forall k :: k in prefix <==> k in keys && !CycleBelow(g, k)
  {
    var g := Restrict(Elements(keys), edges);
    EmitProperties(keys, g, []);
    var prefix := Emit(keys, g, []);
    forall k ensures k in prefix <==> k in keys && !CycleBelow(g, k) {
      if k in prefix {
        assert k in Elements(prefix);
        SuccessorsFirstAcyclic(g, prefix, k);
      } else if k in keys {
        var stuck := Elements(keys) - Elements(prefix);
        forall x | x in stuck ensures x in g && g[x] * stuck != {} {
          assert x in keys && !Ready(g, Elements(prefix), x);
          var d :| d in g[x] && d !in Elements(prefix);
          assert d in g[x] * stuck;
        }
        StuckMeansCycle(g, stuck, k);
      }
    }
  }

  /** The sort loses and invents nothing: distinct keys come back as a permutation, prefix first. */
  lemma SortKeysIsPermutation(keys: seq<string>, edges: map<string, set<string>>)
    requires Distinct(keys)
    ensures Distinct(SortKeys(keys, Restrict(Elements(keys), edges)))
    ensures Elements(SortKeys(keys, Restrict(Elements(keys), edges))) == Elements(keys)
  {
    var g := Restrict(Elements(keys), edges);
    EmitProperties(keys, g, []);
    var prefix := Emit(keys, g, []);
    UnresolvedElements(keys, prefix);
    hide Emit, Unresolved, Restrict;
    DistinctJoin(prefix, Unresolved(keys, prefix));
    assert Elements(SortKeys(keys, g)) == Elements(keys);
  }

  /** Modules disappear exactly when two of them share a key. */
  lemma SortKeepsEveryModuleIff(modules: seq<Module>, edges: map<string, set<string>>)
    ensures var sorted := SortKeys(KeptKeys(modules), Restrict(Elements(KeptKeys(modules)), edges));
      && (Distinct(Keys(modules)) ==> multiset(sorted) == multiset(Keys(modules)))
      && (!Distinct(Keys(modules)) ==> |sorted| < |modules|)
  {
    var keys := KeptKeys(modules);
    var sorted := SortKeys(keys, Restrict(Elements(keys), edges));
    KeptKeysDistinct(modules);
    KeptKeysLoseDuplicates(modules);
    SortKeysIsPermutation(keys, edges);
    DistinctSameElements(sorted, keys);
    assert |multiset(sorted)| == |sorted| && |multiset(keys)| == |keys|;
  }

  // ---- indexing modules ----

  lemma LastAtTail(modules: seq<Module>, k: string, i: nat)
    requires modules != [] && LastAt(modules, k, i)
    ensures k in Keys(modules[1..]) <==> i > 0
    ensures i > 0 ==> LastAt(modules[1..], k, i - 1)
  {
    var rest := modules[1..];
    if i > 0 { assert Keys(rest)[i - 1] == k; }
    if k in Keys(rest) {
      var j :| 0 <= j < |rest| && Keys(rest)[j] == k;
      assert modules[j + 1].key == k;
    }
    forall j | i - 1 < j < |rest| ensures rest[j].key != k { assert modules[j + 1].key != k; }
  }

  lemma {:induction false} KeptKeysElements(modules: seq<Module>)
    ensures forall k :: k in KeptKeys(modules) <==> k in Keys(modules)
  {
    if modules != [] {
      KeptKeysElements(modules[1..]);
      assert Keys(modules) == [modules[0].key] + Keys(modules[1..]);
    }
  }

  /** Kept keys come in the order of the positions they were kept at. */
  lemma {:induction false} KeptKeysInOrder(modules: seq<Module>, a: nat, b: nat, i: nat, j: nat)
    requires a < b < |KeptKeys(modules)|
    requires LastAt(modules, KeptKeys(modules)[a], i) && LastAt(modules, KeptKeys(modules)[b], j)
    ensures i < j
  {
    hide LastAt, Keys;
    var rest := modules[1..];
    KeptKeysElements(rest);
    LastAtTail(modules, KeptKeys(modules)[a], i);
    LastAtTail(modules, KeptKeys(modules)[b], j);
    if modules[0].key in Keys(rest) {
      KeptKeysInOrder(rest, a, b, i - 1, j - 1);
    } else if a > 0 {
      KeptKeysInOrder(rest, a - 1, b - 1, i - 1, j - 1);
    } else {
      assert KeptKeys(modules)[b] == KeptKeys(rest)[b - 1];
    }
  }

  lemma {:induction false} LastExists(modules: seq<Module>, k: string) returns (i: nat)
    requires k in Keys(modules)
    ensures LastAt(modules, k, i)
  {
    if k in Keys(modules[1..]) {
      var j := LastExists(modules[1..], k);
      i := j + 1;
      forall m | i < m < |modules| ensures modules[m].key != k { assert modules[1..][m - 1] == modules[m]; }
    } else {
      i :| 0 <= i < |modules| && Keys(modules)[i] == k;
      forall m | i < m < |modules| ensures modules[m].key != k { assert Keys(modules[1..])[m - 1] == modules[m].key; }
    }
  }

  lemma KeptKeysDistinct(modules: seq<Module>)
    ensures Distinct(KeptKeys(modules))
  {
    KeptKeysElements(modules);
    var kept := KeptKeys(modules);
    forall a, b | 0 <= a < b < |kept| ensures kept[a] != kept[b] {
      assert kept[a] in kept && kept[b] in kept;
      var i := LastExists(modules, kept[a]);
      var j := LastExists(modules, kept[b]);
      KeptKeysInOrder(modules, a, b, i, j);
    }
  }

  /** Nothing is lost exactly when the keys were distinct. */
  lemma {:induction false} KeptKeysLoseDuplicates(modules: seq<Module>)
    ensures |KeptKeys(modules)| <= |modules|
    ensures |KeptKeys(modules)| == |modules| <==> Distinct(Keys(modules))
    ensures Distinct(Keys(modules)) ==> KeptKeys(modules) == Keys(modules)
  {
    if modules != [] {
      KeptKeysLoseDuplicates(modules[1..]);
      assert Keys(modules) == [modules[0].key] + Keys(modules[1..]);
      PrependDistinct(modules[0].key, Keys(modules[1..]));
    }
  }

  lemma PrependDistinct<T>(x: T, s: seq<T>)
    ensures Distinct([x] + s) <==> Distinct(s) && x !in s
  {
    var t := [x] + s;
    if Distinct(t) {
      forall i, j | 0 <= i < j < |s| ensures s[i] != s[j] { assert t[i + 1] != t[j + 1]; }
      forall i | 0 <= i < |s| ensures s[i] != x { assert t[i + 1] != t[0]; }
    }
  }

  /** The two maps hold, for every key, its last module and that module's discovery position. */
  ghost predicate Indexed(modules: seq<Module>, byKey: map<string, Module>, order: map<string, nat>) {
    && byKey.Keys == order.Keys == Elements(Keys(modules))
    && forall k :: k in order ==> LastAt(modules, k, order[k]) && byKey[k] == modules[order[k]]
  }

  method IndexModules(modules: seq<Module>) returns (byKey: map<string, Module>, order: map<string, nat>)
    ensures Indexed(modules, byKey, order)
  {
    byKey, order := map[], map[];
    for idx := 0 to |modules|
      invariant Indexed(modules[..idx], byKey, order)
    {
      ghost var before, after := modules[..idx], modules[..idx + 1];
      assert after == before + [modules[idx]];
      assert Keys(after) == Keys(before) + [modules[idx].key];
      assert Elements(Keys(after)) == Elements(Keys(before)) + {modules[idx].key};
      order := order[modules[idx].key := idx];
      byKey := byKey[modules[idx].key := modules[idx]];
      forall k | k in order ensures LastAt(after, k, order[k]) {
        if k != modules[idx].key { assert LastAt(before, k, order[k]); }
      }
    }
    assert modules[..|modules|] == modules;
  }

  // ---- counting dependencies ----

  function Dependents(reverse: map<string, seq<string>>, d: string): seq<string> {
    if d in reverse then reverse[d] else []
  }

  /** `indegree` and `reverse` describe the graph `g`, each dependent being listed once. */
  ghost predicate Describes(g: Graph<string>, indegree: map<string, nat>, reverse: map<string, seq<string>>) {
    && indegree.Keys == g.Keys
    && (forall k :: k in g ==> indegree[k] == |g[k]|)
    && (forall d :: Distinct(Dependents(reverse, d)) && Elements(Dependents(reverse, d)) == DependentsOf(g, d))
  }

  function DependentsOf(g: Graph<string>, d: string): set<string> {
    set m | m in g && d in g[m]
  }

  lemma AddEdge(g: Graph<string>, indegree: map<string, nat>, reverse: map<string, seq<string>>, m: string, d: string)
    requires Describes(g, indegree, reverse) && m in g && d !in g[m]
    ensures Describes(g[m := g[m] + {d}], indegree[m := indegree[m] + 1], reverse[d := Dependents(reverse, d) + [m]])
  {
    var r := reverse[d := Dependents(reverse, d) + [m]];
    var h := g[m := g[m] + {d}];
    assert m !in DependentsOf(g, d);
    assert m !in Elements(Dependents(reverse, d));
    forall e ensures Distinct(Dependents(r, e)) && Elements(Dependents(r, e)) == DependentsOf(h, e) {
      assert Distinct(Dependents(reverse, e)) && Elements(Dependents(reverse, e)) == DependentsOf(g, e);
      if e == d {
        assert DependentsOf(h, e) == DependentsOf(g, e) + {m};
      } else {
        assert DependentsOf(h, e) == DependentsOf(g, e);
      }
    }
  }

  /** The edges of one module, in an arbitrary order; edges leaving the collected modules are ignored. */
  method CountModule(keys: set<string>, modulePath: string, allDeps: set<string>, indegree0: map<string, nat>,
                     reverse0: map<string, seq<string>>, ghost g: Graph<string>)
      returns (indegree: map<string, nat>, reverse: map<string, seq<string>>)
    requires Describes(g, indegree0, reverse0) && modulePath in g && g[modulePath] == {}
    ensures Describes(g[modulePath := allDeps * keys], indegree, reverse)
  {
    assert indegree0.Keys == g.Keys;
    hide Describes;
    indegree, reverse := indegree0, reverse0;
    var deps := allDeps;
    ghost var now := g;
    assert (allDeps - deps) * keys == {};
    while deps != {}
      invariant deps <= allDeps
      invariant now == g[modulePath := (allDeps - deps) * keys]
      invariant Describes(now, indegree, reverse) && indegree.Keys == now.Keys
      decreases |deps|
    {
      var dep :| dep in deps;
      deps := deps - {dep};
      if dep in keys {
        AddEdge(now, indegree, reverse, modulePath, dep);
        indegree := indegree[modulePath := indegree[modulePath] + 1];
        reverse := reverse[dep := Dependents(reverse, dep) + [modulePath]];
        now := now[modulePath := now[modulePath] + {dep}];
      }
      assert (allDeps - deps) * keys == now[modulePath];
    }
    assert allDeps - deps == allDeps;
  }

  /** The edge map is iterated in an arbitrary order. */
  method CountDependencies(keys: set<string>, edges: map<string, set<string>>)
      returns (indegree: map<string, nat>, reverse: map<string, seq<string>>)
    ensures Describes(Restrict(keys, edges), indegree, reverse)
  {
    indegree := map k | k in keys :: 0;
    reverse := map[];
    ghost var full := Restrict(keys, edges);
    ghost var partial: Graph<string> := map k | k in keys :: {};
    var left := edges.Keys;
    while left != {}
      invariant left <= edges.Keys
      invariant Describes(partial, indegree, reverse)
      invariant partial == map k | k in keys :: if k in left then {} else full[k]
      decreases |left|
    {
      var modulePath :| modulePath in left;
      left := left - {modulePath};
      if modulePath in keys {
        indegree, reverse := CountModule(keys, modulePath, edges[modulePath], indegree, reverse, partial);
        partial := partial[modulePath := edges[modulePath] * keys];
        assert full[modulePath] == edges[modulePath] * keys;
      }
    }
    assert partial == full;
  }

  // ---- the sort ----

  ghost predicate InOrder(keys: seq<string>, order: map<string, nat>) {
    && (forall k :: k in keys ==> k in order)
    && (forall a, b :: 0 <= a < b < |keys| ==> order[keys[a]] < order[keys[b]])
  }

  lemma IndexedInOrder(modules: seq<Module>, byKey: map<string, Module>, order: map<string, nat>)
    requires Indexed(modules, byKey, order)
    ensures InOrder(KeptKeys(modules), order) && Elements(KeptKeys(modules)) == order.Keys
  {
    KeptKeysElements(modules);
    var keys := KeptKeys(modules);
    assert forall k :: k in keys ==> k in Elements(Keys(modules));
    forall a, b | 0 <= a < b < |keys| ensures order[keys[a]] < order[keys[b]] {
      assert keys[a] in keys && keys[b] in keys;
      KeptKeysInOrder(modules, a, b, order[keys[a]], order[keys[b]]);
    }
  }

  lemma {:induction false} FirstReadyIsEarliest(keys: seq<string>, g: Graph<string>, done: set<string>,
                                                order: map<string, nat>, k: string)
    requires InOrder(keys, order) && k in keys && Ready(g, done, k)
    requires forall x :: x in keys && Ready(g, done, x) ==> order[k] <= order[x]
    ensures FirstReady(keys, g, done) == Some(k)
  {
    if Ready(g, done, keys[0]) {
      var a :| 0 <= a < |keys| && keys[a] == k;
      assert keys[0] in keys;
    } else {
      var rest := keys[1..];
      assert k in rest && forall x :: x in rest ==> x in keys;
      assert InOrder(rest, order);
      FirstReadyIsEarliest(rest, g, done, order, k);
    }
  }

  /** Open dependencies are counted, and the ready set holds the unemitted modules that have none. */
  ghost predicate Progress(g: Graph<string>, done: set<string>, indegree: map<string, nat>, ready: set<string>) {
    && indegree.Keys == g.Keys
    && (forall k :: k in g ==> indegree[k] == |g[k] - done|)
    && (forall k :: k in ready <==> k in g && k !in done && indegree[k] == 0)
  }

  lemma NoneOpen(g: Graph<string>, done: set<string>, k: string)
    requires k in g
    ensures |g[k] - done| == 0 <==> g[k] <= done
  {
    if |g[k] - done| == 0 {
      forall d | d in g[k] ensures d in done { assert d !in g[k] - done; }
    } else {
      var d :| d in g[k] - done;
    }
  }

  /** The ready set is ordered by discovery position, which no two modules share. */
  method PopFirst(ready: set<string>, order: map<string, nat>) returns (first: string)
    requires ready != {} && ready <= order.Keys
    ensures first in ready && forall x :: x in ready ==> order[first] <= order[x]
  {
    first :| first in ready;
    var left := ready - {first};
    while left != {}
      invariant left <= ready && first in ready
      invariant forall x :: x in ready - left ==> order[first] <= order[x]
      decreases |left|
    {
      var x :| x in left;
      if order[x] < order[first] { first := x; }
      left := left - {x};
    }
  }

  lemma OneLessOpen(g: Graph<string>, done: set<string>, next: string, k: string)
    requires k in g && next !in done
    ensures |g[k] - done| == |g[k] - (done + {next})| + if next in g[k] then 1 else 0
  {
    if next in g[k] {
      assert g[k] - done == (g[k] - (done + {next})) + {next};
    } else {
      assert g[k] - done == g[k] - (done + {next});
    }
  }

  /** One emitted module: each of its dependents has one open dependency less and is ready at zero. */
  method Relax(dependents: seq<string>, indegree0: map<string, nat>, ready0: set<string>)
      returns (indegree: map<string, nat>, ready: set<string>)
    requires Distinct(dependents) && forall m :: m in dependents ==> m in indegree0 && indegree0[m] > 0
    ensures indegree.Keys == indegree0.Keys
    ensures forall k :: k in indegree ==> indegree0[k] == indegree[k] + if k in dependents then 1 else 0
    ensures forall k :: k in ready <==> k in ready0 || (k in dependents && indegree[k] == 0)
  {
    indegree, ready := indegree0, ready0;
    ghost var seen: set<string> := {};
    for i := 0 to |dependents|
      invariant (forall j :: 0 <= j < i ==> dependents[j] in seen) && forall k :: k in seen ==> k in dependents
      invariant forall j :: i <= j < |dependents| ==> dependents[j] !in seen
      invariant indegree.Keys == indegree0.Keys
      invariant forall k :: k in indegree ==> indegree[k] == indegree0[k] - if k in seen then 1 else 0
      invariant forall k :: k in ready <==> k in ready0 || (k in seen && indegree[k] == 0)
    {
      var dependent := dependents[i];
      assert dependent in dependents;
      if indegree[dependent] > 0 {
        indegree := indegree[dependent := indegree[dependent] - 1];
        if indegree[dependent] == 0 {
          ready := ready + {dependent};
        }
      }
      seen := seen + {dependent};
    }
  }

  lemma DependentsAreOpen(g: Graph<string>, done: set<string>, next: string, k: string)
    requires Closed(g, done) && Ready(g, done, next) && k in g && next in g[k]
    ensures k !in done && k != next && |g[k] - done| > 0
  {
    assert next in g[k] - done;
  }

  lemma Relaxed(g: Graph<string>, done: set<string>, next: string, dependents: seq<string>, indegree0: map<string, nat>,
                ready0: set<string>, indegree: map<string, nat>, ready: set<string>)
    requires Elements(dependents) == DependentsOf(g, next)
    requires Closed(g, done) && Ready(g, done, next) && next in ready0
    requires Progress(g, done, indegree0, ready0)
    requires indegree.Keys == indegree0.Keys
    requires forall k :: k in indegree ==> indegree0[k] == indegree[k] + if k in dependents then 1 else 0
    requires forall k :: k in ready <==> k in ready0 - {next} || (k in dependents && k in indegree && indegree[k] == 0)
    ensures Progress(g, done + {next}, indegree, ready)
  {
    assert forall k :: k in dependents <==> k in DependentsOf(g, next);
    forall k | k in g ensures indegree[k] == |g[k] - (done + {next})| { OneLessOpen(g, done, next, k); }
    forall k | k in dependents ensures k !in done && k != next { DependentsAreOpen(g, done, next, k); }
  }

  predicate LaterFirst(a: (nat, Module), b: (nat, Module)) {
    a.0 >= b.0
  }

  /** The left-over modules with their positions, in an arbitrary order. */
  method CollectUnresolved(left0: map<string, Module>, order: map<string, nat>) returns (pairs: seq<(nat, Module)>)
    requires left0.Keys <= order.Keys && forall k :: k in left0 ==> left0[k].key == k
    ensures Distinct(pairs)
    ensures forall x :: x in pairs <==> x.1.key in left0 && x == (order[x.1.key], left0[x.1.key])
  {
    var left := left0.Keys;
    pairs := [];
    while left != {}
      invariant left <= left0.Keys && Distinct(pairs)
      invariant forall x :: x in pairs <==> x.1.key in left0.Keys - left && x == (order[x.1.key], left0[x.1.key])
      decreases |left|
    {
      var k :| k in left;
      pairs := pairs + [(order[k], left0[k])];
      left := left - {k};
    }
  }

  /** Sorting the left-over modules by falling discovery position gives the specified order. */
  lemma UnresolvedSorted(sorted: seq<(nat, Module)>, left0: map<string, Module>, order: map<string, nat>,
                         keys: seq<string>, done: seq<string>, r: seq<string>)
    requires InOrder(keys, order) && forall k :: k in left0 <==> k in keys && k !in done
    requires Distinct(sorted) && SortedBy(sorted, LaterFirst)
    requires forall k :: k in left0 ==> left0[k].key == k
    requires forall x :: x in sorted <==> x.1.key in left0 && x == (order[x.1.key], left0[x.1.key])
    requires |r| == |sorted| && forall i :: 0 <= i < |r| ==> r[i] == sorted[i].1.key
    ensures r == Unresolved(keys, done)
  {
    hide InOrder, Unresolved, LaterFirst, SortedBy;
    var later := (a: string, b: string) => a in order && b in order && order[a] > order[b];
    UnresolvedFalls(keys, done, order);
    UnresolvedElements(keys, done);
    var u := Unresolved(keys, done);
    forall i, j | 0 <= i < j < |r| ensures later(r[i], r[j]) {
      assert sorted[i] in sorted && sorted[j] in sorted && sorted[i] != sorted[j];
      LaterPair(sorted, i, j);
      SameIndexSameKey(keys, order, r[i], r[j]);
    }
    forall i, j | 0 <= i < j < |u| ensures later(u[i], u[j]) {
      assert u[i] in u && u[j] in u;
    }
    forall k ensures k in Elements(r) <==> k in Elements(u) {
      if k in left0 {
        assert (order[k], left0[k]) in sorted;
        var i :| 0 <= i < |sorted| && sorted[i] == (order[k], left0[k]);
        assert r[i] == k;
      }
      if k in r {
        var i :| 0 <= i < |r| && r[i] == k;
        assert sorted[i] in sorted;
      }
    }
    assert SortedBy(r, later) && SortedBy(u, later) by { SortedByPairs(r, later); SortedByPairs(u, later); }
    StrictlySortedUnique(r, u, later);
  }

  lemma SortedByPairs<T>(s: seq<T>, le: (T, T) -> bool)
    requires forall i, j :: 0 <= i < j < |s| ==> le(s[i], s[j])
    ensures SortedBy(s, le)
  {}

  lemma LaterPair(sorted: seq<(nat, Module)>, i: nat, j: nat)
    requires SortedBy(sorted, LaterFirst) && i < j < |sorted|
    ensures sorted[i].0 >= sorted[j].0
  {
    assert LaterFirst(sorted[i], sorted[j]);
  }

  lemma SameIndexSameKey(keys: seq<string>, order: map<string, nat>, a: string, b: string)
    requires InOrder(keys, order) && a in keys && b in keys
    ensures order[a] == order[b] ==> a == b
  {
    var i :| 0 <= i < |keys| && keys[i] == a;
    var j :| 0 <= j < |keys| && keys[j] == b;
  }

  lemma {:induction false} UnresolvedFalls(keys: seq<string>, done: seq<string>, order: map<string, nat>)
    requires InOrder(keys, order)
    ensures var u := Unresolved(keys, done);
      && (forall k :: k in u ==> k in order)
      && (forall i, j :: 0 <= i < j < |u| ==> order[u[i]] > order[u[j]])
  {
    if keys != [] {
      assert InOrder(keys[1..], order);
      UnresolvedFalls(keys[1..], done, order);
      UnresolvedElements(keys[1..], done);
      var u := Unresolved(keys[1..], done);
      forall i | 0 <= i < |u| ensures order[u[i]] > order[keys[0]] {
        assert u[i] in u && u[i] in keys[1..];
        var a :| 1 <= a < |keys| && keys[a] == u[i];
      }
    }
  }

  lemma SortedPairs(pairs: seq<(nat, Module)>, sorted: seq<(nat, Module)>)
    requires Distinct(pairs) && sorted == SortBy(pairs, LaterFirst)
    ensures Distinct(sorted) && SortedBy(sorted, LaterFirst) && forall x :: x in sorted <==> x in pairs
  {
    SortByElements(pairs, LaterFirst);
    SortBySorted(pairs, LaterFirst);
    SameMultisetDistinct(pairs, sorted);
  }

  method DrainUnresolved(left0: map<string, Module>, order: map<string, nat>, ghost keys: seq<string>, ghost done: seq<string>)
      returns (rest: seq<Module>)
    requires InOrder(keys, order) && forall k :: k in left0 <==> k in keys && k !in done
    requires forall k :: k in left0 ==> left0[k].key == k
    ensures Keys(rest) == Unresolved(keys, done) && forall m :: m in rest ==> m.key in left0 && left0[m.key] == m
  {
    var pairs := CollectUnresolved(left0, order);
    var sorted := SortBy(pairs, LaterFirst);
    SortedPairs(pairs, sorted);
    hide InOrder, Unresolved, LaterFirst, SortedBy, SortBy, Distinct;
    rest := [];
    for i := 0 to |sorted|
      invariant |rest| == i && forall j :: 0 <= j < i ==> rest[j] == sorted[j].1
    {
      rest := rest + [sorted[i].1];
    }
    UnresolvedSorted(sorted, left0, order, keys, done, Keys(rest));
    LeftOver(sorted, left0, order, rest);
  }

  lemma LeftOver(sorted: seq<(nat, Module)>, left0: map<string, Module>, order: map<string, nat>, rest: seq<Module>)
    requires left0.Keys <= order.Keys
    requires forall x :: x in sorted ==> x.1.key in left0 && x == (order[x.1.key], left0[x.1.key])
    requires |rest| == |sorted| && forall i :: 0 <= i < |rest| ==> rest[i] == sorted[i].1
    ensures forall m :: m in rest ==> m.key in left0 && left0[m.key] == m
  {
    forall m | m in rest ensures m.key in left0 && left0[m.key] == m {
      var i :| 0 <= i < |rest| && rest[i] == m;
      assert sorted[i] in sorted;
    }
  }

  /** The module popped from the ready set is the one the specification emits next. */
  lemma EmitNext(keys: seq<string>, g: Graph<string>, done: set<string>, next: string, order: map<string, nat>,
                 indegree: map<string, nat>, ready: set<string>)
    requires InOrder(keys, order) && g.Keys == Elements(keys) && Progress(g, done, indegree, ready)
    requires next in ready && forall x :: x in ready ==> x in order && order[next] <= order[x]
    ensures Ready(g, done, next) && FirstReady(keys, g, done) == Some(next)
  {
    forall k | k in g ensures Ready(g, done, k) <==> k in ready { NoneOpen(g, done, k); }
    assert next in Elements(keys);
    forall x | x in keys && Ready(g, done, x) ensures order[next] <= order[x] { assert x in ready; }
    FirstReadyIsEarliest(keys, g, done, order, next);
  }

  lemma NothingReady(keys: seq<string>, g: Graph<string>, done: set<string>, indegree: map<string, nat>)
    requires Progress(g, done, indegree, {}) && g.Keys == Elements(keys)
    ensures FirstReady(keys, g, done) == None
  {
    forall k | k in g ensures !Ready(g, done, k) { NoneOpen(g, done, k); }
  }

  lemma ReadyAreKeys(keys: seq<string>, g: Graph<string>, done: set<string>, order: map<string, nat>,
                     indegree: map<string, nat>, ready: set<string>)
    requires InOrder(keys, order) && g.Keys == Elements(keys) && Progress(g, done, indegree, ready)
    ensures ready <= order.Keys
  {
    assert forall k :: k in ready ==> k in Elements(keys);
  }

  lemma DependentsCount(g: Graph<string>, done: set<string>, next: string, dependents: seq<string>,
                        indegree: map<string, nat>, ready: set<string>)
    requires Closed(g, done) && Progress(g, done, indegree, ready) && Ready(g, done, next)
    requires Elements(dependents) == DependentsOf(g, next)
    ensures forall m :: m in dependents ==> m in indegree && indegree[m] > 0
  {
    forall m | m in dependents ensures m in indegree && indegree[m] > 0 {
      assert m in Elements(dependents);
      DependentsAreOpen(g, done, next, m);
    }
  }

  /** One iteration: the earliest ready module is emitted and its dependents are relaxed. */
  method EmitOne(order: map<string, nat>, reverse: map<string, seq<string>>, indegree0: map<string, nat>, ready0: set<string>,
                 ghost keys: seq<string>, ghost g: Graph<string>, ghost done: set<string>)
      returns (next: string, indegree: map<string, nat>, ready: set<string>)
    requires InOrder(keys, order) && g.Keys == Elements(keys)
    requires forall d :: Distinct(Dependents(reverse, d)) && Elements(Dependents(reverse, d)) == DependentsOf(g, d)
    requires Closed(g, done) && Progress(g, done, indegree0, ready0) && ready0 != {}
    ensures next in g && next !in done && FirstReady(keys, g, done) == Some(next)
    ensures Closed(g, done + {next}) && Progress(g, done + {next}, indegree, ready)
  {
    ReadyAreKeys(keys, g, done, order, indegree0, ready0);
    next := PopFirst(ready0, order);
    EmitNext(keys, g, done, next, order, indegree0, ready0);
    var dependents := Dependents(reverse, next);
    DependentsCount(g, done, next, dependents, indegree0, ready0);
    hide Progress, InOrder, Closed, Ready, FirstReady;
    indegree, ready := Relax(dependents, indegree0, ready0 - {next});
    Relaxed(g, done, next, dependents, indegree0, ready0, indegree, ready);
  }

  /** The emission loop: what is returned are the modules of the specified prefix and the modules left over. */
  method EmitAll(all: map<string, Module>, order: map<string, nat>, indegree0: map<string, nat>,
                 reverse: map<string, seq<string>>, ghost keys: seq<string>, ghost g: Graph<string>)
      returns (sorted: seq<Module>, left: map<string, Module>)
    requires InOrder(keys, order) && g.Keys == all.Keys == Elements(keys) && Describes(g, indegree0, reverse)
    requires forall k :: k in all ==> all[k].key == k
    ensures Keys(sorted) == Emit(keys, g, [])
    ensures left.Keys == all.Keys - Elements(Keys(sorted)) && forall k :: k in left ==> left[k] == all[k]
    ensures forall m :: m in sorted ==> m.key in all && all[m.key] == m
  {
    var indegree := indegree0;
    var ready := set k | k in indegree && indegree[k] == 0;
    sorted, left := [], all;
    ghost var done: set<string> := {};
    ProgressStarts(g, indegree0, reverse);
    RemoveNone(all);
    while ready != {}
      invariant done == Elements(Keys(sorted)) && Emit(keys, g, []) == Emit(keys, g, Keys(sorted))
      invariant Closed(g, done) && Progress(g, done, indegree, ready)
      invariant left == all - done
      invariant forall m :: m in sorted ==> m.key in all && all[m.key] == m
      decreases left.Keys
    {
      var next;
      next, indegree, ready := EmitOne(order, reverse, indegree, ready, keys, g, done);
      KeysAppend(sorted, left[next]);
      sorted := sorted + [left[next]];
      RemoveOne(all, done, next);
      left := left - {next};
      done := done + {next};
    }
    NothingReady(keys, g, done, indegree);
  }

  lemma KeysConcat(a: seq<Module>, b: seq<Module>)
    ensures Keys(a + b) == Keys(a) + Keys(b)
  {
  }

  lemma RemoveNone(all: map<string, Module>)
    ensures all - {} == all
  {
    assert (all - {}).Keys == all.Keys;
  }

  lemma RemoveOne(all: map<string, Module>, done: set<string>, next: string)
    ensures all - done - {next} == all - (done + {next})
    ensures next in all - done ==> (all - done - {next}).Keys < (all - done).Keys
  {
  }

  lemma KeysAppend(s: seq<Module>, m: Module)
    ensures Keys(s + [m]) == Keys(s) + [m.key]
    ensures Elements(Keys(s + [m])) == Elements(Keys(s)) + {m.key}
  {
  }

  lemma ProgressStarts(g: Graph<string>, indegree: map<string, nat>, reverse: map<string, seq<string>>)
    requires Describes(g, indegree, reverse)
    ensures Progress(g, {}, indegree, set k | k in indegree && indegree[k] == 0)
  {
    forall k | k in g ensures g[k] - {} == g[k] {}
  }

  /**
   The result is the specified order of the kept keys, whatever order the hash maps are iterated in, and every key
   stands for its last module.
   */
  method Sort(modules: seq<Module>, edges: map<string, set<string>>) returns (sorted: seq<Module>)
    ensures Keys(sorted) == SortKeys(KeptKeys(modules), Restrict(Elements(KeptKeys(modules)), edges))
    ensures forall m :: m in sorted ==> exists i: nat :: LastAt(modules, m.key, i) && modules[i] == m
  {
    var byKey, order := IndexModules(modules);
    IndexedInOrder(modules, byKey, order);
    ghost var keys := KeptKeys(modules);
    ghost var g := Restrict(byKey.Keys, edges);
    var indegree, reverse := CountDependencies(byKey.Keys, edges);
    var prefix, left := EmitAll(byKey, order, indegree, reverse, keys, g);
    assert forall k :: k in keys <==> k in Elements(keys);
    assert forall k :: k in Keys(prefix) <==> k in Elements(Keys(prefix));
    var rest := DrainUnresolved(left, order, keys, Keys(prefix));
    sorted := prefix + rest;
    KeysConcat(prefix, rest);
    forall m | m in sorted ensures exists i: nat :: LastAt(modules, m.key, i) && modules[i] == m {
      assert LastAt(modules, m.key, order[m.key]);
    }
  }
}
