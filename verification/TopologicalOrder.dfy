/** The sorted order, told from the modules and the recorded edges alone. */
module TopologicalOrder {
  import opened Orders
  import opened Graphs
  import opened TopologicalSort

  predicate Has(modules: seq<Module>, k: string) {
    exists i :: 0 <= i < |modules| && modules[i].key == k
  }

  /** An edge between two collected modules is recorded. */
  predicate Imports(modules: seq<Module>, edges: map<string, set<string>>, k: string, d: string) {
    Has(modules, k) && Has(modules, d) && k in edges && d in edges[k]
  }

  /** All collected imports of `k` are among the modules sorted so far. */
  ghost predicate Satisfied(modules: seq<Module>, edges: map<string, set<string>>, sorted: seq<string>, k: string) {
    forall d :: Imports(modules, edges, k, d) ==> d in sorted
  }

  /** The last module with key `k` was discovered before the last one with key `l`. */
  ghost predicate Sooner(modules: seq<Module>, k: string, l: string) {
    exists i, j :: LastAt(modules, k, i) && LastAt(modules, l, j) && i < j
  }

  /** Each of the first `n` is, of the keys not sorted yet whose imports all are, the one discovered first. */
  ghost predicate OneByOne(modules: seq<Module>, edges: map<string, set<string>>, r: seq<string>, n: nat)
    requires n <= |r|
  {
    && (forall i :: 0 <= i < n ==> Satisfied(modules, edges, r[..i], r[i]))
    && forall i, k :: 0 <= i < n && k in r[i + 1..] && Satisfied(modules, edges, r[..i], k) ==> Sooner(modules, r[i], k)
  }

  /** No key after the first `n` has all its imports among them, and these keys come the last discovered first. */
  ghost predicate StuckLatestFirst(modules: seq<Module>, edges: map<string, set<string>>, r: seq<string>, n: nat)
    requires n <= |r|
  {
    && (forall k :: k in r[n..] ==> !Satisfied(modules, edges, r[..n], k))
    && forall i, j :: n <= i < j < |r| ==> Sooner(modules, r[j], r[i])
  }

  /** Every collected key once: first those that can be sorted, one by one, then the stuck ones. */
  ghost predicate IsOrder(modules: seq<Module>, edges: map<string, set<string>>, r: seq<string>, n: nat) {
    && n <= |r| && Distinct(r) && (forall k :: k in r <==> Has(modules, k))
    && OneByOne(modules, edges, r, n) && StuckLatestFirst(modules, edges, r, n)
  }

  // ---- keys and edges ----

  lemma KeptAre(modules: seq<Module>, k: string)
    ensures k in KeptKeys(modules) <==> Has(modules, k)
  {
    KeptKeysElements(modules);
    if k in Keys(modules) {
      var i :| 0 <= i < |modules| && Keys(modules)[i] == k;
      assert modules[i].key == k;
    }
    if Has(modules, k) {
      var i :| 0 <= i < |modules| && modules[i].key == k;
      assert Keys(modules)[i] == k;
    }
  }

  function GraphOf(modules: seq<Module>, edges: map<string, set<string>>): Graph<string> {
    Restrict(Elements(KeptKeys(modules)), edges)
  }

  lemma EdgeIs(modules: seq<Module>, edges: map<string, set<string>>, k: string, d: string)
    ensures Edge(GraphOf(modules, edges), k, d) <==> Imports(modules, edges, k, d)
  {
    KeptAre(modules, k);
    KeptAre(modules, d);
  }

  lemma ReadyIs(modules: seq<Module>, edges: map<string, set<string>>, done: seq<string>, k: string)
    ensures Ready(GraphOf(modules, edges), Elements(done), k)
      <==> Has(modules, k) && k !in done && Satisfied(modules, edges, done, k)
  {
    var g := GraphOf(modules, edges);
    KeptAre(modules, k);
    forall d ensures Edge(g, k, d) <==> Imports(modules, edges, k, d) { EdgeIs(modules, edges, k, d); }
    hide GraphOf, Has;
    if k in g && g[k] <= Elements(done) {
      forall d | Imports(modules, edges, k, d) ensures d in done { assert Edge(g, k, d); }
    }
    if k in g && Satisfied(modules, edges, done, k) {
      forall d | d in g[k] ensures d in Elements(done) { assert Edge(g, k, d); }
    }
  }

  lemma KeptSooner(modules: seq<Module>, a: nat, b: nat)
    requires a < b < |KeptKeys(modules)|
    ensures Sooner(modules, KeptKeys(modules)[a], KeptKeys(modules)[b])
  {
    var k, l := KeptKeys(modules)[a], KeptKeys(modules)[b];
    KeptKeysElements(modules);
    assert k in KeptKeys(modules) && l in KeptKeys(modules);
    var i := LastExists(modules, k);
    var j := LastExists(modules, l);
    KeptKeysInOrder(modules, a, b, i, j);
  }

  // ---- the emitted part ----

  lemma {:induction false} FirstReadyAt(keys: seq<string>, g: Graph<string>, done: set<string>) returns (a: nat)
    requires FirstReady(keys, g, done).Some?
    ensures a < |keys| && keys[a] == FirstReady(keys, g, done).value
    ensures forall b :: 0 <= b < a ==> !Ready(g, done, keys[b])
  {
    if Ready(g, done, keys[0]) {
      a := 0;
    } else {
      var c := FirstReadyAt(keys[1..], g, done);
      a := c + 1;
      forall b | 0 <= b < a ensures !Ready(g, done, keys[b]) { if b > 0 { assert keys[b] == keys[1..][b - 1]; } }
    }
  }

  lemma {:induction false} EmitsReady(keys: seq<string>, g: Graph<string>, done: seq<string>)
    ensures var r := Emit(keys, g, done);
      && |done| <= |r| && r[..|done|] == done
      && (forall i :: |done| <= i < |r| ==> FirstReady(keys, g, Elements(r[..i])) == Some(r[i]))
      && FirstReady(keys, g, Elements(r)) == None
    decreases Elements(keys) - Elements(done)
  {
    hide Ready;
    match FirstReady(keys, g, Elements(done)) {
      case None =>
      case Some(k) =>
        var next := done + [k];
        OneFewer(keys, g, done);
        EmitsReady(keys, g, next);
        var r := Emit(keys, g, next);
        assert r[..|next|][..|done|] == done == r[..|done|] && r[..|next|][|done|] == k == r[|done|];
    }
  }

  lemma OneFewer(keys: seq<string>, g: Graph<string>, done: seq<string>)
    requires FirstReady(keys, g, Elements(done)).Some?
    ensures Elements(keys) - Elements(done + [FirstReady(keys, g, Elements(done)).value]) < Elements(keys) - Elements(done)
  {
    var k := FirstReady(keys, g, Elements(done)).value;
    assert k in Elements(keys) - Elements(done) && k !in Elements(keys) - Elements(done + [k]);
    assert Elements(done + [k]) == Elements(done) + {k};
  }

  lemma EmittedSooner(modules: seq<Module>, edges: map<string, set<string>>, done: seq<string>, k: string, l: string)
    requires FirstReady(KeptKeys(modules), GraphOf(modules, edges), Elements(done)) == Some(k)
    requires Has(modules, l) && l !in done && l != k && Satisfied(modules, edges, done, l)
    ensures Sooner(modules, k, l)
  {
    var keys := KeptKeys(modules);
    var a := FirstReadyAt(keys, GraphOf(modules, edges), Elements(done));
    KeptAre(modules, l);
    var b :| 0 <= b < |keys| && keys[b] == l;
    ReadyIs(modules, edges, done, l);
    hide GraphOf, Sooner, Satisfied;
    assert Ready(GraphOf(modules, edges), Elements(done), keys[b]);
    KeptSooner(modules, a, b);
  }

  // ---- the left-over part ----

  lemma {:induction false} LeftOverFalls(keys: seq<string>, done: seq<string>, i: nat, j: nat) returns (a: nat, b: nat)
    requires i < j < |Unresolved(keys, done)|
    ensures b < a < |keys| && keys[a] == Unresolved(keys, done)[i] && keys[b] == Unresolved(keys, done)[j]
  {
    var rest := Unresolved(keys[1..], done);
    if keys[0] in done || j < |rest| {
      a, b := LeftOverFalls(keys[1..], done, i, j);
      a, b := a + 1, b + 1;
    } else {
      b := 0;
      UnresolvedElements(keys[1..], done);
      assert rest[i] in rest;
      a :| 1 <= a < |keys| && keys[a] == rest[i];
    }
  }

  /** The specified order has this form. */
  lemma SortedIsOrder(modules: seq<Module>, edges: map<string, set<string>>) returns (n: nat)
    ensures IsOrder(modules, edges, SortKeys(KeptKeys(modules), GraphOf(modules, edges)), n)
  {
    var keys, g := KeptKeys(modules), GraphOf(modules, edges);
    var r := SortKeys(keys, g);
    n := |Emit(keys, g, [])|;
    KeptKeysDistinct(modules);
    SortKeysIsPermutation(keys, edges);
    hide Emit, Unresolved, Has, OneByOne, StuckLatestFirst;
    forall k ensures k in r <==> Has(modules, k) {
      KeptAre(modules, k);
      assert k in Elements(r) <==> k in Elements(keys);
    }
    hide GraphOf;
    PrefixOneByOne(modules, edges, r);
    RestLatestFirst(modules, edges, r);
  }

  lemma PrefixOneByOne(modules: seq<Module>, edges: map<string, set<string>>, r: seq<string>)
    requires r == SortKeys(KeptKeys(modules), GraphOf(modules, edges)) && Distinct(r)
    requires forall k :: k in r <==> Has(modules, k)
    ensures var n := |Emit(KeptKeys(modules), GraphOf(modules, edges), [])|; n <= |r| && OneByOne(modules, edges, r, n)
  {
    var prefix := Emit(KeptKeys(modules), GraphOf(modules, edges), []);
    var n := |prefix|;
    EmitsReady(KeptKeys(modules), GraphOf(modules, edges), []);
    hide GraphOf, Emit, Unresolved, Has, Ready, Satisfied, Sooner, Distinct, FirstReady, KeptKeys;
    forall i | 0 <= i < n ensures r[..i] == prefix[..i] && r[i] == prefix[i] {}
    forall i | 0 <= i < n ensures Satisfied(modules, edges, r[..i], r[i]) {
      NextIsReady(modules, edges, r[..i], r[i]);
    }
    forall i, k | 0 <= i < n && k in r[i + 1..] && Satisfied(modules, edges, r[..i], k) ensures Sooner(modules, r[i], k) {
      LaterIsNew(r, i, k);
      EmittedSooner(modules, edges, r[..i], r[i], k);
    }
  }

  lemma NextIsReady(modules: seq<Module>, edges: map<string, set<string>>, done: seq<string>, k: string)
    requires FirstReady(KeptKeys(modules), GraphOf(modules, edges), Elements(done)) == Some(k)
    ensures Satisfied(modules, edges, done, k)
  {
    ReadyIs(modules, edges, done, k);
  }

  lemma RestLatestFirst(modules: seq<Module>, edges: map<string, set<string>>, r: seq<string>)
    requires r == SortKeys(KeptKeys(modules), GraphOf(modules, edges))
    ensures var n := |Emit(KeptKeys(modules), GraphOf(modules, edges), [])|;
      n <= |r| && StuckLatestFirst(modules, edges, r, n)
  {
    var keys, g := KeptKeys(modules), GraphOf(modules, edges);
    var prefix := Emit(keys, g, []);
    var n := |prefix|;
    EmitsReady(keys, g, []);
    UnresolvedElements(keys, prefix);
    hide GraphOf, Emit, Unresolved, Has, Ready, Satisfied, Sooner;
    assert r[..n] == prefix && r[n..] == Unresolved(keys, prefix);
    forall k | k in r[n..] ensures !Satisfied(modules, edges, r[..n], k) {
      KeptAre(modules, k);
      ReadyIs(modules, edges, prefix, k);
    }
    forall i, j | n <= i < j < |r| ensures Sooner(modules, r[j], r[i]) {
      var a, b := LeftOverFalls(keys, prefix, i - n, j - n);
      KeptSooner(modules, b, a);
    }
  }

  lemma LaterIsNew(r: seq<string>, i: nat, k: string)
    requires Distinct(r) && i < |r| && k in r[i + 1..]
    ensures k in r && k !in r[..i] && k != r[i]
  {
    var j :| 0 <= j < |r[i + 1..]| && r[i + 1..][j] == k;
    assert r[i + 1 + j] == k;
  }

  // ---- there is only one such order ----

  lemma SoonerOneWay(modules: seq<Module>, k: string, l: string)
    requires Sooner(modules, k, l)
    ensures !Sooner(modules, l, k) && k != l
  {
    var i, j :| LastAt(modules, k, i) && LastAt(modules, l, j) && i < j;
    forall a, b | LastAt(modules, l, a) && LastAt(modules, k, b) ensures a == j && b == i {}
  }

  lemma {:induction false} SamePrefix(modules: seq<Module>, edges: map<string, set<string>>, r: seq<string>, n: nat,
                                      q: seq<string>, m: nat, i: nat)
    requires IsOrder(modules, edges, r, n) && IsOrder(modules, edges, q, m) && i <= n && i <= m
    ensures r[..i] == q[..i]
  {
    hide Satisfied, Sooner, Has, StuckLatestFirst;
    if i > 0 {
      SamePrefix(modules, edges, r, n, q, m, i - 1);
      if r[i - 1] != q[i - 1] {
        NotBefore(modules, r, q, i - 1);
        NotBefore(modules, q, r, i - 1);
        assert Sooner(modules, r[i - 1], q[i - 1]) && Sooner(modules, q[i - 1], r[i - 1]);
        SoonerOneWay(modules, r[i - 1], q[i - 1]);
      }
      assert r[..i] == r[..i - 1] + [r[i - 1]] && q[..i] == q[..i - 1] + [q[i - 1]];
    }
  }

  lemma NotBefore(modules: seq<Module>, r: seq<string>, q: seq<string>, i: nat)
    requires Distinct(q) && i < |r| && i < |q| && r[..i] == q[..i] && r[i] != q[i]
    requires (forall k :: k in r <==> Has(modules, k)) && forall k :: k in q <==> Has(modules, k)
    ensures q[i] in r[i + 1..]
  {
    hide Has;
    assert q[i] in q && q[i] in r;
    var j :| 0 <= j < |r| && r[j] == q[i];
    assert forall l :: 0 <= l < i ==> r[..i][l] == q[..i][l];
    assert r[i + 1..][j - i - 1] == q[i];
  }

  /** Two sequences of this form are the same, and as many of their keys come one by one. */
  lemma OrderUnique(modules: seq<Module>, edges: map<string, set<string>>, r: seq<string>, n: nat, q: seq<string>, m: nat)
    requires IsOrder(modules, edges, r, n) && IsOrder(modules, edges, q, m)
    ensures r == q && n == m
  {
    if n < m { NoFurther(modules, edges, r, n, q, m); }
    if m < n { NoFurther(modules, edges, q, m, r, n); }
    SamePrefix(modules, edges, r, n, q, m, n);
    hide Satisfied, Sooner, Has, OneByOne;
    var later := (a: string, b: string) => Sooner(modules, b, a);
    assert Asymmetric(later) by {
      forall a, b | later(a, b) ensures !later(b, a) { SoonerOneWay(modules, b, a); }
    }
    forall k ensures k in Elements(r[n..]) <==> k in Elements(q[n..]) {
      TailHas(r, n, k);
      TailHas(q, n, k);
    }
    StrictlySortedUnique(r[n..], q[n..], later);
    assert r == r[..n] + r[n..] && q == q[..n] + q[n..];
  }

  lemma NoFurther(modules: seq<Module>, edges: map<string, set<string>>, r: seq<string>, n: nat, q: seq<string>, m: nat)
    requires IsOrder(modules, edges, r, n) && IsOrder(modules, edges, q, m)
    ensures m <= n
  {
    if n < m {
      SamePrefix(modules, edges, r, n, q, m, n);
      TailHas(r, n, q[n]);
      assert q[n..][0] == q[n] && r[..n] == q[..n];
      TailHas(q, n, q[n]);
    }
  }

  lemma TailHas(r: seq<string>, n: nat, k: string)
    requires Distinct(r) && n <= |r|
    ensures k in r[n..] <==> k in r && k !in r[..n]
  {
    assert r == r[..n] + r[n..];
  }
}
