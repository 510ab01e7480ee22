/** Which inputs share a fingerprint, told from their fields. */
module FingerprintInputs {
  import opened Orders
  import opened DependencySpecs
  import opened FingerprintEncoding
  import opened FingerprintDecoding
  import opened InspectFingerprint
  import opened FingerprintLists
  import opened FingerprintRebindings

  // ---- one dependency ----

  predicate SameCrate(a: Spec, b: Spec) {
    a.crateName == b.crateName
  }

  predicate SameCrateAndPackage(a: Spec, b: Spec) {
    a.crateName == b.crateName && a.package == b.package
  }

  /** Equal in everything but the features, and with the same content when the source is a local path. */
  predicate SameButFeatures(s: Spec, f: Bytes -> Bytes, t: Spec, g: Bytes -> Bytes) {
    && s.crateName == t.crateName && s.version == t.version && s.package == t.package
    && s.defaultFeatures == t.defaultFeatures && s.optional == t.optional && s.source == t.source
    && (s.source.Local? ==> f(s.source.path) == g(s.source.path))
  }

  /** A normalized dependency: the features are a set. */
  ghost predicate Agree(s: Spec, f: Bytes -> Bytes, t: Spec, g: Bytes -> Bytes) {
    SameButFeatures(s, f, t, g) && Elements(s.features) == Elements(t.features)
  }

  /** A path dependency of the toolchain: repeated features count. */
  ghost predicate AgreeRepeated(s: Spec, f: Bytes -> Bytes, t: Spec, g: Bytes -> Bytes) {
    SameButFeatures(s, f, t, g) && multiset(s.features) == multiset(t.features)
  }

  /** For every crate name the same dependencies in the same order. */
  ghost predicate SameDependencies(x: seq<Spec>, f: Bytes -> Bytes, y: seq<Spec>, g: Bytes -> Bytes) {
    forall k: Spec :: var a, b := Tied(x, SameCrate, k), Tied(y, SameCrate, k);
      |a| == |b| && forall n :: 0 <= n < |a| ==> Agree(a[n], f, b[n], g)
  }

  /** For every crate name and package the same dependencies in the same order. */
  ghost predicate SameToolchainPaths(x: seq<Spec>, f: Bytes -> Bytes, y: seq<Spec>, g: Bytes -> Bytes) {
    forall k: Spec :: var a, b := Tied(x, SameCrateAndPackage, k), Tied(y, SameCrateAndPackage, k);
      |a| == |b| && forall n :: 0 <= n < |a| ==> AgreeRepeated(a[n], f, b[n], g)
  }

  // ---- whole inputs ----

  /** The fields the fingerprint takes as they are. */
  predicate SameFields(i: Input, j: Input) {
    && i.project == j.project && i.package == j.package && i.clear == j.clear && i.target == j.target
    && i.lockRoot == j.lockRoot && i.edition == j.edition && i.probes == j.probes && i.lock == j.lock
  }

  /** The same artifact roots with the same content. */
  ghost predicate SameProjections(x: seq<Bytes>, f: Bytes -> Bytes, y: seq<Bytes>, g: Bytes -> Bytes) {
    Elements(x) == Elements(y) && forall r :: r in x ==> f(r) == g(r)
  }

  /** Two inputs that the fingerprint does not tell apart, field by field. */
  ghost predicate SameInputs(i: Input, d: Digests, j: Input, e: Digests) {
    && SameFields(i, j) && FacetNames(i.facets) == FacetNames(j.facets)
    && SameProjections(i.projections, d.artifact, j.projections, e.artifact)
    && SameRebindings(i.rebindings, d.artifact, j.rebindings, e.artifact)
    && SameDependencies(i.dependencies, d.local, j.dependencies, e.local)
    && SameDependencies(i.devDependencies, Unhashed, j.devDependencies, Unhashed)
    && SameToolchainPaths(i.sdkPaths, d.artifact, j.sdkPaths, e.artifact)
  }

  /** The content of a path dev dependency does not matter. */
  function Unhashed(path: Bytes): Bytes {
    ""
  }

  // ---- features ----

  lemma LeastIsFirst(a: seq<Bytes>, x: Bytes)
    requires SortedBy(a, StrLe) && x in a
    ensures StrLe(a[0], x)
  {
    var i :| 0 <= i < |a| && a[i] == x;
    if i == 0 { StrLeTotal(x, x); }
  }

  lemma LeastFirst(a: seq<Bytes>, b: seq<Bytes>)
    requires SortedBy(a, StrLe) && SortedBy(b, StrLe) && a != [] && b != [] && a[0] in b && b[0] in a
    ensures a[0] == b[0]
  {
    LeastIsFirst(a, b[0]);
    LeastIsFirst(b, a[0]);
    StrLeAntisymmetric(a[0], b[0]);
  }

  lemma HeadAndRest(a: seq<Bytes>)
    requires a != []
    ensures a == [a[0]] + a[1..] && multiset(a[1..]) == multiset(a) - multiset{a[0]}
    ensures forall x :: x in multiset(a) ==> x in a
    ensures a[0] in multiset(a)
  {
    assert a == [a[0]] + a[1..];
  }

  lemma {:induction false} SortedMultiset(a: seq<Bytes>, b: seq<Bytes>)
    requires SortedBy(a, StrLe) && SortedBy(b, StrLe) && multiset(a) == multiset(b)
    ensures a == b
  {
    hide StrLe;
    assert |multiset(a)| == |a| && |multiset(b)| == |b|;
    if a != [] {
      HeadAndRest(a);
      HeadAndRest(b);
      LeastFirst(a, b);
      SortedMultiset(a[1..], b[1..]);
    }
  }

  lemma SortEqualMultiset(a: seq<Bytes>, b: seq<Bytes>)
    ensures SortBy(a, StrLe) == SortBy(b, StrLe) <==> multiset(a) == multiset(b)
  {
    StringOrder();
    SortByElements(a, StrLe);
    SortByElements(b, StrLe);
    SortBySorted(a, StrLe);
    SortBySorted(b, StrLe);
    if multiset(a) == multiset(b) { SortedMultiset(SortBy(a, StrLe), SortBy(b, StrLe)); }
  }

  lemma FeaturesEqual(a: seq<Bytes>, b: seq<Bytes>)
    ensures SortBy(SortDedup(a), StrLe) == SortBy(SortDedup(b), StrLe) <==> Elements(a) == Elements(b)
  {
    SortEqualMultiset(SortDedup(a), SortDedup(b));
    SortDedupIsAscending(a);
    SortDedupIsAscending(b);
    SortDedupEqual(a, b);
    if multiset(SortDedup(a)) == multiset(SortDedup(b)) {
      forall x ensures x in Elements(SortDedup(a)) <==> x in Elements(SortDedup(b)) {
        assert x in multiset(SortDedup(a)) <==> x in multiset(SortDedup(b));
      }
    }
  }

  lemma AgreeIsEqual(s: Spec, f: Bytes -> Bytes, t: Spec, g: Bytes -> Bytes)
    ensures WithContent(f, Normalized(s)) == WithContent(g, Normalized(t)) <==> Agree(s, f, t, g)
  {
    FeaturesEqual(s.features, t.features);
  }

  lemma AgreeRepeatedIsEqual(s: Spec, f: Bytes -> Bytes, t: Spec, g: Bytes -> Bytes)
    ensures WithContent(f, s) == WithContent(g, t) <==> AgreeRepeated(s, f, t, g)
  {
    SortEqualMultiset(s.features, t.features);
  }

  lemma AgreeUnhashedIsEqual(s: Spec, t: Spec)
    ensures SortFeatures(Normalized(s)) == SortFeatures(Normalized(t)) <==> Agree(s, Unhashed, t, Unhashed)
  {
    FeaturesEqual(s.features, t.features);
  }

  // ---- ties ----

  lemma NameTie(m: Bytes, n: Bytes)
    ensures StrLe(m, n) && StrLe(n, m) <==> m == n
  {
    StrLeTotal(m, n);
    if StrLe(m, n) && StrLe(n, m) { StrLeAntisymmetric(m, n); }
  }

  lemma PackageTie(a: Spec, b: Spec)
    ensures ByNameAndPackage(a, b) && ByNameAndPackage(b, a) <==> SameCrateAndPackage(a, b)
  {
    NameTie(a.crateName, b.crateName);
    if a.package.Some? && b.package.Some? { NameTie(a.package.value, b.package.value); }
  }

  lemma HashedKeyed(f: Spec -> Hashed)
    requires forall s :: f(s).spec.crateName == s.crateName
    ensures KeyedBy(f, SameCrate, HashedByName, (h: Hashed) => h.spec, (s: Spec) => Hashed(s, None))
  {
    forall a: Spec, k: Hashed ensures SameCrate(a, k.spec) <==> Both(HashedByName)(f(a), k) {
      BothAt(HashedByName, f(a), k);
      NameTie(a.crateName, k.spec.crateName);
    }
  }

  lemma SpecKeyed(f: Spec -> Spec)
    requires forall s :: f(s).crateName == s.crateName
    ensures KeyedBy(f, SameCrate, ByName, (s: Spec) => s, (s: Spec) => s)
  {
    forall a: Spec, k: Spec ensures SameCrate(a, k) <==> Both(ByName)(f(a), k) {
      BothAt(ByName, f(a), k);
      NameTie(a.crateName, k.crateName);
    }
  }

  lemma PackageKeyed(f: Spec -> Hashed)
    requires forall s :: f(s).spec.crateName == s.crateName && f(s).spec.package == s.package
    ensures KeyedBy(f, SameCrateAndPackage, HashedByPackage, (h: Hashed) => h.spec, (s: Spec) => Hashed(s, None))
  {
    hide SameCrateAndPackage, ByNameAndPackage;
    forall a: Spec, k: Hashed ensures SameCrateAndPackage(a, k.spec) <==> Both(HashedByPackage)(f(a), k) {
      BothAt(HashedByPackage, f(a), k);
      PackageTie(f(a).spec, k.spec);
      SamePackageKey(a, f(a).spec, k.spec);
    }
  }

  lemma SamePackageKey(a: Spec, b: Spec, k: Spec)
    requires a.crateName == b.crateName && a.package == b.package
    ensures SameCrateAndPackage(a, k) <==> SameCrateAndPackage(b, k)
  {}

  lemma RecordsKeyed(f: Bytes -> Bytes)
    ensures KeyedBy(s => WithContent(f, Normalized(s)), SameCrate, HashedByName, (h: Hashed) => h.spec,
                    (s: Spec) => Hashed(s, None))
  {
    HashedKeyed(s => WithContent(f, Normalized(s)));
  }

  lemma SameHashedIff(x: seq<Spec>, f: Bytes -> Bytes, y: seq<Spec>, g: Bytes -> Bytes)
    ensures SameTied(HashedRecords(x, f), HashedRecords(y, g), HashedByName) <==> SameDependencies(x, f, y, g)
  {
    RecordsKeyed(f);
    RecordsKeyed(g);
    forall s, t ensures WithContent(f, Normalized(s)) == WithContent(g, Normalized(t)) <==> Agree(s, f, t, g) {
      AgreeIsEqual(s, f, t, g);
    }
    hide Agree, WithContent, Normalized, HashedByName, SameTied, KeyedBy, SameCrate, Map, Tied;
    SameTiedIff(x, y, s => WithContent(f, Normalized(s)), s => WithContent(g, Normalized(s)), SameCrate, HashedByName,
                (s: Spec, t: Spec) => Agree(s, f, t, g), (h: Hashed) => h.spec, (s: Spec) => Hashed(s, None));
  }

  lemma SameDevIff(x: seq<Spec>, y: seq<Spec>)
    ensures SameTied(DevRecords(x), DevRecords(y), ByName) <==> SameDependencies(x, Unhashed, y, Unhashed)
  {
    var rf := (s: Spec) => SortFeatures(Normalized(s));
    forall s, t ensures rf(s) == rf(t) <==> Agree(s, Unhashed, t, Unhashed) { AgreeUnhashedIsEqual(s, t); }
    SpecKeyed(rf);
    SameTiedIff(x, y, rf, rf, SameCrate, ByName, (s: Spec, t: Spec) => Agree(s, Unhashed, t, Unhashed),
                (s: Spec) => s, (s: Spec) => s);
    hide Agree;
  }

  lemma SameToolchainIff(x: seq<Spec>, f: Bytes -> Bytes, y: seq<Spec>, g: Bytes -> Bytes)
    ensures SameTied(SdkRecords(x, f), SdkRecords(y, g), HashedByPackage) <==> SameToolchainPaths(x, f, y, g)
  {
    var rf, rg := (s: Spec) => WithContent(f, s), (s: Spec) => WithContent(g, s);
    forall s, t ensures rf(s) == rg(t) <==> AgreeRepeated(s, f, t, g) { AgreeRepeatedIsEqual(s, f, t, g); }
    PackageKeyed(rf);
    PackageKeyed(rg);
    SameTiedIff(x, y, rf, rg, SameCrateAndPackage, HashedByPackage, (s: Spec, t: Spec) => AgreeRepeated(s, f, t, g),
                (h: Hashed) => h.spec, (s: Spec) => Hashed(s, None));
    hide AgreeRepeated;
  }

  // ---- whole inputs ----

  lemma SameProjectionsIff(x: seq<Bytes>, f: Bytes -> Bytes, y: seq<Bytes>, g: Bytes -> Bytes)
    ensures Projections(x, f) == Projections(y, g) <==> SameProjections(x, f, y, g)
  {
    if Projections(x, f) == Projections(y, g) {
      forall r | r in x ensures r in y && f(r) == g(r) { assert Projection(r, f(r)) in Projections(y, g); }
      forall r | r in y ensures r in x { assert Projection(r, g(r)) in Projections(x, f); }
    }
    if SameProjections(x, f, y, g) {
      assert forall r :: r in x <==> r in Elements(y);
    }
  }

  /** The canonical bodies agree exactly when the inputs do, the order of list items with different keys aside. */
  lemma CanonEqualIff(i: Input, d: Digests, j: Input, e: Digests)
    ensures Canon(i, d) == Canon(j, e) <==> SameInputs(i, d, j, e)
  {
    CanonSorts(i, d);
    CanonSorts(j, e);
    NameOrders();
    PackageOrders();
    SortEqualIff(HashedRecords(i.dependencies, d.local), HashedRecords(j.dependencies, e.local), HashedByName);
    SortEqualIff(DevRecords(i.devDependencies), DevRecords(j.devDependencies), ByName);
    SortEqualIff(SdkRecords(i.sdkPaths, d.artifact), SdkRecords(j.sdkPaths, e.artifact), HashedByPackage);
    SameHashedIff(i.dependencies, d.local, j.dependencies, e.local);
    SameDevIff(i.devDependencies, j.devDependencies);
    SameToolchainIff(i.sdkPaths, d.artifact, j.sdkPaths, e.artifact);
    FacetsEqualIff(i.facets, j.facets);
    ProjectionsEqualIff(i.projections, j.projections, d.artifact, e.artifact);
    SameProjectionsIff(i.projections, d.artifact, j.projections, e.artifact);
    SameBoundIff(i.rebindings, d.artifact, j.rebindings, e.artifact);
    assert Canon(i, d).rebindings == Bound(i.rebindings, d.artifact);
    assert Canon(j, e).rebindings == Bound(j.rebindings, e.artifact);
    hide Bound, SameTied, SameDependencies, SameToolchainPaths, SameRebindings, SameProjections, FacetNames, Projections;
    hide SortBy, TotalPreorder, SortedDependencies, SortedSdkPaths, SortedRebindings, SortedProjections;
  }

  /** Under an injective hash two well-formed inputs share a fingerprint exactly when they are the same to it. */
  lemma FingerprintTellsInputs(i: Input, d: Digests, j: Input, e: Digests, sha: Bytes -> Bytes)
    requires forall x, y :: sha(x) == sha(y) ==> x == y
    requires InputOk(i, d) && InputOk(j, e)
    ensures sha(Encode(Canon(i, d))) == sha(Encode(Canon(j, e))) <==> SameInputs(i, d, j, e)
  {
    hide InputOk, SameInputs, Canon, Encode;
    FingerprintEqualIff(i, d, j, e, sha);
    CanonEqualIff(i, d, j, e);
  }

  /** Every artifact root, active root, toolchain path and path dependency has the same content in both tables. */
  ghost predicate SameContents(i: Input, d: Digests, e: Digests) {
    && (forall r :: r in i.projections ==> d.artifact(r) == e.artifact(r))
    && (forall r :: r in i.rebindings ==> d.artifact(r.active) == e.artifact(r.active))
    && (forall s :: s in i.sdkPaths && s.source.Local? ==> d.artifact(s.source.path) == e.artifact(s.source.path))
    && (forall s :: s in i.dependencies && s.source.Local? ==> d.local(s.source.path) == e.local(s.source.path))
  }

  ghost predicate SamePaths(x: seq<Spec>, f: Bytes -> Bytes, g: Bytes -> Bytes) {
    forall s :: s in x && s.source.Local? ==> f(s.source.path) == g(s.source.path)
  }

  lemma SameSpecs(x: seq<Spec>, f: Bytes -> Bytes, g: Bytes -> Bytes)
    ensures SameDependencies(x, f, x, g) <==> SamePaths(x, f, g)
  {
    if SameDependencies(x, f, x, g) {
      forall s | s in x && s.source.Local? ensures f(s.source.path) == g(s.source.path) {
        TiedAll(x, SameCrate, s);
        var a := Tied(x, SameCrate, s);
        var n :| 0 <= n < |a| && a[n] == s;
        assert Agree(a[n], f, a[n], g);
      }
    }
    if SamePaths(x, f, g) {
      forall k: Spec, n | 0 <= n < |Tied(x, SameCrate, k)|
        ensures Agree(Tied(x, SameCrate, k)[n], f, Tied(x, SameCrate, k)[n], g)
      {
        TiedAll(x, SameCrate, k);
        assert Tied(x, SameCrate, k)[n] in x;
      }
    }
  }

  lemma SameToolchainSpecs(x: seq<Spec>, f: Bytes -> Bytes, g: Bytes -> Bytes)
    ensures SameToolchainPaths(x, f, x, g) <==> SamePaths(x, f, g)
  {
    if SameToolchainPaths(x, f, x, g) {
      forall s | s in x && s.source.Local? ensures f(s.source.path) == g(s.source.path) {
        TiedAll(x, SameCrateAndPackage, s);
        var a := Tied(x, SameCrateAndPackage, s);
        var n :| 0 <= n < |a| && a[n] == s;
        assert AgreeRepeated(a[n], f, a[n], g);
      }
    }
    if SamePaths(x, f, g) {
      forall k: Spec, n | 0 <= n < |Tied(x, SameCrateAndPackage, k)|
        ensures AgreeRepeated(Tied(x, SameCrateAndPackage, k)[n], f, Tied(x, SameCrateAndPackage, k)[n], g)
      {
        TiedAll(x, SameCrateAndPackage, k);
        assert Tied(x, SameCrateAndPackage, k)[n] in x;
      }
    }
  }

  lemma SameContentsIff(i: Input, d: Digests, e: Digests)
    ensures SameInputs(i, d, i, e) <==> SameContents(i, d, e)
  {
    SameSpecs(i.dependencies, d.local, e.local);
    SameSpecs(i.devDependencies, Unhashed, Unhashed);
    SameToolchainSpecs(i.sdkPaths, d.artifact, e.artifact);
    hide SameDependencies, SameToolchainPaths, FacetNames;
  }

  /**
   Changing contents alone changes the preimage exactly when it changes a projected artifact, the active root of a
   rebinding, a path dependency of the toolchain or a path dependency of the project.
   */
  lemma ContentsTell(i: Input, d: Digests, e: Digests)
    requires InputOk(i, d) && InputOk(i, e)
    ensures Encode(Canon(i, d)) == Encode(Canon(i, e)) <==> SameContents(i, d, e)
  {
    SameContentsIff(i, d, e);
    CanonEqualIff(i, d, i, e);
    CanonOk(i, d);
    CanonOk(i, e);
    hide Encode, Canon, BodyOk, BoundaryVisible, InputOk, SameInputs, SameContents;
    if Encode(Canon(i, d)) == Encode(Canon(i, e)) { EncodeInjective(Canon(i, d), Canon(i, e)); }
  }

  /** The hashed rebindings are the five fields of each rebinding with the content of its active root. */
  lemma RebindingsListed(i: Input, d: Digests)
    ensures Elements(Canon(i, d).rebindings)
      == set r | r in i.rebindings :: Rebinding(r.container, r.provider, r.key, r.source, r.active, d.artifact(r.active))
  {
    SortByElements(i.rebindings, ByFields);
    DedupElements(SortBy(i.rebindings, ByFields));
    var s, b := SortedRebindings(i), Canon(i, d).rebindings;
    forall r | r in i.rebindings ensures BindDigest(d.artifact, r) in b {
      assert r in Elements(s);
      var n :| 0 <= n < |s| && s[n] == r;
      assert b[n] == BindDigest(d.artifact, r);
    }
    forall x | x in b ensures exists r :: r in i.rebindings && x == BindDigest(d.artifact, r) {
      var n :| 0 <= n < |b| && b[n] == x;
      assert s[n] in Elements(s) && x == BindDigest(d.artifact, s[n]);
    }
  }

  /** Editing the active root of a rebinding changes the preimage. */
  lemma ActiveRootIsSeen(i: Input, d: Digests, e: Digests, r: RebindingInput)
    requires InputOk(i, d) && InputOk(i, e) && r in i.rebindings && d.artifact(r.active) != e.artifact(r.active)
    ensures Encode(Canon(i, d)) != Encode(Canon(i, e))
  {
    hide InputOk, Encode, Canon;
    ContentsTell(i, d, e);
  }

  /** With distinct crate names the order of the dependencies does not matter, only which ones there are. */
  lemma DistinctNamesForgetOrder(x: seq<Spec>, y: seq<Spec>, f: Bytes -> Bytes, g: Bytes -> Bytes)
    requires forall i, j :: 0 <= i < j < |x| ==> x[i].crateName != x[j].crateName
    requires forall i, j :: 0 <= i < j < |y| ==> y[i].crateName != y[j].crateName
    ensures SameDependencies(x, f, y, g) <==>
      && (forall s :: s in x ==> exists t :: t in y && Agree(s, f, t, g))
      && (forall t :: t in y ==> exists s :: s in x && Agree(s, f, t, g))
  {
    SameHashedIff(x, f, y, g);
    NameOrders();
    StringOrder();
    DistinctNamesDiffer(x, f);
    DistinctNamesDiffer(y, g);
    SameTiedIsSameElements(HashedRecords(x, f), HashedRecords(y, g), HashedByName);
    AgreeingElements(x, f, y, g);
  }

  lemma RecordOf(x: seq<Spec>, f: Bytes -> Bytes, h: Hashed)
    ensures h in HashedRecords(x, f) <==> exists s :: s in x && WithContent(f, Normalized(s)) == h
  {
    hide WithContent, Normalized;
    var p := HashedRecords(x, f);
    if s :| s in x && WithContent(f, Normalized(s)) == h {
      var n :| 0 <= n < |x| && x[n] == s;
      assert p[n] == h;
    }
    if h in p {
      var n :| 0 <= n < |p| && p[n] == h;
      assert x[n] in x;
    }
  }

  /** The records of one list are all among those of the other. */
  lemma AgreeingPart(x: seq<Spec>, f: Bytes -> Bytes, y: seq<Spec>, g: Bytes -> Bytes)
    ensures Elements(HashedRecords(x, f)) <= Elements(HashedRecords(y, g))
      <==> forall s :: s in x ==> exists t :: t in y && Agree(s, f, t, g)
  {
    hide HashedRecords, Agree, WithContent, Normalized;
    var p, q := HashedRecords(x, f), HashedRecords(y, g);
    forall s | s in x && Elements(p) <= Elements(q) ensures exists t :: t in y && Agree(s, f, t, g) {
      var h := WithContent(f, Normalized(s));
      RecordOf(x, f, h);
      assert h in Elements(p);
      RecordOf(y, g, h);
      var t :| t in y && WithContent(g, Normalized(t)) == h;
      AgreeIsEqual(s, f, t, g);
    }
    if forall s :: s in x ==> exists t :: t in y && Agree(s, f, t, g) {
      forall h | h in Elements(p) ensures h in Elements(q) {
        RecordOf(x, f, h);
        var s :| s in x && WithContent(f, Normalized(s)) == h;
        var t :| t in y && Agree(s, f, t, g);
        AgreeIsEqual(s, f, t, g);
        RecordOf(y, g, h);
      }
    }
  }

  lemma AgreeingElements(x: seq<Spec>, f: Bytes -> Bytes, y: seq<Spec>, g: Bytes -> Bytes)
    ensures Elements(HashedRecords(x, f)) == Elements(HashedRecords(y, g)) <==>
      && (forall s :: s in x ==> exists t :: t in y && Agree(s, f, t, g))
      && (forall t :: t in y ==> exists s :: s in x && Agree(s, f, t, g))
  {
    AgreeingPart(x, f, y, g);
    AgreeingPart(y, g, x, f);
    forall s, t ensures Agree(s, f, t, g) <==> Agree(t, g, s, f) { AgreeBack(s, f, t, g); }
    hide HashedRecords, Agree;
    assert Elements(HashedRecords(x, f)) == Elements(HashedRecords(y, g)) <==>
      Elements(HashedRecords(x, f)) <= Elements(HashedRecords(y, g))
      && Elements(HashedRecords(y, g)) <= Elements(HashedRecords(x, f));
  }

  lemma AgreeBack(s: Spec, f: Bytes -> Bytes, t: Spec, g: Bytes -> Bytes)
    ensures Agree(s, f, t, g) <==> Agree(t, g, s, f)
  {}

  lemma DistinctNamesDiffer(x: seq<Spec>, f: Bytes -> Bytes)
    requires forall i, j :: 0 <= i < j < |x| ==> x[i].crateName != x[j].crateName
    ensures KeysDiffer(HashedRecords(x, f), HashedByName)
  {
    hide Map, WithContent, HashedByName;
    var r := HashedRecords(x, f);
    RecordNames(x, f);
    forall i, j | 0 <= i < j < |r| ensures !Both(HashedByName)(r[i], r[j]) {
      TieIsSameName(r[i], r[j]);
    }
  }

  lemma RecordNames(x: seq<Spec>, f: Bytes -> Bytes)
    ensures |HashedRecords(x, f)| == |x|
    ensures forall i :: 0 <= i < |x| ==> HashedRecords(x, f)[i].spec.crateName == x[i].crateName
  {}

  lemma TieIsSameName(a: Hashed, b: Hashed)
    ensures Both(HashedByName)(a, b) <==> a.spec.crateName == b.spec.crateName
  {
    var m, n := a.spec.crateName, b.spec.crateName;
    StrLeTotal(m, m);
    BothAt(HashedByName, a, b);
    assert HashedByName(a, b) == StrLe(m, n) && HashedByName(b, a) == StrLe(n, m);
    if StrLe(m, n) && StrLe(n, m) { StrLeAntisymmetric(m, n); }
  }

  lemma TiedPair(s: Spec, t: Spec, k: Spec)
    requires s.crateName == t.crateName
    ensures Tied([s, t], SameCrate, k) == if SameCrate(s, k) then [s, t] else []
  {
    assert [s, t][1..] == [t] && [t][1..] == [];
    assert Tied([], SameCrate, k) == [];
    assert Tied([t], SameCrate, k) == if SameCrate(s, k) then [t] else [];
  }

  /** Swapping two specs of one name is seen exactly when they disagree. */
  lemma SameNameOrderIsSeen(s: Spec, t: Spec, f: Bytes -> Bytes)
    requires s.crateName == t.crateName
    ensures SameDependencies([s, t], f, [t, s], f) <==> Agree(s, f, t, f)
  {
    if SameDependencies([s, t], f, [t, s], f) {
      TiedPair(s, t, s);
      TiedPair(t, s, s);
      assert Agree(Tied([s, t], SameCrate, s)[0], f, Tied([t, s], SameCrate, s)[0], f);
    }
    if Agree(s, f, t, f) {
      AgreeBack(s, f, t, f);
      forall k: Spec
        ensures var a, b := Tied([s, t], SameCrate, k), Tied([t, s], SameCrate, k);
          |a| == |b| && forall n :: 0 <= n < |a| ==> Agree(a[n], f, b[n], f)
      {
        TiedPair(s, t, k);
        TiedPair(t, s, k);
      }
    }
  }
}
