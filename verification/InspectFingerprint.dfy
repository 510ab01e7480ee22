/** The inputs of the fingerprint and the canonical body. */
module InspectFingerprint {
  import opened Orders
  import opened DependencySpecs
  import opened FingerprintEncoding
  import opened FingerprintDecoding

  datatype RebindingInput = RebindingInput(container: Bytes, provider: Bytes, key: Bytes, source: Bytes, active: Bytes,
                                           unhashed: nat)

  datatype Input = Input(
    project: Bytes, package: Bytes, edition: Option<Bytes>, dependencies: seq<Spec>, devDependencies: seq<Spec>,
    facets: seq<Bytes>, rebindings: seq<RebindingInput>, sdkPaths: seq<Spec>, projections: seq<Bytes>,
    lock: Option<Bytes>, lockRoot: Option<Bytes>, clear: bool, target: Bytes, probes: seq<Bytes>)

  /** Content digests of artifact roots, and of local paths resolved against the project root. */
  datatype Digests = Digests(artifact: Bytes -> Bytes, local: Bytes -> Bytes)

  predicate IsSpace(c: char) {
    c == ' ' || '\t' <= c <= '\r'
  }

  function Trim(s: Bytes): Bytes {
    if s != "" && IsSpace(s[0]) then Trim(s[1..])
    else if s != "" && IsSpace(s[|s| - 1]) then Trim(s[..|s| - 1])
    else s
  }

  lemma {:induction false} TrimEnds(s: Bytes)
    ensures Trim(s) != "" ==> !IsSpace(Trim(s)[0]) && !IsSpace(Trim(s)[|Trim(s)| - 1])
    decreases |s|
  {
    hide IsSpace;
    if s != "" && IsSpace(s[0]) {
      TrimEnds(s[1..]);
    } else if s != "" && IsSpace(s[|s| - 1]) {
      TrimEnds(s[..|s| - 1]);
    }
  }

  lemma {:induction false} TrimSplits(s: Bytes) returns (before: Bytes, after: Bytes)
    ensures s == before + Trim(s) + after && forall c :: c in before + after ==> IsSpace(c)
    decreases |s|
  {
    hide IsSpace;
    if s != "" && IsSpace(s[0]) {
      before, after := TrimSplits(s[1..]);
      assert s == [s[0]] + s[1..] + "";
      assert Trim(s) == Trim(s[1..]);
      hide Trim;
      TrimMore([s[0]], before, Trim(s), after, "", s);
      before := [s[0]] + before;
    } else if s != "" && IsSpace(s[|s| - 1]) {
      before, after := TrimSplits(s[..|s| - 1]);
      assert s == "" + s[..|s| - 1] + [s[|s| - 1]];
      assert Trim(s) == Trim(s[..|s| - 1]);
      hide Trim;
      TrimMore("", before, Trim(s), after, [s[|s| - 1]], s);
      after := after + [s[|s| - 1]];
    } else {
      before, after := "", "";
      assert "" + s + "" == s;
    }
  }

  /** Trimming takes white space off both ends and nothing else. */
  lemma TrimParts(s: Bytes) returns (before: Bytes, after: Bytes)
    ensures s == before + Trim(s) + after && forall c :: c in before + after ==> IsSpace(c)
    ensures Trim(s) != "" ==> !IsSpace(Trim(s)[0]) && !IsSpace(Trim(s)[|Trim(s)| - 1])
  {
    TrimEnds(s);
    before, after := TrimSplits(s);
  }

  lemma TrimMore(first: Bytes, before: Bytes, t: Bytes, after: Bytes, last: Bytes, s: Bytes)
    requires s == first + (before + t + after) + last
    requires forall c :: c in before + after || c in first || c in last ==> IsSpace(c)
    ensures s == (first + before) + t + (after + last) && forall c :: c in (first + before) + (after + last) ==> IsSpace(c)
    ensures first == "" ==> first + before == before
    ensures last == "" ==> after + last == after
  {
    hide IsSpace;
    forall c | c in (first + before) + (after + last) ensures IsSpace(c) {
      assert c in first || c in last || c in before + after;
    }
  }

  function TrimmedNames(facets: seq<Bytes>): seq<Bytes> {
    if facets == [] then []
    else if Trim(facets[0]) == "" then TrimmedNames(facets[1..])
    else [Trim(facets[0])] + TrimmedNames(facets[1..])
  }

  function Facets(facets: seq<Bytes>): seq<Bytes> {
    SortDedup(TrimmedNames(facets))
  }

  function SortFeatures(s: Spec): Spec {
    s.(features := SortBy(s.features, StrLe))
  }

  predicate ByName(a: Spec, b: Spec) {
    StrLe(a.crateName, b.crateName)
  }

  predicate ByNameAndPackage(a: Spec, b: Spec) {
    if a.crateName != b.crateName then StrLe(a.crateName, b.crateName)
    else a.package.None? || (b.package.Some? && StrLe(a.package.value, b.package.value))
  }

  predicate FieldsLe(a: seq<Bytes>, b: seq<Bytes>) {
    a == [] || (b != [] && if a[0] == b[0] then FieldsLe(a[1..], b[1..]) else StrLe(a[0], b[0]))
  }

  predicate ByFields(a: RebindingInput, b: RebindingInput) {
    FieldsLe([a.container, a.provider, a.key, a.source, a.active], [b.container, b.provider, b.key, b.source, b.active])
  }

  function Map<S, T>(xs: seq<S>, f: S -> T): (r: seq<T>)
    ensures |r| == |xs| && forall i :: 0 <= i < |r| ==> r[i] == f(xs[i])
  {
    seq(|xs|, i requires 0 <= i < |xs| => f(xs[i]))
  }

  function WithContent(digest: Bytes -> Bytes, s: Spec): Hashed {
    Hashed(SortFeatures(s), if s.source.Local? then Some(digest(s.source.path)) else None)
  }

  function BindDigest(digest: Bytes -> Bytes, r: RebindingInput): Rebinding {
    Rebinding(r.container, r.provider, r.key, r.source, r.active, digest(r.active))
  }

  function SortedProjections(i: Input): seq<Bytes> {
    SortDedup(i.projections)
  }

  function SortedRebindings(i: Input): seq<RebindingInput> {
    Dedup(SortBy(i.rebindings, ByFields))
  }

  function SortedSdkPaths(i: Input): seq<Spec> {
    SortBy(i.sdkPaths, ByNameAndPackage)
  }

  function SortedDependencies(specs: seq<Spec>): seq<Spec> {
    Map(SortBy(specs, ByName), Normalized)
  }

  function Canon(i: Input, d: Digests): Body {
    Body(i.project, i.package, i.clear, i.target, i.lockRoot, i.edition, i.probes, Facets(i.facets),
         Map(SortedProjections(i), r => Projection(r, d.artifact(r))),
         Map(SortedRebindings(i), r => BindDigest(d.artifact, r)),
         Map(SortedSdkPaths(i), s => WithContent(d.artifact, s)),
         Map(SortedDependencies(i.dependencies), s => WithContent(d.local, s)),
         Map(SortedDependencies(i.devDependencies), SortFeatures), i.lock)
  }

  /** The distinct names a facet list stands for. */
  function FacetNames(facets: seq<Bytes>): set<Bytes> {
    set k | 0 <= k < |facets| && Trim(facets[k]) != "" :: Trim(facets[k])
  }

  lemma {:induction false} TrimmedElements(facets: seq<Bytes>)
    ensures Elements(TrimmedNames(facets)) == FacetNames(facets)
  {
    if facets != [] {
      var rest := facets[1..];
      TrimmedElements(rest);
      forall x ensures x in FacetNames(facets) <==> x in FacetNames(rest) || (x == Trim(facets[0]) && x != "") {
        if x in FacetNames(rest) {
          var k :| 0 <= k < |rest| && Trim(rest[k]) == x;
          assert facets[k + 1] == rest[k];
        }
        if x in FacetNames(facets) {
          var k :| 0 <= k < |facets| && Trim(facets[k]) == x;
          if k > 0 { assert rest[k - 1] == facets[k]; }
        }
      }
      forall x ensures x in TrimmedNames(facets) <==> x in FacetNames(facets) {
        assert x in Elements(TrimmedNames(rest)) <==> x in TrimmedNames(rest);
      }
    }
  }

  /** Spelling order, repetition, blanks and surrounding space of the facet list do not reach the fingerprint. */
  lemma FacetsEqualIff(f: seq<Bytes>, g: seq<Bytes>)
    ensures Facets(f) == Facets(g) <==> FacetNames(f) == FacetNames(g)
  {
    TrimmedElements(f);
    TrimmedElements(g);
    SortDedupEqual(TrimmedNames(f), TrimmedNames(g));
  }

  predicate SpecInputOk(s: Spec, digest: Bytes -> Bytes) {
    SpecOk(s) && (s.source.Local? ==> NulFree(digest(s.source.path)))
  }

  predicate RebindingInputOk(r: RebindingInput) {
    Item(r.container) && NulFree(r.provider) && NulFree(r.key) && NulFree(r.source) && NulFree(r.active)
  }

  /** The conditions under which the preimage is uniquely decodable, as a caller can check them. */
  predicate InputOk(i: Input, d: Digests) {
    && NulFree(i.project) && NulFree(i.package) && NulFree(i.target) && Plain(i.lockRoot) && Plain(i.edition)
    && (forall p :: p in i.probes ==> Item(p) && HasPath(p))
    && (forall f :: f in i.facets ==> Item(Trim(f)) && !HasPath(Trim(f)))
    && (forall r :: r in i.projections ==> Item(r) && NulFree(d.artifact(r)))
    && (forall r :: r in i.rebindings ==> RebindingInputOk(r) && NulFree(d.artifact(r.active)))
    && (forall s :: s in i.sdkPaths ==> SpecInputOk(s, d.artifact))
    && (forall s :: s in i.dependencies ==> SpecInputOk(s, d.local))
    && (forall s :: s in i.devDependencies ==> SpecOk(s))
  }

  lemma SortedFeaturesOk(s: Spec)
    requires SpecOk(s)
    ensures SpecOk(SortFeatures(s)) && SpecOk(Normalized(s)) && Normalized(s).source == s.source
  {
    SortByElements(s.features, StrLe);
    SortDedupIsAscending(s.features);
    assert forall f :: f in SortDedup(s.features) ==> f in Elements(s.features);
  }

  lemma HashedInputOk(s: Spec, digest: Bytes -> Bytes)
    requires SpecInputOk(s, digest)
    ensures HashedOk(WithContent(digest, s)) && SpecInputOk(Normalized(s), digest)
  {
    SortedFeaturesOk(s);
  }

  lemma FacetsOk(i: Input, d: Digests)
    requires InputOk(i, d)
    ensures forall f :: f in Facets(i.facets) ==> Item(f) && !HasPath(f)
  {
    TrimmedElements(i.facets);
    SortDedupIsAscending(TrimmedNames(i.facets));
    forall f | f in Facets(i.facets) ensures Item(f) && !HasPath(f) {
      assert f in Elements(Facets(i.facets));
      var k :| 0 <= k < |i.facets| && Trim(i.facets[k]) == f;
    }
  }

  lemma SdkInputsOk(i: Input, d: Digests)
    requires InputOk(i, d)
    ensures AllOk(Canon(i, d).projections, ProjectionOk) && AllOk(Canon(i, d).rebindings, RebindingOk)
    ensures AllOk(Canon(i, d).sdkPaths, HashedOk)
  {
    var b := Canon(i, d);
    RebindingsOk(i, d);
    SortDedupIsAscending(i.projections);
    assert forall r :: r in SortedProjections(i) ==> r in Elements(i.projections);
    SortByElements(i.sdkPaths, ByNameAndPackage);
    hide SortDedup, SortBy, SortedRebindings;
    forall k | 0 <= k < |b.projections| ensures ProjectionOk(b.projections[k]) {
      assert SortedProjections(i)[k] in SortedProjections(i);
    }
    forall k | 0 <= k < |b.sdkPaths| ensures HashedOk(b.sdkPaths[k]) {
      assert SortedSdkPaths(i)[k] in SortedSdkPaths(i);
      HashedInputOk(SortedSdkPaths(i)[k], d.artifact);
    }
  }

  lemma RebindingsOk(i: Input, d: Digests)
    requires InputOk(i, d)
    ensures AllOk(Canon(i, d).rebindings, RebindingOk)
  {
    SortByElements(i.rebindings, ByFields);
    DedupElements(SortBy(i.rebindings, ByFields));
    hide SortBy, Dedup, ByFields, Item, NulFree;
    forall k | 0 <= k < |Canon(i, d).rebindings| ensures RebindingOk(Canon(i, d).rebindings[k]) {
      assert SortedRebindings(i)[k] in Elements(SortedRebindings(i));
    }
  }

  lemma DependencyInputsOk(specs: seq<Spec>, digest: Bytes -> Bytes)
    requires forall s :: s in specs ==> SpecInputOk(s, digest)
    ensures var r := SortedDependencies(specs);
      forall k :: 0 <= k < |r| ==> HashedOk(WithContent(digest, r[k])) && SpecOk(SortFeatures(r[k]))
  {
    var sorted := SortBy(specs, ByName);
    SortByElements(specs, ByName);
    var r := SortedDependencies(specs);
    forall k | 0 <= k < |r| ensures HashedOk(WithContent(digest, r[k])) && SpecOk(SortFeatures(r[k])) {
      assert sorted[k] in sorted;
      HashedInputOk(sorted[k], digest);
      HashedInputOk(r[k], digest);
    }
  }

  /** Well-formed inputs have a well-formed canonical body with a visible boundary. */
  lemma CanonOk(i: Input, d: Digests)
    requires InputOk(i, d)
    ensures BodyOk(Canon(i, d)) && BoundaryVisible(Canon(i, d))
  {
    FacetsOk(i, d);
    SdkInputsOk(i, d);
    DependencyInputsOk(i.dependencies, d.local);
    DependencyInputsOk(i.devDependencies, r => "");
    var b := Canon(i, d);
    assert AllOk(b.deps, HashedOk) && AllOk(b.devDeps, SpecOk);
    assert AllOk(b.probes, Item) && AllOk(b.facets, Item);
  }

  /** The content of a path dev dependency never reaches the preimage, unlike that of a path dependency. */
  lemma DevContentIsNotHashed(i: Input, d: Digests, e: Digests)
    requires forall s :: s in i.dependencies && s.source.Local? ==> d.local(s.source.path) == e.local(s.source.path)
    requires d.artifact == e.artifact
    ensures Encode(Canon(i, d)) == Encode(Canon(i, e))
  {
    hide Encode;
    var a, b := Canon(i, d), Canon(i, e);
    var sorted := SortBy(i.dependencies, ByName);
    SortByElements(i.dependencies, ByName);
    forall k | 0 <= k < |a.deps| ensures a.deps[k] == b.deps[k] {
      assert sorted[k] in sorted;
    }
    assert a.deps == b.deps;
    assert a.projections == b.projections && a.rebindings == b.rebindings && a.sdkPaths == b.sdkPaths;
    assert a == b;
  }

  /** Under an injective hash two well-formed inputs share a fingerprint exactly when their canonical bodies agree. */
  lemma FingerprintEqualIff(i: Input, d: Digests, j: Input, e: Digests, sha: Bytes -> Bytes)
    requires forall x, y :: sha(x) == sha(y) ==> x == y
    requires InputOk(i, d) && InputOk(j, e)
    ensures sha(Encode(Canon(i, d))) == sha(Encode(Canon(j, e))) <==> Canon(i, d) == Canon(j, e)
  {
    hide Encode, Canon, BodyOk, BoundaryVisible, InputOk;
    CanonOk(i, d);
    CanonOk(j, e);
    if Encode(Canon(i, d)) == Encode(Canon(j, e)) {
      EncodeInjective(Canon(i, d), Canon(j, e));
    }
  }
}
