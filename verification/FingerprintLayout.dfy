/**
 The preimage of the fingerprint laid out piece by piece, with the tags of its fields and sections, and the order of its
 lists.
 */
module FingerprintLayout {
  import opened Orders
  import opened DependencySpecs
  import opened FingerprintEncoding
  import opened FingerprintDecoding
  import opened InspectFingerprint
  import opened FingerprintLists
  import opened FingerprintRebindings

  // ---- the pieces ----

  function Flat(pieces: seq<Bytes>): Bytes {
    if pieces == [] then "" else pieces[0] + Flat(pieces[1..])
  }

  lemma FlatFirst(x: Bytes, rest: seq<Bytes>)
    ensures Flat([x] + rest) == x + Flat(rest)
  {
    assert ([x] + rest)[1..] == rest;
  }

  lemma FlatLast(x: Bytes)
    ensures Flat([x]) == x
  {
    assert x + "" == x;
  }

  /** A text with the byte that ends it. */
  function Ended(s: Bytes): Bytes {
    s + "\0"
  }

  function Choice(tag: Bytes, v: Option<Bytes>, none: Bytes): Bytes {
    if v.Some? then Ended(tag) + Ended(v.value) else none
  }

  function Byte(b: bool): Bytes {
    if b then [1 as char] else [0 as char]
  }

  function OriginBytes(s: Source): Bytes {
    match s
    case Registry => "src_reg\0"
    case Git(url, r) => Ended("src_git") + (Ended(url) + (Ended(ReferenceBytes(r)) + Ended(r.name)))
    case Local(path) => Ended("src_path") + Ended(path)
  }

  function ReferenceBytes(r: GitReference): Bytes {
    if r.Branch? then "git_br" else if r.Tag? then "git_tag" else "git_rev"
  }

  /** One dependency, in the order of its fields. */
  lemma DependencyLayout(s: Spec)
    ensures Dependency(s) == Flat([
      Ended(s.crateName), Choice("ver", s.version, "nover\0"), Tokens(s.features), Byte(s.defaultFeatures), Byte(s.optional),
      Choice("pkg", s.package, "nopkg\0"), OriginBytes(s.source), "|dep|\0"])
  {
    var a, b, c := Ended(s.crateName), Choice("ver", s.version, "nover\0"), Tokens(s.features);
    var d, e, f := Byte(s.defaultFeatures), Byte(s.optional), Choice("pkg", s.package, "nopkg\0");
    var g, h := OriginBytes(s.source), "|dep|\0";
    assert Version(s.version) == b && Package(s.package) == f && Origin(s.source) == g && Tok("|dep|") == h;
    assert Flag(s.defaultFeatures) == d && Flag(s.optional) == e && Tok(s.crateName) == a;
    hide Ended, Choice, OriginBytes, Tokens, Version, Package, Origin, Flag, Byte, Flat;
    FlatLast(h);
    FlatFirst(g, [h]);
    FlatFirst(f, [g, h]);
    FlatFirst(e, [f, g, h]);
    FlatFirst(d, [e, f, g, h]);
    FlatFirst(c, [d, e, f, g, h]);
    FlatFirst(b, [c, d, e, f, g, h]);
    FlatFirst(a, [b, c, d, e, f, g, h]);
  }

  /** A tagged list: one record after the other, ended by a bar. */
  function Section(tag: Bytes, records: Bytes): Bytes {
    Ended(tag) + (records + "|\0")
  }

  lemma SectionFirst(tag: Bytes, records: Bytes, rest: seq<Bytes>)
    ensures Tok(tag) + (records + (Tok("|") + Flat(rest))) == Flat([Section(tag, records)] + rest)
  {
    var end := "|\0";
    assert Tok("|") == end && Tok(tag) == Ended(tag);
    hide Tok, Ended, Flat;
    FlatFirst(Section(tag, records), rest);
    Assoc(Ended(tag), records + end, Flat(rest));
    Assoc(records, end, Flat(rest));
  }

  function Lists(b: Body): seq<Bytes> {
    [Section("sdk_artifact_projections", Records(b.projections, Artifact)),
     Section("sdk_dependency_rebindings", Records(b.rebindings, Rebound)),
     Section("sdk_path_dependencies", Records(b.sdkPaths, HashedDependency)),
     Section("deps", Records(b.deps, HashedDependency)),
     Section("dev_deps", Records(b.devDeps, Dependency)),
     if b.lock.Some? then Ended("lock") + b.lock.value else "nolock\0"]
  }

  lemma ListsLayout(b: Body)
    ensures FromProjections(b) == Flat(Lists(b))
  {
    var l := Lists(b);
    LastLists(b, l[3], l[4], l[5]);
    FirstLists(b, [l[3], l[4], l[5]]);
    hide *;
    assert l == [l[0], l[1], l[2]] + [l[3], l[4], l[5]] by { SixPieces(b); }
  }

  lemma SixPieces(b: Body)
    ensures var l := Lists(b); |l| == 6 && l == [l[0], l[1], l[2]] + [l[3], l[4], l[5]]
  {
    hide Section, Records, Ended;
  }

  lemma LastLists(b: Body, deps: Bytes, dev: Bytes, lock: Bytes)
    requires deps == Section("deps", Records(b.deps, HashedDependency))
    requires dev == Section("dev_deps", Records(b.devDeps, Dependency))
    requires lock == if b.lock.Some? then Ended("lock") + b.lock.value else "nolock\0"
    ensures FromDeps(b) == Flat([deps, dev, lock])
  {
    FlatLast(lock);
    LockLayout(b);
    hide Section, Ended, Flat, FromLock, Tok, Records;
    SectionFirst("dev_deps", Records(b.devDeps, Dependency), [lock]);
    assert [dev] + [lock] == [dev, lock];
    SectionFirst("deps", Records(b.deps, HashedDependency), [dev, lock]);
    assert [deps] + [dev, lock] == [deps, dev, lock];
  }

  lemma LockLayout(b: Body)
    ensures FromLock(b) == if b.lock.Some? then Ended("lock") + b.lock.value else "nolock\0"
  {
    assert Tok("nolock") == "nolock\0";
  }

  lemma FirstLists(b: Body, rest: seq<Bytes>)
    requires FromDeps(b) == Flat(rest)
    ensures FromProjections(b) == Flat([Lists(b)[0], Lists(b)[1], Lists(b)[2]] + rest)
  {
    var l := Lists(b);
    hide Section, Ended, Flat, FromLock, FromDeps, Tok, Records;
    SectionFirst("sdk_path_dependencies", Records(b.sdkPaths, HashedDependency), rest);
    SectionFirst("sdk_dependency_rebindings", Records(b.rebindings, Rebound), [l[2]] + rest);
    SectionFirst("sdk_artifact_projections", Records(b.projections, Artifact), [l[1]] + ([l[2]] + rest));
    assert [l[0]] + ([l[1]] + ([l[2]] + rest)) == [l[0], l[1], l[2]] + rest;
  }

  function Head(b: Body): (pieces: seq<Bytes>)
    ensures |pieces| == 7
  {
    ["incan_rust_inspect_workspace/5\0", Ended(b.project), Ended(b.package), if b.clear then "clear_cargo_lock\0" else "",
     Ended("cargo_target_dir") + Ended(b.target),
     if b.lockRoot.Some? then Ended("lock_projection") + Ended(b.lockRoot.value) else "",
     Choice("ed", b.edition, "noed\0")]
  }

  function Names(b: Body): seq<Bytes> {
    ["layout_bin_devdeps\0", "derive_probes\0", Tokens(b.probes), Tokens(b.facets), "|\0"]
  }

  /** Everything that is hashed, in order: single values, probes and facets, then the lists and the lock. */
  lemma PreimageLayout(b: Body)
    ensures Encode(b) == Flat(Head(b) + (Names(b) + Lists(b)))
  {
    ListsLayout(b);
    ProbesLayout(b, Lists(b));
    HeadSteps(b);
    var a, l := Head(b), Names(b) + Lists(b);
    hide *;
    Seven(a[0], a[1], a[2], a[3], a[4], a[5], a[6], l);
    assert a == [a[0], a[1], a[2], a[3], a[4], a[5], a[6]];
  }

  lemma HeadSteps(b: Body)
    ensures var a := Head(b);
      Encode(b) == a[0] + (a[1] + (a[2] + (a[3] + (a[4] + (a[5] + (a[6] + FromProbes(b)))))))
  {
    EditionLayout(b);
    LockRootLayout(b);
    TargetLayout(b);
    ClearLayout(b);
    HeadLayout(b);
    hide FromEdition, FromLockRoot, FromTarget, FromClear, Encode, FromProbes, Ended, Choice;
  }

  lemma EditionLayout(b: Body)
    ensures FromEdition(b) == Choice("ed", b.edition, "noed\0") + FromProbes(b)
  {
    hide FromProbes;
    if b.edition.Some? { Assoc(Tok("ed"), Tok(b.edition.value), FromProbes(b)); }
  }

  lemma LockRootLayout(b: Body)
    ensures FromLockRoot(b)
      == (if b.lockRoot.Some? then Ended("lock_projection") + Ended(b.lockRoot.value) else "") + FromEdition(b)
  {
    hide FromEdition;
    if b.lockRoot.Some? { Assoc(Tok("lock_projection"), Tok(b.lockRoot.value), FromEdition(b)); }
  }

  lemma TargetLayout(b: Body)
    ensures FromTarget(b) == Ended("cargo_target_dir") + Ended(b.target) + FromLockRoot(b)
  {
    hide FromLockRoot;
    Assoc(Tok("cargo_target_dir"), Tok(b.target), FromLockRoot(b));
  }

  lemma ClearLayout(b: Body)
    ensures FromClear(b) == (if b.clear then "clear_cargo_lock\0" else "") + FromTarget(b)
  {
    hide FromTarget;
    assert Tok("clear_cargo_lock") == "clear_cargo_lock\0";
  }

  lemma HeadLayout(b: Body)
    ensures Encode(b) == "incan_rust_inspect_workspace/5\0" + (Ended(b.project) + (Ended(b.package) + FromClear(b)))
  {
    hide FromClear;
    assert Tok("incan_rust_inspect_workspace/5") == "incan_rust_inspect_workspace/5\0";
  }

  lemma ProbesLayout(b: Body, l: seq<Bytes>)
    requires FromProjections(b) == Flat(l)
    ensures FromProbes(b) == Flat(["layout_bin_devdeps\0", "derive_probes\0", Tokens(b.probes), Tokens(b.facets), "|\0"] + l)
  {
    assert Tok("layout_bin_devdeps") == "layout_bin_devdeps\0" && Tok("derive_probes") == "derive_probes\0" && Tok("|") == "|\0";
    hide FromProjections, Tokens, Flat, Tok;
    Five(Tok("layout_bin_devdeps"), Tok("derive_probes"), Tokens(b.probes), Tokens(b.facets), Tok("|"), l);
  }

  lemma Two(x: Bytes, y: Bytes, l: seq<Bytes>)
    ensures x + (y + Flat(l)) == Flat([x, y] + l)
  {
    FlatFirst(y, l);
    FlatFirst(x, [y] + l);
    assert [x] + ([y] + l) == [x, y] + l;
  }

  lemma Five(x: Bytes, y: Bytes, p: Bytes, f: Bytes, bar: Bytes, l: seq<Bytes>)
    ensures x + (y + (p + (f + (bar + Flat(l))))) == Flat([x, y, p, f, bar] + l)
  {
    hide Flat;
    FlatFirst(bar, l);
    Two(p, f, [bar] + l);
    Two(x, y, [p, f] + ([bar] + l));
    assert [x, y] + ([p, f] + ([bar] + l)) == [x, y, p, f, bar] + l;
  }

  lemma Seven(a: Bytes, b: Bytes, c: Bytes, x: Bytes, y: Bytes, z: Bytes, w: Bytes, l: seq<Bytes>)
    ensures a + (b + (c + (x + (y + (z + (w + Flat(l))))))) == Flat([a, b, c, x, y, z, w] + l)
  {
    hide Flat;
    Five(c, x, y, z, w, l);
    Two(a, b, [c, x, y, z, w] + l);
    assert [a, b] + ([c, x, y, z, w] + l) == [a, b, c, x, y, z, w] + l;
  }

  // ---- the order of the lists ----

  /** By name, then by package, a missing package first. */
  predicate BeforeByPackage(s: Spec, t: Spec) {
    || StrLt(s.crateName, t.crateName)
    || (s.crateName == t.crateName
        && (s.package.None? || (t.package.Some? && (s.package == t.package || StrLt(s.package.value, t.package.value)))))
  }

  /** The first of the five fields that differs decides. */
  ghost predicate BeforeByFields(r: Rebinding, t: Rebinding) {
    var a, b := [r.container, r.provider, r.key, r.source, r.active], [t.container, t.provider, t.key, t.source, t.active];
    a == b || exists k :: 0 <= k < 5 && a[..k] == b[..k] && StrLt(a[k], b[k])
  }

  ghost predicate FeaturesAscend(s: Spec) {
    forall i, j :: 0 <= i < j < |s.features| ==> StrLe(s.features[i], s.features[j])
  }

  lemma {:induction false} FieldsBefore(a: seq<Bytes>, b: seq<Bytes>)
    requires |a| == |b| && FieldsLe(a, b)
    ensures a == b || exists k :: 0 <= k < |a| && a[..k] == b[..k] && StrLt(a[k], b[k])
  {
    if a != [] {
      if a[0] == b[0] {
        FieldsBefore(a[1..], b[1..]);
        assert a == [a[0]] + a[1..] && b == [b[0]] + b[1..];
        if k :| 0 <= k < |a[1..]| && a[1..][..k] == b[1..][..k] && StrLt(a[1..][k], b[1..][k]) {
          assert a[..k + 1] == [a[0]] + a[1..][..k] && b[..k + 1] == [b[0]] + b[1..][..k];
          assert StrLt(a[k + 1], b[k + 1]);
        }
      } else {
        assert a[..0] == b[..0] && StrLt(a[0], b[0]);
      }
    }
  }

  /** Facets, roots and features come ascending, dependencies by name, toolchain paths by name and package. */
  lemma ListsAscend(i: Input, d: Digests)
    ensures var b := Canon(i, d);
      && (forall m, n :: 0 <= m < n < |b.facets| ==> StrLt(b.facets[m], b.facets[n]))
      && (forall m, n :: 0 <= m < n < |b.projections| ==> StrLt(b.projections[m].root, b.projections[n].root))
      && (forall m, n :: 0 <= m < n < |b.rebindings| ==> BeforeByFields(b.rebindings[m], b.rebindings[n]))
      && (forall m, n :: 0 <= m < n < |b.sdkPaths| ==> BeforeByPackage(b.sdkPaths[m].spec, b.sdkPaths[n].spec))
      && (forall m, n :: 0 <= m < n < |b.deps| ==> StrLe(b.deps[m].spec.crateName, b.deps[n].spec.crateName))
      && (forall m, n :: 0 <= m < n < |b.devDeps| ==> StrLe(b.devDeps[m].crateName, b.devDeps[n].crateName))
  {
    var b := Canon(i, d);
    SortDedupIsAscending(TrimmedNames(i.facets));
    ProjectionsAscend(i, d);
    RebindingsAscend(i, d);
    PathsAscend(i, d);
    NamesAscend(i.dependencies);
    NamesAscend(i.devDependencies);
    hide SortBy, SortDedup, SortedRebindings, SortedSdkPaths, SortedProjections, BeforeByFields, BeforeByPackage;
  }

  lemma ProjectionsAscend(i: Input, d: Digests)
    ensures forall m, n :: 0 <= m < n < |Canon(i, d).projections| ==>
      StrLt(Canon(i, d).projections[m].root, Canon(i, d).projections[n].root)
  {
    SortDedupIsAscending(i.projections);
  }

  lemma RebindingsAscend(i: Input, d: Digests)
    ensures forall m, n :: 0 <= m < n < |Canon(i, d).rebindings| ==>
      BeforeByFields(Canon(i, d).rebindings[m], Canon(i, d).rebindings[n])
  {
    BoundSorted(i.rebindings, d.artifact);
    var r := Canon(i, d).rebindings;
    assert r == Bound(i.rebindings, d.artifact);
    hide Bound, FieldsLe;
    forall m, n | 0 <= m < n < |r| ensures BeforeByFields(r[m], r[n]) {
      assert BoundLe(r[m], r[n]);
      FieldsBefore([r[m].container, r[m].provider, r[m].key, r[m].source, r[m].active],
                   [r[n].container, r[n].provider, r[n].key, r[n].source, r[n].active]);
    }
  }

  lemma PathsAscend(i: Input, d: Digests)
    ensures forall m, n :: 0 <= m < n < |Canon(i, d).sdkPaths| ==>
      BeforeByPackage(Canon(i, d).sdkPaths[m].spec, Canon(i, d).sdkPaths[n].spec)
  {
    PackageOrders();
    SortBySorted(i.sdkPaths, ByNameAndPackage);
    var s, p := SortedSdkPaths(i), Canon(i, d).sdkPaths;
    hide SortBy;
    forall m, n | 0 <= m < n < |p| ensures BeforeByPackage(p[m].spec, p[n].spec) {
      assert ByNameAndPackage(s[m], s[n]);
      assert p[m].spec == SortFeatures(s[m]) && p[n].spec == SortFeatures(s[n]);
    }
  }

  lemma NamesAscend(specs: seq<Spec>)
    ensures var r := SortedDependencies(specs);
      forall m, n :: 0 <= m < n < |r| ==> StrLe(r[m].crateName, r[n].crateName)
  {
    NameOrders();
    SortBySorted(specs, ByName);
    var s, r := SortBy(specs, ByName), SortedDependencies(specs);
    hide SortBy;
    forall m, n | 0 <= m < n < |r| ensures StrLe(r[m].crateName, r[n].crateName) { assert ByName(s[m], s[n]); }
  }

  /** The features of every dependency come in ascending order. */
  lemma SpecFeaturesAscend(i: Input, d: Digests)
    ensures var b := Canon(i, d);
      && (forall h :: h in b.sdkPaths ==> FeaturesAscend(h.spec)) && (forall h :: h in b.deps ==> FeaturesAscend(h.spec))
      && (forall s :: s in b.devDeps ==> FeaturesAscend(s))
  {
    forall s ensures FeaturesAscend(SortFeatures(s)) { OneAscends(s); }
    hide SortFeatures, SortBy, SortedDependencies, SortedSdkPaths;
  }

  lemma OneAscends(s: Spec)
    ensures FeaturesAscend(SortFeatures(s))
  {
    StringOrder();
    SortBySorted(s.features, StrLe);
  }
}
