/**
 Reading the preimage of the rust-inspect workspace fingerprint back: every section is a list of records with a terminator
 that no record starts with.
 */
module FingerprintDecoding {
  import opened Orders
  import opened DependencySpecs
  import opened FingerprintEncoding

  lemma {:induction false} TokCode(a: Bytes, b: Bytes, u: Bytes, v: Bytes)
    requires NulFree(a) && NulFree(b) && Tok(a) + u == Tok(b) + v
    ensures a == b && u == v
  {
    var x, y := Tok(a) + u, Tok(b) + v;
    assert x[|a|] == '\0' && forall i :: 0 <= i < |a| ==> x[i] == a[i] != '\0';
    assert y[|b|] == '\0' && forall i :: 0 <= i < |b| ==> y[i] == b[i] != '\0';
    assert |a| == |b|;
    assert a == x[..|a|] == y[..|b|] == b;
    assert u == x[|a| + 1..] == y[|b| + 1..] == v;
  }

  lemma Assoc(a: Bytes, b: Bytes, c: Bytes)
    ensures (a + b) + c == a + (b + c)
  {
  }

  ghost predicate PrefixCode<T(!new)>(enc: T -> Bytes, ok: T -> bool) {
    forall a, b, u, v :: ok(a) && ok(b) && enc(a) + u == enc(b) + v ==> a == b && u == v
  }

  /** No record starts with what may follow the list. */
  ghost predicate Separates<T(!new)>(enc: T -> Bytes, ok: T -> bool, tail: Bytes) {
    forall a, u :: ok(a) ==> enc(a) + u != tail
  }

  lemma {:induction false} RecordsCode<T(!new)>(enc: T -> Bytes, ok: T -> bool, xs: seq<T>, ys: seq<T>, u: Bytes, v: Bytes)
    requires PrefixCode(enc, ok) && Separates(enc, ok, u) && Separates(enc, ok, v)
    requires AllOk(xs, ok) && AllOk(ys, ok) && Records(xs, enc) + u == Records(ys, enc) + v
    ensures xs == ys && u == v
  {
    assert "" + u == u && "" + v == v;
    if xs != [] { Assoc(enc(xs[0]), Records(xs[1..], enc), u); }
    if ys != [] { Assoc(enc(ys[0]), Records(ys[1..], enc), v); }
    assert xs == [] <==> ys == [];
    if xs != [] {
      var s, t := Records(xs[1..], enc) + u, Records(ys[1..], enc) + v;
      assert enc(xs[0]) + s == enc(ys[0]) + t;
      RecordsCode(enc, ok, xs[1..], ys[1..], u, v);
      assert xs == [xs[0]] + xs[1..] && ys == [ys[0]] + ys[1..];
    }
  }

  lemma ItemsCode()
    ensures PrefixCode(Tok, Item) && PrefixCode(Tok, FeatureName)
  {
    forall a, b, u, v | NulFree(a) && NulFree(b) && Tok(a) + u == Tok(b) + v ensures a == b && u == v {
      TokCode(a, b, u, v);
    }
  }

  lemma ItemsSeparate(rest: Bytes)
    ensures Separates(Tok, Item, Tok("|") + rest)
  {
    forall a, u | Item(a) ensures Tok(a) + u != Tok("|") + rest {
      if Tok(a) + u == Tok("|") + rest { TokCode(a, "|", u, rest); }
    }
  }

  /** A tagged optional token followed by `u`. */
  function Optional(some: Bytes, none: Bytes, a: Option<Bytes>, u: Bytes): Bytes {
    if a.Some? then Tok(some) + (Tok(a.value) + u) else Tok(none) + u
  }

  lemma OptionalCode(some: Bytes, none: Bytes, a: Option<Bytes>, b: Option<Bytes>, u: Bytes, v: Bytes)
    requires some != none && NulFree(some) && NulFree(none) && Plain(a) && Plain(b)
    requires Optional(some, none, a, u) == Optional(some, none, b, v)
    ensures a == b && u == v
  {
    TokCode(if a.Some? then some else none, if b.Some? then some else none,
            if a.Some? then Tok(a.value) + u else u, if b.Some? then Tok(b.value) + v else v);
    if a.Some? {
      TokCode(a.value, b.value, u, v);
    }
  }

  lemma FlagCode(a: bool, b: bool, u: Bytes, v: Bytes)
    requires Flag(a) + u == Flag(b) + v
    ensures a == b && u == v
  {
    assert (Flag(a) + u)[0] == Flag(a)[0] && (Flag(b) + v)[0] == Flag(b)[0];
    assert u == (Flag(a) + u)[1..] && v == (Flag(b) + v)[1..];
  }

  // ---- one dependency ----

  function OriginTag(s: Source): Bytes {
    match s case Registry => "src_reg" case Git(_, _) => "src_git" case Local(_) => "src_path"
  }

  function ReferenceTag(r: GitReference): Bytes {
    match r case Branch(_) => "git_br" case Tag(_) => "git_tag" case Rev(_) => "git_rev"
  }

  function OriginThen(s: Source, u: Bytes): Bytes {
    Tok(OriginTag(s)) + match s
                        case Registry => u
                        case Git(url, r) => Tok(url) + (Tok(ReferenceTag(r)) + (Tok(r.name) + u))
                        case Local(path) => Tok(path) + u
  }

  lemma OriginSplits(s: Source, u: Bytes)
    ensures Origin(s) + u == OriginThen(s, u)
  {
    match s
    case Registry =>
    case Git(url, r) =>
      Assoc(Tok("src_git"), Tok(url) + Reference(r), u);
      Assoc(Tok(url), Reference(r), u);
      Assoc(Tok(ReferenceTag(r)), Tok(r.name), u);
    case Local(path) => Assoc(Tok("src_path"), Tok(path), u);
  }

  lemma OriginCode(s: Source, t: Source, u: Bytes, v: Bytes)
    requires SourceOk(s) && SourceOk(t) && OriginThen(s, u) == OriginThen(t, v)
    ensures s == t && u == v
  {
    var su, tv := OriginThen(s, u)[|OriginTag(s)| + 1..], OriginThen(t, v)[|OriginTag(t)| + 1..];
    assert OriginThen(s, u) == Tok(OriginTag(s)) + su && OriginThen(t, v) == Tok(OriginTag(t)) + tv;
    TokCode(OriginTag(s), OriginTag(t), su, tv);
    match s {
      case Registry =>
      case Local(path) => TokCode(path, t.path, u, v);
      case Git(url, r) =>
        var q := t.reference;
        TokCode(url, t.url, Tok(ReferenceTag(r)) + (Tok(r.name) + u), Tok(ReferenceTag(q)) + (Tok(q.name) + v));
        TokCode(ReferenceTag(r), ReferenceTag(q), Tok(r.name) + u, Tok(q.name) + v);
        TokCode(r.name, q.name, u, v);
    }
  }

  function TailThen(s: Spec, u: Bytes): Bytes {
    Flag(s.defaultFeatures) + (Flag(s.optional) + Optional("pkg", "nopkg", s.package, OriginThen(s.source, Tok("|dep|") + u)))
  }

  lemma TailSplits(s: Spec, u: Bytes)
    ensures SpecTail(s) + u == TailThen(s, u)
  {
    var end := Tok("|dep|");
    Assoc(Flag(s.defaultFeatures), Flag(s.optional) + (Package(s.package) + (Origin(s.source) + end)), u);
    Assoc(Flag(s.optional), Package(s.package) + (Origin(s.source) + end), u);
    Assoc(Package(s.package), Origin(s.source) + end, u);
    Assoc(Origin(s.source), end, u);
    OriginSplits(s.source, end + u);
    if s.package.Some? { Assoc(Tok("pkg"), Tok(s.package.value), OriginThen(s.source, end + u)); }
  }

  lemma TailCode(s: Spec, t: Spec, u: Bytes, v: Bytes)
    requires SpecOk(s) && SpecOk(t) && TailThen(s, u) == TailThen(t, v)
    ensures s.defaultFeatures == t.defaultFeatures && s.optional == t.optional && s.package == t.package
    ensures s.source == t.source && u == v
  {
    var so, to := OriginThen(s.source, Tok("|dep|") + u), OriginThen(t.source, Tok("|dep|") + v);
    var sp, tp := Optional("pkg", "nopkg", s.package, so), Optional("pkg", "nopkg", t.package, to);
    FlagCode(s.defaultFeatures, t.defaultFeatures, Flag(s.optional) + sp, Flag(t.optional) + tp);
    FlagCode(s.optional, t.optional, sp, tp);
    OptionalCode("pkg", "nopkg", s.package, t.package, so, to);
    OriginCode(s.source, t.source, Tok("|dep|") + u, Tok("|dep|") + v);
    TokCode("|dep|", "|dep|", u, v);
  }

  lemma FeaturesSeparate(s: Spec, u: Bytes)
    ensures Separates(Tok, FeatureName, TailThen(s, u))
  {
    assert TailThen(s, u)[0] == Flag(s.defaultFeatures)[0] <= '\U{1}';
    forall f, w | FeatureName(f) ensures Tok(f) + w != TailThen(s, u) {
      assert (Tok(f) + w)[0] == f[0];
    }
  }

  function DependencyThen(s: Spec, u: Bytes): Bytes {
    Tok(s.crateName) + Optional("ver", "nover", s.version, Tokens(s.features) + TailThen(s, u))
  }

  lemma DependencySplits(s: Spec, u: Bytes)
    ensures Dependency(s) + u == DependencyThen(s, u)
  {
    Assoc(Tok(s.crateName), Version(s.version) + (Tokens(s.features) + SpecTail(s)), u);
    Assoc(Version(s.version), Tokens(s.features) + SpecTail(s), u);
    Assoc(Tokens(s.features), SpecTail(s), u);
    TailSplits(s, u);
    if s.version.Some? { Assoc(Tok("ver"), Tok(s.version.value), Tokens(s.features) + TailThen(s, u)); }
  }

  lemma DependencyStep(s: Spec, t: Spec, u: Bytes, v: Bytes)
    requires SpecOk(s) && SpecOk(t) && Dependency(s) + u == Dependency(t) + v
    ensures s == t && u == v
  {
    hide Tok, Records, Dependency, TailThen, Optional, PrefixCode, Separates;
    DependencySplits(s, u);
    DependencySplits(t, v);
    var sf, tf := Tokens(s.features) + TailThen(s, u), Tokens(t.features) + TailThen(t, v);
    TokCode(s.crateName, t.crateName, Optional("ver", "nover", s.version, sf), Optional("ver", "nover", t.version, tf));
    OptionalCode("ver", "nover", s.version, t.version, sf, tf);
    ItemsCode();
    FeaturesSeparate(s, u);
    FeaturesSeparate(t, v);
    RecordsCode(Tok, FeatureName, s.features, t.features, TailThen(s, u), TailThen(t, v));
    TailCode(s, t, u, v);
  }

  /**
   Two dependency specs never collide: with well-formed feature names, the bytes fed for one determine it, whatever
   follows them.
   */
  lemma DependencyIsPrefixCode()
    ensures PrefixCode(Dependency, SpecOk) && PrefixCode(HashedDependency, HashedOk)
  {
    forall s, t, u, v | SpecOk(s) && SpecOk(t) && Dependency(s) + u == Dependency(t) + v ensures s == t && u == v {
      DependencyStep(s, t, u, v);
    }
    forall a, b, u, v | HashedOk(a) && HashedOk(b) && HashedDependency(a) + u == HashedDependency(b) + v
      ensures a == b && u == v
    {
      HashedStep(a, b, u, v);
    }
  }

  function ContentThen(h: Hashed, u: Bytes): Bytes {
    match h.content case Some(d) => Tok(d) + u case None => u
  }

  lemma HashedStep(a: Hashed, b: Hashed, u: Bytes, v: Bytes)
    requires HashedOk(a) && HashedOk(b) && HashedDependency(a) + u == HashedDependency(b) + v
    ensures a == b && u == v
  {
    Assoc(Dependency(a.spec), if a.content.Some? then Tok(a.content.value) else "", u);
    Assoc(Dependency(b.spec), if b.content.Some? then Tok(b.content.value) else "", v);
    assert "" + u == u && "" + v == v;
    DependencyStep(a.spec, b.spec, ContentThen(a, u), ContentThen(b, v));
    if a.content.Some? { TokCode(a.content.value, b.content.value, u, v); }
  }

  lemma DependenciesSeparate(rest: Bytes)
    ensures Separates(Dependency, SpecOk, Tok("|") + rest) && Separates(HashedDependency, HashedOk, Tok("|") + rest)
  {
    forall s, u | SpecOk(s) ensures Dependency(s) + u != Tok("|") + rest {
      DependencySplits(s, u);
      var w := Optional("ver", "nover", s.version, Tokens(s.features) + TailThen(s, u));
      if Tok(s.crateName) + w == Tok("|") + rest { TokCode(s.crateName, "|", w, rest); }
    }
    forall h, u | HashedOk(h) ensures HashedDependency(h) + u != Tok("|") + rest {
      Assoc(Dependency(h.spec), if h.content.Some? then Tok(h.content.value) else "", u);
    }
  }

  // ---- SDK artifacts ----

  lemma ArtifactsCode(rest: Bytes)
    ensures PrefixCode(Artifact, ProjectionOk) && Separates(Artifact, ProjectionOk, Tok("|") + rest)
  {
    forall a, b, u, v | ProjectionOk(a) && ProjectionOk(b) && Artifact(a) + u == Artifact(b) + v ensures a == b && u == v {
      Assoc(Tok(a.root), Tok(a.digest), u);
      Assoc(Tok(b.root), Tok(b.digest), v);
      TokCode(a.root, b.root, Tok(a.digest) + u, Tok(b.digest) + v);
      TokCode(a.digest, b.digest, u, v);
    }
    forall a, u | ProjectionOk(a) ensures Artifact(a) + u != Tok("|") + rest {
      Assoc(Tok(a.root), Tok(a.digest), u);
      if Artifact(a) + u == Tok("|") + rest { TokCode(a.root, "|", Tok(a.digest) + u, rest); }
    }
  }

  function ReboundThen(r: Rebinding, u: Bytes): Bytes {
    Tok(r.container) + (Tok(r.provider) + (Tok(r.key) + (Tok(r.source) + (Tok(r.active) + (Tok(r.digest) + u)))))
  }

  lemma ReboundSplits(r: Rebinding, u: Bytes)
    ensures Rebound(r) + u == ReboundThen(r, u)
  {
    Assoc(Tok(r.container), Tok(r.provider) + (Tok(r.key) + (Tok(r.source) + (Tok(r.active) + Tok(r.digest)))), u);
    Assoc(Tok(r.provider), Tok(r.key) + (Tok(r.source) + (Tok(r.active) + Tok(r.digest))), u);
    Assoc(Tok(r.key), Tok(r.source) + (Tok(r.active) + Tok(r.digest)), u);
    Assoc(Tok(r.source), Tok(r.active) + Tok(r.digest), u);
    Assoc(Tok(r.active), Tok(r.digest), u);
  }

  lemma ReboundStep(a: Rebinding, b: Rebinding, u: Bytes, v: Bytes)
    requires RebindingOk(a) && RebindingOk(b) && Rebound(a) + u == Rebound(b) + v
    ensures a == b && u == v
  {
    ReboundSplits(a, u);
    ReboundSplits(b, v);
    var a5, b5 := Tok(a.digest) + u, Tok(b.digest) + v;
    var a4, b4 := Tok(a.active) + a5, Tok(b.active) + b5;
    var a3, b3 := Tok(a.source) + a4, Tok(b.source) + b4;
    var a2, b2 := Tok(a.key) + a3, Tok(b.key) + b3;
    TokCode(a.container, b.container, Tok(a.provider) + a2, Tok(b.provider) + b2);
    TokCode(a.provider, b.provider, a2, b2);
    TokCode(a.key, b.key, a3, b3);
    TokCode(a.source, b.source, a4, b4);
    TokCode(a.active, b.active, a5, b5);
    TokCode(a.digest, b.digest, u, v);
  }

  lemma ReboundCode(rest: Bytes)
    ensures PrefixCode(Rebound, RebindingOk) && Separates(Rebound, RebindingOk, Tok("|") + rest)
  {
    forall a, b, u, v | RebindingOk(a) && RebindingOk(b) && Rebound(a) + u == Rebound(b) + v ensures a == b && u == v {
      ReboundStep(a, b, u, v);
    }
    forall a, u | RebindingOk(a) ensures Rebound(a) + u != Tok("|") + rest {
      ReboundSplits(a, u);
      var w := ReboundThen(a, u)[|a.container| + 1..];
      assert ReboundThen(a, u) == Tok(a.container) + w;
      if Tok(a.container) + w == Tok("|") + rest { TokCode(a.container, "|", w, rest); }
    }
  }

  // ---- the whole preimage ----

  lemma {:induction false} RecordsConcat<T>(xs: seq<T>, ys: seq<T>, enc: T -> Bytes)
    ensures Records(xs + ys, enc) == Records(xs, enc) + Records(ys, enc)
  {
    if xs == [] {
      assert xs + ys == ys && "" + Records(ys, enc) == Records(ys, enc);
    } else {
      RecordsConcat(xs[1..], ys, enc);
      assert (xs + ys)[1..] == xs[1..] + ys;
      Assoc(enc(xs[0]), Records(xs[1..], enc), Records(ys, enc));
    }
  }

  /** Probes and facets are fed as one list: nothing marks where the first ends. */
  function Merge(b: Body): Body {
    b.(probes := b.probes + b.facets, facets := [])
  }

  lemma MergeEncodesTheSame(b: Body)
    ensures Encode(Merge(b)) == Encode(b)
  {
    SameTail(b, Merge(b));
    MergeKeepsLists(b);
    SameHead(b, Merge(b));
  }

  lemma MergeKeepsLists(b: Body)
    requires FromProjections(Merge(b)) == FromProjections(b)
    ensures FromProbes(Merge(b)) == FromProbes(b)
  {
    hide FromProjections;
    var rest := Tok("|") + FromProjections(b);
    RecordsConcat(b.probes, b.facets, Tok);
    Assoc(Tokens(b.probes), Tokens(b.facets), rest);
    assert Tokens([]) == "" && "" + rest == rest;
  }

  /** Everything before the probes depends only on the fields encoded there. */
  lemma SameHead(a: Body, b: Body)
    requires a.project == b.project && a.package == b.package && a.clear == b.clear && a.target == b.target
    requires a.lockRoot == b.lockRoot && a.edition == b.edition && FromProbes(a) == FromProbes(b)
    ensures Encode(a) == Encode(b)
  {
    hide FromProbes;
    assert FromEdition(a) == FromEdition(b);
    assert FromTarget(a) == FromTarget(b);
  }

  /** Everything from the projections on depends only on the fields encoded there. */
  lemma SameTail(a: Body, b: Body)
    requires a.projections == b.projections && a.rebindings == b.rebindings && a.sdkPaths == b.sdkPaths
    requires a.deps == b.deps && a.devDeps == b.devDeps && a.lock == b.lock
    ensures FromProjections(a) == FromProjections(b)
  {
    assert FromLock(a) == FromLock(b);
    assert FromDevDeps(a) == FromDevDeps(b);
    assert FromDeps(a) == FromDeps(b);
    assert FromSdkPaths(a) == FromSdkPaths(b);
    assert FromRebindings(a) == FromRebindings(b);
  }

  lemma SectionCode<T(!new)>(tag: Bytes, enc: T -> Bytes, ok: T -> bool, xs: seq<T>, ys: seq<T>, u: Bytes, v: Bytes)
    requires NulFree(tag) && PrefixCode(enc, ok) && AllOk(xs, ok) && AllOk(ys, ok)
    requires Separates(enc, ok, Tok("|") + u) && Separates(enc, ok, Tok("|") + v)
    requires Tok(tag) + (Records(xs, enc) + (Tok("|") + u)) == Tok(tag) + (Records(ys, enc) + (Tok("|") + v))
    ensures xs == ys && u == v
  {
    TokCode(tag, tag, Records(xs, enc) + (Tok("|") + u), Records(ys, enc) + (Tok("|") + v));
    RecordsCode(enc, ok, xs, ys, Tok("|") + u, Tok("|") + v);
    TokCode("|", "|", u, v);
  }

  lemma HashedSection(tag: Bytes, xs: seq<Hashed>, ys: seq<Hashed>, u: Bytes, v: Bytes)
    requires NulFree(tag) && AllOk(xs, HashedOk) && AllOk(ys, HashedOk)
    requires Tok(tag) + (Records(xs, HashedDependency) + (Tok("|") + u))
      == Tok(tag) + (Records(ys, HashedDependency) + (Tok("|") + v))
    ensures xs == ys && u == v
  {
    DependencyIsPrefixCode();
    DependenciesSeparate(u);
    DependenciesSeparate(v);
    SectionCode(tag, HashedDependency, HashedOk, xs, ys, u, v);
  }

  lemma DependencySection(tag: Bytes, xs: seq<Spec>, ys: seq<Spec>, u: Bytes, v: Bytes)
    requires NulFree(tag) && AllOk(xs, SpecOk) && AllOk(ys, SpecOk)
    requires Tok(tag) + (Records(xs, Dependency) + (Tok("|") + u)) == Tok(tag) + (Records(ys, Dependency) + (Tok("|") + v))
    ensures xs == ys && u == v
  {
    DependencyIsPrefixCode();
    DependenciesSeparate(u);
    DependenciesSeparate(v);
    SectionCode(tag, Dependency, SpecOk, xs, ys, u, v);
  }

  lemma ArtifactSection(tag: Bytes, xs: seq<Projection>, ys: seq<Projection>, u: Bytes, v: Bytes)
    requires NulFree(tag) && AllOk(xs, ProjectionOk) && AllOk(ys, ProjectionOk)
    requires Tok(tag) + (Records(xs, Artifact) + (Tok("|") + u)) == Tok(tag) + (Records(ys, Artifact) + (Tok("|") + v))
    ensures xs == ys && u == v
  {
    ArtifactsCode(u);
    ArtifactsCode(v);
    SectionCode(tag, Artifact, ProjectionOk, xs, ys, u, v);
  }

  lemma ReboundSection(tag: Bytes, xs: seq<Rebinding>, ys: seq<Rebinding>, u: Bytes, v: Bytes)
    requires NulFree(tag) && AllOk(xs, RebindingOk) && AllOk(ys, RebindingOk)
    requires Tok(tag) + (Records(xs, Rebound) + (Tok("|") + u)) == Tok(tag) + (Records(ys, Rebound) + (Tok("|") + v))
    ensures xs == ys && u == v
  {
    ReboundCode(u);
    ReboundCode(v);
    SectionCode(tag, Rebound, RebindingOk, xs, ys, u, v);
  }

  lemma TokenSection(tag: Bytes, xs: seq<Bytes>, ys: seq<Bytes>, u: Bytes, v: Bytes)
    requires NulFree(tag) && AllOk(xs, Item) && AllOk(ys, Item)
    requires Tok(tag) + (Tokens(xs) + (Tok("|") + u)) == Tok(tag) + (Tokens(ys) + (Tok("|") + v))
    ensures xs == ys && u == v
  {
    ItemsCode();
    ItemsSeparate(u);
    ItemsSeparate(v);
    SectionCode(tag, Tok, Item, xs, ys, u, v);
  }

  lemma LockDecodes(a: Body, b: Body)
    requires FromLock(a) == FromLock(b)
    ensures a.lock == b.lock
  {
    assert FromLock(a)[0] == if a.lock.Some? then 'l' else 'n';
    assert FromLock(b)[0] == if b.lock.Some? then 'l' else 'n';
    if a.lock.Some? { TokCode("lock", "lock", a.lock.value, b.lock.value); }
  }

  lemma DevDepsDecode(a: Body, b: Body)
    requires BodyOk(a) && BodyOk(b) && FromDevDeps(a) == FromDevDeps(b)
    ensures a.devDeps == b.devDeps && FromLock(a) == FromLock(b)
  {
    hide FromLock, Tok, Records, AllOk;
    DependencySection("dev_deps", a.devDeps, b.devDeps, FromLock(a), FromLock(b));
  }

  lemma DepsDecode(a: Body, b: Body)
    requires BodyOk(a) && BodyOk(b) && FromDeps(a) == FromDeps(b)
    ensures a.deps == b.deps && FromDevDeps(a) == FromDevDeps(b)
  {
    hide FromDevDeps, Tok, Records, AllOk;
    HashedSection("deps", a.deps, b.deps, FromDevDeps(a), FromDevDeps(b));
  }

  lemma SdkPathsDecode(a: Body, b: Body)
    requires BodyOk(a) && BodyOk(b) && FromSdkPaths(a) == FromSdkPaths(b)
    ensures a.sdkPaths == b.sdkPaths && FromDeps(a) == FromDeps(b)
  {
    hide FromDeps, Records, HashedDependency, HashedOk;
    HashedSection("sdk_path_dependencies", a.sdkPaths, b.sdkPaths, FromDeps(a), FromDeps(b));
  }

  lemma RebindingsDecode(a: Body, b: Body)
    requires BodyOk(a) && BodyOk(b) && FromRebindings(a) == FromRebindings(b)
    ensures a.rebindings == b.rebindings && FromSdkPaths(a) == FromSdkPaths(b)
  {
    hide FromSdkPaths, Tok, Records, AllOk;
    ReboundSection("sdk_dependency_rebindings", a.rebindings, b.rebindings, FromSdkPaths(a), FromSdkPaths(b));
  }

  lemma ProjectionsDecode(a: Body, b: Body)
    requires BodyOk(a) && BodyOk(b) && FromProjections(a) == FromProjections(b)
    ensures a.projections == b.projections && FromRebindings(a) == FromRebindings(b)
  {
    hide FromRebindings, Tok, Records, AllOk;
    ArtifactSection("sdk_artifact_projections", a.projections, b.projections, FromRebindings(a), FromRebindings(b));
  }

  /** Probes and facets are read back as one list. */
  lemma ListsDecode(probes: seq<Bytes>, facets: seq<Bytes>, probes': seq<Bytes>, facets': seq<Bytes>, u: Bytes, v: Bytes)
    requires AllOk(probes, Item) && AllOk(facets, Item) && AllOk(probes', Item) && AllOk(facets', Item)
    requires Tok("derive_probes") + (Tokens(probes) + (Tokens(facets) + (Tok("|") + u)))
      == Tok("derive_probes") + (Tokens(probes') + (Tokens(facets') + (Tok("|") + v)))
    ensures probes + facets == probes' + facets' && u == v
  {
    Assoc(Tokens(probes), Tokens(facets), Tok("|") + u);
    Assoc(Tokens(probes'), Tokens(facets'), Tok("|") + v);
    RecordsConcat(probes, facets, Tok);
    RecordsConcat(probes', facets', Tok);
    TokenSection("derive_probes", probes + facets, probes' + facets', u, v);
  }

  lemma ProbesDecode(a: Body, b: Body)
    requires BodyOk(a) && BodyOk(b) && FromProbes(a) == FromProbes(b)
    ensures a.probes + a.facets == b.probes + b.facets && FromProjections(a) == FromProjections(b)
  {
    hide FromProjections, Tok, Records, AllOk;
    TokCode("layout_bin_devdeps", "layout_bin_devdeps", Tok("derive_probes") + (Tokens(a.probes) + FromFacets(a)),
            Tok("derive_probes") + (Tokens(b.probes) + FromFacets(b)));
    ListsDecode(a.probes, a.facets, b.probes, b.facets, FromProjections(a), FromProjections(b));
  }

  lemma EditionDecodes(a: Body, b: Body)
    requires BodyOk(a) && BodyOk(b) && FromEdition(a) == FromEdition(b)
    ensures a.edition == b.edition && FromProbes(a) == FromProbes(b)
  {
    hide FromProbes, Tok, AllOk;
    OptionalCode("ed", "noed", a.edition, b.edition, FromProbes(a), FromProbes(b));
  }

  /** The projection root is marked by a tag no edition starts with. */
  lemma LockRootDecodes(a: Body, b: Body)
    requires BodyOk(a) && BodyOk(b) && FromLockRoot(a) == FromLockRoot(b)
    ensures a.lockRoot == b.lockRoot && FromEdition(a) == FromEdition(b)
  {
    hide FromEdition, Tok, AllOk;
    FirstByte(a);
    FirstByte(b);
    if a.lockRoot.Some? {
      var ra, rb := Tok(a.lockRoot.value) + FromEdition(a), Tok(b.lockRoot.value) + FromEdition(b);
      TokCode("lock_projection", "lock_projection", ra, rb);
      TokCode(a.lockRoot.value, b.lockRoot.value, FromEdition(a), FromEdition(b));
    }
  }

  lemma FirstByte(b: Body)
    ensures FromLockRoot(b) != "" && (FromLockRoot(b)[0] == 'l' <==> b.lockRoot.Some?)
  {
    if b.lockRoot.Some? {
      StartsWith("lock_projection", Tok(b.lockRoot.value) + FromEdition(b));
    } else if b.edition.Some? {
      StartsWith("ed", Tok(b.edition.value) + FromProbes(b));
    } else {
      StartsWith("noed", FromProbes(b));
    }
  }

  lemma StartsWith(tag: Bytes, rest: Bytes)
    requires tag != ""
    ensures Tok(tag) + rest != "" && (Tok(tag) + rest)[0] == tag[0]
    ensures |tag| > 1 ==> (Tok(tag) + rest)[1] == tag[1]
  {
  }

  lemma TargetDecodes(a: Body, b: Body)
    requires BodyOk(a) && BodyOk(b) && FromTarget(a) == FromTarget(b)
    ensures a.target == b.target && FromLockRoot(a) == FromLockRoot(b)
  {
    hide FromLockRoot, Tok, AllOk;
    var ta, tb := Tok(a.target) + FromLockRoot(a), Tok(b.target) + FromLockRoot(b);
    TokCode("cargo_target_dir", "cargo_target_dir", ta, tb);
    TokCode(a.target, b.target, FromLockRoot(a), FromLockRoot(b));
  }

  lemma ClearDecodes(a: Body, b: Body)
    requires BodyOk(a) && BodyOk(b) && FromClear(a) == FromClear(b)
    ensures a.clear == b.clear && FromTarget(a) == FromTarget(b)
  {
    hide FromLockRoot;
    StartsWith("clear_cargo_lock", FromTarget(a));
    StartsWith("clear_cargo_lock", FromTarget(b));
    StartsWith("cargo_target_dir", Tok(a.target) + FromLockRoot(a));
    StartsWith("cargo_target_dir", Tok(b.target) + FromLockRoot(b));
    assert FromClear(a)[1] == if a.clear then 'l' else 'a';
    assert FromClear(b)[1] == if b.clear then 'l' else 'a';
    if a.clear { TokCode("clear_cargo_lock", "clear_cargo_lock", FromTarget(a), FromTarget(b)); }
  }

  lemma NamesDecode(a: Body, b: Body)
    requires BodyOk(a) && BodyOk(b) && Encode(a) == Encode(b)
    ensures a.project == b.project && a.package == b.package && FromClear(a) == FromClear(b)
  {
    hide FromClear;
    var ra, rb := Tok(a.project) + (Tok(a.package) + FromClear(a)), Tok(b.project) + (Tok(b.package) + FromClear(b));
    TokCode("incan_rust_inspect_workspace/5", "incan_rust_inspect_workspace/5", ra, rb);
    TokCode(a.project, b.project, Tok(a.package) + FromClear(a), Tok(b.package) + FromClear(b));
    TokCode(a.package, b.package, FromClear(a), FromClear(b));
  }

  /** Two well-formed bodies have the same preimage exactly when they agree but for the probe/facet boundary. */
  lemma EncodeEqualIff(a: Body, b: Body)
    requires BodyOk(a) && BodyOk(b)
    ensures Encode(a) == Encode(b) <==> Merge(a) == Merge(b)
  {
    if Encode(a) == Encode(b) {
      NamesDecode(a, b);
      ClearDecodes(a, b);
      TargetDecodes(a, b);
      LockRootDecodes(a, b);
      EditionDecodes(a, b);
      ProbesDecode(a, b);
      ProjectionsDecode(a, b);
      RebindingsDecode(a, b);
      SdkPathsDecode(a, b);
      DepsDecode(a, b);
      DevDepsDecode(a, b);
      LockDecodes(a, b);
    }
    MergeEncodesTheSame(a);
    MergeEncodesTheSame(b);
  }

  predicate HasPath(s: Bytes) {
    exists i :: 0 <= i < |s| - 1 && s[i] == ':' && s[i + 1] == ':'
  }

  /** Derive probes are paths with `::` in them, and facet names are not. */
  predicate BoundaryVisible(b: Body) {
    (forall p :: p in b.probes ==> HasPath(p)) && forall f :: f in b.facets ==> !HasPath(f)
  }

  /** With a visible boundary the preimage determines the body. */
  lemma EncodeInjective(a: Body, b: Body)
    requires BodyOk(a) && BodyOk(b) && BoundaryVisible(a) && BoundaryVisible(b) && Encode(a) == Encode(b)
    ensures a == b
  {
    hide Encode;
    EncodeEqualIff(a, b);
    var all := a.probes + a.facets;
    assert all == Merge(a).probes == b.probes + b.facets;
    var n, m := |a.probes|, |b.probes|;
    assert forall i :: 0 <= i < |all| ==> (HasPath(all[i]) <==> i < n);
    assert forall i :: 0 <= i < |all| ==> (HasPath(all[i]) <==> i < m);
    assert n < |all| ==> (HasPath(all[n]) <==> n < m);
    assert m < |all| ==> (HasPath(all[m]) <==> m < n);
    assert n == m;
    assert a.probes == all[..|a.probes|] && b.probes == all[..|b.probes|];
    assert a.facets == all[|a.probes|..] && b.facets == all[|b.probes|..];
    assert Merge(a).(probes := a.probes, facets := a.facets) == a;
    assert Merge(b).(probes := b.probes, facets := b.facets) == b;
  }

  /** Without the condition on feature names two normalized specs can collide: a feature can forge the flag bytes. */
  lemma FeaturesCanForgeFlags()
    ensures var a := Spec("c", None, [], false, true, Some("\U{1}\U{1}nopkg"), Registry);
      var b := Spec("c", None, ["", "\U{1}pkg"], true, true, None, Registry);
      a != b && Dependency(a) == Dependency(b)
  {
    var a := Spec("c", None, [], false, true, Some("\U{1}\U{1}nopkg"), Registry);
    var b := Spec("c", None, ["", "\U{1}pkg"], true, true, None, Registry);
    var x := Tok("src_reg") + Tok("|dep|");
    ForgedTail(x);
    assert Tokens([]) == "" && "" + SpecTail(a) == SpecTail(a);
    assert b.features[1..] == ["\U{1}pkg"] && b.features[1..][1..] == [];
    assert Tokens(b.features) == Tok("") + (Tok("\U{1}pkg") + "");
  }

  lemma ForgedTail(x: Bytes)
    ensures Flag(false) + (Flag(true) + ((Tok("pkg") + Tok("\U{1}\U{1}nopkg")) + x))
      == (Tok("") + (Tok("\U{1}pkg") + "")) + (Flag(true) + (Flag(true) + (Tok("nopkg") + x)))
  {
    var w := "\0\U{1}pkg\0\U{1}\U{1}nopkg\0";
    assert Flag(false) + (Flag(true) + ((Tok("pkg") + Tok("\U{1}\U{1}nopkg")) + x)) == w + x;
    assert (Tok("") + (Tok("\U{1}pkg") + "")) + (Flag(true) + (Flag(true) + (Tok("nopkg") + x))) == w + x;
  }
}
