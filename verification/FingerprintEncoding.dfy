/**
 The preimage of the rust-inspect workspace fingerprint. A `Bytes` value is a byte string, one character per byte.

 Every piece of the encoding is shown to be a prefix code: reading it from the front of any byte string gives back one
 value and one remainder.
 */
module FingerprintEncoding {
  import opened Orders
  import opened DependencySpecs

  /** A dependency whose source content is hashed as well when it is a local path. */
  datatype Hashed = Hashed(spec: Spec, content: Option<Bytes>)

  datatype Projection = Projection(root: Bytes, digest: Bytes)

  datatype Rebinding = Rebinding(container: Bytes, provider: Bytes, key: Bytes, source: Bytes, active: Bytes, digest: Bytes)

  /** What the fingerprint hashes, in canonical order. */
  datatype Body = Body(
    project: Bytes, package: Bytes, clear: bool, target: Bytes, lockRoot: Option<Bytes>, edition: Option<Bytes>,
    probes: seq<Bytes>, facets: seq<Bytes>, projections: seq<Projection>, rebindings: seq<Rebinding>,
    sdkPaths: seq<Hashed>, deps: seq<Hashed>, devDeps: seq<Spec>, lock: Option<Bytes>)

  // ---- encoding ----

  function Tok(s: Bytes): Bytes {
    s + "\0"
  }

  function Flag(b: bool): Bytes {
    if b then "\U{1}" else "\0"
  }

  function Records<T>(xs: seq<T>, enc: T -> Bytes): Bytes {
    if xs == [] then "" else enc(xs[0]) + Records(xs[1..], enc)
  }

  function Tokens(xs: seq<Bytes>): Bytes {
    Records(xs, Tok)
  }

  function Version(v: Option<Bytes>): Bytes {
    match v case Some(t) => Tok("ver") + Tok(t) case None => Tok("nover")
  }

  function Package(p: Option<Bytes>): Bytes {
    match p case Some(t) => Tok("pkg") + Tok(t) case None => Tok("nopkg")
  }

  function Reference(r: GitReference): Bytes {
    match r
    case Branch(n) => Tok("git_br") + Tok(n)
    case Tag(n) => Tok("git_tag") + Tok(n)
    case Rev(n) => Tok("git_rev") + Tok(n)
  }

  function Origin(s: Source): Bytes {
    match s
    case Registry => Tok("src_reg")
    case Git(url, r) => Tok("src_git") + (Tok(url) + Reference(r))
    case Local(path) => Tok("src_path") + Tok(path)
  }

  /** One dependency, its features in sorted order. */
  function Dependency(s: Spec): Bytes {
    Tok(s.crateName) + (Version(s.version) + (Tokens(s.features) + SpecTail(s)))
  }

  function SpecTail(s: Spec): Bytes {
    Flag(s.defaultFeatures) + (Flag(s.optional) + (Package(s.package) + (Origin(s.source) + Tok("|dep|"))))
  }

  function HashedDependency(h: Hashed): Bytes {
    Dependency(h.spec) + match h.content case Some(d) => Tok(d) case None => ""
  }

  function Artifact(p: Projection): Bytes {
    Tok(p.root) + Tok(p.digest)
  }

  function Rebound(r: Rebinding): Bytes {
    Tok(r.container) + (Tok(r.provider) + (Tok(r.key) + (Tok(r.source) + (Tok(r.active) + Tok(r.digest)))))
  }

  // Each function encodes its own part of the body and everything after it.

  function Encode(b: Body): Bytes {
    Tok("incan_rust_inspect_workspace/5") + (Tok(b.project) + (Tok(b.package) + FromClear(b)))
  }

  function FromClear(b: Body): Bytes {
    if b.clear then Tok("clear_cargo_lock") + FromTarget(b) else FromTarget(b)
  }

  function FromTarget(b: Body): Bytes {
    Tok("cargo_target_dir") + (Tok(b.target) + FromLockRoot(b))
  }

  function FromLockRoot(b: Body): Bytes {
    match b.lockRoot
    case Some(root) => Tok("lock_projection") + (Tok(root) + FromEdition(b))
    case None => FromEdition(b)
  }

  function FromEdition(b: Body): Bytes {
    match b.edition
    case Some(e) => Tok("ed") + (Tok(e) + FromProbes(b))
    case None => Tok("noed") + FromProbes(b)
  }

  function FromProbes(b: Body): Bytes {
    Tok("layout_bin_devdeps") + (Tok("derive_probes") + (Tokens(b.probes) + FromFacets(b)))
  }

  function FromFacets(b: Body): Bytes {
    Tokens(b.facets) + (Tok("|") + FromProjections(b))
  }

  function FromProjections(b: Body): Bytes {
    Tok("sdk_artifact_projections") + (Records(b.projections, Artifact) + (Tok("|") + FromRebindings(b)))
  }

  function FromRebindings(b: Body): Bytes {
    Tok("sdk_dependency_rebindings") + (Records(b.rebindings, Rebound) + (Tok("|") + FromSdkPaths(b)))
  }

  function FromSdkPaths(b: Body): Bytes {
    Tok("sdk_path_dependencies") + (Records(b.sdkPaths, HashedDependency) + (Tok("|") + FromDeps(b)))
  }

  function FromDeps(b: Body): Bytes {
    Tok("deps") + (Records(b.deps, HashedDependency) + (Tok("|") + FromDevDeps(b)))
  }

  function FromDevDeps(b: Body): Bytes {
    Tok("dev_deps") + (Records(b.devDeps, Dependency) + (Tok("|") + FromLock(b)))
  }

  function FromLock(b: Body): Bytes {
    match b.lock case Some(l) => Tok("lock") + l case None => Tok("nolock")
  }

  // ---- well-formed bodies ----

  predicate NulFree(s: Bytes) {
    '\0' !in s
  }

  predicate Plain(s: Option<Bytes>) {
    s.Some? ==> NulFree(s.value)
  }

  /** A list item: NUL-free and not the terminator. */
  predicate Item(s: Bytes) {
    NulFree(s) && s != "|"
  }

  /** A feature name starts with a byte above the two flag bytes. */
  predicate FeatureName(s: Bytes) {
    NulFree(s) && s != "" && s[0] > '\U{1}'
  }

  predicate SourceOk(s: Source) {
    match s
    case Registry => true
    case Git(url, r) => NulFree(url) && NulFree(r.name)
    case Local(path) => NulFree(path)
  }

  predicate SpecOk(s: Spec) {
    && Item(s.crateName) && Plain(s.version) && Plain(s.package) && SourceOk(s.source)
    && forall f :: f in s.features ==> FeatureName(f)
  }

  predicate HashedOk(h: Hashed) {
    SpecOk(h.spec) && Plain(h.content) && (h.content.Some? <==> h.spec.source.Local?)
  }

  predicate ProjectionOk(p: Projection) {
    Item(p.root) && NulFree(p.digest)
  }

  predicate RebindingOk(r: Rebinding) {
    && Item(r.container) && NulFree(r.provider) && NulFree(r.key) && NulFree(r.source) && NulFree(r.active)
    && NulFree(r.digest)
  }

  predicate AllOk<T>(xs: seq<T>, ok: T -> bool) {
    forall i :: 0 <= i < |xs| ==> ok(xs[i])
  }

  predicate BodyOk(b: Body) {
    && NulFree(b.project) && NulFree(b.package) && NulFree(b.target) && Plain(b.lockRoot) && Plain(b.edition)
    && AllOk(b.probes, Item) && AllOk(b.facets, Item) && AllOk(b.projections, ProjectionOk)
    && AllOk(b.rebindings, RebindingOk) && AllOk(b.sdkPaths, HashedOk) && AllOk(b.deps, HashedOk)
    && AllOk(b.devDeps, SpecOk)
  }
}
