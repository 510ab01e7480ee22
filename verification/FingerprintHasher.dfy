/**
 Feeding the rust-inspect workspace fingerprint to the hasher, piece by piece.

 Each method appends what one part of the source feeds and says so against the encoding: what was fed before followed by
 the encoding from here on is what is fed now followed by the encoding from the next part on.
 */
module FingerprintHasher {
  import opened Orders
  import opened DependencySpecs
  import opened FingerprintEncoding
  import opened FingerprintDecoding
  import opened InspectFingerprint

  lemma {:induction false} RecordsAppend<T>(xs: seq<T>, x: T, enc: T -> Bytes)
    ensures Records(xs + [x], enc) == Records(xs, enc) + enc(x)
  {
    RecordsConcat(xs, [x], enc);
    assert [x][1..] == [] && enc(x) + "" == enc(x);
  }

  class Hasher {
    var fed: Bytes

    constructor ()
      ensures fed == ""
    {
      fed := "";
    }

    method Update(bytes: Bytes)
      modifies this
      ensures fed == old(fed) + bytes
    {
      fed := fed + bytes;
    }

    method FeedTok(s: Bytes)
      modifies this
      ensures fed == old(fed) + Tok(s)
    {
      Update(s);
      Update("\0");
    }

    method FeedTokens(xs: seq<Bytes>)
      modifies this
      ensures fed == old(fed) + Tokens(xs)
    {
      for i := 0 to |xs|
        invariant fed == old(fed) + Tokens(xs[..i])
      {
        assert xs[..i + 1] == xs[..i] + [xs[i]];
        RecordsAppend(xs[..i], xs[i], Tok);
        Assoc(old(fed), Tokens(xs[..i]), Tok(xs[i]));
        FeedTok(xs[i]);
      }
      assert xs[..|xs|] == xs;
    }

    method FeedOptional(some: Bytes, none: Bytes, a: Option<Bytes>)
      modifies this
      ensures fed == old(fed) + if a.Some? then Tok(some) + Tok(a.value) else Tok(none)
    {
      match a
      case Some(v) =>
        FeedTok(some);
        FeedTok(v);
        Assoc(old(fed), Tok(some), Tok(v));
      case None => FeedTok(none);
    }

    method FeedOrigin(s: Source)
      modifies this
      ensures fed == old(fed) + Origin(s)
    {
      match s
      case Registry => FeedTok("src_reg");
      case Git(url, r) =>
        FeedTok("src_git");
        FeedTok(url);
        FeedTok(ReferenceTag(r));
        FeedTok(r.name);
        Assoc4(old(fed), Tok("src_git"), Tok(url), Tok(ReferenceTag(r)), Tok(r.name));
      case Local(path) =>
        FeedTok("src_path");
        FeedTok(path);
        Assoc(old(fed), Tok("src_path"), Tok(path));
    }

    /** One dependency spec: the features are sorted here, whatever order they arrive in. */
    method HashDependencySpec(s: Spec)
      modifies this
      ensures fed == old(fed) + Dependency(SortFeatures(s))
    {
      var t := SortFeatures(s);
      FeedTok(t.crateName);
      FeedOptional("ver", "nover", t.version);
      FeedTokens(t.features);
      ghost var tail := fed;
      Update(Flag(t.defaultFeatures));
      Update(Flag(t.optional));
      FeedOptional("pkg", "nopkg", t.package);
      FeedOrigin(t.source);
      FeedTok("|dep|");
      Assoc5(tail, Flag(t.defaultFeatures), Flag(t.optional), Package(t.package), Origin(t.source), Tok("|dep|"));
      Assoc4(old(fed), Tok(t.crateName), Version(t.version), Tokens(t.features), SpecTail(t));
    }
  }

  // Each step below feeds one part of the canonical body `b` and leaves the rest of `whole` to be fed.

  method FeedHead(h: Hasher, ghost b: Body, project: Bytes, package: Bytes, clear: bool, target: Bytes)
    requires project == b.project && package == b.package && clear == b.clear && target == b.target
    modifies h
    ensures h.fed + FromLockRoot(b) == old(h.fed) + Encode(b)
  {
    hide FromLockRoot;
    ghost var start := h.fed;
    h.FeedTok("incan_rust_inspect_workspace/5");
    h.FeedTok(project);
    h.FeedTok(package);
    Assoc(start + Tok("incan_rust_inspect_workspace/5") + Tok(project), Tok(package), FromClear(b));
    Assoc(start + Tok("incan_rust_inspect_workspace/5"), Tok(project), Tok(package) + FromClear(b));
    Assoc(start, Tok("incan_rust_inspect_workspace/5"), Tok(project) + (Tok(package) + FromClear(b)));
    FeedTarget(h, b, clear, target);
  }

  method FeedTarget(h: Hasher, ghost b: Body, clear: bool, target: Bytes)
    requires clear == b.clear && target == b.target
    modifies h
    ensures h.fed + FromLockRoot(b) == old(h.fed) + FromClear(b)
  {
    hide FromLockRoot;
    ghost var start := h.fed;
    if clear {
      h.FeedTok("clear_cargo_lock");
      Assoc(start, Tok("clear_cargo_lock"), FromTarget(b));
    }
    ghost var next := h.fed;
    h.FeedTok("cargo_target_dir");
    h.FeedTok(target);
    Assoc(next + Tok("cargo_target_dir"), Tok(target), FromLockRoot(b));
    Assoc(next, Tok("cargo_target_dir"), Tok(target) + FromLockRoot(b));
  }

  method FeedEdition(h: Hasher, ghost b: Body, lockRoot: Option<Bytes>, edition: Option<Bytes>)
    requires lockRoot == b.lockRoot && edition == b.edition
    modifies h
    ensures h.fed + FromProbes(b) == old(h.fed) + FromLockRoot(b)
  {
    hide FromProbes;
    if lockRoot.Some? {
      h.FeedTok("lock_projection");
      h.FeedTok(lockRoot.value);
      Assoc(old(h.fed) + Tok("lock_projection"), Tok(lockRoot.value), FromEdition(b));
      Assoc(old(h.fed), Tok("lock_projection"), Tok(lockRoot.value) + FromEdition(b));
    }
    ghost var next := h.fed;
    h.FeedOptional("ed", "noed", edition);
    if edition.Some? {
      Assoc(next, Tok("ed") + Tok(edition.value), FromProbes(b));
      Assoc(Tok("ed"), Tok(edition.value), FromProbes(b));
    } else {
      Assoc(next, Tok("noed"), FromProbes(b));
    }
  }

  method FeedLists(h: Hasher, ghost b: Body, probes: seq<Bytes>, facets: seq<Bytes>)
    requires probes == b.probes && Facets(facets) == b.facets
    modifies h
    ensures h.fed + FromProjections(b) == old(h.fed) + FromProbes(b)
  {
    hide FromProjections, Facets;
    ghost var start := h.fed;
    h.FeedTok("layout_bin_devdeps");
    h.FeedTok("derive_probes");
    h.FeedTokens(probes);
    Assoc(start + Tok("layout_bin_devdeps") + Tok("derive_probes"), Tokens(probes), FromFacets(b));
    Assoc(start + Tok("layout_bin_devdeps"), Tok("derive_probes"), Tokens(probes) + FromFacets(b));
    Assoc(start, Tok("layout_bin_devdeps"), Tok("derive_probes") + (Tokens(probes) + FromFacets(b)));
    ghost var next := h.fed;
    var stdlib := Facets(facets);
    h.FeedTokens(stdlib);
    h.FeedTok("|");
    Assoc(next + Tokens(stdlib), Tok("|"), FromProjections(b));
    Assoc(next, Tokens(stdlib), Tok("|") + FromProjections(b));
  }

  /** What a tagged section adds, whatever its records and whatever follows. */
  lemma SectionFed(start: Bytes, tag: Bytes, records: Bytes, rest: Bytes)
    ensures start + Tok(tag) + records + Tok("|") + rest == start + (Tok(tag) + (records + (Tok("|") + rest)))
  {
    Assoc4(start, Tok(tag), records, Tok("|"), rest);
  }

  method FeedProjections(h: Hasher, i: Input, d: Digests, ghost b: Body)
    requires b == Canon(i, d)
    modifies h
    ensures h.fed + FromRebindings(b) == old(h.fed) + FromProjections(b)
  {
    hide FromRebindings;
    var roots := SortedProjections(i);
    h.FeedTok("sdk_artifact_projections");
    ghost var start := h.fed;
    for k := 0 to |roots|
      invariant h.fed == start + Records(b.projections[..k], Artifact)
    {
      ghost var p := b.projections[k];
      assert b.projections[..k + 1] == b.projections[..k] + [p];
      RecordsAppend(b.projections[..k], p, Artifact);
      Assoc(start, Records(b.projections[..k], Artifact), Artifact(p));
      Assoc(start + Records(b.projections[..k], Artifact), Tok(p.root), Tok(p.digest));
      h.FeedTok(roots[k]);
      h.FeedTok(d.artifact(roots[k]));
    }
    assert b.projections[..|roots|] == b.projections;
    h.FeedTok("|");
    SectionFed(old(h.fed), "sdk_artifact_projections", Records(b.projections, Artifact), FromRebindings(b));
  }

  method FeedRebindings(h: Hasher, i: Input, d: Digests, ghost b: Body)
    requires b == Canon(i, d)
    modifies h
    ensures h.fed + FromSdkPaths(b) == old(h.fed) + FromRebindings(b)
  {
    hide FromSdkPaths, Records, Rebound, Tok;
    var entries := SortedRebindings(i);
    h.FeedTok("sdk_dependency_rebindings");
    ghost var start := h.fed;
    NothingFed(start, b.rebindings, Rebound);
    for k := 0 to |entries|
      invariant h.fed == start + Records(b.rebindings[..k], Rebound)
    {
      RecordFed(start, b.rebindings, k, Rebound);
      FeedRebinding(h, entries[k], d.artifact(entries[k].active));
    }
    h.FeedTok("|");
    SectionFed(old(h.fed), "sdk_dependency_rebindings", Records(b.rebindings, Rebound), FromSdkPaths(b));
  }

  method FeedRebinding(h: Hasher, r: RebindingInput, digest: Bytes)
    modifies h
    ensures h.fed == old(h.fed) + Rebound(Rebinding(r.container, r.provider, r.key, r.source, r.active, digest))
  {
    h.FeedTok(r.container);
    h.FeedTok(r.provider);
    h.FeedTok(r.key);
    h.FeedTok(r.source);
    h.FeedTok(r.active);
    h.FeedTok(digest);
    Assoc5(old(h.fed), Tok(r.container), Tok(r.provider), Tok(r.key), Tok(r.source), Tok(r.active) + Tok(digest));
    Assoc(old(h.fed) + Tok(r.container) + Tok(r.provider) + Tok(r.key) + Tok(r.source), Tok(r.active), Tok(digest));
  }

  lemma RecordFed<T>(start: Bytes, records: seq<T>, k: nat, enc: T -> Bytes)
    requires k < |records|
    ensures start + Records(records[..k + 1], enc) == start + Records(records[..k], enc) + enc(records[k])
  {
    assert records[..k + 1] == records[..k] + [records[k]];
    RecordsAppend(records[..k], records[k], enc);
    Assoc(start, Records(records[..k], enc), enc(records[k]));
  }

  lemma NothingFed<T>(start: Bytes, records: seq<T>, enc: T -> Bytes)
    ensures start + Records(records[..0], enc) == start && records[..|records|] == records
  {}

  lemma ContentFed(before: Bytes, digest: Bytes -> Bytes, s: Spec)
    ensures before + HashedDependency(WithContent(digest, s)) == before + Dependency(SortFeatures(s))
      + if s.source.Local? then Tok(digest(s.source.path)) else ""
  {
    hide Dependency;
    Assoc(before, Dependency(SortFeatures(s)), if s.source.Local? then Tok(digest(s.source.path)) else "");
  }

  /** A dependency list whose local paths are followed by their content digest. */
  method FeedHashed(h: Hasher, tag: Bytes, specs: seq<Spec>, digest: Bytes -> Bytes, ghost records: seq<Hashed>)
    requires |records| == |specs| && forall k :: 0 <= k < |specs| ==> records[k] == WithContent(digest, specs[k])
    modifies h
    ensures h.fed == old(h.fed) + Tok(tag) + Records(records, HashedDependency) + Tok("|")
  {
    hide Records, Dependency, HashedDependency, Tok, SortFeatures, WithContent;
    h.FeedTok(tag);
    ghost var start := h.fed;
    NothingFed(start, records, HashedDependency);
    for k := 0 to |specs|
      invariant h.fed == start + Records(records[..k], HashedDependency)
    {
      RecordFed(start, records, k, HashedDependency);
      ContentFed(h.fed, digest, specs[k]);
      h.HashDependencySpec(specs[k]);
      if specs[k].source.Local? {
        h.FeedTok(digest(specs[k].source.path));
      } else {
        assert h.fed + "" == h.fed;
      }
    }
    h.FeedTok("|");
  }

  method FeedDevDependencies(h: Hasher, specs: seq<Spec>, ghost records: seq<Spec>)
    requires |records| == |specs| && forall k :: 0 <= k < |specs| ==> records[k] == SortFeatures(specs[k])
    modifies h
    ensures h.fed == old(h.fed) + Tok("dev_deps") + Records(records, Dependency) + Tok("|")
  {
    hide Records, Dependency, Tok, SortFeatures;
    h.FeedTok("dev_deps");
    ghost var start := h.fed;
    NothingFed(start, records, Dependency);
    for k := 0 to |specs|
      invariant h.fed == start + Records(records[..k], Dependency)
    {
      RecordFed(start, records, k, Dependency);
      h.HashDependencySpec(specs[k]);
    }
    h.FeedTok("|");
  }

  method FeedDependencies(h: Hasher, i: Input, d: Digests, ghost b: Body)
    requires b == Canon(i, d)
    modifies h
    ensures h.fed + FromLock(b) == old(h.fed) + FromSdkPaths(b)
  {
    hide FromLock, HashedDependency, Dependency, Records;
    ghost var start := h.fed;
    FeedHashed(h, "sdk_path_dependencies", SortedSdkPaths(i), d.artifact, b.sdkPaths);
    SectionFed(start, "sdk_path_dependencies", Records(b.sdkPaths, HashedDependency), FromDeps(b));
    ghost var deps := h.fed;
    FeedHashed(h, "deps", SortedDependencies(i.dependencies), d.local, b.deps);
    SectionFed(deps, "deps", Records(b.deps, HashedDependency), FromDevDeps(b));
    ghost var dev := h.fed;
    FeedDevDependencies(h, SortedDependencies(i.devDependencies), b.devDeps);
    SectionFed(dev, "dev_deps", Records(b.devDeps, Dependency), FromLock(b));
  }

  /** What reaches the hasher is the encoding of the canonical body. */
  method Fingerprint(i: Input, d: Digests, sha: Bytes -> Bytes) returns (digest: Bytes)
    ensures digest == "v1:" + sha(Encode(Canon(i, d)))
  {
    hide Encode, FromProjections, FromRebindings, FromSdkPaths, FromLockRoot, FromProbes;
    ghost var b := Canon(i, d);
    var h := new Hasher();
    FeedHead(h, b, i.project, i.package, i.clear, i.target);
    FeedEdition(h, b, i.lockRoot, i.edition);
    FeedLists(h, b, i.probes, i.facets);
    FeedProjections(h, i, d, b);
    FeedRebindings(h, i, d, b);
    FeedDependencies(h, i, d, b);
    ghost var before := h.fed;
    match i.lock {
      case Some(lock) =>
        h.FeedTok("lock");
        h.Update(lock);
        Assoc(before, Tok("lock"), lock);
      case None => h.FeedTok("nolock");
    }
    assert h.fed == "" + Encode(b) == Encode(b);
    digest := "v1:" + sha(h.fed);
  }

  lemma Assoc4(s: Bytes, a: Bytes, b: Bytes, c: Bytes, d: Bytes)
    ensures s + a + b + c + d == s + (a + (b + (c + d)))
  {
    Assoc(s + a + b, c, d);
    Assoc(s + a, b, c + d);
    Assoc(s, a, b + (c + d));
  }

  lemma Assoc5(s: Bytes, a: Bytes, b: Bytes, c: Bytes, d: Bytes, e: Bytes)
    ensures s + a + b + c + d + e == s + (a + (b + (c + (d + e))))
  {
    Assoc(s + a + b + c, d, e);
    Assoc4(s, a, b, c, d + e);
  }
}
