/** Promoting normal and dev dependencies into one list. */
module DependencyMerge {
  import opened Orders
  import opened DependencySpecs

  datatype Result = Promoted(specs: seq<Spec>) | Conflict(name: Bytes)

  /** Two edges of one name that agree on what they resolve to. */
  predicate SameIdentity(a: Spec, b: Spec) {
    a.version == b.version && a.source == b.source && a.package == b.package
  }

  ghost predicate Agree(candidates: seq<Spec>) {
    forall a, b :: a in candidates && b in candidates && a.crateName == b.crateName ==> SameIdentity(a, b)
  }

  /** Two candidates of that name disagree. */
  ghost predicate Disputed(candidates: seq<Spec>, name: Bytes) {
    exists a, b :: a in candidates && b in candidates && a.crateName == b.crateName == name && !SameIdentity(a, b)
  }

  /** The candidate of that name is the first that disagrees with an earlier one. */
  ghost predicate FirstDisputed(candidates: seq<Spec>, name: Bytes) {
    exists i :: 0 <= i < |candidates| && candidates[i].crateName == name && Agree(candidates[..i]) && !Agree(candidates[..i + 1])
  }

  function FeaturesOf(candidates: seq<Spec>, name: Bytes): set<Bytes> {
    if candidates == [] then {}
    else
      var c := candidates[|candidates| - 1];
      FeaturesOf(candidates[..|candidates| - 1], name) + if c.crateName == name then Elements(c.features) else {}
  }

  predicate AnyDefault(candidates: seq<Spec>, name: Bytes) {
    exists c :: c in candidates && c.crateName == name && c.defaultFeatures
  }

  /** `s` is what all the candidates of its name unify to. */
  ghost predicate Unifies(candidates: seq<Spec>, s: Spec) {
    && (exists c :: c in candidates && c.crateName == s.crateName)
    && (forall c :: c in candidates && c.crateName == s.crateName ==> SameIdentity(c, s))
    && !s.optional && (s.defaultFeatures <==> AnyDefault(candidates, s.crateName))
    && Ascending(s.features) && Elements(s.features) == FeaturesOf(candidates, s.crateName)
  }

  ghost predicate Covers(candidates: seq<Spec>, specs: seq<Spec>) {
    && (forall s :: s in specs ==> Unifies(candidates, s))
    && (forall c :: c in candidates ==> exists s :: s in specs && s.crateName == c.crateName)
    && (forall i, j :: 0 <= i < j < |specs| ==> specs[i].crateName != specs[j].crateName)
  }

  predicate NameLt(a: Spec, b: Spec) {
    StrLt(a.crateName, b.crateName)
  }

  predicate NameLe(a: Spec, b: Spec) {
    StrLe(a.crateName, b.crateName)
  }

  /** One unified, mandatory edge per name, in name order. */
  ghost predicate IsPromotion(candidates: seq<Spec>, specs: seq<Spec>) {
    Covers(candidates, specs) && SortedBy(specs, NameLt)
  }

  lemma {:induction false} FeaturesIn(candidates: seq<Spec>, name: Bytes, f: Bytes)
    ensures f in FeaturesOf(candidates, name)
      <==> exists c :: c in candidates && c.crateName == name && f in c.features
  {
    if candidates != [] {
      var n := |candidates| - 1;
      FeaturesIn(candidates[..n], name, f);
      assert candidates == candidates[..n] + [candidates[n]];
    }
  }

  /** Only which candidates there are matters, not their order or repetition. */
  lemma UnifiesSame(a: seq<Spec>, b: seq<Spec>, s: Spec)
    requires Elements(a) == Elements(b) && Unifies(a, s)
    ensures Unifies(b, s)
  {
    assert forall c :: c in a <==> c in Elements(a);
    assert forall c :: c in b <==> c in Elements(b);
    forall f ensures f in FeaturesOf(a, s.crateName) <==> f in FeaturesOf(b, s.crateName) {
      FeaturesIn(a, s.crateName, f);
      FeaturesIn(b, s.crateName, f);
    }
  }

  lemma UnifiesUnique(a: seq<Spec>, s: Spec, t: Spec)
    requires Unifies(a, s) && Unifies(a, t) && s.crateName == t.crateName
    ensures s == t
  {
    var c :| c in a && c.crateName == s.crateName;
    assert SameIdentity(c, s) && SameIdentity(c, t);
    AscendingUnique(s.features, t.features);
  }

  lemma PromotedThere(a: seq<Spec>, b: seq<Spec>, t: seq<Spec>, s: Spec)
    requires Elements(a) == Elements(b) && Unifies(a, s) && Covers(b, t)
    ensures s in t
  {
    hide Unifies;
    UnifiesSame(a, b, s);
    var c := NamedCandidate(b, s);
    assert Covers(b, t);
    var u :| u in t && u.crateName == c.crateName;
    UnifiesUnique(b, s, u);
  }

  lemma NamedCandidate(candidates: seq<Spec>, s: Spec) returns (c: Spec)
    requires Unifies(candidates, s)
    ensures c in candidates && c.crateName == s.crateName
  {
    c :| c in candidates && c.crateName == s.crateName;
  }

  lemma AgreeSame(a: seq<Spec>, b: seq<Spec>)
    requires Elements(a) == Elements(b) && Agree(a)
    ensures Agree(b)
  {
    assert forall c :: c in b ==> c in Elements(b) && c in Elements(a);
  }

  /** Any two input orders of the same candidates promote to the same specs, or both conflict. */
  lemma PromotionIgnoresOrder(a: seq<Spec>, b: seq<Spec>, r: seq<Spec>, t: seq<Spec>)
    requires Elements(a) == Elements(b)
    ensures Agree(a) <==> Agree(b)
    ensures IsPromotion(a, r) && IsPromotion(b, t) ==> r == t
  {
    hide Agree, Unifies, StrLt;
    if Agree(a) { AgreeSame(a, b); }
    if Agree(b) { AgreeSame(b, a); }
    if IsPromotion(a, r) && IsPromotion(b, t) {
      forall s ensures s in Elements(r) <==> s in Elements(t) {
        if s in r { PromotedThere(a, b, t, s); }
        if s in t { PromotedThere(b, a, r, s); }
      }
      StringOrder();
      StrictlySortedUnique(r, t, NameLt);
    }
  }

  // ---- the merge loop ----

  method Find(specs: seq<Spec>, name: Bytes) returns (found: Option<nat>)
    ensures found.Some? ==> found.value < |specs| && specs[found.value].crateName == name
    ensures found.None? ==> forall s :: s in specs ==> s.crateName != name
  {
    for i := 0 to |specs|
      invariant forall j :: 0 <= j < i ==> specs[j].crateName != name
    {
      if specs[i].crateName == name { return Some(i); }
    }
    return None;
  }

  /** `existing` with one more candidate of its name folded in. */
  function Fold(existing: Spec, candidate: Spec): Spec {
    existing.(features := SortDedup(existing.features + candidate.features),
              defaultFeatures := existing.defaultFeatures || candidate.defaultFeatures, optional := false)
  }

  lemma FoldUnifies(before: seq<Spec>, existing: Spec, c: Spec)
    requires Unifies(before, existing) && c.crateName == existing.crateName && SameIdentity(existing, c)
    ensures Unifies(before + [c], Fold(existing, c))
  {
    var all := before + [c];
    var s := Fold(existing, c);
    assert all[..|before|] == before;
    SortDedupIsAscending(existing.features + c.features);
    assert Elements(existing.features + c.features) == Elements(existing.features) + Elements(c.features);
    var w :| w in before && w.crateName == existing.crateName;
    assert w in all;
    assert AnyDefault(all, s.crateName) <==> AnyDefault(before, s.crateName) || c.defaultFeatures;
  }

  lemma FirstUnifies(before: seq<Spec>, c: Spec)
    requires forall b :: b in before ==> b.crateName != c.crateName
    ensures Unifies(before + [c], Normalized(c).(optional := false))
  {
    var all := before + [c];
    assert all[..|before|] == before && c in all;
    SortDedupIsAscending(c.features);
    NoFeatures(before, c.crateName);
  }

  lemma {:induction false} NoFeatures(candidates: seq<Spec>, name: Bytes)
    requires forall b :: b in candidates ==> b.crateName != name
    ensures FeaturesOf(candidates, name) == {}
  {
    if candidates != [] {
      NoFeatures(candidates[..|candidates| - 1], name);
    }
  }

  lemma OtherUnifies(before: seq<Spec>, s: Spec, c: Spec)
    requires Unifies(before, s) && c.crateName != s.crateName
    ensures Unifies(before + [c], s)
  {
    var all := before + [c];
    assert all[..|before|] == before;
    var w :| w in before && w.crateName == s.crateName;
    assert w in all;
    assert AnyDefault(all, s.crateName) <==> AnyDefault(before, s.crateName);
  }

  lemma CoversFold(before: seq<Spec>, specs: seq<Spec>, i: nat, c: Spec)
    requires Covers(before, specs) && i < |specs| && specs[i].crateName == c.crateName && SameIdentity(specs[i], c)
    ensures Covers(before + [c], specs[i := Fold(specs[i], c)])
  {
    hide Unifies;
    var next := specs[i := Fold(specs[i], c)];
    forall k | 0 <= k < |next| ensures Unifies(before + [c], next[k]) {
      assert specs[k] in specs;
      if k == i { FoldUnifies(before, specs[i], c); } else { OtherUnifies(before, specs[k], c); }
    }
    forall x | x in before + [c] ensures exists s :: s in next && s.crateName == x.crateName {
      if x in before {
        var s :| s in specs && s.crateName == x.crateName;
        var k :| 0 <= k < |specs| && specs[k] == s;
        assert next[k] in next;
      } else {
        assert next[i] in next;
      }
    }
  }

  lemma CoversFirst(before: seq<Spec>, specs: seq<Spec>, c: Spec)
    requires Covers(before, specs) && forall s :: s in specs ==> s.crateName != c.crateName
    ensures Covers(before + [c], specs + [Normalized(c).(optional := false)])
  {
    hide Unifies;
    var added := Normalized(c).(optional := false);
    var next := specs + [added];
    forall b | b in before ensures b.crateName != c.crateName {
      var s :| s in specs && s.crateName == b.crateName;
    }
    FirstUnifies(before, c);
    forall s | s in specs ensures Unifies(before + [c], s) { OtherUnifies(before, s, c); }
    forall x | x in before + [c] ensures exists s :: s in next && s.crateName == x.crateName {
      if x in before {
        var s :| s in specs && s.crateName == x.crateName;
        assert s in next;
      } else {
        assert added in next;
      }
    }
    assert forall k :: 0 <= k < |specs| ==> specs[k] in specs;
  }

  /** A recorded edge that disagrees with a candidate disagrees with an earlier candidate. */
  lemma ConflictFound(before: seq<Spec>, s: Spec, c: Spec, all: seq<Spec>)
    requires Unifies(before, s) && s.crateName == c.crateName && !SameIdentity(s, c)
    requires (forall b :: b in before ==> b in all) && c in all
    ensures !Agree(all) && Disputed(all, c.crateName)
  {
    var w :| w in before && w.crateName == s.crateName;
    assert SameIdentity(w, s) && !SameIdentity(w, c);
  }

  lemma UnifiedIdentity(candidates: seq<Spec>, s: Spec, c: Spec)
    requires Unifies(candidates, s) && c in candidates && c.crateName == s.crateName
    ensures SameIdentity(c, s)
  {
  }

  lemma CoversAgrees(candidates: seq<Spec>, specs: seq<Spec>)
    requires Covers(candidates, specs)
    ensures Agree(candidates)
  {
    hide Unifies;
    forall a, b | a in candidates && b in candidates && a.crateName == b.crateName ensures SameIdentity(a, b) {
      var s :| s in specs && s.crateName == a.crateName;
      UnifiedIdentity(candidates, s, a);
      UnifiedIdentity(candidates, s, b);
    }
  }

  /**
   The merge succeeds exactly when same-named candidates agree on version, source and package, and then its result is
   the promotion; a conflict names a crate whose candidates disagree, the first one in the order of the candidates.
   */
  method Promote(dependencies: seq<Spec>, devDependencies: seq<Spec>) returns (r: Result)
    ensures r.Promoted? <==> Agree(dependencies + devDependencies)
    ensures r.Promoted? ==> IsPromotion(dependencies + devDependencies, r.specs)
    ensures r.Promoted? ==> forall i, j :: 0 <= i < j < |r.specs| ==> StrLt(r.specs[i].crateName, r.specs[j].crateName)
    ensures r.Conflict? ==> Disputed(dependencies + devDependencies, r.name)
    ensures r.Conflict? ==> FirstDisputed(dependencies + devDependencies, r.name)
  {
    hide Unifies, Agree, SameIdentity, Disputed;
    var candidates := dependencies + devDependencies;
    var promoted: seq<Spec> := [];
    for i := 0 to |candidates|
      invariant Covers(candidates[..i], promoted)
    {
      var candidate := candidates[i];
      assert candidates[..i + 1] == candidates[..i] + [candidate];
      var found := Find(promoted, candidate.crateName);
      if found.Some? {
        var existing := promoted[found.value];
        if !SameIdentity(existing, candidate) {
          ConflictFound(candidates[..i], existing, candidate, candidates);
          ConflictFound(candidates[..i], existing, candidate, candidates[..i + 1]);
          CoversAgrees(candidates[..i], promoted);
          return Conflict(candidate.crateName);
        }
        CoversFold(candidates[..i], promoted, found.value, candidate);
        promoted := promoted[found.value := Fold(existing, candidate)];
      } else {
        CoversFirst(candidates[..i], promoted, candidate);
        promoted := promoted + [Normalized(candidate).(optional := false)];
      }
    }
    assert candidates[..|candidates|] == candidates;
    CoversAgrees(candidates, promoted);
    SortedPromotion(candidates, promoted);
    NamesRise(SortBy(promoted, NameLe));
    return Promoted(SortBy(promoted, NameLe));
  }

  lemma NamesRise(specs: seq<Spec>)
    requires SortedBy(specs, NameLt)
    ensures forall i, j :: 0 <= i < j < |specs| ==> StrLt(specs[i].crateName, specs[j].crateName)
  {
    forall i, j | 0 <= i < j < |specs| ensures StrLt(specs[i].crateName, specs[j].crateName) {
      assert NameLt(specs[i], specs[j]);
    }
  }

  lemma SortedPromotion(candidates: seq<Spec>, specs: seq<Spec>)
    requires Covers(candidates, specs)
    ensures IsPromotion(candidates, SortBy(specs, NameLe))
  {
    hide Unifies;
    StringOrder();
    var sorted := SortBy(specs, NameLe);
    SortBySorted(specs, NameLe);
    SortByElements(specs, NameLe);
    assert Distinct(specs);
    SameMultisetDistinct(specs, sorted);
    hide SortBy, Distinct;
    NamesAscend(candidates, specs, sorted);
  }

  lemma NamesAscend(candidates: seq<Spec>, specs: seq<Spec>, sorted: seq<Spec>)
    requires Covers(candidates, specs) && Distinct(sorted) && SortedBy(sorted, NameLe)
    requires forall s :: s in sorted <==> s in specs
    ensures SortedBy(sorted, NameLt)
  {
    hide Unifies;
    forall i, j | 0 <= i < j < |sorted| ensures NameLt(sorted[i], sorted[j]) {
      assert sorted[i] in specs && sorted[j] in specs && sorted[i] != sorted[j];
      NameTells(candidates, specs, sorted[i], sorted[j]);
      NameLeAt(sorted, i, j);
    }
  }

  lemma NameTells(candidates: seq<Spec>, specs: seq<Spec>, s: Spec, t: Spec)
    requires Covers(candidates, specs) && s in specs && t in specs && s != t
    ensures s.crateName != t.crateName
  {
    hide Unifies;
    var a :| 0 <= a < |specs| && specs[a] == s;
    var b :| 0 <= b < |specs| && specs[b] == t;
  }

  lemma NameLeAt(sorted: seq<Spec>, i: nat, j: nat)
    requires SortedBy(sorted, NameLe) && i < j < |sorted|
    ensures StrLe(sorted[i].crateName, sorted[j].crateName)
  {
    assert NameLe(sorted[i], sorted[j]);
  }
}
