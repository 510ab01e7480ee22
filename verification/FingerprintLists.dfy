/**
 When the canonical lists of the fingerprint agree, in terms of the records they hold: a stable sort forgets exactly the
 order of elements with different keys.
 */
module FingerprintLists {
  import opened Orders
  import opened DependencySpecs
  import opened FingerprintEncoding
  import opened FingerprintDecoding
  import opened InspectFingerprint

  // ---- a stable sort forgets exactly the order of different keys ----

  function Both<T>(le: (T, T) -> bool): (T, T) -> bool {
    (a, b) => le(a, b) && le(b, a)
  }

  lemma BothAt<T>(le: (T, T) -> bool, a: T, b: T)
    ensures Both(le)(a, b) <==> le(a, b) && le(b, a)
  {}

  /** For every key the same elements in the same order. */
  ghost predicate SameTied<T(!new)>(a: seq<T>, b: seq<T>, le: (T, T) -> bool) {
    forall k :: Tied(a, Both(le), k) == Tied(b, Both(le), k)
  }

  lemma {:induction false} TiedMember<T(!new)>(s: seq<T>, le: (T, T) -> bool, k: T)
    ensures Tied(s, Both(le), k) != [] ==> Tied(s, Both(le), k)[0] in s && Both(le)(Tied(s, Both(le), k)[0], k)
  {
    if s != [] { TiedMember(s[1..], le, k); }
  }

  lemma {:induction false} TiedAll<T(!new)>(s: seq<T>, same: (T, T) -> bool, k: T)
    ensures forall r :: r in Tied(s, same, k) <==> r in s && same(r, k)
  {
    if s != [] {
      TiedAll(s[1..], same, k);
      assert s == [s[0]] + s[1..];
    }
  }

  lemma HeadIsTied<T(!new)>(s: seq<T>, le: (T, T) -> bool)
    requires TotalPreorder(le) && s != []
    ensures Tied(s, Both(le), s[0]) != [] && Tied(s, Both(le), s[0])[0] == s[0]
  {
    assert le(s[0], s[0]);
  }

  /** The first of one sorted sequence is the first of any other with the same tied elements. */
  lemma SameHead<T(!new)>(a: seq<T>, b: seq<T>, le: (T, T) -> bool)
    requires TotalPreorder(le) && SortedBy(a, le) && SortedBy(b, le) && SameTied(a, b, le) && a != []
    ensures b != [] && a[0] == b[0]
  {
    HeadIsTied(a, le);
    assert Tied(a, Both(le), a[0]) == Tied(b, Both(le), a[0]);
    TiedMember(b, le, a[0]);
    HeadIsTied(b, le);
    assert Tied(a, Both(le), b[0]) == Tied(b, Both(le), b[0]);
    TiedMember(a, le, b[0]);
    var x, y := Tied(b, Both(le), a[0])[0], Tied(a, Both(le), b[0])[0];
    FirstIsLeast(b, le, x);
    FirstIsLeast(a, le, y);
    assert Both(le)(b[0], a[0]);
  }

  lemma FirstIsLeast<T(!new)>(s: seq<T>, le: (T, T) -> bool, x: T)
    requires TotalPreorder(le) && SortedBy(s, le) && x in s
    ensures le(s[0], x)
  {
    var i :| 0 <= i < |s| && s[i] == x;
    if i == 0 { assert le(x, x); }
  }

  lemma NothingTied<T(!new)>(b: seq<T>, le: (T, T) -> bool)
    requires TotalPreorder(le) && b != []
    ensures !SameTied([], b, le)
  {
    HeadIsTied(b, le);
    assert Tied([], Both(le), b[0]) != Tied(b, Both(le), b[0]);
  }

  lemma {:induction false} SortedSameTied<T(!new)>(a: seq<T>, b: seq<T>, le: (T, T) -> bool)
    requires TotalPreorder(le) && SortedBy(a, le) && SortedBy(b, le) && SameTied(a, b, le)
    ensures a == b
    decreases |a|
  {
    if a == [] {
      if b != [] { NothingTied(b, le); }
    } else {
      SameHead(a, b, le);
      forall k ensures Tied(a[1..], Both(le), k) == Tied(b[1..], Both(le), k) {
        var head := if Both(le)(a[0], k) then [a[0]] else [];
        assert Tied(a, Both(le), k) == head + Tied(a[1..], Both(le), k);
        assert Tied(b, Both(le), k) == head + Tied(b[1..], Both(le), k);
        assert Tied(a[1..], Both(le), k) == Tied(a, Both(le), k)[|head|..] == Tied(b, Both(le), k)[|head|..];
      }
      SortedSameTied(a[1..], b[1..], le);
      assert a == [a[0]] + a[1..] && b == [b[0]] + b[1..];
    }
  }

  /** Two lists sort to the same list exactly when for every key they hold the same elements in the same order. */
  lemma SortEqualIff<T(!new)>(x: seq<T>, y: seq<T>, le: (T, T) -> bool)
    requires TotalPreorder(le)
    ensures SortBy(x, le) == SortBy(y, le) <==> SameTied(x, y, le)
  {
    forall k
      ensures Tied(SortBy(x, le), Both(le), k) == Tied(x, Both(le), k)
      ensures Tied(SortBy(y, le), Both(le), k) == Tied(y, Both(le), k)
    {
      SortKeepsTied(x, le, Both(le), k);
      SortKeepsTied(y, le, Both(le), k);
    }
    if SameTied(x, y, le) {
      SortBySorted(x, le);
      SortBySorted(y, le);
      SortedSameTied(SortBy(x, le), SortBy(y, le), le);
    }
  }

  /** No two elements share a key. */
  ghost predicate KeysDiffer<T>(s: seq<T>, le: (T, T) -> bool) {
    forall i, j :: 0 <= i < j < |s| ==> !Both(le)(s[i], s[j])
  }

  /** With distinct keys only the elements matter. */
  lemma SameTiedIsSameElements<T(!new)>(x: seq<T>, y: seq<T>, le: (T, T) -> bool)
    requires TotalPreorder(le) && KeysDiffer(x, le) && KeysDiffer(y, le)
    ensures SameTied(x, y, le) <==> Elements(x) == Elements(y)
  {
    SortEqualIff(x, y, le);
    SortByElements(x, le);
    SortByElements(y, le);
    if SortBy(x, le) == SortBy(y, le) {
      assert forall e :: e in x <==> e in SortBy(x, le);
      assert forall e :: e in y <==> e in SortBy(y, le);
    }
    if Elements(x) == Elements(y) {
      StrictlySorted(x, le);
      StrictlySorted(y, le);
      assert forall e :: e in x <==> e in Elements(x);
      assert forall e :: e in y <==> e in Elements(y);
      StrictlySortedUnique(SortBy(x, le), SortBy(y, le), Below(le));
    }
  }

  function Below<T>(le: (T, T) -> bool): (T, T) -> bool {
    (a, b) => le(a, b) && !le(b, a)
  }

  lemma StrictlySorted<T(!new)>(s: seq<T>, le: (T, T) -> bool)
    requires TotalPreorder(le) && KeysDiffer(s, le)
    ensures SortedBy(SortBy(s, le), Below(le)) && Asymmetric(Below(le))
  {
    SortBySorted(s, le);
    var r := SortBy(s, le);
    forall i, j | 0 <= i < j < |r| ensures Below(le)(r[i], r[j]) {
      if Both(le)(r[i], r[j]) { TieInSorted(s, le, i, j); }
    }
  }

  /** A tie after sorting was one before. */
  lemma TieInSorted<T(!new)>(s: seq<T>, le: (T, T) -> bool, i: nat, j: nat)
    requires TotalPreorder(le) && i < j < |SortBy(s, le)| && Both(le)(SortBy(s, le)[i], SortBy(s, le)[j])
    ensures !KeysDiffer(s, le)
  {
    var r := SortBy(s, le);
    SortKeepsTied(s, le, Both(le), r[i]);
    TwoTied(r, le, i, j);
    if KeysDiffer(s, le) { OneTied(s, le, r[i]); }
  }

  lemma {:induction false} TwoTied<T(!new)>(s: seq<T>, le: (T, T) -> bool, i: nat, j: nat)
    requires TotalPreorder(le) && i < j < |s| && Both(le)(s[i], s[j])
    ensures |Tied(s, Both(le), s[i])| >= 2
  {
    if i == 0 {
      assert le(s[0], s[0]);
      HasTied(s[1..], le, s[0], j - 1);
    } else {
      TwoTied(s[1..], le, i - 1, j - 1);
    }
  }

  lemma {:induction false} HasTied<T(!new)>(s: seq<T>, le: (T, T) -> bool, k: T, j: nat)
    requires j < |s| && Both(le)(s[j], k)
    ensures Tied(s, Both(le), k) != []
  {
    if j > 0 { HasTied(s[1..], le, k, j - 1); }
  }

  lemma {:induction false} NoneTied<T(!new)>(s: seq<T>, le: (T, T) -> bool, k: T)
    requires forall i :: 0 <= i < |s| ==> !Both(le)(s[i], k)
    ensures Tied(s, Both(le), k) == []
  {
    if s != [] { NoneTied(s[1..], le, k); }
  }

  lemma {:induction false} OneTied<T(!new)>(s: seq<T>, le: (T, T) -> bool, k: T)
    requires TotalPreorder(le) && KeysDiffer(s, le)
    ensures |Tied(s, Both(le), k)| <= 1
  {
    if s != [] {
      OneTied(s[1..], le, k);
      if Both(le)(s[0], k) {
        forall i | 0 <= i < |s[1..]| ensures !Both(le)(s[1..][i], k) {
          assert !Both(le)(s[0], s[i + 1]);
        }
        NoneTied(s[1..], le, k);
      }
    }
  }

  // ---- sorting and mapping ----

  lemma {:induction false} MapInsert<S(!new), T(!new)>(
      x: S, s: seq<S>, f: S -> T, leS: (S, S) -> bool, leT: (T, T) -> bool)
    requires forall a, b :: leS(a, b) <==> leT(f(a), f(b))
    ensures Map(Insert(x, s, leS), f) == Insert(f(x), Map(s, f), leT)
  {
    if s == [] || leS(x, s[0]) {
      assert Map([x] + s, f) == [f(x)] + Map(s, f);
    } else {
      MapInsert(x, s[1..], f, leS, leT);
      assert Map(s, f)[1..] == Map(s[1..], f);
      assert Map([s[0]] + Insert(x, s[1..], leS), f) == [f(s[0])] + Map(Insert(x, s[1..], leS), f);
    }
  }

  /** Sorting by a key that the map keeps may as well be done after mapping. */
  lemma {:induction false} MapSort<S(!new), T(!new)>(s: seq<S>, f: S -> T, leS: (S, S) -> bool, leT: (T, T) -> bool)
    requires forall a, b :: leS(a, b) <==> leT(f(a), f(b))
    ensures Map(SortBy(s, leS), f) == SortBy(Map(s, f), leT)
  {
    if s != [] {
      MapSort(s[1..], f, leS, leT);
      MapInsert(s[0], SortBy(s[1..], leS), f, leS, leT);
      assert Map(s, f)[1..] == Map(s[1..], f);
    }
  }

  // ---- the dependency lists ----

  predicate HashedByName(a: Hashed, b: Hashed) {
    ByName(a.spec, b.spec)
  }

  predicate HashedByPackage(a: Hashed, b: Hashed) {
    ByNameAndPackage(a.spec, b.spec)
  }

  lemma NameOrders()
    ensures TotalPreorder(ByName) && TotalPreorder(HashedByName)
  {
    StringOrder();
  }

  lemma PackageOrders()
    ensures TotalPreorder(ByNameAndPackage) && TotalPreorder(HashedByPackage)
  {
    StringOrder();
    forall a, b ensures ByNameAndPackage(a, b) || ByNameAndPackage(b, a) {}
    forall a, b, c | ByNameAndPackage(a, b) && ByNameAndPackage(b, c) ensures ByNameAndPackage(a, c) {}
  }

  /** The records of a dependency list in the given order. */
  function HashedRecords(specs: seq<Spec>, digest: Bytes -> Bytes): seq<Hashed> {
    Map(specs, s => WithContent(digest, Normalized(s)))
  }

  function SdkRecords(specs: seq<Spec>, digest: Bytes -> Bytes): seq<Hashed> {
    Map(specs, s => WithContent(digest, s))
  }

  function DevRecords(specs: seq<Spec>): seq<Spec> {
    Map(specs, s => SortFeatures(Normalized(s)))
  }

  /** The canonical lists are the records, sorted by name, or by name and package. */
  lemma CanonSorts(i: Input, d: Digests)
    ensures Canon(i, d).deps == SortBy(HashedRecords(i.dependencies, d.local), HashedByName)
    ensures Canon(i, d).devDeps == SortBy(DevRecords(i.devDependencies), ByName)
    ensures Canon(i, d).sdkPaths == SortBy(SdkRecords(i.sdkPaths, d.artifact), HashedByPackage)
  {
    DependenciesSort(i.dependencies, d.local);
    DevSort(i.devDependencies);
    MapSort(i.sdkPaths, s => WithContent(d.artifact, s), ByNameAndPackage, HashedByPackage);
  }

  lemma DependenciesSort(specs: seq<Spec>, digest: Bytes -> Bytes)
    ensures Map(SortedDependencies(specs), s => WithContent(digest, s))
      == SortBy(HashedRecords(specs, digest), HashedByName)
  {
    MapSort(specs, s => WithContent(digest, Normalized(s)), ByName, HashedByName);
    var sorted := SortBy(specs, ByName);
    assert Map(Map(sorted, Normalized), s => WithContent(digest, s))
      == Map(sorted, s => WithContent(digest, Normalized(s)));
  }

  lemma DevSort(specs: seq<Spec>)
    ensures Map(SortedDependencies(specs), SortFeatures) == SortBy(DevRecords(specs), ByName)
  {
    MapSort(specs, s => SortFeatures(Normalized(s)), ByName, ByName);
    var sorted := SortBy(specs, ByName);
    assert Map(Map(sorted, Normalized), SortFeatures) == Map(sorted, s => SortFeatures(Normalized(s)));
  }

  // ---- the other lists ----

  function Projections(roots: seq<Bytes>, digest: Bytes -> Bytes): set<Projection> {
    set r | r in roots :: Projection(r, digest(r))
  }

  lemma ProjectionsEqualIff(x: seq<Bytes>, y: seq<Bytes>, f: Bytes -> Bytes, g: Bytes -> Bytes)
    ensures Map(SortDedup(x), r => Projection(r, f(r))) == Map(SortDedup(y), r => Projection(r, g(r)))
      <==> Projections(x, f) == Projections(y, g)
  {
    ProjectionsListed(x, f);
    ProjectionsListed(y, g);
    SortDedupEqual(x, y);
    if Projections(x, f) == Projections(y, g) {
      forall r ensures r in Elements(x) <==> r in Elements(y) {
        if r in x { assert Projection(r, f(r)) in Projections(y, g); }
        if r in y { assert Projection(r, g(r)) in Projections(x, f); }
      }
      forall r | r in SortDedup(x) ensures f(r) == g(r) {
        SortDedupIsAscending(x);
        assert r in Elements(x);
        assert Projection(r, f(r)) in Projections(y, g);
      }
    }
  }

  lemma ProjectionsListed(x: seq<Bytes>, f: Bytes -> Bytes)
    ensures Elements(Map(SortDedup(x), r => Projection(r, f(r)))) == Projections(x, f)
  {
    SortDedupIsAscending(x);
    var list := Map(SortDedup(x), r => Projection(r, f(r)));
    forall p | p in Projections(x, f) ensures p in list {
      assert p.root in Elements(SortDedup(x));
      var k :| 0 <= k < |SortDedup(x)| && SortDedup(x)[k] == p.root;
      assert list[k] == p;
    }
    forall p | p in list ensures p in Projections(x, f) {
      var k :| 0 <= k < |list| && list[k] == p;
      assert SortDedup(x)[k] in Elements(x);
    }
  }

  // ---- ties of records are ties of inputs ----

  lemma {:induction false} TiedMap<S(!new), T(!new)>(
      xs: seq<S>, f: S -> T, same: (S, S) -> bool, le: (T, T) -> bool, k: S, kT: T)
    requires forall a :: same(a, k) <==> Both(le)(f(a), kT)
    ensures Map(Tied(xs, same, k), f) == Tied(Map(xs, f), Both(le), kT)
  {
    if xs != [] {
      TiedMap(xs[1..], f, same, le, k, kT);
      assert Map(xs, f)[1..] == Map(xs[1..], f);
      var head := if same(xs[0], k) then [xs[0]] else [];
      assert Map(head + Tied(xs[1..], same, k), f) == Map(head, f) + Map(Tied(xs[1..], same, k), f);
    }
  }

  /** The key of a record, and some record with a given key. */
  ghost predicate KeyedBy<S(!new), T(!new)>(f: S -> T, same: (S, S) -> bool, le: (T, T) -> bool, key: T -> S, with: S -> T) {
    && (forall a, k :: same(a, key(k)) <==> Both(le)(f(a), k))
    && (forall k :: key(with(k)) == k)
  }

  lemma MapsAgree<S(!new), T(!new)>(a: seq<S>, b: seq<S>, f: S -> T, g: S -> T, agree: (S, S) -> bool)
    requires forall s, t :: f(s) == g(t) <==> agree(s, t)
    ensures Map(a, f) == Map(b, g) <==> |a| == |b| && forall n :: 0 <= n < |a| ==> agree(a[n], b[n])
  {
    if Map(a, f) == Map(b, g) {
      forall n | 0 <= n < |a| ensures agree(a[n], b[n]) { assert Map(a, f)[n] == Map(b, g)[n]; }
    }
  }

  /** For every key the same inputs in the same order. */
  ghost predicate AgreeByKey<S(!new)>(x: seq<S>, y: seq<S>, same: (S, S) -> bool, agree: (S, S) -> bool) {
    forall k :: var a, b := Tied(x, same, k), Tied(y, same, k);
      |a| == |b| && forall n :: 0 <= n < |a| ==> agree(a[n], b[n])
  }

  /** Records agree for every key exactly when their inputs do, one by one. */
  lemma SameTiedIff<S(!new), T(!new)>(
      x: seq<S>, y: seq<S>, f: S -> T, g: S -> T, same: (S, S) -> bool, le: (T, T) -> bool, agree: (S, S) -> bool,
      key: T -> S, with: S -> T)
    requires forall s, t :: f(s) == g(t) <==> agree(s, t)
    requires KeyedBy(f, same, le, key, with) && KeyedBy(g, same, le, key, with)
    ensures SameTied(Map(x, f), Map(y, g), le) <==> AgreeByKey(x, y, same, agree)
  {
    forall k: T
      ensures Tied(Map(x, f), Both(le), k) == Tied(Map(y, g), Both(le), k)
        <==> var a, b := Tied(x, same, key(k)), Tied(y, same, key(k));
             |a| == |b| && forall n :: 0 <= n < |a| ==> agree(a[n], b[n])
    {
      TiedMap(x, f, same, le, key(k), k);
      TiedMap(y, g, same, le, key(k), k);
      MapsAgree(Tied(x, same, key(k)), Tied(y, same, key(k)), f, g, agree);
    }
    if SameTied(Map(x, f), Map(y, g), le) {
      forall k: S
        ensures var a, b := Tied(x, same, k), Tied(y, same, k);
          |a| == |b| && forall n :: 0 <= n < |a| ==> agree(a[n], b[n])
      {
        var t := with(k);
        assert Tied(Map(x, f), Both(le), t) == Tied(Map(y, g), Both(le), t) && key(t) == k;
      }
    }
  }
}
