/** When two lists of rebindings are hashed as the same bytes. */
module FingerprintRebindings {
  import opened Orders
  import opened DependencySpecs
  import opened FingerprintEncoding
  import opened InspectFingerprint
  import opened FingerprintLists

  predicate SameFive(a: RebindingInput, b: RebindingInput) {
    a.container == b.container && a.provider == b.provider && a.key == b.key && a.source == b.source && a.active == b.active
  }

  /**
   The same rebindings, each active root with the same content. Rebindings that differ in what is not hashed stay apart,
   so they count as often as they alternate.
   */
  ghost predicate SameRebindings(x: seq<RebindingInput>, f: Bytes -> Bytes, y: seq<RebindingInput>, g: Bytes -> Bytes) {
    && (forall r :: r in x ==> f(r.active) == g(r.active))
    && forall k: RebindingInput :: |Dedup(Tied(x, SameFive, k))| == |Dedup(Tied(y, SameFive, k))|
  }

  function FieldsOf(r: RebindingInput): seq<Bytes> {
    [r.container, r.provider, r.key, r.source, r.active]
  }

  predicate BoundLe(a: Rebinding, b: Rebinding) {
    FieldsLe([a.container, a.provider, a.key, a.source, a.active], [b.container, b.provider, b.key, b.source, b.active])
  }

  lemma {:induction false} FieldsOrder(a: seq<Bytes>, b: seq<Bytes>, c: seq<Bytes>)
    ensures FieldsLe(a, b) || FieldsLe(b, a)
    ensures FieldsLe(a, b) && FieldsLe(b, c) ==> FieldsLe(a, c)
    ensures FieldsLe(a, b) && FieldsLe(b, a) ==> a == b
  {
    StringOrder();
    hide StrLe;
    if a != [] && b != [] {
      assert a == [a[0]] + a[1..] && b == [b[0]] + b[1..];
      FieldsOrder(a[1..], b[1..], if c == [] then [] else c[1..]);
    }
  }

  lemma RebindingOrders()
    ensures TotalPreorder(ByFields) && TotalPreorder(BoundLe)
    ensures forall a, b :: ByFields(a, b) && ByFields(b, a) <==> SameFive(a, b)
  {
    hide FieldsLe;
    forall a, b ensures ByFields(a, b) || ByFields(b, a) { FieldsOrder(FieldsOf(a), FieldsOf(b), []); }
    forall a, b ensures BoundLe(a, b) || BoundLe(b, a) { BoundOrder(a, b, a); }
    forall a, b, c | ByFields(a, b) && ByFields(b, c) ensures ByFields(a, c) {
      FieldsOrder(FieldsOf(a), FieldsOf(b), FieldsOf(c));
    }
    forall a, b, c | BoundLe(a, b) && BoundLe(b, c) ensures BoundLe(a, c) { BoundOrder(a, b, c); }
    forall a, b ensures ByFields(a, b) && ByFields(b, a) <==> SameFive(a, b) { FiveTie(a, b); }
  }

  lemma BoundOrder(a: Rebinding, b: Rebinding, c: Rebinding)
    ensures BoundLe(a, b) || BoundLe(b, a)
    ensures BoundLe(a, b) && BoundLe(b, c) ==> BoundLe(a, c)
  {
    FieldsOrder([a.container, a.provider, a.key, a.source, a.active], [b.container, b.provider, b.key, b.source, b.active],
                [c.container, c.provider, c.key, c.source, c.active]);
  }

  lemma FiveTie(a: RebindingInput, b: RebindingInput)
    ensures ByFields(a, b) && ByFields(b, a) <==> SameFive(a, b)
  {
    hide FieldsLe;
    var x, y := FieldsOf(a), FieldsOf(b);
    FieldsOrder(x, y, []);
    if x == y {
      assert x[0] == y[0] && x[1] == y[1] && x[2] == y[2] && x[3] == y[3] && x[4] == y[4];
    }
    if SameFive(a, b) { assert x == y; }
  }

  /** In a sorted list the entries of one key stand together, so dropping repetitions may as well be done per key. */
  lemma {:induction false} DedupPerKey(s: seq<RebindingInput>, k: RebindingInput)
    requires SortedBy(s, ByFields)
    ensures Tied(Dedup(s), SameFive, k) == Dedup(Tied(s, SameFive, k))
  {
    hide SameFive, ByFields;
    if |s| > 1 {
      DedupPerKey(s[1..], k);
      if SameFive(s[0], k) && !SameFive(s[1], k) { NoneLater(s, k); }
      DedupFirst(s[0], s[1..], k);
      assert [s[0]] + s[1..] == s;
    }
  }

  /** One entry in front of a list whose repetitions were dropped per key. */
  lemma DedupFirst(x: RebindingInput, s: seq<RebindingInput>, k: RebindingInput)
    requires s != [] && Tied(Dedup(s), SameFive, k) == Dedup(Tied(s, SameFive, k))
    requires SameFive(x, k) && !SameFive(s[0], k) ==> Tied(s, SameFive, k) == []
    ensures Tied(Dedup([x] + s), SameFive, k) == Dedup(Tied([x] + s, SameFive, k))
  {
    var rest := Tied(s, SameFive, k);
    assert SameFive(s[0], k) ==> rest != [] && rest[0] == s[0];
    DedupCons(x, s);
    TiedCons(x, s, k);
    TiedCons(x, Dedup(s), k);
    DedupCons(x, rest);
    hide SameFive, Dedup, Tied;
    if SameFive(x, k) && !SameFive(s[0], k) { assert rest == []; }
  }

  lemma TiedCons(x: RebindingInput, s: seq<RebindingInput>, k: RebindingInput)
    ensures Tied([x] + s, SameFive, k) == if SameFive(x, k) then [x] + Tied(s, SameFive, k) else Tied(s, SameFive, k)
  {
    assert ([x] + s)[1..] == s;
  }

  lemma DedupCons(x: RebindingInput, s: seq<RebindingInput>)
    ensures Dedup([x] + s) == if s != [] && s[0] == x then Dedup(s) else [x] + Dedup(s)
  {
    assert ([x] + s)[1..] == s;
  }

  lemma NoneLater(s: seq<RebindingInput>, k: RebindingInput)
    requires SortedBy(s, ByFields) && |s| > 1 && SameFive(s[0], k) && !SameFive(s[1], k)
    ensures Tied(s[1..], SameFive, k) == []
  {
    var rest := s[1..];
    forall i | 0 <= i < |rest| ensures !SameFive(rest[i], k) {
      StaysBetween(s[0], s[1], rest[i], k, i == 0);
    }
    NothingFor(s[1..], k);
  }

  /** Between two entries of one key there is only that key. */
  lemma StaysBetween(a: RebindingInput, b: RebindingInput, c: RebindingInput, k: RebindingInput, last: bool)
    requires ByFields(a, b) && (if last then b == c else ByFields(b, c)) && SameFive(a, k)
    ensures SameFive(c, k) ==> SameFive(b, k)
  {
    hide FieldsLe;
    if SameFive(c, k) {
      FiveTie(c, a);
      FieldsOrder(FieldsOf(b), FieldsOf(c), FieldsOf(a));
      FiveTie(a, b);
    }
  }

  lemma {:induction false} NothingFor(s: seq<RebindingInput>, k: RebindingInput)
    requires forall i :: 0 <= i < |s| ==> !SameFive(s[i], k)
    ensures Tied(s, SameFive, k) == []
  {
    if s != [] { NothingFor(s[1..], k); }
  }

  lemma {:induction false} DedupSorted(s: seq<RebindingInput>)
    requires SortedBy(s, ByFields)
    ensures SortedBy(Dedup(s), ByFields)
  {
    if |s| > 1 {
      DedupSorted(s[1..]);
      if s[0] != s[1] {
        DedupElements(s[1..]);
        var t := Dedup(s[1..]);
        forall j | 0 <= j < |t| ensures ByFields(s[0], t[j]) {
          assert t[j] in Elements(s[1..]);
          var n :| 1 <= n < |s| && s[n] == t[j];
        }
      }
    }
  }

  function Bound(x: seq<RebindingInput>, digest: Bytes -> Bytes): seq<Rebinding> {
    Map(Dedup(SortBy(x, ByFields)), r => BindDigest(digest, r))
  }

  /** The hashed rebindings of one key: as many copies as there are runs of equal entries with that key. */
  lemma BoundPerKey(x: seq<RebindingInput>, digest: Bytes -> Bytes, k: RebindingInput, c: Bytes)
    ensures Tied(Bound(x, digest), Both(BoundLe), BindDigest(digest, k).(digest := c))
      == Map(Dedup(Tied(x, SameFive, k)), r => BindDigest(digest, r))
  {
    RebindingOrders();
    hide ByFields;
    var sorted := SortBy(x, ByFields);
    SortBySorted(x, ByFields);
    SortKeepsTied(x, ByFields, SameFive, k);
    DedupPerKey(sorted, k);
    var kT := BindDigest(digest, k).(digest := c);
    forall a ensures SameFive(a, k) <==> Both(BoundLe)(BindDigest(digest, a), kT) {
      FiveTie(a, k);
      BothAt(BoundLe, BindDigest(digest, a), kT);
      BindKeepsOrder(digest, a, k, c);
    }
    TiedMap(Dedup(sorted), r => BindDigest(digest, r), SameFive, BoundLe, k, kT);
  }

  lemma BindKeepsOrder(digest: Bytes -> Bytes, a: RebindingInput, k: RebindingInput, c: Bytes)
    ensures BoundLe(BindDigest(digest, a), BindDigest(digest, k).(digest := c)) == ByFields(a, k)
    ensures BoundLe(BindDigest(digest, k).(digest := c), BindDigest(digest, a)) == ByFields(k, a)
  {}

  /** Copies of one key agree exactly when there are equally many and, if any, the active roots have the same content. */
  lemma CopiesAgree(x: seq<RebindingInput>, f: Bytes -> Bytes, y: seq<RebindingInput>, g: Bytes -> Bytes, k: RebindingInput)
    ensures var a, b := Dedup(Tied(x, SameFive, k)), Dedup(Tied(y, SameFive, k));
      Map(a, r => BindDigest(f, r)) == Map(b, r => BindDigest(g, r)) <==> |a| == |b| && (a != [] ==> f(k.active) == g(k.active))
  {
    var a, b := Dedup(Tied(x, SameFive, k)), Dedup(Tied(y, SameFive, k));
    TiedAll(x, SameFive, k);
    TiedAll(y, SameFive, k);
    DedupElements(Tied(x, SameFive, k));
    DedupElements(Tied(y, SameFive, k));
    forall n | 0 <= n < |a| ensures SameFive(a[n], k) { assert a[n] in Elements(a); }
    forall n | 0 <= n < |b| ensures SameFive(b[n], k) { assert b[n] in Elements(b); }
    var ma, mb := Map(a, r => BindDigest(f, r)), Map(b, r => BindDigest(g, r));
    if ma == mb && a != [] { assert ma[0].digest == f(k.active) && mb[0].digest == g(k.active); }
  }

  lemma SomeCopy(x: seq<RebindingInput>, k: RebindingInput)
    ensures Dedup(Tied(x, SameFive, k)) != [] <==> exists r :: r in x && SameFive(r, k)
  {
    TiedAll(x, SameFive, k);
    DedupElements(Tied(x, SameFive, k));
    var t := Tied(x, SameFive, k);
    if t != [] { assert t[0] in t; }
  }

  lemma BoundSorted(x: seq<RebindingInput>, digest: Bytes -> Bytes)
    ensures SortedBy(Bound(x, digest), BoundLe)
  {
    RebindingOrders();
    SortBySorted(x, ByFields);
    DedupSorted(SortBy(x, ByFields));
    hide FieldsLe;
    var s, t := Dedup(SortBy(x, ByFields)), Bound(x, digest);
    forall i, j | 0 <= i < j < |t| ensures BoundLe(t[i], t[j]) {
      assert ByFields(s[i], s[j]);
      BindKeepsOrder(digest, s[i], s[j], digest(s[j].active));
    }
  }

  lemma SameBoundIff(x: seq<RebindingInput>, f: Bytes -> Bytes, y: seq<RebindingInput>, g: Bytes -> Bytes)
    ensures Bound(x, f) == Bound(y, g) <==> SameRebindings(x, f, y, g)
  {
    RebindingOrders();
    BoundSorted(x, f);
    BoundSorted(y, g);
    forall k ensures Bound(x, f) == Bound(y, g) ==> CopiesSame(x, f, y, g, k) {
      BoundPerKey(x, f, k, "");
      BoundPerKey(y, g, k, "");
      CopiesAgree(x, f, y, g, k);
    }
    hide Bound, SameFive, BoundLe, ByFields, TotalPreorder;
    if Bound(x, f) == Bound(y, g) {
      SameFromCopies(x, f, y, g);
    }
    if SameRebindings(x, f, y, g) {
      forall kT ensures Tied(Bound(x, f), Both(BoundLe), kT) == Tied(Bound(y, g), Both(BoundLe), kT) {
        TiedFromCopies(x, f, y, g, kT);
      }
      SortedSameTied(Bound(x, f), Bound(y, g), BoundLe);
    }
  }

  ghost predicate CopiesSame(x: seq<RebindingInput>, f: Bytes -> Bytes, y: seq<RebindingInput>, g: Bytes -> Bytes,
                             k: RebindingInput)
  {
    var a, b := Dedup(Tied(x, SameFive, k)), Dedup(Tied(y, SameFive, k));
    |a| == |b| && (a != [] ==> f(k.active) == g(k.active))
  }

  lemma SameFromCopies(x: seq<RebindingInput>, f: Bytes -> Bytes, y: seq<RebindingInput>, g: Bytes -> Bytes)
    requires forall k :: CopiesSame(x, f, y, g, k)
    ensures SameRebindings(x, f, y, g)
  {
    forall r | r in x ensures f(r.active) == g(r.active) {
      SomeCopy(x, r);
      assert CopiesSame(x, f, y, g, r);
    }
    forall k: RebindingInput ensures |Dedup(Tied(x, SameFive, k))| == |Dedup(Tied(y, SameFive, k))| {
      assert CopiesSame(x, f, y, g, k);
    }
  }

  lemma TiedFromCopies(x: seq<RebindingInput>, f: Bytes -> Bytes, y: seq<RebindingInput>, g: Bytes -> Bytes, kT: Rebinding)
    requires SameRebindings(x, f, y, g)
    ensures Tied(Bound(x, f), Both(BoundLe), kT) == Tied(Bound(y, g), Both(BoundLe), kT)
  {
    var k := RebindingInput(kT.container, kT.provider, kT.key, kT.source, kT.active, 0);
    BoundPerKey(x, f, k, kT.digest);
    BoundPerKey(y, g, k, kT.digest);
    SomeCopy(x, k);
    CopiesAgree(x, f, y, g, k);
    assert BindDigest(f, k).(digest := kT.digest) == kT && BindDigest(g, k).(digest := kT.digest) == kT;
  }
}
