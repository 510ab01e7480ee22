/**
 Orders, stable sorting, deduplication and strictly ascending sequences, shared by every component that sorts.

 `SortBy` is a stable insertion sort standing for the stable library sorts of the sources. A strict order leaves exactly
 one sorted sequence of given elements, which is how independence of input order is shown.
 */
module Orders {

  datatype Option<+T> = None | Some(value: T)

  ghost predicate TotalPreorder<T(!new)>(le: (T, T) -> bool) {
    && (forall a, b :: le(a, b) || le(b, a))
    && (forall a, b, c :: le(a, b) && le(b, c) ==> le(a, c))
  }

  ghost predicate Asymmetric<T(!new)>(lt: (T, T) -> bool) {
    forall a, b :: lt(a, b) ==> !lt(b, a)
  }

  ghost predicate SortedBy<T>(s: seq<T>, le: (T, T) -> bool) {
    forall i, j :: 0 <= i < j < |s| ==> le(s[i], s[j])
  }

  /** Sorted by `le`, elements equal under `le` being ordered by `tie`. */
  ghost predicate SortedLex<T>(s: seq<T>, le: (T, T) -> bool, tie: (T, T) -> bool) {
    forall i, j :: 0 <= i < j < |s| ==> le(s[i], s[j]) && (le(s[j], s[i]) ==> tie(s[i], s[j]))
  }

  function Elements<T>(s: seq<T>): set<T> {
    set x | x in s
  }

  ghost predicate Distinct<T>(s: seq<T>) {
    forall i, j :: 0 <= i < j < |s| ==> s[i] != s[j]
  }

  // ---- stable sort (the library sorts of the modelled programs) ----

  function Insert<T>(x: T, s: seq<T>, le: (T, T) -> bool): seq<T> {
    if s == [] || le(x, s[0]) then [x] + s else [s[0]] + Insert(x, s[1..], le)
  }

  function SortBy<T>(s: seq<T>, le: (T, T) -> bool): seq<T> {
    if s == [] then [] else Insert(s[0], SortBy(s[1..], le), le)
  }

  lemma {:induction false} InsertElements<T>(x: T, s: seq<T>, le: (T, T) -> bool)
    ensures multiset(Insert(x, s, le)) == multiset(s) + multiset{x}
    ensures forall y :: y in Insert(x, s, le) <==> y == x || y in s
    ensures |Insert(x, s, le)| == |s| + 1
  {
    if s == [] || le(x, s[0]) {
    } else {
      InsertElements(x, s[1..], le);
      assert s == [s[0]] + s[1..];
    }
  }

  lemma {:induction false} SortByElements<T>(s: seq<T>, le: (T, T) -> bool)
    ensures multiset(SortBy(s, le)) == multiset(s)
    ensures forall y :: y in SortBy(s, le) <==> y in s
    ensures |SortBy(s, le)| == |s|
  {
    if s == [] {
    } else {
      SortByElements(s[1..], le);
      InsertElements(s[0], SortBy(s[1..], le), le);
      assert s == [s[0]] + s[1..];
    }
  }

  lemma {:induction false} InsertSorted<T(!new)>(x: T, s: seq<T>, le: (T, T) -> bool)
    requires TotalPreorder(le) && SortedBy(s, le)
    ensures SortedBy(Insert(x, s, le), le)
  {
    if s == [] || le(x, s[0]) {
    } else {
      InsertSorted(x, s[1..], le);
      InsertElements(x, s[1..], le);
      var t := Insert(x, s[1..], le);
      forall j | 0 <= j < |t| ensures le(s[0], t[j]) {
        assert t[j] in t;
      }
    }
  }

  lemma {:induction false} SortBySorted<T(!new)>(s: seq<T>, le: (T, T) -> bool)
    requires TotalPreorder(le)
    ensures SortedBy(SortBy(s, le), le)
  {
    if s == [] {
    } else {
      SortBySorted(s[1..], le);
      InsertSorted(s[0], SortBy(s[1..], le), le);
    }
  }

  lemma {:induction false} InsertSortedLex<T(!new)>(x: T, s: seq<T>, le: (T, T) -> bool, tie: (T, T) -> bool)
    requires TotalPreorder(le) && SortedLex(s, le, tie)
    requires forall y :: y in s ==> tie(x, y)
    ensures SortedLex(Insert(x, s, le), le, tie)
  {
    if s == [] || le(x, s[0]) {
    } else {
      InsertSortedLex(x, s[1..], le, tie);
      InsertElements(x, s[1..], le);
      var t := Insert(x, s[1..], le);
      forall j | 0 <= j < |t| ensures le(s[0], t[j]) && (le(t[j], s[0]) ==> tie(s[0], t[j])) {
        assert t[j] in t;
      }
    }
  }

  /** Stability: sorting a sequence that is already in `tie` order leaves equals in `tie` order. */
  lemma {:induction false} SortByStable<T(!new)>(s: seq<T>, le: (T, T) -> bool, tie: (T, T) -> bool)
    requires TotalPreorder(le) && SortedBy(s, tie)
    ensures SortedLex(SortBy(s, le), le, tie)
  {
    if s == [] {
    } else {
      SortByStable(s[1..], le, tie);
      SortByElements(s[1..], le);
      InsertSortedLex(s[0], SortBy(s[1..], le), le, tie);
    }
  }

  /** The elements that `same` relates to `k`, in order. */
  function Tied<T>(s: seq<T>, same: (T, T) -> bool, k: T): seq<T> {
    if s == [] then [] else (if same(s[0], k) then [s[0]] else []) + Tied(s[1..], same, k)
  }

  lemma {:induction false} InsertKeepsTied<T(!new)>(x: T, s: seq<T>, le: (T, T) -> bool, same: (T, T) -> bool, k: T)
    requires forall a, b :: same(a, k) && same(b, k) ==> le(a, b)
    ensures Tied(Insert(x, s, le), same, k) == (if same(x, k) then [x] else []) + Tied(s, same, k)
  {
    if s == [] || le(x, s[0]) {
      assert ([x] + s)[1..] == s;
    } else {
      var tail := Insert(x, s[1..], le);
      InsertKeepsTied(x, s[1..], le, same, k);
      assert Insert(x, s, le) == [s[0]] + tail && ([s[0]] + tail)[1..] == tail;
      var first, inserted := if same(s[0], k) then [s[0]] else [], if same(x, k) then [x] else [];
      assert first == [] || inserted == [];
      Swap(first, inserted, Tied(s[1..], same, k));
    }
  }

  lemma Swap<T>(a: seq<T>, b: seq<T>, c: seq<T>)
    requires a == [] || b == []
    ensures a + (b + c) == b + (a + c)
  {}

  /** Stability: elements the order does not tell apart stay in their order. */
  lemma {:induction false} SortKeepsTied<T(!new)>(s: seq<T>, le: (T, T) -> bool, same: (T, T) -> bool, k: T)
    requires forall a, b :: same(a, k) && same(b, k) ==> le(a, b)
    ensures Tied(SortBy(s, le), same, k) == Tied(s, same, k)
  {
    if s != [] {
      SortKeepsTied(s[1..], le, same, k);
      InsertKeepsTied(s[0], SortBy(s[1..], le), le, same, k);
    }
  }

  /** A strict order and a set of elements leave exactly one strictly sorted sequence. */
  lemma {:induction false} StrictlySortedUnique<T(!new)>(a: seq<T>, b: seq<T>, lt: (T, T) -> bool)
    requires Asymmetric(lt) && SortedBy(a, lt) && SortedBy(b, lt)
    requires Elements(a) == Elements(b)
    ensures a == b
  {
    assert a != [] ==> a[0] in Elements(b);
    assert b != [] ==> b[0] in Elements(a);
    if a != [] {
      assert a[0] in Elements(b) && b[0] in Elements(a);
      assert a[0] == b[0];
      forall x ensures x in Elements(a[1..]) <==> x in Elements(b[1..]) {
        assert a == [a[0]] + a[1..] && b == [b[0]] + b[1..];
        assert x in Elements(a) <==> x in Elements(b);
      }
      StrictlySortedUnique(a[1..], b[1..], lt);
      assert a == [a[0]] + a[1..] && b == [b[0]] + b[1..];
    }
  }

  /** A permutation of a nonempty sequence has its first element somewhere and permutes the rest. */
  lemma PermutationSplit<T>(a: seq<T>, b: seq<T>) returns (i: nat)
    requires multiset(a) == multiset(b) && a != []
    ensures i < |b| && b[i] == a[0] && multiset(a[1..]) == multiset(b[..i] + b[i + 1..])
  {
    assert a[0] in multiset(b);
    i :| 0 <= i < |b| && b[i] == a[0];
    assert b == b[..i] + [b[i]] + b[i + 1..];
    assert a == [a[0]] + a[1..];
    assert multiset(b[..i] + b[i + 1..]) == multiset(b) - multiset{a[0]};
    assert multiset(a[1..]) == multiset(a) - multiset{a[0]};
  }

  // ---- sequences without duplicates ----

  lemma {:induction false} DistinctCounts<T>(s: seq<T>)
    ensures Distinct(s) <==> forall x :: x in s ==> multiset(s)[x] == 1
  {
    if s != [] {
      var x := s[|s| - 1];
      var t := s[..|s| - 1];
      assert s == t + [x];
      DistinctCounts(t);
      assert multiset(s) == multiset(t) + multiset{x};
      if Distinct(s) {
        assert Distinct(t) && x !in t;
      } else if Distinct(t) {
        assert x in t;
        assert multiset(s)[x] == 2 by { assert multiset(t)[x] == 1; }
      } else {
        var y :| y in t && multiset(t)[y] != 1;
        assert y in s && multiset(s)[y] != 1;
      }
    }
  }

  lemma SameMultisetDistinct<T>(a: seq<T>, b: seq<T>)
    requires multiset(a) == multiset(b) && Distinct(a)
    ensures Distinct(b)
  {
    DistinctCounts(a);
    DistinctCounts(b);
    forall x | x in b ensures multiset(b)[x] == 1 { assert x in multiset(a); }
  }

  lemma {:induction false} DistinctSameElements<T>(a: seq<T>, b: seq<T>)
    requires Distinct(a) && Distinct(b) && Elements(a) == Elements(b)
    ensures multiset(a) == multiset(b)
  {
    DistinctCounts(a);
    DistinctCounts(b);
    forall x ensures multiset(a)[x] == multiset(b)[x] {
      if x in a { assert x in Elements(b); }
      if x in b { assert x in Elements(a); }
    }
  }

  lemma DistinctJoin<T>(a: seq<T>, b: seq<T>)
    requires Distinct(a) && Distinct(b) && Elements(a) !! Elements(b)
    ensures Distinct(a + b) && Elements(a + b) == Elements(a) + Elements(b)
  {
    var s := a + b;
    forall i, j | 0 <= i < j < |s| ensures s[i] != s[j] {
      assert i < |a| <= j ==> s[i] in Elements(a) && s[j] in Elements(b);
    }
  }

  lemma DistinctPart<T>(a: seq<T>, b: seq<T>)
    requires Distinct(b) && multiset(a) <= multiset(b)
    ensures Distinct(a) && forall x :: x in a ==> x in b
  {
    DistinctCounts(a);
    DistinctCounts(b);
    forall x | x in a ensures x in b && multiset(a)[x] == 1 {
      assert x in multiset(a) && multiset(a)[x] <= multiset(b)[x];
    }
  }

  // ---- strings ----

  predicate StrLe(a: string, b: string) {
    a == [] || (b != [] && (a[0] < b[0] || (a[0] == b[0] && StrLe(a[1..], b[1..]))))
  }

  /** A prefix comes first, and otherwise the first difference decides. */
  lemma {:induction false} StrLeExact(a: string, b: string)
    ensures StrLe(a, b) <==>
      a <= b || exists k :: 0 <= k < |a| && k < |b| && a[..k] == b[..k] && a[k] < b[k]
  {
    if a != [] && b != [] && a[0] == b[0] {
      StrLeExact(a[1..], b[1..]);
      assert a == [a[0]] + a[1..] && b == [b[0]] + b[1..];
      assert a[1..] <= b[1..] <==> a <= b;
      if k :| 0 <= k < |a[1..]| && k < |b[1..]| && a[1..][..k] == b[1..][..k] && a[1..][k] < b[1..][k] {
        assert a[..k + 1] == [a[0]] + a[1..][..k] && b[..k + 1] == [b[0]] + b[1..][..k];
        assert a[k + 1] < b[k + 1];
      }
      if k :| 0 <= k < |a| && k < |b| && a[..k] == b[..k] && a[k] < b[k] {
        assert k > 0 && a[..k][1..] == a[1..][..k - 1] && b[..k][1..] == b[1..][..k - 1];
        assert a[1..][k - 1] < b[1..][k - 1];
      }
    } else if a != [] && b != [] {
      assert a[..0] == b[..0];
    }
  }

  predicate StrLt(a: string, b: string) {
    a != b && StrLe(a, b)
  }

  lemma {:induction false} StrLeTotal(a: string, b: string)
    ensures StrLe(a, b) || StrLe(b, a)
  {
    if a != [] && b != [] {
      StrLeTotal(a[1..], b[1..]);
    }
  }

  lemma {:induction false} StrLeAntisymmetric(a: string, b: string)
    requires StrLe(a, b) && StrLe(b, a)
    ensures a == b
  {
    if a != [] && b != [] {
      StrLeAntisymmetric(a[1..], b[1..]);
      assert a == [a[0]] + a[1..] && b == [b[0]] + b[1..];
    }
  }

  lemma {:induction false} StrLeTransitive(a: string, b: string, c: string)
    requires StrLe(a, b) && StrLe(b, c)
    ensures StrLe(a, c)
  {
    if a != [] && b[0] == a[0] && c[0] == b[0] {
      StrLeTransitive(a[1..], b[1..], c[1..]);
    }
  }

  lemma StringOrder()
    ensures TotalPreorder(StrLe) && Asymmetric(StrLt)
    ensures forall a, b :: StrLe(a, b) && StrLe(b, a) ==> a == b
  {
    forall a, b ensures StrLe(a, b) || StrLe(b, a) { StrLeTotal(a, b); }
    forall a, b, c | StrLe(a, b) && StrLe(b, c) ensures StrLe(a, c) { StrLeTransitive(a, b, c); }
    forall a, b | StrLe(a, b) && StrLe(b, a) ensures a == b { StrLeAntisymmetric(a, b); }
  }

  /** Strictly ascending: sorted and free of duplicates. */
  ghost predicate Ascending(s: seq<string>) {
    SortedBy(s, StrLt)
  }

  lemma AscendingUnique(a: seq<string>, b: seq<string>)
    requires Ascending(a) && Ascending(b) && Elements(a) == Elements(b)
    ensures a == b
  {
    StringOrder();
    StrictlySortedUnique(a, b, StrLt);
  }

  /** Drop every element equal to its predecessor. */
  function Dedup<T(==)>(s: seq<T>): seq<T> {
    if |s| <= 1 then s
    else if s[0] == s[1] then Dedup(s[1..])
    else [s[0]] + Dedup(s[1..])
  }

  lemma {:induction false} DedupElements<T>(s: seq<T>)
    ensures Elements(Dedup(s)) == Elements(s)
    ensures s != [] ==> Dedup(s) != [] && Dedup(s)[0] == s[0]
  {
    if |s| > 1 {
      var t := Dedup(s[1..]);
      DedupElements(s[1..]);
      assert s == [s[0]] + s[1..];
      assert Elements(s) == {s[0]} + Elements(s[1..]);
      if s[0] == s[1] {
        assert s[1] in Elements(s[1..]);
      } else {
        assert Elements([s[0]] + t) == {s[0]} + Elements(t);
      }
    }
  }

  lemma {:induction false} DedupAscending(s: seq<string>)
    requires SortedBy(s, StrLe)
    ensures Ascending(Dedup(s))
  {
    if |s| > 1 {
      DedupAscending(s[1..]);
      if s[0] != s[1] {
        DedupElements(s[1..]);
        var t := Dedup(s[1..]);
        forall j | 0 <= j < |t| ensures StrLt(s[0], t[j]) {
          assert t[j] in Elements(s[1..]);
          var k :| 1 <= k < |s| && s[k] == t[j];
          StringOrder();
        }
      }
    }
  }

  /** `sort` followed by `dedup`. */
  function SortDedup(s: seq<string>): seq<string> {
    Dedup(SortBy(s, StrLe))
  }

  lemma SortDedupIsAscending(s: seq<string>)
    ensures Ascending(SortDedup(s)) && Elements(SortDedup(s)) == Elements(s)
  {
    StringOrder();
    SortBySorted(s, StrLe);
    SortByElements(s, StrLe);
    DedupAscending(SortBy(s, StrLe));
    DedupElements(SortBy(s, StrLe));
  }

  /** Sorting and deduplicating forgets exactly order and multiplicity. */
  lemma SortDedupEqual(a: seq<string>, b: seq<string>)
    ensures SortDedup(a) == SortDedup(b) <==> Elements(a) == Elements(b)
  {
    SortDedupIsAscending(a);
    SortDedupIsAscending(b);
    if Elements(a) == Elements(b) {
      AscendingUnique(SortDedup(a), SortDedup(b));
    }
  }
}
