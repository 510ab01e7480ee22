/** One prune transaction over the managed cache, run while the cache-wide manager lock is held. */
module CachePrune {
  import opened Orders

  datatype LockFile = Missing | Unlocked | Locked

  datatype Metadata = Metadata(identity: string, lastUsed: nat, logicalBytes: nat, measuredAt: nat)

  /** A domain directory; `metadata` is absent when its file is missing or unreadable. */
  datatype Directory = Directory(metadata: Option<Metadata>, size: nat, modified: nat, lock: LockFile)

  datatype Entry = Entry(identity: string, path: string, bytes: nat, lastUsed: nat, active: bool)

  datatype Report = Report(
    maxBytes: nat, beforeBytes: nat, afterBytes: nat, removedBytes: nat,
    removed: seq<string>, skipped: seq<string>, notFound: seq<string>, dryRun: bool)

  // ---- collecting entries ----

  function Describe(path: string, d: Directory, refresh: bool): Entry {
    var active := d.lock.Locked?;
    match d.metadata
    case None => Entry(path, path, if refresh || !active then d.size else 0, d.modified, active)
    case Some(m) =>
      Entry(m.identity, path, if refresh || (!active && m.measuredAt == 0) then d.size else m.logicalBytes, m.lastUsed, active)
  }

  function DescribeAll(listing: seq<string>, dirs: map<string, Directory>, refresh: bool): (r: seq<Entry>)
    requires forall p :: p in listing ==> p in dirs
    ensures |r| == |listing| && forall i :: 0 <= i < |r| ==> r[i] == Describe(listing[i], dirs[listing[i]], refresh)
  {
    seq(|listing|, i requires 0 <= i < |listing| => Describe(listing[i], dirs[listing[i]], refresh))
  }

  predicate IdentityLe(a: Entry, b: Entry) {
    StrLe(a.identity, b.identity)
  }

  predicate LastUsedLe(a: Entry, b: Entry) {
    a.lastUsed <= b.lastUsed
  }

  /** Oldest first, ties by identity. */
  predicate Before(a: Entry, b: Entry) {
    a.lastUsed < b.lastUsed || (a.lastUsed == b.lastUsed && StrLt(a.identity, b.identity))
  }

  /** The listing names every directory once, in whatever order the file system returns them. */
  ghost predicate Lists(listing: seq<string>, dirs: map<string, Directory>) {
    Distinct(listing) && Elements(listing) == dirs.Keys
  }

  /** The order in which a prune visits the entries. */
  function Schedule(listing: seq<string>, dirs: map<string, Directory>, refresh: bool): seq<Entry>
    requires forall p :: p in listing ==> p in dirs
  {
    SortBy(SortBy(DescribeAll(listing, dirs, refresh), IdentityLe), LastUsedLe)
  }

  function Total(entries: seq<Entry>): nat {
    if entries == [] then 0 else entries[0].bytes + Total(entries[1..])
  }

  // ---- deciding ----

  datatype Outcome = Outcome(projected: nat, removed: seq<Entry>, skipped: seq<Entry>, found: seq<string>)

  /** Subtraction as the source's `saturating_sub`. */
  function Minus(a: nat, b: nat): nat {
    if b <= a then a - b else 0
  }

  /** Visit the remaining entries; an empty `wanted` list is a budget prune, any other a selective one. */
  function Visit(entries: seq<Entry>, wanted: seq<string>, max: nat, locked: set<string>, o: Outcome): Outcome {
    if entries == [] then o
    else
      var e := entries[0];
      if wanted != [] && e.identity !in wanted then Visit(entries[1..], wanted, max, locked, o)
      else if wanted == [] && o.projected <= max then o
      else
        Visit(entries[1..], wanted, max, locked, Take(o, e, wanted != [], locked))
  }

  /** Try one entry: skip it when its activity lock is held, count it as removed otherwise. */
  function Take(o: Outcome, e: Entry, selective: bool, locked: set<string>): Outcome {
    var found := if selective then o.found + [e.identity] else o.found;
    if e.path in locked then o.(skipped := o.skipped + [e], found := found)
    else o.(projected := Minus(o.projected, e.bytes), removed := o.removed + [e], found := found)
  }

  function Plan(entries: seq<Entry>, wanted: seq<string>, max: nat, locked: set<string>): Outcome {
    Visit(entries, wanted, max, locked, Outcome(Total(entries), [], [], []))
  }

  function LockedPaths(dirs: map<string, Directory>): set<string> {
    set p | p in dirs && dirs[p].lock.Locked?
  }

  function Identities(entries: seq<Entry>): seq<string> {
    if entries == [] then [] else [entries[0].identity] + Identities(entries[1..])
  }

  function Paths(entries: seq<Entry>): set<string> {
    set i | 0 <= i < |entries| :: entries[i].path
  }

  function Without(names: seq<string>, found: seq<string>): seq<string> {
    if names == [] then []
    else if names[0] in found then Without(names[1..], found)
    else [names[0]] + Without(names[1..], found)
  }

  /** What a prune of `dirs` reports: nothing in it but the flag depends on whether the run is a dry one. */
  function Planned(listing: seq<string>, dirs: map<string, Directory>, max: nat, wanted: seq<string>, refresh: bool,
                   dryRun: bool): Report
    requires forall p :: p in listing ==> p in dirs
  {
    var entries := Schedule(listing, dirs, refresh);
    var o := Plan(entries, wanted, max, LockedPaths(dirs));
    Report(max, Total(entries), o.projected, Total(o.removed), Identities(o.removed), Identities(o.skipped),
           Without(wanted, o.found), dryRun)
  }

  // ---- sums ----

  lemma {:induction false} TotalAppend(a: seq<Entry>, b: seq<Entry>)
    ensures Total(a + b) == Total(a) + Total(b)
  {
    if a == [] {
      assert a + b == b;
    } else {
      TotalAppend(a[1..], b);
      assert (a + b)[1..] == a[1..] + b;
    }
  }

  lemma {:induction false} TotalPermutation(a: seq<Entry>, b: seq<Entry>)
    requires multiset(a) == multiset(b)
    ensures Total(a) == Total(b)
  {
    if a == [] {
      assert |multiset(b)| == |b|;
    } else {
      var i := PermutationSplit(a, b);
      TotalPermutation(a[1..], b[..i] + b[i + 1..]);
      TotalAppend(b[..i], b[i + 1..]);
      TotalAppend(b[..i], b[i..]);
      assert b == b[..i] + b[i..] && b[i..][1..] == b[i + 1..];
    }
  }

  // ---- what a budget prune decides ----

  function Idle(entries: seq<Entry>, locked: set<string>): seq<Entry> {
    if entries == [] then []
    else if entries[0].path in locked then Idle(entries[1..], locked)
    else [entries[0]] + Idle(entries[1..], locked)
  }

  function Busy(entries: seq<Entry>, locked: set<string>): seq<Entry> {
    if entries == [] then []
    else if entries[0].path in locked then [entries[0]] + Busy(entries[1..], locked)
    else Busy(entries[1..], locked)
  }

  lemma {:induction false} IdleAtMost(entries: seq<Entry>, locked: set<string>)
    ensures Total(Idle(entries, locked)) + Total(Busy(entries, locked)) == Total(entries)
  {
    if entries != [] {
      IdleAtMost(entries[1..], locked);
    }
  }

  lemma PrefixSplits(entries: seq<Entry>, n: nat, locked: set<string>)
    requires 0 < n <= |entries|
    ensures var e, rest := entries[0], entries[1..][..n - 1];
      && Idle(entries[..n], locked) == (if e.path in locked then [] else [e]) + Idle(rest, locked)
      && Busy(entries[..n], locked) == (if e.path in locked then [e] else []) + Busy(rest, locked)
      && Total(Idle(entries[..n], locked)) == (if e.path in locked then 0 else e.bytes) + Total(Idle(rest, locked))
  {
    assert entries[..n][1..] == entries[1..][..n - 1];
  }

  lemma EmptyPrefix(entries: seq<Entry>, locked: set<string>)
    ensures Idle(entries[..0], locked) == [] && Busy(entries[..0], locked) == [] && Total([]) == 0
    ensures entries != [] ==> Total(entries) == entries[0].bytes + Total(entries[1..])
  {}

  lemma {:induction false} VisitBudget(entries: seq<Entry>, max: nat, locked: set<string>, o: Outcome) returns (n: nat)
    requires Total(entries) <= o.projected
    ensures n <= |entries|
    ensures var r := Visit(entries, [], max, locked, o);
      && r.removed == o.removed + Idle(entries[..n], locked)
      && r.skipped == o.skipped + Busy(entries[..n], locked)
      && r.projected == o.projected - Total(Idle(entries[..n], locked))
      && (n < |entries| ==> r.projected <= max)
    ensures forall m :: 0 <= m < n ==> Total(Idle(entries[..m], locked)) + max < o.projected
  {
    hide Idle, Busy, Total;
    n := 0;
    EmptyPrefix(entries, locked);
    if entries != [] && max < o.projected {
      var o' := Take(o, entries[0], false, locked);
      var k := VisitBudget(entries[1..], max, locked, o');
      n := k + 1;
      PrefixSplits(entries, n, locked);
      forall m | 0 <= m < n ensures Total(Idle(entries[..m], locked)) + max < o.projected {
        if m > 0 { PrefixSplits(entries, m, locked); }
      }
    }
  }

  /**
   A budget prune walks the schedule up to the first point where the projected total fits the limit, or to the end. It
   removes the idle entries and skips the locked ones it passed; every earlier point was over the limit, so the last
   removal was needed, and what is projected plus what is removed is what was there.
   */
  lemma BudgetPruneStopsAtTheLimit(entries: seq<Entry>, max: nat, locked: set<string>) returns (n: nat)
    ensures n <= |entries|
    ensures var o := Plan(entries, [], max, locked);
      && o.removed == Idle(entries[..n], locked)
      && o.skipped == Busy(entries[..n], locked)
      && o.projected + Total(o.removed) == Total(entries)
      && (o.projected <= max || (Busy(entries, locked) == o.skipped && o.projected == Total(o.skipped)))
    ensures forall m :: 0 <= m < n ==> Total(entries) - Total(Idle(entries[..m], locked)) > max
  {
    n := VisitBudget(entries, max, locked, Outcome(Total(entries), [], [], []));
    if n == |entries| { assert entries[..n] == entries; IdleAtMost(entries, locked); }
  }

  function Chosen(entries: seq<Entry>, wanted: seq<string>): seq<Entry> {
    if entries == [] then []
    else if entries[0].identity in wanted then [entries[0]] + Chosen(entries[1..], wanted)
    else Chosen(entries[1..], wanted)
  }

  /** The outcome after visiting entries that were all chosen: appended lists and a reduced projection. */
  function After(o: Outcome, chosen: seq<Entry>, locked: set<string>): Outcome {
    Outcome(Minus(o.projected, Total(Idle(chosen, locked))), o.removed + Idle(chosen, locked),
            o.skipped + Busy(chosen, locked), o.found + Identities(chosen))
  }

  lemma Cons(e: Entry, rest: seq<Entry>, locked: set<string>)
    ensures Identities([e] + rest) == [e.identity] + Identities(rest)
    ensures Idle([e] + rest, locked) == (if e.path in locked then [] else [e]) + Idle(rest, locked)
    ensures Busy([e] + rest, locked) == (if e.path in locked then [e] else []) + Busy(rest, locked)
  {
    assert ([e] + rest)[1..] == rest;
  }

  lemma JoinAfter<T>(a: seq<T>, b: seq<T>, c: seq<T>)
    ensures a + (b + c) == (a + b) + c
  {
  }

  lemma AfterOne(o: Outcome, e: Entry, rest: seq<Entry>, locked: set<string>)
    requires e.bytes + Total(Idle(rest, locked)) <= o.projected
    ensures After(o, [e] + rest, locked) == After(Take(o, e, true, locked), rest, locked)
  {
    Cons(e, rest, locked);
    JoinAfter(o.found, [e.identity], Identities(rest));
    JoinAfter(o.removed, if e.path in locked then [] else [e], Idle(rest, locked));
    JoinAfter(o.skipped, if e.path in locked then [e] else [], Busy(rest, locked));
    TotalAppend(if e.path in locked then [] else [e], Idle(rest, locked));
    assert Total([e]) == e.bytes && Total([]) == 0;
  }

  lemma {:induction false} ChosenAtMost(entries: seq<Entry>, wanted: seq<string>)
    ensures Total(Chosen(entries, wanted)) <= Total(entries)
  {
    if entries != [] {
      ChosenAtMost(entries[1..], wanted);
    }
  }

  lemma {:induction false} VisitSelected(entries: seq<Entry>, wanted: seq<string>, max: nat, locked: set<string>, o: Outcome)
    requires wanted != [] && Total(entries) <= o.projected
    ensures Visit(entries, wanted, max, locked, o) == After(o, Chosen(entries, wanted), locked)
  {
    if entries != [] {
      var e := entries[0];
      var rest := Chosen(entries[1..], wanted);
      if e.identity in wanted {
        VisitSelected(entries[1..], wanted, max, locked, Take(o, e, true, locked));
        ChosenAtMost(entries[1..], wanted);
        IdleAtMost(rest, locked);
        AfterOne(o, e, rest, locked);
      } else {
        VisitSelected(entries[1..], wanted, max, locked, o);
      }
    }
  }

  /** A selective prune ignores the limit: it removes every requested idle entry and skips every requested locked one. */
  lemma SelectivePruneTakesTheRequested(entries: seq<Entry>, wanted: seq<string>, max: nat, locked: set<string>)
    requires wanted != []
    ensures var o := Plan(entries, wanted, max, locked);
      && o.removed == Idle(Chosen(entries, wanted), locked)
      && o.skipped == Busy(Chosen(entries, wanted), locked)
      && o.found == Identities(Chosen(entries, wanted))
      && o.projected + Total(o.removed) == Total(entries)
  {
    VisitSelected(entries, wanted, max, locked, Outcome(Total(entries), [], [], []));
    ChosenAtMost(entries, wanted);
    IdleAtMost(Chosen(entries, wanted), locked);
  }

  // ---- the schedule ----

  lemma EntryOrders()
    ensures TotalPreorder(IdentityLe) && TotalPreorder(LastUsedLe) && Asymmetric(Before)
  {
    StringOrder();
  }

  /** The schedule is the described entries, oldest first with ties by identity. */
  lemma ScheduleIsOldestFirst(listing: seq<string>, dirs: map<string, Directory>, refresh: bool)
    requires forall p :: p in listing ==> p in dirs
    ensures multiset(Schedule(listing, dirs, refresh)) == multiset(DescribeAll(listing, dirs, refresh))
    ensures SortedLex(Schedule(listing, dirs, refresh), LastUsedLe, IdentityLe)
  {
    EntryOrders();
    var d := DescribeAll(listing, dirs, refresh);
    SortBySorted(d, IdentityLe);
    SortByElements(d, IdentityLe);
    SortByElements(SortBy(d, IdentityLe), LastUsedLe);
    SortByStable(SortBy(d, IdentityLe), LastUsedLe, IdentityLe);
  }

  /** Same last use and same identity: the two sorts do not tell the entries apart. */
  predicate SameKey(a: Entry, b: Entry) {
    a.lastUsed == b.lastUsed && a.identity == b.identity
  }

  ghost predicate KeysDiffer(dirs: map<string, Directory>, refresh: bool) {
    forall p, q :: p in dirs && q in dirs && p != q ==>
      !SameKey(Describe(p, dirs[p], refresh), Describe(q, dirs[q], refresh))
  }

  lemma ScheduleElements(listing: seq<string>, dirs: map<string, Directory>, refresh: bool)
    requires Lists(listing, dirs)
    requires forall p :: p in listing ==> p in dirs
    ensures Elements(Schedule(listing, dirs, refresh)) == set p | p in dirs :: Describe(p, dirs[p], refresh)
  {
    ScheduleIsOldestFirst(listing, dirs, refresh);
    var d := DescribeAll(listing, dirs, refresh);
    var s := Schedule(listing, dirs, refresh);
    forall e ensures e in Elements(s) <==> e in set p | p in dirs :: Describe(p, dirs[p], refresh) {
      assert e in multiset(s) <==> e in multiset(d);
      if e in d {
        var i :| 0 <= i < |d| && d[i] == e;
        assert listing[i] in Elements(listing);
      }
      if p :| p in dirs && e == Describe(p, dirs[p], refresh) {
        assert p in Elements(listing);
        var i :| 0 <= i < |listing| && listing[i] == p;
        assert d[i] == e;
      }
    }
  }

  lemma ScheduleStrict(listing: seq<string>, dirs: map<string, Directory>, refresh: bool)
    requires Lists(listing, dirs) && KeysDiffer(dirs, refresh)
    requires forall p :: p in listing ==> p in dirs
    ensures SortedBy(Schedule(listing, dirs, refresh), Before)
  {
    ScheduleIsOldestFirst(listing, dirs, refresh);
    ScheduleElements(listing, dirs, refresh);
    DistinctDescribed(listing, dirs, refresh);
    SameMultisetDistinct(DescribeAll(listing, dirs, refresh), Schedule(listing, dirs, refresh));
    hide Schedule, Describe, SameKey, Before, LastUsedLe, IdentityLe;
    var s := Schedule(listing, dirs, refresh);
    forall i, j | 0 <= i < j < |s| ensures Before(s[i], s[j]) {
      assert s[i] in Elements(s) && s[j] in Elements(s) && s[i] != s[j];
      var p :| p in dirs && s[i] == Describe(p, dirs[p], refresh);
      var q :| q in dirs && s[j] == Describe(q, dirs[q], refresh);
      BeforeUnlessSame(s[i], s[j]);
    }
  }

  lemma BeforeUnlessSame(a: Entry, b: Entry)
    requires LastUsedLe(a, b) && (LastUsedLe(b, a) ==> IdentityLe(a, b)) && !SameKey(a, b)
    ensures Before(a, b)
  {}

  lemma DistinctDescribed(listing: seq<string>, dirs: map<string, Directory>, refresh: bool)
    requires Distinct(listing) && forall p :: p in listing ==> p in dirs
    ensures Distinct(DescribeAll(listing, dirs, refresh))
  {
    var d := DescribeAll(listing, dirs, refresh);
    forall i, j | 0 <= i < j < |d| ensures d[i] != d[j] {
      assert d[i].path == listing[i] && d[j].path == listing[j];
    }
  }

  /** Directories with different last use or identity are scheduled the same however the file system lists them. */
  lemma ListingOrderIsIrrelevant(l1: seq<string>, l2: seq<string>, dirs: map<string, Directory>, max: nat,
                                 wanted: seq<string>, refresh: bool, dryRun: bool)
    requires Lists(l1, dirs) && Lists(l2, dirs) && KeysDiffer(dirs, refresh)
    requires (forall p :: p in l1 ==> p in dirs) && forall p :: p in l2 ==> p in dirs
    ensures Planned(l1, dirs, max, wanted, refresh, dryRun) == Planned(l2, dirs, max, wanted, refresh, dryRun)
  {
    SameSchedule(l1, l2, dirs, refresh);
  }

  lemma SameSchedule(l1: seq<string>, l2: seq<string>, dirs: map<string, Directory>, refresh: bool)
    requires Lists(l1, dirs) && Lists(l2, dirs) && KeysDiffer(dirs, refresh)
    requires (forall p :: p in l1 ==> p in dirs) && forall p :: p in l2 ==> p in dirs
    ensures Schedule(l1, dirs, refresh) == Schedule(l2, dirs, refresh)
  {
    ScheduleStrict(l1, dirs, refresh);
    ScheduleElements(l1, dirs, refresh);
    ScheduleStrict(l2, dirs, refresh);
    ScheduleElements(l2, dirs, refresh);
    EntryOrders();
    StrictlySortedUnique(Schedule(l1, dirs, refresh), Schedule(l2, dirs, refresh), Before);
  }

  lemma ScheduleKeepsTied(listing: seq<string>, dirs: map<string, Directory>, refresh: bool, k: Entry)
    requires forall p :: p in listing ==> p in dirs
    ensures Tied(Schedule(listing, dirs, refresh), SameKey, k) == Tied(DescribeAll(listing, dirs, refresh), SameKey, k)
  {
    EntryOrders();
    var d := DescribeAll(listing, dirs, refresh);
    SortKeepsTied(d, IdentityLe, SameKey, k);
    SortKeepsTied(SortBy(d, IdentityLe), LastUsedLe, SameKey, k);
  }

  lemma {:induction false} ListingOf(names: set<string>) returns (listing: seq<string>)
    ensures Distinct(listing) && Elements(listing) == names
  {
    if names == {} {
      listing := [];
    } else {
      var p :| p in names;
      var rest := ListingOf(names - {p});
      listing := [p] + rest;
      assert p !in Elements(rest) && Elements(listing) == {p} + Elements(rest);
    }
  }

  /** Two directories the sorts do not tell apart are visited in the order of the listing. */
  lemma TieShows(dirs: map<string, Directory>, refresh: bool, p: string, q: string, rest: seq<string>)
    requires p in dirs && q in dirs && p != q && SameKey(Describe(p, dirs[p], refresh), Describe(q, dirs[q], refresh))
    requires forall r :: r in [p, q] + rest ==> r in dirs
    requires forall r :: r in [q, p] + rest ==> r in dirs
    ensures Schedule([p, q] + rest, dirs, refresh) != Schedule([q, p] + rest, dirs, refresh)
  {
    var k := Describe(p, dirs[p], refresh);
    hide SortBy, Describe;
    ScheduleKeepsTied([p, q] + rest, dirs, refresh, k);
    ScheduleKeepsTied([q, p] + rest, dirs, refresh, k);
    FirstTied(DescribeAll([p, q] + rest, dirs, refresh), k);
    FirstTied(DescribeAll([q, p] + rest, dirs, refresh), k);
    PathsTell(dirs, refresh, p, q);
  }

  lemma FirstTied(s: seq<Entry>, k: Entry)
    requires s != [] && SameKey(s[0], k)
    ensures Tied(s, SameKey, k) != [] && Tied(s, SameKey, k)[0] == s[0]
  {}

  lemma PathsTell(dirs: map<string, Directory>, refresh: bool, p: string, q: string)
    requires p in dirs && q in dirs && p != q
    ensures Describe(p, dirs[p], refresh) != Describe(q, dirs[q], refresh)
  {}

  lemma ListsOrder(p: string, q: string, rest: seq<string>, dirs: map<string, Directory>)
    requires p in dirs && q in dirs && p != q && Distinct(rest) && Elements(rest) == dirs.Keys - {p, q}
    ensures Lists([p, q] + rest, dirs) && forall r :: r in [p, q] + rest ==> r in dirs
  {
    var l := [p, q] + rest;
    forall i, j | 0 <= i < j < |l| ensures l[i] != l[j] {
      assert j >= 2 ==> l[j] in Elements(rest);
    }
    forall r ensures r in Elements(l) <==> r in dirs.Keys {
      assert r in Elements(rest) <==> r in dirs.Keys - {p, q};
    }
    assert forall r :: r in l ==> r in Elements(l);
  }

  /** The schedule does not depend on the listing exactly when no two directories share last use and identity. */
  lemma ListingOrderIff(dirs: map<string, Directory>, refresh: bool)
    ensures (forall l1, l2 :: Lists(l1, dirs) && Lists(l2, dirs)
               && (forall p :: p in l1 ==> p in dirs) && (forall p :: p in l2 ==> p in dirs)
               ==> Schedule(l1, dirs, refresh) == Schedule(l2, dirs, refresh))
      <==> KeysDiffer(dirs, refresh)
  {
    hide Schedule, Lists, SameKey;
    if KeysDiffer(dirs, refresh) {
      forall l1, l2 | Lists(l1, dirs) && Lists(l2, dirs)
        && (forall p :: p in l1 ==> p in dirs) && (forall p :: p in l2 ==> p in dirs)
        ensures Schedule(l1, dirs, refresh) == Schedule(l2, dirs, refresh)
      {
        SameSchedule(l1, l2, dirs, refresh);
      }
    } else {
      var p, q :| p in dirs && q in dirs && p != q
        && SameKey(Describe(p, dirs[p], refresh), Describe(q, dirs[q], refresh));
      var rest := ListingOf(dirs.Keys - {p, q});
      ListsOrder(p, q, rest, dirs);
      assert dirs.Keys - {q, p} == dirs.Keys - {p, q};
      ListsOrder(q, p, rest, dirs);
      TieShows(dirs, refresh, p, q, rest);
    }
  }

  // ---- what is left afterwards ----

  /** Whatever was removed since `o` are idle entries, and the projection has fallen by their sizes. */
  ghost predicate Takes(entries: seq<Entry>, locked: set<string>, o: Outcome, r: Outcome) {
    && |o.removed| <= |r.removed| && r.removed[..|o.removed|] == o.removed
    && multiset(r.removed[|o.removed|..]) <= multiset(entries)
    && (forall e :: e in r.removed[|o.removed|..] ==> e.path !in locked)
    && (Total(entries) <= o.projected ==> r.projected + Total(r.removed[|o.removed|..]) == o.projected)
  }

  lemma TakesNothing(entries: seq<Entry>, locked: set<string>, o: Outcome)
    ensures Takes(entries, locked, o, o)
  {
    assert o.removed[|o.removed|..] == [];
  }

  lemma TakesLater(e: Entry, rest: seq<Entry>, locked: set<string>, o: Outcome, p: Outcome, r: Outcome)
    requires Takes(rest, locked, p, r) && p.removed == o.removed && p.projected == o.projected
    ensures Takes([e] + rest, locked, o, r)
  {
    assert ([e] + rest)[1..] == rest && multiset([e] + rest) == multiset{e} + multiset(rest);
  }

  lemma TakesFirst(e: Entry, rest: seq<Entry>, locked: set<string>, o: Outcome, p: Outcome, r: Outcome)
    requires Takes(rest, locked, p, r) && e.path !in locked
    requires p.removed == o.removed + [e] && p.projected == Minus(o.projected, e.bytes)
    ensures Takes([e] + rest, locked, o, r)
  {
    assert ([e] + rest)[1..] == rest && multiset([e] + rest) == multiset{e} + multiset(rest);
    TakenFirst(r.removed, o.removed, e);
    var later := r.removed[|o.removed| + 1..];
    assert multiset([e] + later) == multiset{e} + multiset(later) && ([e] + later)[1..] == later;
  }

  lemma TakenFirst(removed: seq<Entry>, before: seq<Entry>, e: Entry)
    requires |before| < |removed| && removed[..|before| + 1] == before + [e]
    ensures removed[..|before|] == before && removed[|before|..] == [e] + removed[|before| + 1..]
  {
    assert removed[..|before|] == removed[..|before| + 1][..|before|];
    assert removed[|before|] == removed[..|before| + 1][|before|];
  }

  lemma {:induction false} VisitTakesEntries(
      entries: seq<Entry>, wanted: seq<string>, max: nat, locked: set<string>, o: Outcome)
    ensures Takes(entries, locked, o, Visit(entries, wanted, max, locked, o))
  {
    hide Takes;
    TakesNothing(entries, locked, o);
    if entries != [] {
      var e, rest := entries[0], entries[1..];
      assert entries == [e] + rest;
      if wanted != [] && e.identity !in wanted {
        VisitTakesEntries(rest, wanted, max, locked, o);
        TakesLater(e, rest, locked, o, o, Visit(rest, wanted, max, locked, o));
      } else if wanted != [] || o.projected > max {
        var p := Take(o, e, wanted != [], locked);
        VisitTakesEntries(rest, wanted, max, locked, p);
        if e.path in locked {
          TakesLater(e, rest, locked, o, p, Visit(rest, wanted, max, locked, p));
        } else {
          TakesFirst(e, rest, locked, o, p, Visit(rest, wanted, max, locked, p));
        }
      }
    }
  }

  function Keep(dirs: map<string, Directory>, removed: seq<Entry>): map<string, Directory> {
    dirs - Paths(removed)
  }

  /** Entries of different directories have different paths, and each schedule entry describes its directory. */
  lemma ScheduledPaths(listing: seq<string>, dirs: map<string, Directory>, refresh: bool)
    requires Lists(listing, dirs) && forall p :: p in listing ==> p in dirs
    ensures var s := Schedule(listing, dirs, refresh);
      && Distinct(s)
      && (forall e :: e in s ==> e.path in dirs && e == Describe(e.path, dirs[e.path], refresh))
  {
    ScheduleIsOldestFirst(listing, dirs, refresh);
    ScheduleElements(listing, dirs, refresh);
    DistinctDescribed(listing, dirs, refresh);
    SameMultisetDistinct(DescribeAll(listing, dirs, refresh), Schedule(listing, dirs, refresh));
    forall e | e in Schedule(listing, dirs, refresh)
      ensures e.path in dirs && e == Describe(e.path, dirs[e.path], refresh)
    {
      assert e in Elements(Schedule(listing, dirs, refresh));
    }
  }

  /**
   Measuring the cache again after the removals finds exactly the projected total, so a dry run, which only projects,
   reports the same bytes as the real one.
   */
  lemma SurvivorsWeighTheProjection(listing: seq<string>, again: seq<string>, dirs: map<string, Directory>, max: nat,
                                    wanted: seq<string>, refresh: bool)
    requires Lists(listing, dirs) && forall p :: p in listing ==> p in dirs
    requires var o := Plan(Schedule(listing, dirs, refresh), wanted, max, LockedPaths(dirs));
      Lists(again, Keep(dirs, o.removed)) && forall p :: p in again ==> p in Keep(dirs, o.removed)
    ensures var o := Plan(Schedule(listing, dirs, refresh), wanted, max, LockedPaths(dirs));
      Total(DescribeAll(again, Keep(dirs, o.removed), refresh)) == o.projected
  {
    var s := Schedule(listing, dirs, refresh);
    var start := Outcome(Total(s), [], [], []);
    var o := Plan(s, wanted, max, LockedPaths(dirs));
    VisitTakesEntries(s, wanted, max, LockedPaths(dirs), start);
    assert o.removed[|start.removed|..] == o.removed;
    ScheduledPaths(listing, dirs, refresh);
    ScheduleElements(listing, dirs, refresh);
    DistinctPart(o.removed, s);
    var left := DescribeAll(again, Keep(dirs, o.removed), refresh);
    DistinctDescribed(again, Keep(dirs, o.removed), refresh);
    SurvivorsAndRemoved(s, o.removed, again, dirs, refresh);
    DistinctSameElements(left + o.removed, s);
    TotalPermutation(left + o.removed, s);
    TotalAppend(left, o.removed);
  }

  lemma SurvivorsAndRemoved(s: seq<Entry>, removed: seq<Entry>, again: seq<string>, dirs: map<string, Directory>, refresh: bool)
    requires Distinct(s) && Distinct(removed) && Elements(s) == set p | p in dirs :: Describe(p, dirs[p], refresh)
    requires forall e :: e in removed ==> e in s
    requires Lists(again, Keep(dirs, removed)) && forall p :: p in again ==> p in Keep(dirs, removed)
    ensures var all := DescribeAll(again, Keep(dirs, removed), refresh) + removed;
      Distinct(all) && Elements(all) == Elements(s)
  {
    var kept := Keep(dirs, removed);
    var left := DescribeAll(again, kept, refresh);
    DistinctDescribed(again, kept, refresh);
    forall e | e in left ensures e.path in kept && e == Describe(e.path, dirs[e.path], refresh) && e !in removed {
      var i :| 0 <= i < |left| && left[i] == e;
      assert again[i] in kept;
      forall k | 0 <= k < |removed| ensures removed[k] != e { assert removed[k].path in Paths(removed); }
    }
    DistinctJoin(left, removed);
    forall e | e in s && e !in removed ensures e in left { LeftIsListed(s, removed, again, dirs, refresh, e); }
    assert forall e :: e in left ==> e in s by {
      forall e | e in left ensures e in Elements(s) {}
    }
  }

  lemma LeftIsListed(s: seq<Entry>, removed: seq<Entry>, again: seq<string>, dirs: map<string, Directory>, refresh: bool,
                     e: Entry)
    requires Elements(s) == set p | p in dirs :: Describe(p, dirs[p], refresh)
    requires forall r :: r in removed ==> r in s
    requires Lists(again, Keep(dirs, removed)) && forall p :: p in again ==> p in Keep(dirs, removed)
    requires e in s && e !in removed
    ensures e in DescribeAll(again, Keep(dirs, removed), refresh)
  {
    assert e in Elements(s);
    var p :| p in dirs && e == Describe(p, dirs[p], refresh);
    forall k | 0 <= k < |removed| ensures removed[k].path != p {
      assert removed[k] in removed && removed[k] in Elements(s);
    }
    assert p in Elements(again);
    var i :| 0 <= i < |again| && again[i] == p;
    assert DescribeAll(again, Keep(dirs, removed), refresh)[i] == e;
  }

  lemma {:induction false} IdentitiesAppend(a: seq<Entry>, e: Entry)
    ensures Identities(a + [e]) == Identities(a) + [e.identity]
  {
    if a == [] {
      assert a + [e] == [e];
    } else {
      IdentitiesAppend(a[1..], e);
      assert (a + [e])[1..] == a[1..] + [e];
    }
  }

  lemma NothingTaken(dirs: map<string, Directory>)
    ensures Identities([]) == [] && Total([]) == 0 && Keep(dirs, []) == dirs
  {}

  /** The next entry is passed over, ends the visit, or is tried. */
  lemma VisitUnfolds(entries: seq<Entry>, i: nat, wanted: seq<string>, max: nat, locked: set<string>, o: Outcome)
    requires i < |entries|
    ensures Visit(entries[i..], wanted, max, locked, o) ==
      if wanted != [] && entries[i].identity !in wanted then Visit(entries[i + 1..], wanted, max, locked, o)
      else if wanted == [] && o.projected <= max then o
      else Visit(entries[i + 1..], wanted, max, locked, Take(o, entries[i], wanted != [], locked))
  {
    assert entries[i..][1..] == entries[i + 1..];
  }

  lemma VisitStops(entries: seq<Entry>, i: nat, wanted: seq<string>, max: nat, locked: set<string>, o: Outcome)
    requires i <= |entries| && (i == |entries| || (wanted == [] && o.projected <= max))
    ensures Visit(entries[i..], wanted, max, locked, o) == o
  {}

  lemma KeptThere(dirs: map<string, Directory>, removed: seq<Entry>, e: Entry)
    requires e.path in dirs && e.path !in Paths(removed)
    ensures e.path in Keep(dirs, removed) && Keep(dirs, removed)[e.path] == dirs[e.path]
  {}

  lemma OneTaken(dirs: map<string, Directory>, o: Outcome, e: Entry)
    ensures Identities(o.skipped + [e]) == Identities(o.skipped) + [e.identity]
    ensures Identities(o.removed + [e]) == Identities(o.removed) + [e.identity]
    ensures Total(o.removed + [e]) == Total(o.removed) + e.bytes
    ensures Keep(dirs, o.removed + [e]) == Keep(dirs, o.removed) - {e.path}
  {
    IdentitiesAppend(o.skipped, e);
    IdentitiesAppend(o.removed, e);
    TotalAppend(o.removed, [e]);
    PathsAppend(o.removed, e);
  }

  /** What is listed already and what is left make up all the names. */
  ghost predicate Divides(listing: seq<string>, left: set<string>, all: set<string>) {
    Distinct(listing) && left !! Elements(listing) && left + Elements(listing) == all
  }

  lemma DividesFirst(all: set<string>)
    ensures Divides([], all, all)
  {}

  lemma DividesMore(listing: seq<string>, left: set<string>, all: set<string>, p: string)
    requires Divides(listing, left, all) && p in left
    ensures Divides(listing + [p], left - {p}, all)
  {
    assert p !in Elements(listing);
    assert Elements(listing + [p]) == Elements(listing) + {p};
  }

  lemma DividesAll(listing: seq<string>, dirs: map<string, Directory>)
    requires Divides(listing, {}, dirs.Keys)
    ensures Lists(listing, dirs) && forall p :: p in listing ==> p in dirs
  {
    assert forall p :: p in listing ==> p in Elements(listing);
  }

  /** The managed cache directory. */
  class CacheRoot {
    var dirs: map<string, Directory>

    /** The file system's listing, in an arbitrary order. */
    method ReadDir() returns (listing: seq<string>)
      ensures Lists(listing, dirs) && forall p :: p in listing ==> p in dirs
    {
      hide Divides;
      listing := [];
      var left := dirs.Keys;
      DividesFirst(left);
      while left != {}
        invariant Divides(listing, left, dirs.Keys)
        decreases |left|
      {
        var p :| p in left;
        DividesMore(listing, left, dirs.Keys, p);
        listing, left := listing + [p], left - {p};
      }
      DividesAll(listing, dirs);
    }

    method CollectEntries(refresh: bool) returns (entries: seq<Entry>, ghost listing: seq<string>)
      ensures Lists(listing, dirs) && forall p :: p in listing ==> p in dirs
      ensures entries == SortBy(DescribeAll(listing, dirs, refresh), IdentityLe)
    {
      var names := ReadDir();
      listing := names;
      entries := [];
      for i := 0 to |names|
        invariant |entries| == i
        invariant forall k :: 0 <= k < i ==> entries[k] == Describe(names[k], dirs[names[k]], refresh)
      {
        entries := entries + [Describe(names[i], dirs[names[i]], refresh)];
      }
      assert entries == DescribeAll(listing, dirs, refresh);
      entries := SortBy(entries, IdentityLe);
    }

    method SumBytes(entries: seq<Entry>) returns (sum: nat)
      ensures sum == Total(entries)
    {
      sum := 0;
      for i := 0 to |entries|
        invariant sum == Total(entries[..i])
      {
        TotalAppend(entries[..i], [entries[i]]);
        assert entries[..i + 1] == entries[..i] + [entries[i]];
        sum := sum + entries[i].bytes;
      }
      assert entries[..|entries|] == entries;
    }

    /** Try the entry's activity lock without waiting and, in a real run, remove the directory if it was free. */
    method TryRemove(e: Entry, dryRun: bool) returns (busy: bool)
      requires e.path in dirs
      modifies this
      ensures busy == old(dirs)[e.path].lock.Locked?
      ensures dirs == if dryRun || busy then old(dirs) else old(dirs) - {e.path}
    {
      if !dryRun && dirs[e.path].lock.Missing? {
        dirs := dirs[e.path := dirs[e.path].(lock := Unlocked)];
      }
      busy := dirs[e.path].lock.Locked?;
      if !busy && !dryRun {
        dirs := dirs - {e.path};
      }
    }

    method RemoveScheduled(entries: seq<Entry>, beforeBytes: nat, max: nat, dryRun: bool, wanted: seq<string>)
        returns (projected: nat, removedBytes: nat, removed: seq<string>, skipped: seq<string>, found: seq<string>)
      requires beforeBytes == Total(entries)
      requires Distinct(entries)
      requires forall e :: e in entries ==> e.path in dirs
      requires forall e, f :: e in entries && f in entries && e.path == f.path ==> e == f
      modifies this
      ensures var o := Plan(entries, wanted, max, LockedPaths(old(dirs)));
        && projected == o.projected && removedBytes == Total(o.removed)
        && removed == Identities(o.removed) && skipped == Identities(o.skipped) && found == o.found
        && dirs == if dryRun then old(dirs) else Keep(old(dirs), o.removed)
    {
      hide Visit, Identities, Total, Keep, Distinct;
      ghost var before := dirs;
      ghost var locked := LockedPaths(dirs);
      NothingTaken(before);
      var i: nat := 0;
      projected, removedBytes, removed, skipped, found := beforeBytes, 0, [], [], [];
      ghost var o := Outcome(projected, [], [], []);
      ghost var plan := Plan(entries, wanted, max, locked);
      while i < |entries|
        invariant i <= |entries|
        invariant Visit(entries[i..], wanted, max, locked, o) == plan
        invariant o.projected == projected && o.found == found
        invariant removed == Identities(o.removed) && skipped == Identities(o.skipped) && removedBytes == Total(o.removed)
        invariant dirs == if dryRun then before else Keep(before, o.removed)
        invariant forall e :: e in o.removed ==> e in entries[..i]
        decreases |entries| - i
      {
        var e := entries[i];
        StillThere(entries, i, o.removed);
        VisitUnfolds(entries, i, wanted, max, locked, o);
        if wanted != [] {
          if e.identity !in wanted {
            i := i + 1;
            continue;
          }
          found := found + [e.identity];
        } else if projected <= max {
          break;
        }
        KeptThere(before, o.removed, e);
        var busy := TryRemove(e, dryRun);
        OneTaken(before, o, e);
        if busy {
          skipped := skipped + [e.identity];
        } else {
          projected := Minus(projected, e.bytes);
          removedBytes := removedBytes + e.bytes;
          removed := removed + [e.identity];
        }
        o := Take(o, e, wanted != [], locked);
        i := i + 1;
      }
      VisitStops(entries, i, wanted, max, locked, o);
    }

    /**
     The report is the planned one, and only a real run changes the directory: it loses exactly the removed domains.
     */
    method PruneEntries(max: nat, dryRun: bool, wanted: seq<string>, refresh: bool)
        returns (report: Report, ghost listing: seq<string>)
      modifies this
      ensures Lists(listing, old(dirs)) && forall p :: p in listing ==> p in old(dirs)
      ensures report == Planned(listing, old(dirs), max, wanted, refresh, dryRun)
      ensures dirs == if dryRun then old(dirs)
        else Keep(old(dirs), Plan(Schedule(listing, old(dirs), refresh), wanted, max, LockedPaths(old(dirs))).removed)
    {
      var entries;
      entries, listing := CollectEntries(refresh);
      entries := SortBy(entries, LastUsedLe);
      ghost var before := dirs;
      ScheduledPaths(listing, dirs, refresh);
      var beforeBytes := SumBytes(entries);
      var projected, removedBytes, removed, skipped, found := RemoveScheduled(entries, beforeBytes, max, dryRun, wanted);
      var afterBytes := projected;
      if !dryRun {
        var rest; ghost var again;
        rest, again := CollectEntries(refresh);
        afterBytes := SumBytes(rest);
        SurvivorsWeighTheProjection(listing, again, before, max, wanted, refresh);
        SortByElements(DescribeAll(again, dirs, refresh), IdentityLe);
        TotalPermutation(rest, DescribeAll(again, dirs, refresh));
      }
      report := Report(max, beforeBytes, afterBytes, removedBytes, removed, skipped, Without(wanted, found), dryRun);
    }
  }

  /** Whatever the limit or the request, a domain whose activity lock is held keeps its directory. */
  lemma LockedDomainsSurvive(entries: seq<Entry>, wanted: seq<string>, max: nat, dirs: map<string, Directory>)
    ensures LockedPaths(dirs) <= Keep(dirs, Plan(entries, wanted, max, LockedPaths(dirs)).removed).Keys
  {
    var start := Outcome(Total(entries), [], [], []);
    VisitTakesEntries(entries, wanted, max, LockedPaths(dirs), start);
    var removed := Plan(entries, wanted, max, LockedPaths(dirs)).removed;
    assert removed[|start.removed|..] == removed;
    forall i | 0 <= i < |removed| ensures removed[i].path !in LockedPaths(dirs) { assert removed[i] in removed; }
  }

  lemma PathsAppend(a: seq<Entry>, e: Entry)
    ensures Paths(a + [e]) == Paths(a) + {e.path}
  {
    assert (a + [e])[|a|] == e;
    forall i | 0 <= i < |a| ensures a[i].path in Paths(a + [e]) { assert (a + [e])[i] == a[i]; }
  }

  lemma StillThere(entries: seq<Entry>, i: nat, gone: seq<Entry>)
    requires i < |entries| && Distinct(entries) && forall e :: e in gone ==> e in entries[..i]
    requires forall e, f :: e in entries && f in entries && e.path == f.path ==> e == f
    ensures entries[i].path !in Paths(gone)
  {
    forall k | 0 <= k < |gone| ensures gone[k].path != entries[i].path {
      assert gone[k] in entries[..i];
    }
  }
}
