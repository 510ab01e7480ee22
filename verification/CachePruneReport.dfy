/** What a prune reports and removes, told from the directories themselves. */
module CachePruneReport {
  import opened Orders
  import opened CachePrune

  // ---- one directory ----

  predicate Held(d: Directory) {
    d.lock.Locked?
  }

  /** The name a report uses: the recorded identity, or the directory's own name. */
  function Name(path: string, d: Directory): string {
    if d.metadata.Some? then d.metadata.value.identity else path
  }

  function LastUse(d: Directory): nat {
    if d.metadata.Some? then d.metadata.value.lastUsed else d.modified
  }

  /** An idle directory that was never measured. */
  predicate Unmeasured(d: Directory) {
    !Held(d) && (d.metadata.None? || d.metadata.value.measuredAt == 0)
  }

  /** Measured afresh on request or when idle and unmeasured; otherwise the recorded bytes, or nothing without a record. */
  function Weight(d: Directory, refresh: bool): (bytes: nat)
    ensures refresh || Unmeasured(d) ==> bytes == d.size
    ensures !refresh && !Unmeasured(d) && d.metadata.Some? ==> bytes == d.metadata.value.logicalBytes
    ensures !refresh && Held(d) && d.metadata.None? ==> bytes == 0
  {
    if refresh || Unmeasured(d) then d.size
    else if d.metadata.None? then 0
    else d.metadata.value.logicalBytes
  }

  // ---- sums over sets of directories ----

  ghost function Sum(names: set<string>, weight: map<string, nat>): nat
    requires names <= weight.Keys
  {
    if names == {} then 0
    else
      var p :| p in names;
      weight[p] + Sum(names - {p}, weight)
  }

  lemma {:induction false} SumPick(names: set<string>, weight: map<string, nat>, p: string)
    requires names <= weight.Keys && p in names
    ensures Sum(names, weight) == weight[p] + Sum(names - {p}, weight)
    decreases |names|
  {
    var q :| q in names && Sum(names, weight) == weight[q] + Sum(names - {q}, weight);
    if q != p {
      SumPick(names - {q}, weight, p);
      SumPick(names - {p}, weight, q);
      assert names - {q} - {p} == names - {p} - {q};
    }
  }

  lemma {:induction false} SumUnion(a: set<string>, b: set<string>, weight: map<string, nat>)
    requires a + b <= weight.Keys && a !! b
    ensures Sum(a + b, weight) == Sum(a, weight) + Sum(b, weight)
    decreases |a|
  {
    if a == {} {
      assert a + b == b;
    } else {
      var p :| p in a;
      SumPick(a, weight, p);
      SumPick(a + b, weight, p);
      SumUnion(a - {p}, b, weight);
      assert a + b - {p} == (a - {p}) + b;
    }
  }

  lemma {:induction false} SumAtMost(names: set<string>, v: map<string, nat>, w: map<string, nat>)
    requires names <= v.Keys && names <= w.Keys && forall p :: p in names ==> v[p] <= w[p]
    ensures Sum(names, v) <= Sum(names, w)
    decreases |names|
  {
    if names != {} {
      var p :| p in names;
      SumPick(names, v, p);
      SumPick(names, w, p);
      SumAtMost(names - {p}, v, w);
    }
  }

  function Weights(dirs: map<string, Directory>, refresh: bool): map<string, nat> {
    map p | p in dirs :: Weight(dirs[p], refresh)
  }

  // ---- the order of a prune ----

  /** The position of a name in the listing. */
  function Place(listing: seq<string>, p: string): nat {
    if listing == [] || listing[0] == p then 0 else 1 + Place(listing[1..], p)
  }

  /** Used longer ago; among equals the smaller name, then the place in the listing. */
  predicate Earlier(listing: seq<string>, dirs: map<string, Directory>, p: string, q: string)
    requires p in dirs && q in dirs
  {
    || LastUse(dirs[p]) < LastUse(dirs[q])
    || (LastUse(dirs[p]) == LastUse(dirs[q])
        && (|| StrLt(Name(p, dirs[p]), Name(q, dirs[q]))
            || (Name(p, dirs[p]) == Name(q, dirs[q]) && Place(listing, p) < Place(listing, q))))
  }

  lemma {:induction false} PlaceAt(listing: seq<string>, i: nat)
    requires Distinct(listing) && i < |listing|
    ensures Place(listing, listing[i]) == i
  {
    if i > 0 {
      assert Distinct(listing[1..]) && listing[0] != listing[i];
      PlaceAt(listing[1..], i - 1);
    }
  }

  /** An entry says what its directory says. */
  lemma Described(p: string, d: Directory, refresh: bool)
    ensures Describe(p, d, refresh) == Entry(Name(p, d), p, Weight(d, refresh), LastUse(d), Held(d))
  {}

  function ByPlace(listing: seq<string>): (Entry, Entry) -> bool {
    (a: Entry, b: Entry) => Place(listing, a.path) <= Place(listing, b.path)
  }

  function ByIdentityThenPlace(listing: seq<string>): (Entry, Entry) -> bool {
    (a: Entry, b: Entry) => IdentityLe(a, b) && (IdentityLe(b, a) ==> ByPlace(listing)(a, b))
  }

  lemma ScheduleByPlace(listing: seq<string>, dirs: map<string, Directory>, refresh: bool)
    requires Lists(listing, dirs) && forall p :: p in listing ==> p in dirs
    ensures SortedLex(Schedule(listing, dirs, refresh), LastUsedLe, ByIdentityThenPlace(listing))
  {
    EntryOrders();
    var d := DescribeAll(listing, dirs, refresh);
    forall i, j | 0 <= i < j < |d| ensures ByPlace(listing)(d[i], d[j]) {
      PlaceAt(listing, i);
      PlaceAt(listing, j);
      assert d[i].path == listing[i] && d[j].path == listing[j];
    }
    SortByStable(d, IdentityLe, ByPlace(listing));
    var named := SortBy(d, IdentityLe);
    assert SortedBy(named, ByIdentityThenPlace(listing));
    SortByStable(named, LastUsedLe, ByIdentityThenPlace(listing));
  }

  /** The schedule names every directory once, the earlier ones first. */
  lemma ScheduleIsEarliestFirst(listing: seq<string>, dirs: map<string, Directory>, refresh: bool)
    requires Lists(listing, dirs) && forall p :: p in listing ==> p in dirs
    ensures var s := Schedule(listing, dirs, refresh);
      && (forall i :: 0 <= i < |s| ==> s[i].path in dirs && s[i] == Describe(s[i].path, dirs[s[i].path], refresh))
      && (forall i, j :: 0 <= i < j < |s| ==> Earlier(listing, dirs, s[i].path, s[j].path) && s[i].path != s[j].path)
      && Paths(s) == dirs.Keys
  {
    var s := Schedule(listing, dirs, refresh);
    ScheduledPaths(listing, dirs, refresh);
    ScheduleElements(listing, dirs, refresh);
    ScheduleByPlace(listing, dirs, refresh);
    hide Schedule, Describe;
    forall i | 0 <= i < |s| ensures s[i].path in dirs && s[i] == Describe(s[i].path, dirs[s[i].path], refresh) {
      assert s[i] in s;
    }
    forall i, j | 0 <= i < j < |s|
      ensures Earlier(listing, dirs, s[i].path, s[j].path) && s[i].path != s[j].path
    {
      LexIsEarlier(listing, dirs, refresh, s[i], s[j]);
    }
    forall p | p in dirs ensures p in Paths(s) {
      Described(p, dirs[p], refresh);
      var e := Describe(p, dirs[p], refresh);
      assert e in Elements(s);
      var i :| 0 <= i < |s| && s[i] == e;
    }
  }

  lemma LexIsEarlier(listing: seq<string>, dirs: map<string, Directory>, refresh: bool, a: Entry, b: Entry)
    requires Lists(listing, dirs) && a.path in dirs && b.path in dirs && a != b
    requires a == Describe(a.path, dirs[a.path], refresh) && b == Describe(b.path, dirs[b.path], refresh)
    requires LastUsedLe(a, b) && (LastUsedLe(b, a) ==> ByIdentityThenPlace(listing)(a, b))
    ensures Earlier(listing, dirs, a.path, b.path) && a.path != b.path
  {
    Described(a.path, dirs[a.path], refresh);
    Described(b.path, dirs[b.path], refresh);
    assert a.path in Elements(listing) && b.path in Elements(listing);
    var i :| 0 <= i < |listing| && listing[i] == a.path;
    var j :| 0 <= j < |listing| && listing[j] == b.path;
    PlaceAt(listing, i);
    PlaceAt(listing, j);
    if a.lastUsed == b.lastUsed {
      StrLeTotal(a.identity, a.identity);
      assert ByIdentityThenPlace(listing)(a, b);
      assert IdentityLe(a, b) && (a.identity == b.identity ==> ByPlace(listing)(a, b));
      assert i != j;
    }
  }

  // ---- which directories a prune takes ----

  /** The idle directories that come earlier. */
  function EarlierIdle(listing: seq<string>, dirs: map<string, Directory>, p: string): set<string>
    requires p in dirs
  {
    set q | q in dirs && !Held(dirs[q]) && Earlier(listing, dirs, q, p)
  }

  /** Without the idle directories that come earlier the cache is still over the limit. */
  ghost predicate Due(listing: seq<string>, dirs: map<string, Directory>, max: nat, refresh: bool, p: string)
    requires p in dirs
  {
    Sum(dirs.Keys, Weights(dirs, refresh)) > max + Sum(EarlierIdle(listing, dirs, p), Weights(dirs, refresh))
  }

  /** A budget prune tries the directories that are due, a selective one those asked for by name. */
  ghost predicate Tried(listing: seq<string>, dirs: map<string, Directory>, max: nat, wanted: seq<string>, refresh: bool,
                        p: string)
    requires p in dirs
  {
    if wanted == [] then Due(listing, dirs, max, refresh, p) else Name(p, dirs[p]) in wanted
  }

  ghost function Taken(listing: seq<string>, dirs: map<string, Directory>, max: nat, wanted: seq<string>, refresh: bool)
    : set<string>
  {
    set p | p in dirs && !Held(dirs[p]) && Tried(listing, dirs, max, wanted, refresh, p)
  }

  ghost function Passed(listing: seq<string>, dirs: map<string, Directory>, max: nat, wanted: seq<string>, refresh: bool)
    : set<string>
  {
    set p | p in dirs && Held(dirs[p]) && Tried(listing, dirs, max, wanted, refresh, p)
  }

  // ---- entries and their directories ----

  /** Entries of different directories, the earlier first, each saying what its directory says. */
  ghost predicate Tells(listing: seq<string>, dirs: map<string, Directory>, refresh: bool, s: seq<Entry>) {
    && (forall i :: 0 <= i < |s| ==> s[i].path in dirs)
    && (forall i :: 0 <= i < |s| ==>
          s[i].bytes == Weight(dirs[s[i].path], refresh) && s[i].identity == Name(s[i].path, dirs[s[i].path]))
    && (forall i, j :: 0 <= i < j < |s| ==> Earlier(listing, dirs, s[i].path, s[j].path) && s[i].path != s[j].path)
  }

  lemma ScheduleTells(listing: seq<string>, dirs: map<string, Directory>, refresh: bool)
    requires Lists(listing, dirs) && forall p :: p in listing ==> p in dirs
    ensures Tells(listing, dirs, refresh, Schedule(listing, dirs, refresh))
    ensures Paths(Schedule(listing, dirs, refresh)) == dirs.Keys
  {
    ScheduleIsEarliestFirst(listing, dirs, refresh);
    hide Schedule, Describe, Earlier;
    var s := Schedule(listing, dirs, refresh);
    forall i | 0 <= i < |s|
      ensures s[i].bytes == Weight(dirs[s[i].path], refresh) && s[i].identity == Name(s[i].path, dirs[s[i].path])
    {
      Described(s[i].path, dirs[s[i].path], refresh);
    }
  }

  lemma PathsFirst(s: seq<Entry>)
    requires s != []
    ensures Paths(s) == {s[0].path} + Paths(s[1..])
  {
    forall i | 1 <= i < |s| ensures s[i].path in Paths(s[1..]) { assert s[1..][i - 1] == s[i]; }
    forall i | 0 <= i < |s[1..]| ensures s[1..][i].path in Paths(s) { assert s[i + 1] == s[1..][i]; }
  }

  lemma TellsRest(listing: seq<string>, dirs: map<string, Directory>, refresh: bool, s: seq<Entry>)
    requires Tells(listing, dirs, refresh, s) && s != []
    ensures Tells(listing, dirs, refresh, s[1..]) && s[0].path !in Paths(s[1..]) && Paths(s) <= dirs.Keys
  {
    hide Earlier;
    forall i | 0 <= i < |s[1..]| ensures s[1..][i].path != s[0].path { assert s[1..][i] == s[i + 1]; }
  }

  /** Adding up entries is adding up their directories. */
  lemma {:induction false} TotalIsSum(listing: seq<string>, dirs: map<string, Directory>, refresh: bool, s: seq<Entry>)
    requires Tells(listing, dirs, refresh, s)
    ensures Paths(s) <= dirs.Keys && Total(s) == Sum(Paths(s), Weights(dirs, refresh))
  {
    hide Earlier, Weight;
    if s != [] {
      TellsRest(listing, dirs, refresh, s);
      PathsFirst(s);
      TotalIsSum(listing, dirs, refresh, s[1..]);
      SumPick(Paths(s), Weights(dirs, refresh), s[0].path);
      assert Paths(s) - {s[0].path} == Paths(s[1..]);
    }
  }

  lemma {:induction false} PartTells(listing: seq<string>, dirs: map<string, Directory>, refresh: bool, s: seq<Entry>,
                                     locked: set<string>)
    requires Tells(listing, dirs, refresh, s)
    ensures Tells(listing, dirs, refresh, Idle(s, locked)) && Tells(listing, dirs, refresh, Busy(s, locked))
    ensures Paths(Idle(s, locked)) == Paths(s) - locked && Paths(Busy(s, locked)) == Paths(s) * locked
  {
    hide Earlier, Weight;
    if s != [] {
      TellsRest(listing, dirs, refresh, s);
      PartTells(listing, dirs, refresh, s[1..], locked);
      PathsFirst(s);
      AddTells(listing, dirs, refresh, s, if s[0].path in locked then Busy(s[1..], locked) else Idle(s[1..], locked));
    }
  }

  /** The first entry before some of the later ones. */
  lemma AddTells(listing: seq<string>, dirs: map<string, Directory>, refresh: bool, s: seq<Entry>, part: seq<Entry>)
    requires Tells(listing, dirs, refresh, s) && s != [] && Tells(listing, dirs, refresh, part)
    requires Paths(part) <= Paths(s[1..])
    ensures Tells(listing, dirs, refresh, [s[0]] + part) && Paths([s[0]] + part) == {s[0].path} + Paths(part)
  {
    hide Earlier, Weight;
    var t := [s[0]] + part;
    PathsFirst(t);
    assert t[1..] == part;
    forall j | 0 <= j < |part|
      ensures part[j].path != s[0].path && part[j].path in dirs && Earlier(listing, dirs, s[0].path, part[j].path)
    {
      assert part[j].path in Paths(part);
      var k :| 0 <= k < |s[1..]| && s[1..][k].path == part[j].path;
      assert s[k + 1] == s[1..][k];
    }
  }

  // ---- a budget prune ----

  lemma EarlierOneWay(listing: seq<string>, dirs: map<string, Directory>, p: string, q: string)
    requires p in dirs && q in dirs && Earlier(listing, dirs, p, q)
    ensures !Earlier(listing, dirs, q, p)
  {
    var a, b := Name(p, dirs[p]), Name(q, dirs[q]);
    if StrLe(a, b) && StrLe(b, a) { StrLeAntisymmetric(a, b); }
  }

  lemma PathAt(s: seq<Entry>, n: nat, p: string) returns (k: nat)
    requires n <= |s| && p in Paths(s[..n])
    ensures k < n && s[k].path == p
  {
    k :| 0 <= k < n && s[..n][k].path == p;
  }

  lemma PrefixTells(listing: seq<string>, dirs: map<string, Directory>, refresh: bool, s: seq<Entry>, n: nat)
    requires Tells(listing, dirs, refresh, s) && n <= |s|
    ensures Tells(listing, dirs, refresh, s[..n])
  {
    hide Earlier, Weight;
  }

  /** The idle entries before an entry are the earlier idle directories. */
  lemma EarlierIsPrefix(listing: seq<string>, dirs: map<string, Directory>, refresh: bool, s: seq<Entry>, k: nat)
    requires Tells(listing, dirs, refresh, s) && Paths(s) == dirs.Keys && k < |s|
    ensures EarlierIdle(listing, dirs, s[k].path) == Paths(Idle(s[..k], LockedPaths(dirs)))
  {
    hide Earlier, Weight;
    PrefixTells(listing, dirs, refresh, s, k);
    PartTells(listing, dirs, refresh, s[..k], LockedPaths(dirs));
    forall q | q in dirs ensures Earlier(listing, dirs, q, s[k].path) <==> q in Paths(s[..k]) {
      var i :| 0 <= i < |s| && s[i].path == q;
      if i < k {
        assert s[..k][i].path == q;
      } else {
        if i > k { EarlierOneWay(listing, dirs, s[k].path, q); }
        if i == k { NotEarlierThanItself(listing, dirs, q); }
        if q in Paths(s[..k]) { var j := PathAt(s, k, q); }
      }
    }
    forall q ensures q in EarlierIdle(listing, dirs, s[k].path) <==> q in Paths(Idle(s[..k], LockedPaths(dirs))) {
      if q in Paths(s[..k]) { var j := PathAt(s, k, q); }
    }
  }

  lemma NotEarlierThanItself(listing: seq<string>, dirs: map<string, Directory>, p: string)
    requires p in dirs
    ensures !Earlier(listing, dirs, p, p)
  {
  }

  lemma IdleMore(s: seq<Entry>, m: nat, n: nat, locked: set<string>)
    requires m <= n <= |s|
    ensures Total(Idle(s[..m], locked)) <= Total(Idle(s[..n], locked))
  {
    IdleConcat(s[..m], s[m..n], locked);
    TotalAppend(Idle(s[..m], locked), Idle(s[m..n], locked));
    assert s[..m] + s[m..n] == s[..n];
  }

  lemma {:induction false} IdleConcat(a: seq<Entry>, b: seq<Entry>, locked: set<string>)
    ensures Idle(a + b, locked) == Idle(a, locked) + Idle(b, locked)
  {
    if a == [] {
      assert a + b == b;
    } else {
      assert (a + b)[1..] == a[1..] + b;
      IdleConcat(a[1..], b, locked);
    }
  }

  /** The entries a budget prune passes are the due ones; it ends within the limit or has passed them all. */
  lemma DueIsPrefix(listing: seq<string>, dirs: map<string, Directory>, refresh: bool, s: seq<Entry>, max: nat)
      returns (n: nat)
    requires Tells(listing, dirs, refresh, s) && Paths(s) == dirs.Keys
    ensures n <= |s| && forall k :: 0 <= k < |s| ==> (Due(listing, dirs, max, refresh, s[k].path) <==> k < n)
    ensures var locked := LockedPaths(dirs); var o := Plan(s, [], max, locked);
      && o.removed == Idle(s[..n], locked) && o.skipped == Busy(s[..n], locked) && o.found == []
      && o.projected == Total(s) - Total(o.removed) && (n < |s| ==> o.projected <= max)
  {
    var locked := LockedPaths(dirs);
    var start := Outcome(Total(s), [], [], []);
    n := VisitBudget(s, max, locked, start);
    NothingFound(s, max, locked, start);
    TotalIsSum(listing, dirs, refresh, s);
    hide Due, Visit, Tells, LockedPaths, Earlier;
    forall k | 0 <= k < |s| ensures Due(listing, dirs, max, refresh, s[k].path) <==> k < n {
      DueAt(listing, dirs, refresh, s, max, k);
      if k >= n { IdleMore(s, n, k, locked); }
    }
  }

  lemma DueAt(listing: seq<string>, dirs: map<string, Directory>, refresh: bool, s: seq<Entry>, max: nat, k: nat)
    requires Tells(listing, dirs, refresh, s) && Paths(s) == dirs.Keys && k < |s|
    ensures s[k].path in dirs
    ensures Due(listing, dirs, max, refresh, s[k].path) <==> Total(s) > max + Total(Idle(s[..k], LockedPaths(dirs)))
  {
    TotalIsSum(listing, dirs, refresh, s);
    EarlierIsPrefix(listing, dirs, refresh, s, k);
    PrefixTells(listing, dirs, refresh, s, k);
    PartTells(listing, dirs, refresh, s[..k], LockedPaths(dirs));
    TotalIsSum(listing, dirs, refresh, Idle(s[..k], LockedPaths(dirs)));
    hide Tells, Idle, Earlier, EarlierIdle, LockedPaths;
  }

  lemma {:induction false} NothingFound(s: seq<Entry>, max: nat, locked: set<string>, o: Outcome)
    ensures Visit(s, [], max, locked, o).found == o.found
  {
    if s != [] && max < o.projected { NothingFound(s[1..], max, locked, Take(o, s[0], false, locked)); }
  }

  // ---- a selective prune ----

  lemma {:induction false} ChosenTells(listing: seq<string>, dirs: map<string, Directory>, refresh: bool, s: seq<Entry>,
                                       wanted: seq<string>)
    requires Tells(listing, dirs, refresh, s)
    ensures Tells(listing, dirs, refresh, Chosen(s, wanted))
    ensures Paths(s) <= dirs.Keys && Paths(Chosen(s, wanted)) == set p | p in Paths(s) && Name(p, dirs[p]) in wanted
  {
    hide Earlier, Weight;
    if s != [] {
      TellsRest(listing, dirs, refresh, s);
      ChosenTells(listing, dirs, refresh, s[1..], wanted);
      PathsFirst(s);
      AddTells(listing, dirs, refresh, s, Chosen(s[1..], wanted));
    }
  }

  // ---- the report ----

  /** The names of the directories, in the order of the prune. */
  ghost predicate NamesInOrder(listing: seq<string>, dirs: map<string, Directory>, paths: set<string>, names: seq<string>)
    requires paths <= dirs.Keys
  {
    exists order: seq<string> ::
      && Elements(order) == paths && |order| == |names|
      && (forall i :: 0 <= i < |order| ==> order[i] in dirs && names[i] == Name(order[i], dirs[order[i]]))
      && forall i, j :: 0 <= i < j < |order| ==>
           order[i] in dirs && order[j] in dirs && Earlier(listing, dirs, order[i], order[j])
  }

  /** The names asked for that no directory has, in the order asked. */
  function Missing(wanted: seq<string>, dirs: map<string, Directory>): seq<string> {
    if wanted == [] then []
    else (if exists p :: p in dirs && Name(p, dirs[p]) == wanted[0] then [] else [wanted[0]]) + Missing(wanted[1..], dirs)
  }

  /** Every field of a report, from the directories it is about. */
  ghost predicate Explains(listing: seq<string>, dirs: map<string, Directory>, max: nat, wanted: seq<string>, refresh: bool,
                           dryRun: bool, r: Report)
  {
    var weights := Weights(dirs, refresh);
    var taken, passed := Taken(listing, dirs, max, wanted, refresh), Passed(listing, dirs, max, wanted, refresh);
    && r.maxBytes == max && r.dryRun == dryRun
    && r.beforeBytes == Sum(dirs.Keys, weights)
    && r.removedBytes == Sum(taken, weights)
    && r.afterBytes == Sum(dirs.Keys - taken, weights)
    && NamesInOrder(listing, dirs, taken, r.removed)
    && NamesInOrder(listing, dirs, passed, r.skipped)
    && r.notFound == Missing(wanted, dirs)
  }

  lemma NamesTold(listing: seq<string>, dirs: map<string, Directory>, refresh: bool, s: seq<Entry>)
    requires Tells(listing, dirs, refresh, s)
    ensures Paths(s) <= dirs.Keys && NamesInOrder(listing, dirs, Paths(s), Identities(s))
  {
    hide Earlier, Weight;
    IdentitiesAt(s);
    var order := seq(|s|, i requires 0 <= i < |s| => s[i].path);
    forall p ensures p in Elements(order) <==> p in Paths(s) {
      if p in Paths(s) {
        var i :| 0 <= i < |s| && s[i].path == p;
        assert order[i] == p;
      }
    }
    assert Elements(order) == Paths(s) && |order| == |Identities(s)|;
  }

  lemma {:induction false} IdentitiesAt(s: seq<Entry>)
    ensures |Identities(s)| == |s| && forall i :: 0 <= i < |s| ==> Identities(s)[i] == s[i].identity
  {
    if s != [] { IdentitiesAt(s[1..]); }
  }

  lemma {:induction false} MissingExact(wanted: seq<string>, dirs: map<string, Directory>, found: seq<string>)
    requires forall w :: w in wanted ==> (w in found <==> exists p :: p in dirs && Name(p, dirs[p]) == w)
    ensures Without(wanted, found) == Missing(wanted, dirs)
  {
    hide Name;
    if wanted != [] {
      assert wanted[0] in wanted;
      MissingExact(wanted[1..], dirs, found);
    }
  }

  /** The plan takes and passes exactly the directories tried. */
  ghost predicate PlansFor(listing: seq<string>, dirs: map<string, Directory>, max: nat, wanted: seq<string>, refresh: bool,
                           s: seq<Entry>, o: Outcome)
  {
    && Tells(listing, dirs, refresh, o.removed) && Paths(o.removed) == Taken(listing, dirs, max, wanted, refresh)
    && Tells(listing, dirs, refresh, o.skipped) && Paths(o.skipped) == Passed(listing, dirs, max, wanted, refresh)
    && Without(wanted, o.found) == Missing(wanted, dirs)
    && o.projected + Total(o.removed) == Total(s)
  }

  lemma BudgetPlans(listing: seq<string>, dirs: map<string, Directory>, max: nat, refresh: bool, s: seq<Entry>)
    requires Tells(listing, dirs, refresh, s) && Paths(s) == dirs.Keys
    ensures PlansFor(listing, dirs, max, [], refresh, s, Plan(s, [], max, LockedPaths(dirs)))
    ensures Plan(s, [], max, LockedPaths(dirs)).projected <= max
      || forall p :: p in dirs && !Held(dirs[p]) ==> p in Taken(listing, dirs, max, [], refresh)
  {
    var n := DueIsPrefix(listing, dirs, refresh, s, max);
    var locked := LockedPaths(dirs);
    PrefixTells(listing, dirs, refresh, s, n);
    PartTells(listing, dirs, refresh, s[..n], locked);
    BudgetSets(listing, dirs, max, refresh, s, n);
    IdleWithin(s, n, locked);
    assert Without([], Plan(s, [], max, locked).found) == Missing([], dirs);
    hide Tells, Plan, Idle, Busy, Total, Taken, Passed, LockedPaths;
  }

  lemma IdleWithin(s: seq<Entry>, n: nat, locked: set<string>)
    requires n <= |s|
    ensures Total(Idle(s[..n], locked)) <= Total(s)
  {
    IdleMore(s, n, |s|, locked);
    IdleAtMost(s, locked);
    assert s[..|s|] == s;
  }

  lemma BudgetSets(listing: seq<string>, dirs: map<string, Directory>, max: nat, refresh: bool, s: seq<Entry>, n: nat)
    requires Tells(listing, dirs, refresh, s) && Paths(s) == dirs.Keys && n <= |s|
    requires forall k :: 0 <= k < |s| ==> (Due(listing, dirs, max, refresh, s[k].path) <==> k < n)
    ensures Taken(listing, dirs, max, [], refresh) == Paths(s[..n]) - LockedPaths(dirs)
    ensures Passed(listing, dirs, max, [], refresh) == Paths(s[..n]) * LockedPaths(dirs)
    ensures n == |s| ==> forall p :: p in dirs && !Held(dirs[p]) ==> p in Taken(listing, dirs, max, [], refresh)
  {
    hide Due, Earlier, Weight;
    PrefixPaths(s, n);
    forall p | p in dirs ensures Tried(listing, dirs, max, [], refresh, p) <==> p in Paths(s[..n]) {
      DueInPrefix(listing, dirs, refresh, s, max, n, p);
    }
    TriedSplits(listing, dirs, max, [], refresh, Paths(s[..n]));
    if n == |s| { assert s[..n] == s; }
  }

  /** The tried directories are taken when idle and passed when held. */
  lemma TriedSplits(listing: seq<string>, dirs: map<string, Directory>, max: nat, wanted: seq<string>, refresh: bool,
                    tried: set<string>)
    requires tried <= dirs.Keys
    requires forall p :: p in dirs ==> (Tried(listing, dirs, max, wanted, refresh, p) <==> p in tried)
    ensures Taken(listing, dirs, max, wanted, refresh) == tried - LockedPaths(dirs)
    ensures Passed(listing, dirs, max, wanted, refresh) == tried * LockedPaths(dirs)
  {
    hide Tried;
  }

  lemma PrefixPaths(s: seq<Entry>, n: nat)
    requires n <= |s|
    ensures Paths(s[..n]) <= Paths(s)
  {
    forall i | 0 <= i < n ensures s[..n][i].path in Paths(s) { assert s[..n][i] == s[i]; }
  }

  lemma DueInPrefix(listing: seq<string>, dirs: map<string, Directory>, refresh: bool, s: seq<Entry>, max: nat, n: nat,
                    p: string)
    requires Tells(listing, dirs, refresh, s) && Paths(s) == dirs.Keys && n <= |s| && p in dirs
    requires forall k :: 0 <= k < |s| ==> s[k].path in dirs && (Due(listing, dirs, max, refresh, s[k].path) <==> k < n)
    ensures Due(listing, dirs, max, refresh, p) <==> p in Paths(s[..n])
  {
    hide Due, Earlier, Weight;
    var k :| 0 <= k < |s| && s[k].path == p;
    if k < n { assert s[..n][k].path == p; }
    if p in Paths(s[..n]) { var j := PathAt(s, n, p); }
  }

  lemma SelectivePlans(listing: seq<string>, dirs: map<string, Directory>, max: nat, wanted: seq<string>, refresh: bool,
                       s: seq<Entry>)
    requires Tells(listing, dirs, refresh, s) && Paths(s) == dirs.Keys && wanted != []
    ensures PlansFor(listing, dirs, max, wanted, refresh, s, Plan(s, wanted, max, LockedPaths(dirs)))
  {
    var locked, tried := LockedPaths(dirs), Paths(Chosen(s, wanted));
    hide Plan, Idle, Busy, Total, Chosen, Name, Earlier, Weight, Due, Identities, Tells, Taken, Passed, Paths, LockedPaths;
    SelectivePruneTakesTheRequested(s, wanted, max, locked);
    ChosenTells(listing, dirs, refresh, s, wanted);
    PartTells(listing, dirs, refresh, Chosen(s, wanted), locked);
    FoundNames(listing, dirs, refresh, s, wanted);
    MissingExact(wanted, dirs, Identities(Chosen(s, wanted)));
    TriedSplits(listing, dirs, max, wanted, refresh, tried);
  }

  lemma FoundNames(listing: seq<string>, dirs: map<string, Directory>, refresh: bool, s: seq<Entry>, wanted: seq<string>)
    requires Tells(listing, dirs, refresh, s) && Paths(s) == dirs.Keys
    ensures forall w :: w in wanted ==>
      (w in Identities(Chosen(s, wanted)) <==> exists p :: p in dirs && Name(p, dirs[p]) == w)
  {
    var c := Chosen(s, wanted);
    ChosenTells(listing, dirs, refresh, s, wanted);
    IdentitiesAt(c);
    hide Chosen, Earlier, Weight, Name;
    forall w | w in wanted ensures w in Identities(c) <==> exists p :: p in dirs && Name(p, dirs[p]) == w {
      if p :| p in dirs && Name(p, dirs[p]) == w {
        assert p in Paths(c);
        var i :| 0 <= i < |c| && c[i].path == p;
        assert Identities(c)[i] == w;
      }
      if w in Identities(c) {
        var i :| 0 <= i < |Identities(c)| && Identities(c)[i] == w;
        assert Name(c[i].path, dirs[c[i].path]) == w;
      }
    }
  }

  /**
   The report of a prune, field by field, and what is left: a budget prune takes each idle directory without which, and
   without the idle ones before it, the cache was still over the limit, and a selective one the idle directories asked for.
   */
  lemma ReportExact(listing: seq<string>, dirs: map<string, Directory>, max: nat, wanted: seq<string>, refresh: bool,
                    dryRun: bool)
    requires Lists(listing, dirs) && forall p :: p in listing ==> p in dirs
    ensures Explains(listing, dirs, max, wanted, refresh, dryRun, Planned(listing, dirs, max, wanted, refresh, dryRun))
    ensures Keep(dirs, PlanOf(listing, dirs, max, wanted, refresh).removed)
      == dirs - Taken(listing, dirs, max, wanted, refresh)
  {
    hide Schedule, Taken, Plan, Tells, Explains, PlansFor, Identities, Total, Without, Paths;
    var s := Schedule(listing, dirs, refresh);
    var o := Plan(s, wanted, max, LockedPaths(dirs));
    ScheduleTells(listing, dirs, refresh);
    if wanted == [] {
      BudgetPlans(listing, dirs, max, refresh, s);
    } else {
      SelectivePlans(listing, dirs, max, wanted, refresh, s);
    }
    PlannedExact(listing, dirs, max, wanted, refresh, s, o);
    PlansTake(listing, dirs, max, wanted, refresh, s, o);
  }

  lemma PlansTake(listing: seq<string>, dirs: map<string, Directory>, max: nat, wanted: seq<string>, refresh: bool,
                  s: seq<Entry>, o: Outcome)
    requires PlansFor(listing, dirs, max, wanted, refresh, s, o)
    ensures Paths(o.removed) == Taken(listing, dirs, max, wanted, refresh)
  {
    hide Tells, Taken, Paths;
  }

  function PlanOf(listing: seq<string>, dirs: map<string, Directory>, max: nat, wanted: seq<string>, refresh: bool): Outcome
    requires forall p :: p in listing ==> p in dirs
  {
    Plan(Schedule(listing, dirs, refresh), wanted, max, LockedPaths(dirs))
  }

  lemma PlannedExact(listing: seq<string>, dirs: map<string, Directory>, max: nat, wanted: seq<string>, refresh: bool,
                     s: seq<Entry>, o: Outcome)
    requires Tells(listing, dirs, refresh, s) && Paths(s) == dirs.Keys
    requires PlansFor(listing, dirs, max, wanted, refresh, s, o)
    ensures forall dryRun :: Explains(listing, dirs, max, wanted, refresh, dryRun,
      Report(max, Total(s), o.projected, Total(o.removed), Identities(o.removed), Identities(o.skipped),
             Without(wanted, o.found), dryRun))
  {
    hide Tells, Taken, Passed, Weights, NamesInOrder, Missing, Without, Paths, Total, Identities, Sum;
    NamesTold(listing, dirs, refresh, o.removed);
    NamesTold(listing, dirs, refresh, o.skipped);
    TotalIsSum(listing, dirs, refresh, s);
    TotalIsSum(listing, dirs, refresh, o.removed);
    var taken := Taken(listing, dirs, max, wanted, refresh);
    TakenSum(dirs, refresh, taken);
  }

  lemma TakenSum(dirs: map<string, Directory>, refresh: bool, taken: set<string>)
    requires taken <= dirs.Keys
    ensures Sum(dirs.Keys, Weights(dirs, refresh))
      == Sum(taken, Weights(dirs, refresh)) + Sum(dirs.Keys - taken, Weights(dirs, refresh))
  {
    SumUnion(taken, dirs.Keys - taken, Weights(dirs, refresh));
    assert taken + (dirs.Keys - taken) == dirs.Keys;
  }
}
