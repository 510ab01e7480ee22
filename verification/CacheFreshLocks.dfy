/** What holds while every refresh locks its current lock file, and what else breaks. */
module CacheFreshLocks {
  import opened Orders
  import opened CacheProtocol
  import opened CacheInvariant
  import opened CacheDirtyMark
  import opened CacheProgress

  /** The lock file is the one in the domain's directory. */
  predicate Current(s: State, n: Name, l: LockId) {
    n in s.entries && s.entries[n].lock == l
  }

  /** A refresh that gets its lock although the directory it opened the file in is gone or was made anew. */
  predicate TakesStaleLock(s: State, a: Action) {
    a.TryRefresh? && At(s, a.p).Opened? && Free(s, At(s, a.p).lock) && !Current(s, At(s, a.p).name, At(s, a.p).lock)
  }

  predicate Refreshes(c: Control) {
    c.Refreshing? || c.Measured?
  }

  /** Every refresh holds the lock file of its domain's directory. */
  ghost predicate RefreshersCurrent(s: State) {
    forall p :: p in s.procs && Refreshes(s.procs[p]) ==> Current(s, s.procs[p].name, s.procs[p].lock)
  }

  /** A domain being refreshed cannot be removed: the removal would hold the refresher's lock as well. */
  lemma RefresherBlocksRemoval(s: State, a: Action, p: Pid)
    requires Inv(s) && Enabled(s, a) && p in s.procs && p != a.p && Refreshes(s.procs[p])
    requires Current(s, s.procs[p].name, s.procs[p].lock)
    ensures Current(Apply(s, a), s.procs[p].name, s.procs[p].lock)
  {
    hide Apply, OneManager, LocksAllocated, Free, ManagerFree, NoExclusive;
    StepEntries(s, a);
    var r := s.procs[p];
    if a.Remove? {
      var claim := At(s, a.p).claim.value;
      assert Pins(s.procs[a.p], claim.name, claim.lock);
      assert Excludes(s.procs[a.p], claim.lock) && Excludes(r, r.lock);
    }
  }

  /** What a process refreshes after its step it refreshed before, or it has just taken the lock. */
  lemma OwnRefresh(s: State, a: Action)
    requires Enabled(s, a) && Refreshes(At(Apply(s, a), a.p)) && !TakesStaleLock(s, a)
    requires Refreshes(At(s, a.p)) ==> Current(s, At(s, a.p).name, At(s, a.p).lock)
    ensures var c := At(Apply(s, a), a.p); Current(Apply(s, a), c.name, c.lock)
  {
    hide ManagerFree, NoExclusive;
  }

  lemma RefreshersStep(s: State, a: Action)
    requires Inv(s) && Enabled(s, a) && RefreshersCurrent(s) && !TakesStaleLock(s, a)
    ensures RefreshersCurrent(Apply(s, a))
  {
    hide Apply, Inv, Enabled, Current, Refreshes, TakesStaleLock;
    StepLocal(s, a);
    IdleRefreshesNothing();
    var t := Apply(s, a);
    forall p | p in t.procs && Refreshes(t.procs[p]) ensures Current(t, t.procs[p].name, t.procs[p].lock) {
      assert At(t, p) == t.procs[p];
      if p == a.p {
        OwnRefresh(s, a);
      } else {
        assert At(s, p) == s.procs[p];
        RefresherBlocksRemoval(s, a, p);
      }
    }
  }

  lemma IdleRefreshesNothing()
    ensures !Refreshes(Idle) && forall c :: Refreshes(c) <==> c.Refreshing? || c.Measured?
  {}

  /** Everything that holds as long as no refresh takes a stale lock. */
  ghost predicate Good(s: State) {
    Inv(s) && DirtyMark(s) && MeasurementsHold(s) && RefreshersCurrent(s)
  }

  lemma CurrentNeverBreaks(s: State, a: Action)
    requires RefreshersCurrent(s)
    ensures !BreaksMark(s, a)
  {
    var c := At(s, a.p);
    assert c.Measured? ==> Refreshes(s.procs[a.p]);
  }

  lemma GoodStep(s: State, a: Action)
    requires Good(s) && Enabled(s, a) && !TakesStaleLock(s, a)
    ensures Good(Apply(s, a))
  {
    hide Apply, Inv, Enabled, DirtyMark, MeasurementsHold, RefreshersCurrent, BreaksMark, TakesStaleLock;
    InvStep(s, a);
    RefreshersStep(s, a);
    MeasurementsStep(s, a);
    CurrentNeverBreaks(s, a);
    DirtyMarkExact(s, a);
  }

  lemma GoodInitially()
    ensures Good(INITIAL)
  {}

  /** In a run whose refreshes all took current locks every state is good. */
  lemma {:induction false} GoodRun(run: seq<State>, acts: seq<Action>, i: nat)
    requires IsRun(run, acts) && i < |run|
    requires forall j :: 0 <= j < i ==> !TakesStaleLock(run[j], acts[j])
    ensures Good(run[i])
  {
    hide Good, TakesStaleLock;
    if i == 0 {
      GoodInitially();
    } else {
      GoodRun(run, acts, i - 1);
      GoodStep(run[i - 1], acts[i - 1]);
    }
  }

  /**
   As long as every refresh that got its lock got the one in its domain's directory, every leased domain is marked dirty
   and no prune counts an idle domain for less than it holds, whatever crashed before.
   */
  lemma IdleDomainsAreNeverUnderCounted(run: seq<State>, acts: seq<Action>, i: nat, n: Name, refresh: bool)
    requires IsRun(run, acts) && i < |run| && n in run[i].entries
    requires forall j :: 0 <= j < i ==> !TakesStaleLock(run[j], acts[j])
    ensures LiveLease(run[i], n) ==>
      run[i].entries[n].published.Some? && run[i].entries[n].published.value.measuredAt == 0
    ensures Free(run[i], run[i].entries[n].lock) ==>
      run[i].entries[n].target <= Counted(run[i].entries[n], false, refresh)
  {
    GoodRun(run, acts, i);
    assert EntryHonest(run[i], n);
  }

  // ---- what one stale lock can break ----

  /** A continuation in which no further refresh takes a stale lock. */
  ghost predicate FreshPath(path: seq<State>, acts: seq<Action>) {
    && |path| == |acts| + 1
    && forall i :: 0 <= i < |acts| ==>
         Enabled(path[i], acts[i]) && path[i + 1] == Apply(path[i], acts[i]) && !TakesStaleLock(path[i], acts[i])
  }

  ghost predicate FreshlyReaches(s: State, t: State) {
    exists path, acts :: FreshPath(path, acts) && path[0] == s && path[|acts|] == t
  }

  lemma FreshStart(s: State)
    ensures FreshlyReaches(s, s)
  {
    var none: seq<Action> := [];
    assert FreshPath([s], none);
  }

  lemma FreshAdvance(s: State, t: State, a: Action)
    requires FreshlyReaches(s, t) && Enabled(t, a) && !TakesStaleLock(t, a)
    ensures FreshlyReaches(s, Apply(t, a))
  {
    hide Apply, Enabled, TakesStaleLock;
    var path, acts :| FreshPath(path, acts) && path[0] == s && path[|acts|] == t;
    var longer, more := path + [Apply(t, a)], acts + [a];
    forall i | 0 <= i < |more|
      ensures Enabled(longer[i], more[i]) && longer[i + 1] == Apply(longer[i], more[i])
              && !TakesStaleLock(longer[i], more[i])
    {
      if i < |acts| { assert longer[i] == path[i] && longer[i + 1] == path[i + 1] && more[i] == acts[i]; }
    }
    assert FreshPath(longer, more) && longer[|more|] == Apply(t, a);
  }

  lemma {:induction false} GoodPath(path: seq<State>, acts: seq<Action>, i: nat)
    requires FreshPath(path, acts) && i < |path| && Good(path[0])
    ensures Good(path[i])
  {
    hide Good, TakesStaleLock, Apply, Enabled;
    if i > 0 {
      GoodPath(path, acts, i - 1);
      GoodStep(path[i - 1], acts[i - 1]);
    }
  }

  lemma CrashStep(t: State, q: Pid)
    requires q in t.procs && !t.procs[q].Idle?
    ensures Enabled(t, Crash(q)) && !TakesStaleLock(t, Crash(q))
    ensures Apply(t, Crash(q)) == State(t.entries, t.procs - {q}, t.nextLock)
  {}

  /** Every process but one crashes. */
  lemma {:induction false} OthersCrash(s: State, t: State, p: Pid)
    requires FreshlyReaches(s, t) && p in t.procs && NoneIdle(t)
    ensures FreshlyReaches(s, State(t.entries, map[p := t.procs[p]], t.nextLock))
    decreases |t.procs|
  {
    hide FreshlyReaches, Apply, Enabled, TakesStaleLock;
    if q :| q in t.procs && q != p {
      var u := State(t.entries, t.procs - {q}, t.nextLock);
      CrashStep(t, q);
      FreshAdvance(s, t, Crash(q));
      FewerProcs(t.procs, q);
      assert u.procs[p] == t.procs[p];
      OthersCrash(s, u, p);
    } else {
      OnlyProc(t, p);
    }
  }

  lemma FewerProcs(procs: map<Pid, Control>, q: Pid)
    requires q in procs
    ensures |procs - {q}| < |procs|
  {
    assert procs.Keys == (procs - {q}).Keys + {q};
  }

  lemma OnlyProc(t: State, p: Pid)
    requires p in t.procs && forall q :: q in t.procs ==> q == p
    ensures State(t.entries, map[p := t.procs[p]], t.nextLock) == t
  {
    assert t.procs == map[p := t.procs[p]];
  }

  /** One process refreshes `n` under the stale lock file `l`, everybody else is gone. */
  ghost predicate AloneStale(u: State, p: Pid, n: Name, l: LockId) {
    && u.procs == map[p := Refreshing(n, l)] && l < u.nextLock && !Current(u, n, l)
    && forall m :: m in u.entries ==> u.entries[m].lock < u.nextLock
  }

  /** The refresher `p` and the acquirer `p + 1`, with domain `n` under another lock file than the refresher's. */
  ghost predicate Beside(v: State, p: Pid, n: Name, l: LockId, c: Control) {
    && v.procs == map[p := Refreshing(n, l), p + 1 := c]
    && n in v.entries && v.entries[n].lock != l
    && (c.ProbeDomain? || c.AwaitShared? || c.Protected? || c.Leased?) && c.name == n && c.lock == v.entries[n].lock
  }

  lemma QueuesBeside(s: State, u: State, p: Pid, n: Name, l: LockId)
    requires FreshlyReaches(s, u) && AloneStale(u, p, n, l)
    ensures FreshlyReaches(s, State(u.entries, map[p := Refreshing(n, l), p + 1 := OpenDomain(n)], u.nextLock))
  {
    hide FreshlyReaches;
    var q, r := p + 1, Refreshing(n, l);
    var u1 := State(u.entries, map[p := r, q := AwaitManager(n)], u.nextLock);
    assert Apply(u, Begin(q, n)) == u1;
    FreshAdvance(s, u, Begin(q, n));
    assert Apply(u1, TakeManager(q)) == State(u.entries, map[p := r, q := OpenDomain(n)], u.nextLock);
    FreshAdvance(s, u1, TakeManager(q));
  }

  /** A second process opens the domain, making its directory anew if it is gone, and finds its lock free. */
  lemma OpensBeside(s: State, u: State, p: Pid, n: Name, l: LockId) returns (v: State)
    requires FreshlyReaches(s, u) && AloneStale(u, p, n, l)
    ensures FreshlyReaches(s, v) && n in v.entries && Beside(v, p, n, l, ProbeDomain(n, v.entries[n].lock))
  {
    QueuesBeside(s, u, p, n, l);
    hide FreshlyReaches;
    var u2 := State(u.entries, map[p := Refreshing(n, l), p + 1 := OpenDomain(n)], u.nextLock);
    FreshAdvance(s, u2, Open(p + 1));
    v := Apply(u2, Open(p + 1));
  }

  lemma SharesBeside(s: State, u: State, p: Pid, n: Name, l: LockId) returns (v: State)
    requires FreshlyReaches(s, u) && n in u.entries && Beside(u, p, n, l, ProbeDomain(n, u.entries[n].lock))
    ensures FreshlyReaches(s, v) && n in v.entries && p + 1 in v.procs && v.procs[p + 1].Protected?
    ensures v.procs[p + 1].claim.None? && Beside(v, p, n, l, v.procs[p + 1])
  {
    hide FreshlyReaches;
    var q := p + 1;
    var u1 := Apply(u, Probe(q, 0));
    FreshAdvance(s, u, Probe(q, 0));
    assert u1.procs == map[p := Refreshing(n, l), q := u1.procs[q]];
    v := Apply(u1, Share(q));
    FreshAdvance(s, u1, Share(q));
    assert v.procs == map[p := Refreshing(n, l), q := v.procs[q]];
  }

  lemma LeasesBeside(s: State, u: State, p: Pid, n: Name, l: LockId) returns (v: State)
    requires FreshlyReaches(s, u) && n in u.entries && p + 1 in u.procs && u.procs[p + 1].Protected?
    requires u.procs[p + 1].claim.None? && Beside(u, p, n, l, u.procs[p + 1])
    ensures FreshlyReaches(s, v) && n in v.entries && v.entries[n].published.Some? && p + 1 in v.procs
    ensures v.procs[p + 1].Leased? && Beside(v, p, n, l, v.procs[p + 1])
  {
    hide FreshlyReaches;
    v := Apply(u, Publish(p + 1));
    FreshAdvance(s, u, Publish(p + 1));
    assert v.procs == map[p := Refreshing(n, l), p + 1 := v.procs[p + 1]];
  }

  /** The refresher measures the directory by path and publishes over the lease. */
  lemma PublishesBeside(s: State, u: State, p: Pid, n: Name, l: LockId) returns (v: State)
    requires FreshlyReaches(s, u) && n in u.entries && u.entries[n].published.Some? && p + 1 in u.procs
    requires u.procs[p + 1].Leased? && Beside(u, p, n, l, u.procs[p + 1])
    ensures FreshlyReaches(s, v) && !DirtyMark(v)
  {
    hide FreshlyReaches;
    var u1 := Apply(u, Measure(p, 0, 1, true));
    FreshAdvance(s, u, Measure(p, 0, 1, true));
    v := Apply(u1, PublishMeasure(p));
    FreshAdvance(s, u1, PublishMeasure(p));
    assert v.procs[p + 1].Leased? && v.procs[p + 1].name == n;
    assert LiveLease(v, n) && !EntryHonest(v, n);
  }

  /** Once a refresh has taken a stale lock, some continuation without another one breaks the mark. */
  lemma StaleLockCanBreak(s: State, a: Action) returns (v: State)
    requires Inv(s) && NoneIdle(s) && Enabled(s, a) && TakesStaleLock(s, a)
    ensures FreshlyReaches(Apply(s, a), v) && !DirtyMark(v)
  {
    var c, t := At(s, a.p), Apply(s, a);
    assert Mentions(s.procs[a.p], c.lock);
    hide FreshlyReaches, DirtyMark, AloneStale, Beside;
    FreshStart(t);
    OthersCrash(t, t, a.p);
    var u := State(t.entries, map[a.p := t.procs[a.p]], t.nextLock);
    AloneAfterCrashes(s, a, u);
    v := OpensBeside(t, u, a.p, c.name, c.lock);
    v := SharesBeside(t, v, a.p, c.name, c.lock);
    v := LeasesBeside(t, v, a.p, c.name, c.lock);
    v := PublishesBeside(t, v, a.p, c.name, c.lock);
  }

  lemma AloneAfterCrashes(s: State, a: Action, u: State)
    requires Inv(s) && Enabled(s, a) && TakesStaleLock(s, a)
    requires u == State(Apply(s, a).entries, map[a.p := At(Apply(s, a), a.p)], Apply(s, a).nextLock)
    ensures AloneStale(u, a.p, At(s, a.p).name, At(s, a.p).lock)
  {
    hide OneManager, LocksExclude, PinsHold;
    assert Mentions(s.procs[a.p], At(s, a.p).lock);
  }

  /**
   From a good state a refresh may take its lock exactly when the lock file is still the one in its domain's directory:
   then the mark holds in every continuation without a stale lock, otherwise one of these continuations breaks it.
   */
  lemma LockTimeExact(run: seq<State>, acts: seq<Action>, i: nat)
    requires IsRun(run, acts) && i < |acts| && acts[i].TryRefresh?
    requires forall j :: 0 <= j < i ==> !TakesStaleLock(run[j], acts[j])
    ensures (forall v :: FreshlyReaches(run[i + 1], v) ==> DirtyMark(v)) <==> !TakesStaleLock(run[i], acts[i])
  {
    hide Good, TakesStaleLock, Apply, Enabled, DirtyMark;
    GoodRun(run, acts, i);
    if TakesStaleLock(run[i], acts[i]) {
      NoneIdleRun(run, acts, i);
      assert Inv(run[i]) by { GoodParts(run[i]); }
      var v := StaleLockCanBreak(run[i], acts[i]);
    } else {
      GoodStep(run[i], acts[i]);
      forall v | FreshlyReaches(run[i + 1], v) ensures DirtyMark(v) {
        var path, more :| FreshPath(path, more) && path[0] == run[i + 1] && path[|more|] == v;
        GoodPath(path, more, |more|);
        GoodParts(v);
      }
    }
  }

  lemma GoodParts(s: State)
    requires Good(s)
    ensures Inv(s) && DirtyMark(s) && RefreshersCurrent(s)
  {}

  // ---- the leased target tree ----

  /** The refresher's pass over the domain reaches the measurement, and the tree is over the bound. */
  predicate DropsTarget(s: State, a: Action, n: Name) {
    && a.Measure? && At(s, a.p).Refreshing? && At(s, a.p).name == n && n in s.entries && s.entries[n].published.Some?
    && (a.force || s.entries[n].published.value.measuredAt + MEASUREMENT_INTERVAL <= a.now)
    && s.entries[n].target > a.bound
  }

  /**
   The target tree of a leased domain changes in exactly two kinds of step: a build by a process that leases the domain,
   and a refresh under a stale lock file that finds the tree over its bound and drops it.
   */
  lemma LeasedTargetExact(s: State, a: Action, n: Name)
    requires Inv(s) && Enabled(s, a) && LiveLease(s, n)
    ensures n in s.entries && n in Apply(s, a).entries
    ensures Apply(s, a).entries[n].target != s.entries[n].target <==>
      || (a.Build? && At(s, a.p).name == n && a.target != s.entries[n].target)
      || DropsTarget(s, a, n)
    ensures DropsTarget(s, a, n) ==> !Current(s, n, At(s, a.p).lock) && Apply(s, a).entries[n].target == 0
  {
    LeaseHasDomain(s, n);
    LeasedStays(s, a, n);
    hide Free, ManagerFree, NoExclusive, OneManager, LocksExclude, LocksAllocated;
    var c := At(s, a.p);
    if c.ProbeDomain? && c.name == n {
      assert Pins(c, n, c.lock);
      LeaseExcludes(s, n, a.p);
    }
    if c.Refreshing? && c.name == n {
      LeaseExcludes(s, n, a.p);
    }
  }

  lemma LeasedStays(s: State, a: Action, n: Name)
    requires Inv(s) && Enabled(s, a) && LiveLease(s, n)
    ensures n in Apply(s, a).entries
  {
    hide Apply, Free, ManagerFree, NoExclusive;
    StepEntries(s, a);
    LeaseHasDomain(s, n);
    var p :| p in s.procs && s.procs[p].Leased? && s.procs[p].name == n;
    assert Pins(s.procs[p], n, s.procs[p].lock);
    if a.Remove? && n == At(s, a.p).claim.value.name { RemovalFindsNoPin(s, a, p, n, s.procs[p].lock); }
  }

  /** As long as every refresh took a current lock, only builds under a lease change a leased domain's target tree. */
  lemma LeasedTargetsAreSpared(run: seq<State>, acts: seq<Action>, i: nat, n: Name)
    requires IsRun(run, acts) && i < |acts| && LiveLease(run[i], n)
    requires forall j :: 0 <= j < i ==> !TakesStaleLock(run[j], acts[j])
    ensures n in run[i].entries && n in run[i + 1].entries
    ensures run[i + 1].entries[n].target != run[i].entries[n].target ==>
      acts[i].Build? && At(run[i], acts[i].p).Leased? && At(run[i], acts[i].p).name == n
  {
    GoodRun(run, acts, i);
    GoodParts(run[i]);
    LeasedTargetExact(run[i], acts[i], n);
    hide Inv, DirtyMark, MeasurementsHold;
    assert At(run[i], acts[i].p).Refreshing? ==> Refreshes(run[i].procs[acts[i].p]);
  }
}
