/** What a lease and a refresh record, over all steps in between. */
module CacheRecords {
  import opened Orders
  import opened CacheProtocol
  import opened CacheInvariant
  import opened CacheDirtyMark
  import opened CacheFreshLocks

  // ---- a refresh ----

  /** While a domain is refreshed under its current lock file no other process touches its directory. */
  lemma RefreshedAlone(s: State, a: Action, p: Pid)
    requires Inv(s) && Enabled(s, a) && p in s.procs && p != a.p && Refreshes(s.procs[p])
    requires Current(s, s.procs[p].name, s.procs[p].lock)
    requires RefreshersCurrent(s)
    ensures var n := s.procs[p].name; n in Apply(s, a).entries && Apply(s, a).entries[n] == s.entries[n]
  {
    var r := s.procs[p];
    var c := At(s, a.p);
    RefresherBlocksRemoval(s, a, p);
    assert Excludes(r, r.lock);
    if a.p in s.procs {
      assert c.ProbeDomain? || c.Protected? || c.Leased? ==> Pins(c, c.name, c.lock);
      assert c.ProbeDomain? || Refreshes(c) ==> Excludes(c, c.lock);
      assert c.Protected? || c.Leased? ==> Shares(c, c.lock);
    }
    hide Free, ManagerFree, NoExclusive, OneManager, LocksExclude, PinsHold, LocksAllocated;
  }

  /** The process `p` takes no step between two points of a run. */
  ghost predicate Rests(acts: seq<Action>, p: Pid, k: nat, i: nat) {
    forall m :: k < m < i && m < |acts| ==> acts[m].p != p
  }

  lemma {:induction false} RefreshKeepsAlone(run: seq<State>, acts: seq<Action>, p: Pid, k: nat, i: nat)
    requires IsRun(run, acts) && k < i < |run| && Rests(acts, p, k, i)
    requires forall j :: 0 <= j < i ==> !TakesStaleLock(run[j], acts[j])
    requires p in run[k + 1].procs && run[k + 1].procs[p].Measured?
    ensures p in run[i].procs && run[i].procs[p] == run[k + 1].procs[p]
    ensures var n := run[k + 1].procs[p].name;
      n in run[k + 1].entries && n in run[i].entries && run[i].entries[n] == run[k + 1].entries[n]
  {
    hide Apply, Enabled, Inv, DirtyMark, MeasurementsHold, TakesStaleLock;
    GoodRun(run, acts, k + 1);
    if i > k + 1 {
      RefreshKeepsAlone(run, acts, p, k, i - 1);
      GoodRun(run, acts, i - 1);
      StepLocal(run[i - 1], acts[i - 1]);
      RefreshedAlone(run[i - 1], acts[i - 1], p);
      assert At(run[i], p) == At(run[i - 1], p);
    }
  }

  /** A pass over an idle domain measures it when there is a record and it is forced or ten seconds have gone by. */
  lemma MeasuresWhenDue(s: State, a: Action)
    requires a.Measure? && Enabled(s, a)
    ensures At(Apply(s, a), a.p).Measured? <==>
      var n := At(s, a.p).name;
      && n in s.entries && s.entries[n].published.Some?
      && (a.force || a.now >= s.entries[n].published.value.measuredAt + 10)
  {
  }

  /**
   When every refresh takes a current lock, a refresh that measures and then publishes leaves a record with the exact
   size of the tree at that time, which is the one found or, over the bound, none; nothing else about the domain changed
   since the measurement.
   */
  lemma RefreshRecords(run: seq<State>, acts: seq<Action>, k: nat, i: nat)
    requires IsRun(run, acts) && k < i < |acts| && acts[k].Measure? && acts[i].PublishMeasure? && acts[i].p == acts[k].p
    requires Rests(acts, acts[k].p, k, i) && At(run[k + 1], acts[k].p).Measured?
    requires forall j :: 0 <= j < i ==> !TakesStaleLock(run[j], acts[j])
    ensures var n := At(run[k], acts[k].p).name;
      && n in run[k].entries && n in run[i + 1].entries
      && var was, now := run[k].entries[n], run[i + 1].entries[n];
         && now.target == (if was.target <= acts[k].bound then was.target else 0)
         && now.published == Some(Metadata(now.target, acts[k].now)) && now.lock == was.lock
  {
    RefreshKeepsAlone(run, acts, acts[k].p, k, i);
    hide Free, ManagerFree, NoExclusive, TakesStaleLock;
  }

  // ---- a lease that found its domain idle ----

  /** Between the probe and the lease: nobody leases the domain, and its tree is within the bytes carried and the bound. */
  ghost predicate Carries(s: State, p: Pid, n: Name, bytes: nat, bound: nat) {
    && p in s.procs && (s.procs[p].AwaitShared? || s.procs[p].Protected?)
    && s.procs[p].name == n && s.procs[p].bytes == bytes && n in s.entries && !LiveLease(s, n)
    && s.entries[n].target <= bytes && s.entries[n].target <= bound && bytes <= bound
  }

  /** A measured record within the bound is taken as it is. */
  predicate TrustsRecord(e: Entry, bound: nat) {
    e.published.Some? && e.published.value.measuredAt != 0 && e.published.value.bytes <= bound
  }

  /** The probe of an idle domain trusts a measured record within the bound and measures the tree otherwise. */
  lemma ProbeCarries(s: State, a: Action)
    requires Good(s) && Enabled(s, a) && a.Probe?
    ensures var n := At(s, a.p).name; Carries(Apply(s, a), a.p, n, At(Apply(s, a), a.p).bytes, a.bound)
    ensures var n, bytes := At(s, a.p).name, At(Apply(s, a), a.p).bytes;
      if TrustsRecord(s.entries[n], a.bound) then bytes == s.entries[n].published.value.bytes && Apply(s, a).entries == s.entries
      else bytes == Apply(s, a).entries[n].target
  {
    var c := At(s, a.p);
    assert Pins(c, c.name, c.lock) && Excludes(c, c.lock);
    if LiveLease(s, c.name) { LeaseExcludes(s, c.name, a.p); }
    NewLease(s, a, c.name);
    assert EntryHonest(s, c.name);
    hide Inv, MeasurementsHold, RefreshersCurrent, LiveLease;
  }

  /** Whatever step another process takes, or a step of `p` short of leasing or crashing. */
  lemma CarriesStep(s: State, a: Action, p: Pid, n: Name, bytes: nat, bound: nat)
    requires Inv(s) && Enabled(s, a) && Carries(s, p, n, bytes, bound)
    requires a.p == p ==> !a.Publish? && !a.Crash?
    ensures Carries(Apply(s, a), p, n, bytes, bound)
  {
    var c := s.procs[p];
    StepLocal(s, a);
    StepEntries(s, a);
    UnleasedStays(s, a, p, n);
    assert Pins(c, n, c.lock);
    if a.Remove? && n == At(s, a.p).claim.value.name { RemovalFindsNoPin(s, a, p, n, c.lock); }
    UnleasedShrinks(s, a, n);
    if a.p == p { CarrierGoes(s, a); } else { assert At(Apply(s, a), p) == At(s, p); }
    hide Inv, LiveLease, Free, ManagerFree, NoExclusive, Apply, Enabled;
  }

  /** The manager's holder keeps others from leasing, and builds need a lease. */
  lemma UnleasedStays(s: State, a: Action, p: Pid, n: Name)
    requires Inv(s) && Enabled(s, a) && p in s.procs && HoldsManager(s.procs[p]) && !LiveLease(s, n)
    requires a.p == p ==> !a.Publish?
    ensures !LiveLease(Apply(s, a), n) && !(a.Build? && At(s, a.p).name == n)
  {
    hide Apply, Free, ManagerFree, NoExclusive, LocksExclude, PinsHold, LocksAllocated;
    NewLease(s, a, n);
    BuildsLeased(s, a, n);
    assert a.Publish? ==> HoldsManager(s.procs[a.p]);
  }

  /** Without a lease on the domain its tree only shrinks. */
  lemma UnleasedShrinks(s: State, a: Action, n: Name)
    requires Enabled(s, a) && n in s.entries && n in Apply(s, a).entries && !(a.Build? && At(s, a.p).name == n)
    ensures Apply(s, a).entries[n].target <= s.entries[n].target
  {
    hide Free, ManagerFree, NoExclusive, LiveLease;
  }

  lemma CarrierGoes(s: State, a: Action)
    requires Enabled(s, a) && (At(s, a.p).AwaitShared? || At(s, a.p).Protected?) && !a.Publish? && !a.Crash?
    ensures var c, d := At(s, a.p), At(Apply(s, a), a.p);
      a.p in Apply(s, a).procs && (d.AwaitShared? || d.Protected?) && d.name == c.name && d.bytes == c.bytes
  {
    hide Free, ManagerFree, NoExclusive;
  }

  /** From one point of a run to another `p` neither publishes nor crashes. */
  ghost predicate Goes(acts: seq<Action>, p: Pid, j: nat, i: nat) {
    forall m :: j < m < i && m < |acts| && acts[m].p == p ==> !acts[m].Publish? && !acts[m].Crash?
  }

  /** The domain is free to be probed, or not there yet. */
  predicate OpensFree(s: State, n: Name) {
    n in s.entries ==> Free(s, s.entries[n].lock)
  }

  /** After opening a free domain `p` is about to probe it, or has probed it and carries what it found. */
  ghost predicate ProbesOrCarries(run: seq<State>, acts: seq<Action>, p: Pid, n: Name, j: nat, m: nat, k: nat) {
    && m < |run| && p in run[m].procs
    && ((k == m && run[m].procs[p].ProbeDomain? && run[m].procs[p].name == n)
        || (j < k < m && k < |acts| && acts[k].Probe? && acts[k].p == p
            && (run[m].procs[p].AwaitShared? || run[m].procs[p].Protected?)
            && Carries(run[m], p, n, run[m].procs[p].bytes, acts[k].bound)))
  }

  lemma OpenProbes(s: State, a: Action)
    requires a.Open? && Enabled(s, a) && LocksAllocated(s)
    ensures var n := At(s, a.p).name;
      if OpensFree(s, n) then At(Apply(s, a), a.p).ProbeDomain? && At(Apply(s, a), a.p).name == n
      else At(Apply(s, a), a.p) == AwaitShared(n, s.entries[n].lock, PublishedBytes(s.entries[n]))
  {
    var n := At(s, a.p).name;
    if n !in s.entries { NewLockIsFree(s); }
    var t := if n in s.entries then s else WithEntry(s, n, Entry(s.nextLock, None, 0)).(nextLock := s.nextLock + 1);
    SameProcs(s, t, t.entries[n].lock);
    hide Free, ManagerFree, NoExclusive;
  }

  lemma NewLockIsFree(s: State)
    requires LocksAllocated(s)
    ensures Free(s, s.nextLock)
  {
    forall p | p in s.procs ensures !Mentions(s.procs[p], s.nextLock) {}
  }

  lemma {:induction false} SoleGoes(run: seq<State>, acts: seq<Action>, p: Pid, j: nat, m: nat) returns (k: nat)
    requires IsRun(run, acts) && j < m < |run| && acts[j] == Open(p) && OpensFree(run[j], At(run[j], p).name)
    requires Goes(acts, p, j, m) && forall l :: 0 <= l < m ==> !TakesStaleLock(run[l], acts[l])
    ensures ProbesOrCarries(run, acts, p, At(run[j], p).name, j, m, k)
  {
    var n := At(run[j], p).name;
    GoodRun(run, acts, m - 1);
    GoodParts(run[m - 1]);
    if m == j + 1 {
      k := m;
      OpenProbes(run[j], acts[j]);
    } else {
      var before := SoleGoes(run, acts, p, j, m - 1);
      k := if before < m - 1 then before else if acts[m - 1].p == p then m - 1 else m;
      SoleStep(run, acts, p, n, j, m - 1, before);
    }
  }

  lemma SoleStep(run: seq<State>, acts: seq<Action>, p: Pid, n: Name, j: nat, m: nat, k: nat)
    requires IsRun(run, acts) && m + 1 < |run| && j < m && ProbesOrCarries(run, acts, p, n, j, m, k) && Good(run[m])
    requires acts[m].p == p ==> !acts[m].Publish? && !acts[m].Crash?
    ensures ProbesOrCarries(run, acts, p, n, j, m + 1, if k < m then k else if acts[m].p == p then m else m + 1)
  {
    var s, a := run[m], acts[m];
    GoodParts(s);
    hide Good, Carries;
    if k < m {
      CarriesStep(s, a, p, n, s.procs[p].bytes, acts[k].bound);
      CarriesBytes(Apply(s, a), p, n, s.procs[p].bytes, acts[k].bound);
    } else if a.p == p {
      assert a.Probe? by { hide Apply; }
      ProbeCarries(s, a);
    } else {
      StepLocal(s, a);
      hide Apply, Enabled;
      assert At(run[m + 1], p) == At(s, p);
    }
  }

  lemma CarriesBytes(s: State, p: Pid, n: Name, bytes: nat, bound: nat)
    requires Carries(s, p, n, bytes, bound)
    ensures p in s.procs && (s.procs[p].AwaitShared? || s.procs[p].Protected?) && s.procs[p].bytes == bytes
  {}

  /**
   When every refresh takes a current lock, a lease on a domain that was idle, or not there, when it was opened begins
   with a probe: the record it writes is dirty and, like the probe's bound, covers the tree it leases.
   */
  lemma SoleLease(run: seq<State>, acts: seq<Action>, p: Pid, j: nat, i: nat) returns (k: nat)
    requires IsRun(run, acts) && j < i < |acts| && acts[j] == Open(p) && acts[i] == Publish(p)
    requires OpensFree(run[j], At(run[j], p).name) && Goes(acts, p, j, i)
    requires forall l :: 0 <= l < i ==> !TakesStaleLock(run[l], acts[l])
    ensures j < k < i && acts[k].Probe? && acts[k].p == p
    ensures At(run[i + 1], p).Leased? && At(run[j], p).name in run[i + 1].entries
    ensures var e := run[i + 1].entries[At(run[j], p).name];
      && e.published.Some? && e.published.value.measuredAt == 0
      && e.target <= e.published.value.bytes <= acts[k].bound
  {
    k := SoleGoes(run, acts, p, j, i);
    hide Free, ManagerFree, NoExclusive, LiveLease, TakesStaleLock;
  }

  // ---- a lease beside others ----

  ghost predicate Holds(s: State, p: Pid, n: Name, bytes: nat) {
    && p in s.procs && (s.procs[p].AwaitShared? || s.procs[p].Protected?) && s.procs[p].name == n && s.procs[p].bytes == bytes
  }

  lemma {:induction false} SharedGoes(run: seq<State>, acts: seq<Action>, p: Pid, j: nat, m: nat)
    requires IsRun(run, acts) && j < m < |run| && acts[j] == Open(p) && !OpensFree(run[j], At(run[j], p).name)
    requires Goes(acts, p, j, m)
    ensures Holds(run[m], p, At(run[j], p).name, PublishedBytes(run[j].entries[At(run[j], p).name]))
  {
    var n := At(run[j], p).name;
    var bytes := PublishedBytes(run[j].entries[n]);
    hide Apply, Enabled, Inv, OpensFree, Holds, PublishedBytes;
    if m == j + 1 {
      InvRun(run, acts, j);
      SharedStarts(run[j], acts[j]);
    } else {
      SharedGoes(run, acts, p, j, m - 1);
      HoldsStep(run[m - 1], acts[m - 1], p, n, bytes);
    }
  }

  lemma SharedStarts(s: State, a: Action)
    requires Inv(s) && Enabled(s, a) && a.Open? && !OpensFree(s, At(s, a.p).name)
    ensures Holds(Apply(s, a), a.p, At(s, a.p).name, PublishedBytes(s.entries[At(s, a.p).name]))
  {
    OpenProbes(s, a);
  }

  lemma HoldsStep(s: State, a: Action, p: Pid, n: Name, bytes: nat)
    requires Enabled(s, a) && Holds(s, p, n, bytes) && (a.p == p ==> !a.Publish? && !a.Crash?)
    ensures Holds(Apply(s, a), p, n, bytes)
  {
    StepLocal(s, a);
    assert a.p != p ==> At(Apply(s, a), p) == At(s, p);
    hide Free, ManagerFree, NoExclusive;
  }

  /** A lease on a domain that was in use when it was opened keeps the bytes recorded then, and marks them dirty. */
  lemma SharedLease(run: seq<State>, acts: seq<Action>, p: Pid, j: nat, i: nat)
    requires IsRun(run, acts) && j < i < |acts| && acts[j] == Open(p) && acts[i] == Publish(p)
    requires !OpensFree(run[j], At(run[j], p).name) && Goes(acts, p, j, i)
    ensures At(run[i + 1], p).Leased? && At(run[j], p).name in run[i + 1].entries
    ensures var n := At(run[j], p).name;
      run[i + 1].entries[n].published == Some(Metadata(PublishedBytes(run[j].entries[n]), 0))
  {
    SharedGoes(run, acts, p, j, i);
    hide Free, ManagerFree, NoExclusive;
  }

  // ---- the end of a lease ----

  /** Between the end of a lease and the end of the clean-up that follows it. */
  predicate Finishing(c: Control) {
    c.Released? || c.Opened? || c.Refreshing? || c.Measured? || c.AwaitCleanup? || c.Cleaning?
  }

  lemma FinishingStep(s: State, a: Action, p: Pid)
    requires Enabled(s, a) && Finishing(At(s, p)) && (a.p == p ==> !a.Crash?)
    ensures Finishing(At(Apply(s, a), p)) || (a == EndCleanup(p) && At(s, p) == Cleaning(None))
  {
    StepLocal(s, a);
    hide Free, ManagerFree, NoExclusive;
  }

  /**
   Whether or not the domain was refreshed, a process that ended its lease and did not crash is idle again only after a
   clean-up, which it ends while it holds the manager and no claim.
   */
  lemma {:induction false} LeaseEndsInCleanup(run: seq<State>, acts: seq<Action>, p: Pid, j: nat, i: nat) returns (k: nat)
    requires IsRun(run, acts) && j < i < |run| && acts[j] == Release(p) && At(run[i], p).Idle?
    requires forall m :: j < m < i && acts[m].p == p ==> !acts[m].Crash?
    ensures j < k < i && acts[k] == EndCleanup(p) && At(run[k], p) == Cleaning(None) && HoldsManager(At(run[k], p))
  {
    k := FirstIdle(run, acts, p, j, i);
    assert Finishing(At(run[k], p));
    FinishingStep(run[k], acts[k], p);
  }

  lemma {:induction false} FirstIdle(run: seq<State>, acts: seq<Action>, p: Pid, j: nat, i: nat) returns (k: nat)
    requires IsRun(run, acts) && j < i < |run| && acts[j] == Release(p) && At(run[i], p).Idle?
    ensures j < k < i && Finishing(At(run[k], p)) && !Finishing(At(run[k + 1], p))
    decreases i - j
  {
    ReleaseFinishes(run[j], acts[j]);
    k := j + 1;
    while Finishing(At(run[k + 1], p))
      invariant j < k < i && Finishing(At(run[k], p))
      decreases i - k
    {
      k := k + 1;
    }
  }

  lemma ReleaseFinishes(s: State, a: Action)
    requires Enabled(s, a) && a.Release?
    ensures Finishing(At(Apply(s, a), a.p))
  {
    hide Free, ManagerFree, NoExclusive;
  }

  /** A claimed lock is given up by its holder alone: with the claimed domain, without it, or in a crash. */
  lemma ClaimEnds(s: State, a: Action, p: Pid, l: LockId)
    requires Enabled(s, a) && Claims(At(s, p), l)
    ensures !Claims(At(Apply(s, a), p), l) <==> a.p == p && (a.DropClaim? || a.Remove? || a.Crash?)
  {
    StepLocal(s, a);
    hide Free, ManagerFree, NoExclusive;
  }
}
