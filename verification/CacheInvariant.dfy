/** What every step of the cache keeps, and why leases are safe. */
module CacheInvariant {
  import opened Orders
  import opened CacheProtocol

  /** A step changes the control of its own process only, and gains a lock only when that lock is available. */
  lemma StepLocal(s: State, a: Action)
    requires Enabled(s, a)
    ensures var t := Apply(s, a);
      && (forall q :: q != a.p ==> (q in t.procs <==> q in s.procs) && At(t, q) == At(s, q))
      && (HoldsManager(At(t, a.p)) ==> HoldsManager(At(s, a.p)) || ManagerFree(s))
  {
  }

  lemma StepGains(s: State, a: Action)
    requires Enabled(s, a)
    ensures var t := Apply(s, a);
      && (forall l :: Excludes(At(t, a.p), l) ==> Excludes(At(s, a.p), l) || Free(s, l))
      && (forall l :: Shares(At(t, a.p), l) ==> Shares(At(s, a.p), l) || NoExclusive(s, l))
      && (forall l :: Excludes(At(t, a.p), l) && Shares(At(t, a.p), l) ==>
            Excludes(At(s, a.p), l) || Shares(At(s, a.p), l))
  {
    if a.Open? {
      OpenGains(s, a);
    } else {
      GainsExclusive(s, a);
      GainsShared(s, a);
    }
  }

  lemma GainsExclusive(s: State, a: Action)
    requires Enabled(s, a) && !a.Open?
    ensures forall l :: Excludes(At(Apply(s, a), a.p), l) ==> Excludes(At(s, a.p), l) || Free(s, l)
  {
    hide ManagerFree, Free, NoExclusive;
  }

  lemma GainsShared(s: State, a: Action)
    requires Enabled(s, a) && !a.Open?
    ensures forall l :: Shares(At(Apply(s, a), a.p), l) ==> Shares(At(s, a.p), l) || NoExclusive(s, l)
    ensures forall l :: Excludes(At(Apply(s, a), a.p), l) && Shares(At(Apply(s, a), a.p), l) ==>
      Excludes(At(s, a.p), l) || Shares(At(s, a.p), l)
  {
    hide ManagerFree, Free, NoExclusive;
  }

  /** A domain created by opening it has a lock file nobody holds; an existing one is probed only when free. */
  lemma OpenGains(s: State, a: Action)
    requires Enabled(s, a) && a.Open?
    ensures forall l :: Excludes(At(Apply(s, a), a.p), l) ==> Free(s, l)
    ensures forall l :: !Shares(At(Apply(s, a), a.p), l)
  {
    hide Free;
    var c := At(s, a.p);
    var t := if c.name in s.entries then s
             else WithEntry(s, c.name, Entry(s.nextLock, None, 0)).(nextLock := s.nextLock + 1);
    SameProcs(s, t, t.entries[c.name].lock);
  }

  lemma SameProcs(s: State, t: State, l: LockId)
    requires s.procs == t.procs
    ensures Free(s, l) <==> Free(t, l)
  {}

  lemma IdleHoldsNothing()
    ensures !HoldsManager(Idle)
    ensures forall l :: !Excludes(Idle, l) && !Shares(Idle, l) && !Mentions(Idle, l)
    ensures forall n, l :: !Pins(Idle, n, l)
  {}

  /** A step creates at most the domain it opens, under a new lock file, and removes at most the claimed one. */
  lemma StepEntries(s: State, a: Action)
    requires Enabled(s, a)
    ensures var t, c := Apply(s, a), At(s, a.p);
      && s.nextLock <= t.nextLock
      && (forall n :: n in s.entries && n !in t.entries ==> a.Remove? && n == c.claim.value.name)
      && (forall n :: n in s.entries && n in t.entries ==> t.entries[n].lock == s.entries[n].lock)
      && (forall n :: n in t.entries && n !in s.entries ==>
            a.Open? && n == c.name && t.entries[n].lock == s.nextLock && t.nextLock == s.nextLock + 1)
      && (a.Remove? ==> At(t, a.p) == WithClaim(c, None))
  {
  }

  /** Whatever lock file or domain the process newly relies on is one of the present domains', or is inspected. */
  lemma StepRelies(s: State, a: Action)
    requires Enabled(s, a)
    ensures var t := Apply(s, a);
      && (forall n, l :: Pins(At(t, a.p), n, l) ==> Pins(At(s, a.p), n, l) || (n in t.entries && t.entries[n].lock == l))
      && (forall l: LockId :: Mentions(At(t, a.p), l) ==>
            || Mentions(At(s, a.p), l) || l < s.nextLock
            || exists n :: n in t.entries && t.entries[n].lock == l)
  {
    hide Free, ManagerFree, NoExclusive;
  }

  lemma StepKeepsLocks(s: State, a: Action)
    requires Enabled(s, a) && Inv(s)
    ensures OneManager(Apply(s, a)) && LocksExclude(Apply(s, a))
  {
    hide Apply, Enabled, HoldsManager, Excludes, Shares, PinsHold, LocksAllocated;
    IdleHoldsNothing();
    StepLocal(s, a);
    StepGains(s, a);
    var t := Apply(s, a);
    forall p, q | p in t.procs && q in t.procs && HoldsManager(t.procs[p]) && HoldsManager(t.procs[q]) ensures p == q {
      assert At(t, p) == t.procs[p] && At(t, q) == t.procs[q];
    }
    forall p, q, l | p in t.procs && q in t.procs && Excludes(t.procs[p], l)
      ensures !Shares(t.procs[q], l) && (Excludes(t.procs[q], l) ==> p == q)
    {
      assert At(t, p) == t.procs[p] && At(t, q) == t.procs[q];
    }
  }

  /** Directories vanish only through a claim, which nobody else can be relying on. */
  lemma StepKeepsPins(s: State, a: Action)
    requires Enabled(s, a) && Inv(s)
    ensures PinsHold(Apply(s, a))
  {
    hide Apply, Pins, OneManager, LocksExclude, LocksAllocated, Free, ManagerFree, NoExclusive;
    IdleHoldsNothing();
    StepLocal(s, a);
    StepEntries(s, a);
    StepRelies(s, a);
    var c := At(s, a.p);
    var t := Apply(s, a);
    forall p, n, l | p in t.procs && Pins(t.procs[p], n, l) ensures n in t.entries && t.entries[n].lock == l {
      assert At(t, p) == t.procs[p];
      if p != a.p {
        assert Pins(s.procs[p], n, l);
        if a.Remove? && n == c.claim.value.name {
          RemovalFindsNoPin(s, a, p, n, l);
        }
      } else if Pins(c, n, l) {
        assert n in s.entries && s.entries[n].lock == l;
        if a.Remove? && n == c.claim.value.name {
          RemovalFindsNoPin(s, a, p, n, l);
        }
      }
    }
  }

  /** A claim is exclusive, so the only pin on a claimed domain is the claim itself. */
  lemma RemovalFindsNoPin(s: State, a: Action, p: Pid, n: Name, l: LockId)
    requires Inv(s) && a.Remove? && Enabled(s, a) && p in s.procs && Pins(s.procs[p], n, l)
    requires n == At(s, a.p).claim.value.name
    ensures p == a.p && !Pins(WithClaim(At(s, a.p), None), n, l)
  {
    var c := At(s, a.p);
    assert Pins(c, n, c.claim.value.lock);
    assert s.entries[n].lock == l == c.claim.value.lock;
    assert Excludes(s.procs[a.p], l);
    assert HoldsManager(c);
  }

  lemma StepKeepsAllocation(s: State, a: Action)
    requires Enabled(s, a) && Inv(s)
    ensures LocksAllocated(Apply(s, a))
  {
    hide Apply, Enabled, Mentions, OneManager, LocksExclude, PinsHold;
    IdleHoldsNothing();
    StepLocal(s, a);
    StepEntries(s, a);
    StepRelies(s, a);
    var c := At(s, a.p);
    var t := Apply(s, a);
    forall p, l: LockId | p in t.procs && Mentions(t.procs[p], l) ensures l < t.nextLock {
      assert At(t, p) == t.procs[p];
      if p != a.p { assert Mentions(s.procs[p], l); }
      else if Mentions(c, l) {}
    }
  }

  lemma InvStep(s: State, a: Action)
    requires Enabled(s, a) && Inv(s)
    ensures Inv(Apply(s, a))
  {
    StepKeepsLocks(s, a);
    StepKeepsPins(s, a);
    StepKeepsAllocation(s, a);
  }

  lemma {:induction false} InvRun(run: seq<State>, acts: seq<Action>, i: nat)
    requires IsRun(run, acts) && i < |run|
    ensures Inv(run[i])
  {
    if i > 0 {
      InvRun(run, acts, i - 1);
      InvStep(run[i - 1], acts[i - 1]);
    }
  }

  // ---- main results: removal safety ----

  /**
   In every run, a step that removes a domain directory happens while no lease on that domain is live, and every live
   lease's directory is present under the very lock file the lease holds.
   */
  lemma RemovalSparesLeases(run: seq<State>, acts: seq<Action>, i: nat)
    requires IsRun(run, acts) && i < |acts|
    ensures acts[i].Remove? ==> !LiveLease(run[i], At(run[i], acts[i].p).claim.value.name)
    ensures forall n :: n in run[i].entries && n !in run[i + 1].entries ==> acts[i].Remove? && !LiveLease(run[i], n)
    ensures forall p :: p in run[i].procs && run[i].procs[p].Leased? ==>
      run[i].procs[p].name in run[i].entries && run[i].entries[run[i].procs[p].name].lock == run[i].procs[p].lock
  {
    InvRun(run, acts, i);
    var s, a := run[i], acts[i];
    assert forall p :: p in s.procs && s.procs[p].Leased? ==> Pins(s.procs[p], s.procs[p].name, s.procs[p].lock);
    if a.Remove? {
      var n := At(s, a.p).claim.value.name;
      if LiveLease(s, n) {
        var p :| p in s.procs && s.procs[p].Leased? && s.procs[p].name == n;
        RemovalFindsNoPin(s, a, p, n, s.procs[p].lock);
      }
    }
  }
}
