/** Which steps keep every cache record honest, and what a prune then counts. */
module CacheDirtyMark {
  import opened Orders
  import opened CacheProtocol
  import opened CacheInvariant

  /** A live lease's domain is marked as never measured; any other nonzero measurement covers the true size. */
  ghost predicate DirtyMark(s: State) {
    forall n :: n in s.entries ==> EntryHonest(s, n)
  }

  ghost predicate EntryHonest(s: State, n: Name)
    requires n in s.entries
  {
    var e := s.entries[n];
    && (LiveLease(s, n) ==> e.published.Some? && e.published.value.measuredAt == 0)
    && (e.published.Some? && e.published.value.measuredAt != 0 ==> e.target <= e.published.value.bytes)
  }

  /** A refresh under the domain's current lock file publishes what it measured. */
  ghost predicate MeasurementsHold(s: State) {
    forall p :: p in s.procs && s.procs[p].Measured? && !Stale(s, s.procs[p]) && s.procs[p].name in s.entries ==>
      s.entries[s.procs[p].name].target <= s.procs[p].bytes
  }

  /** The refresh holds a lock file that is no longer the one in the domain's directory. */
  predicate Stale(s: State, c: Control)
    requires c.Measured?
  {
    c.name in s.entries && s.entries[c.name].lock != c.lock
  }

  /**
   The one kind of step that can break the mark: publishing a nonzero measurement while holding a stale lock file,
   over a domain that is leased or has outgrown the measurement.
   */
  ghost predicate BreaksMark(s: State, a: Action) {
    var c := At(s, a.p);
    && a.PublishMeasure? && c.Measured? && Stale(s, c)
    && s.entries[c.name].published.Some? && c.at != 0
    && (LiveLease(s, c.name) || c.bytes < s.entries[c.name].target)
  }

  lemma LeaseExcludes(s: State, n: Name, p: Pid)
    requires Inv(s) && n in s.entries && LiveLease(s, n) && p in s.procs
    ensures !Excludes(s.procs[p], s.entries[n].lock)
  {
    var q :| q in s.procs && s.procs[q].Leased? && s.procs[q].name == n;
    assert Pins(s.procs[q], n, s.procs[q].lock);
    assert Shares(s.procs[q], s.entries[n].lock);
  }

  lemma MeasurementsStep(s: State, a: Action)
    requires Enabled(s, a) && Inv(s) && MeasurementsHold(s)
    ensures MeasurementsHold(Apply(s, a))
  {
    hide Apply, Enabled, Inv, Stale, MeasurementsHold;
    StepLocal(s, a);
    var t := Apply(s, a);
    forall p | p in t.procs && t.procs[p].Measured? ensures Sound(t, t.procs[p]) {
      assert At(t, p) == t.procs[p];
      if p == a.p {
        OwnMeasurement(s, a);
      } else {
        assert p in s.procs && s.procs[p] == t.procs[p];
        assert Sound(s, s.procs[p]) by { SoundAt(s, p); }
        OtherMeasurement(s, a, p);
      }
    }
    AllSound(t);
  }

  ghost predicate Sound(s: State, c: Control)
    requires c.Measured?
  {
    !Stale(s, c) && c.name in s.entries ==> s.entries[c.name].target <= c.bytes
  }

  lemma SoundAt(s: State, p: Pid)
    requires MeasurementsHold(s) && p in s.procs && s.procs[p].Measured?
    ensures Sound(s, s.procs[p])
  {}

  lemma AllSound(s: State)
    requires forall p :: p in s.procs && s.procs[p].Measured? ==> Sound(s, s.procs[p])
    ensures MeasurementsHold(s)
  {
    hide Stale;
    forall p | p in s.procs && s.procs[p].Measured? ensures Sound(s, s.procs[p]) {}
  }

  lemma OwnMeasurement(s: State, a: Action)
    requires Enabled(s, a) && At(Apply(s, a), a.p).Measured?
    ensures Sound(Apply(s, a), At(Apply(s, a), a.p))
  {
    hide Free, ManagerFree, NoExclusive;
  }

  lemma OtherMeasurement(s: State, a: Action, p: Pid)
    requires Enabled(s, a) && Inv(s) && p != a.p && p in s.procs && s.procs[p].Measured? && Sound(s, s.procs[p])
    ensures Sound(Apply(s, a), s.procs[p])
  {
    hide Free, ManagerFree, NoExclusive, OneManager, LocksExclude, PinsHold;
    var m := s.procs[p];
    assert Mentions(m, m.lock);
    if a.Build? && At(s, a.p).name == m.name {
      LeaseExcludes(s, m.name, p);
    }
  }

  lemma NewLease(s: State, a: Action, n: Name)
    requires Enabled(s, a)
    ensures LiveLease(Apply(s, a), n) ==> LiveLease(s, n) || (a.Publish? && At(s, a.p).name == n)
  {
    hide Free, ManagerFree, NoExclusive;
    StepLocal(s, a);
    var t := Apply(s, a);
    if LiveLease(t, n) {
      var q :| q in t.procs && t.procs[q].Leased? && t.procs[q].name == n;
      assert At(t, q) == t.procs[q];
      if q != a.p { assert s.procs[q] == t.procs[q]; }
    }
  }

  lemma LeaseKept(s: State, a: Action, n: Name)
    requires Enabled(s, a) && LiveLease(s, n) && a.PublishMeasure?
    ensures LiveLease(Apply(s, a), n)
  {
    StepLocal(s, a);
    var q :| q in s.procs && s.procs[q].Leased? && s.procs[q].name == n;
    assert At(Apply(s, a), q) == s.procs[q];
  }

  lemma LeaseHasDomain(s: State, n: Name)
    requires PinsHold(s)
    ensures LiveLease(s, n) ==> n in s.entries
  {
    forall p | p in s.procs && s.procs[p].Leased? && s.procs[p].name == n ensures n in s.entries {
      assert Pins(s.procs[p], n, s.procs[p].lock);
    }
  }

  /** The entry a step writes, if any, stays honest unless the step breaks the mark. */
  lemma HonestStep(s: State, a: Action, n: Name)
    requires Enabled(s, a) && Inv(s) && DirtyMark(s) && MeasurementsHold(s)
    requires n in Apply(s, a).entries && !BreaksMark(s, a)
    ensures EntryHonest(Apply(s, a), n)
  {
    NewLease(s, a, n);
    LeaseHasDomain(s, n);
    if n in s.entries {
      if LiveLease(s, n) { HolderOfLeased(s, a, n); }
      BuildsLeased(s, a, n);
      assert EntryHonest(s, n);
      if a.PublishMeasure? || a.Measure? {
        HonestMeasure(s, a, n);
      } else {
        HonestOther(s, a, n);
      }
    } else {
      hide Inv, Free, ManagerFree, NoExclusive;
    }
  }

  lemma HonestMeasure(s: State, a: Action, n: Name)
    requires Enabled(s, a) && (a.Measure? || a.PublishMeasure?) && n in s.entries && n in Apply(s, a).entries
    requires EntryHonest(s, n) && MeasurementsHold(s) && !BreaksMark(s, a)
    requires LiveLease(Apply(s, a), n) ==> LiveLease(s, n)
    requires LiveLease(s, n) && At(s, a.p).Measured? && At(s, a.p).name == n ==> s.entries[n].lock != At(s, a.p).lock
    ensures EntryHonest(Apply(s, a), n)
  {
    hide Free, ManagerFree, NoExclusive, LiveLease;
  }

  lemma HonestOther(s: State, a: Action, n: Name)
    requires Enabled(s, a) && !a.Measure? && !a.PublishMeasure? && n in s.entries && n in Apply(s, a).entries
    requires EntryHonest(s, n)
    requires LiveLease(Apply(s, a), n) ==> LiveLease(s, n) || (a.Publish? && At(s, a.p).name == n)
    requires LiveLease(s, n) && At(s, a.p).ProbeDomain? ==> At(s, a.p).name != n
    requires a.Build? && At(s, a.p).name == n ==> LiveLease(s, n)
    ensures EntryHonest(Apply(s, a), n)
  {
    hide Free, ManagerFree, NoExclusive, LiveLease;
  }

  lemma BuildsLeased(s: State, a: Action, n: Name)
    requires Enabled(s, a)
    ensures a.Build? && At(s, a.p).name == n ==> LiveLease(s, n)
  {
    hide Free, ManagerFree, NoExclusive;
  }

  /** Nobody probes a leased domain, and nobody measures it under its current lock file. */
  lemma HolderOfLeased(s: State, a: Action, n: Name)
    requires Inv(s) && n in s.entries && LiveLease(s, n)
    ensures var c := At(s, a.p);
      (c.ProbeDomain? ==> c.name != n) && (c.Measured? && c.name == n ==> s.entries[n].lock != c.lock)
  {
    hide OneManager, LocksExclude, LocksAllocated, LiveLease;
    var c := At(s, a.p);
    assert c.ProbeDomain? ==> Pins(c, c.name, c.lock);
    if (c.ProbeDomain? || c.Measured?) && c.name == n { LeaseExcludes(s, n, a.p); }
  }

  /** From a good state, exactly the steps described by `BreaksMark` lead to a dishonest record. */
  lemma DirtyMarkExact(s: State, a: Action)
    requires Enabled(s, a) && Inv(s) && DirtyMark(s) && MeasurementsHold(s)
    ensures DirtyMark(Apply(s, a)) <==> !BreaksMark(s, a)
  {
    var t := Apply(s, a);
    if BreaksMark(s, a) {
      var n := At(s, a.p).name;
      if LiveLease(s, n) { LeaseKept(s, a, n); }
      assert !EntryHonest(t, n);
    } else {
      forall n | n in t.entries ensures EntryHonest(t, n) { HonestStep(s, a, n); }
    }
  }

  /** Bytes one prune counts for a domain: measured afresh when asked to, or when idle without a usable record. */
  function Counted(e: Entry, active: bool, refresh: bool): nat {
    if refresh || (!active && (e.published.None? || e.published.value.measuredAt == 0)) then e.target
    else PublishedBytes(e)
  }
}
