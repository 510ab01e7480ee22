/** A run of the generated-build cache that publishes a stale measurement over a live lease. */
module CacheStaleRefresh {
  import opened Orders
  import opened CacheProtocol
  import opened CacheInvariant
  import opened CacheDirtyMark

  ghost predicate Reachable(s: State) {
    exists run, acts :: IsRun(run, acts) && run[|acts|] == s
  }

  lemma Advance(s: State, a: Action, t: State)
    requires Reachable(s) && Enabled(s, a) && Apply(s, a) == t
    ensures Reachable(t)
  {
    var run, acts :| IsRun(run, acts) && run[|acts|] == s;
    assert IsRun(run + [t], acts + [a]);
    assert (run + [t])[|acts + [a]|] == t;
  }

  /** The process `p`, having the only domain to itself, runs through an acquisition of "d" as the lock file `l`. */
  lemma AcquireAlone(p: Pid, l: LockId, others: map<Pid, Control>)
    requires p !in others && others.Keys <= {p + 1}
    requires p + 1 in others ==> others[p + 1].Opened? && others[p + 1].lock < l
    requires Reachable(State(map[], others, l))
    ensures Reachable(State(map["d" := Entry(l, Some(Metadata(0, 0)), 0)], others[p := Leased("d", l)], l + 1))
  {
    AcquireStarts(p, l, others);
    AcquireOpens(p, l, others);
    AcquireShares(p, l, others);
  }

  lemma AcquireStarts(p: Pid, l: LockId, others: map<Pid, Control>)
    requires p !in others && others.Keys <= {p + 1}
    requires p + 1 in others ==> others[p + 1].Opened? && others[p + 1].lock < l
    requires Reachable(State(map[], others, l))
    ensures Reachable(State(map[], others[p := OpenDomain("d")], l))
  {
    hide Reachable;
    var empty: map<Name, Entry> := map[];
    var s := State(empty, others[p := AwaitManager("d")], l);
    Advance(State(empty, others, l), Begin(p, "d"), s);
    Advance(s, TakeManager(p), State(empty, others[p := OpenDomain("d")], l));
  }

  lemma AcquireShares(p: Pid, l: LockId, others: map<Pid, Control>)
    requires p !in others && others.Keys <= {p + 1}
    requires p + 1 in others ==> others[p + 1].Opened? && others[p + 1].lock < l
    requires Reachable(State(map["d" := Entry(l, None, 0)], others[p := AwaitShared("d", l, 0)], l + 1))
    ensures Reachable(State(map["d" := Entry(l, Some(Metadata(0, 0)), 0)], others[p := Leased("d", l)], l + 1))
  {
    hide Reachable;
    var created := map["d" := Entry(l, None, 0)];
    var s := State(created, others[p := AwaitShared("d", l, 0)], l + 1);
    var t := State(created, others[p := Protected("d", l, 0, None)], l + 1);
    Advance(s, Share(p), t);
    Advance(t, Publish(p), State(map["d" := Entry(l, Some(Metadata(0, 0)), 0)], others[p := Leased("d", l)], l + 1));
  }

  lemma AcquireOpens(p: Pid, l: LockId, others: map<Pid, Control>)
    requires p !in others && others.Keys <= {p + 1}
    requires p + 1 in others ==> others[p + 1].Opened? && others[p + 1].lock < l
    requires Reachable(State(map[], others[p := OpenDomain("d")], l))
    ensures Reachable(State(map["d" := Entry(l, None, 0)], others[p := AwaitShared("d", l, 0)], l + 1))
  {
    hide Reachable;
    var created := map["d" := Entry(l, None, 0)];
    var s := State(map[], others[p := OpenDomain("d")], l);
    var t := State(created, others[p := ProbeDomain("d", l)], l + 1);
    assert Free(State(created, s.procs, l + 1), l);
    Advance(s, Open(p), t);
    Advance(t, Probe(p, 100), State(created, others[p := AwaitShared("d", l, 0)], l + 1));
  }

  /** A process releases its lease and reopens the lock file, not yet locked; then a prune removes the domain. */
  lemma RemovedWhileOpened()
    ensures Reachable(State(map[], map[1 := Opened("d", 0)], 1))
  {
    hide Reachable;
    var dirty := map["d" := Entry(0, Some(Metadata(0, 0)), 0)];
    var o := Opened("d", 0);
    InitiallyReachable();
    AcquireAlone(1, 0, map[]);
    Advance(State(dirty, map[1 := Leased("d", 0)], 1), Release(1), State(dirty, map[1 := Released("d")], 1));
    Advance(State(dirty, map[1 := Released("d")], 1), OpenLock(1), State(dirty, map[1 := o], 1));
    PruneOpened();
  }

  lemma InitiallyReachable()
    ensures Reachable(State(map[], map[], 0))
  {
    var none: seq<Action> := [];
    assert IsRun([INITIAL], none) && [INITIAL][|none|] == INITIAL;
  }

  lemma PruneOpened()
    requires Reachable(State(map["d" := Entry(0, Some(Metadata(0, 0)), 0)], map[1 := Opened("d", 0)], 1))
    ensures Reachable(State(map[], map[1 := Opened("d", 0)], 1))
  {
    var dirty := map["d" := Entry(0, Some(Metadata(0, 0)), 0)];
    var o := Opened("d", 0);
    hide Reachable;
    var s0 := State(dirty, map[1 := o], 1);
    var s1 := State(dirty, map[1 := o, 2 := AwaitCleanup], 1);
    var s2 := State(dirty, map[1 := o, 2 := Cleaning(None)], 1);
    var s3 := State(dirty, map[1 := o, 2 := Cleaning(Some(Claim("d", 0)))], 1);
    Advance(s0, BeginPrune(2), s1);
    Advance(s1, TakeManager(2), s2);
    Advance(s2, TakeClaim(2, "d"), s3);
    PruneRemoves(s3);
  }

  lemma PruneRemoves(s3: State)
    requires s3 == State(map["d" := Entry(0, Some(Metadata(0, 0)), 0)],
                         map[1 := Opened("d", 0), 2 := Cleaning(Some(Claim("d", 0)))], 1)
    requires Reachable(s3)
    ensures Reachable(State(map[], map[1 := Opened("d", 0)], 1))
  {
    hide Reachable;
    var s4 := State(map[], map[1 := Opened("d", 0), 2 := Cleaning(None)], 1);
    Advance(s3, Remove(2), s4);
    Advance(s4, EndCleanup(2), State(map[], map[1 := Opened("d", 0)], 1));
  }

  /**
   A run that breaks the mark: the first process locks the orphaned lock file, measures the recreated directory by path
   and publishes over the live lease; when the second process crashes, the next prune counts seven bytes as none.
   */
  lemma StaleRefreshUnderCounts() returns (s: State, t: State)
    ensures Reachable(s) && s.entries.Keys == {"d"} && LiveLease(s, "d")
    ensures s.entries["d"].published == Some(Metadata(0, 1000))
    ensures Reachable(t) && t.entries == s.entries && Free(t, t.entries["d"].lock)
    ensures Counted(t.entries["d"], false, false) < t.entries["d"].target
  {
    hide Reachable;
    RemovedWhileOpened();
    AcquireAlone(0, 1, map[1 := Opened("d", 0)]);
    assert map[1 := Opened("d", 0)][0 := Leased("d", 1)] == map[0 := Leased("d", 1), 1 := Opened("d", 0)];
    var m := OrphanMeasures();
    s, t := StalePublish(m);
  }

  /**
   The same run with a smaller bound: the first process, refreshing under the orphaned lock file, drops the target tree
   that the second process has leased and built in.
   */
  lemma StaleRefreshDropsTarget() returns (s: State, a: Action)
    ensures Reachable(s) && LiveLease(s, "d") && s.entries.Keys == {"d"} && s.entries["d"].target == 7
    ensures a.Measure? && Enabled(s, a) && LiveLease(Apply(s, a), "d") && Apply(s, a).entries["d"].target == 0
  {
    hide Reachable;
    RemovedWhileOpened();
    AcquireAlone(0, 1, map[1 := Opened("d", 0)]);
    assert map[1 := Opened("d", 0)][0 := Leased("d", 1)] == map[0 := Leased("d", 1), 1 := Opened("d", 0)];
    OrphanLocked();
    var quiet := map["d" := Entry(1, Some(Metadata(0, 0)), 0)];
    var refreshing := map[0 := Leased("d", 1), 1 := Refreshing("d", 0)];
    s := State(map["d" := Entry(1, Some(Metadata(0, 0)), 7)], refreshing, 2);
    Advance(State(quiet, refreshing, 2), Build(0, 7), s);
    a := Measure(1, 5, 1000, false);
    assert s.procs[0].Leased? && Apply(s, a).procs[0].Leased?;
  }

  lemma OrphanLocked()
    requires Reachable(State(map["d" := Entry(1, Some(Metadata(0, 0)), 0)], map[0 := Leased("d", 1), 1 := Opened("d", 0)], 2))
    ensures Reachable(State(map["d" := Entry(1, Some(Metadata(0, 0)), 0)], map[0 := Leased("d", 1), 1 := Refreshing("d", 0)], 2))
  {
    var quiet := map["d" := Entry(1, Some(Metadata(0, 0)), 0)];
    Advance(State(quiet, map[0 := Leased("d", 1), 1 := Opened("d", 0)], 2), TryRefresh(1),
      State(quiet, map[0 := Leased("d", 1), 1 := Refreshing("d", 0)], 2));
  }

  lemma OrphanMeasures() returns (m: State)
    requires Reachable(State(map["d" := Entry(1, Some(Metadata(0, 0)), 0)], map[0 := Leased("d", 1), 1 := Opened("d", 0)], 2))
    ensures Reachable(m)
    ensures m == State(map["d" := Entry(1, Some(Metadata(0, 0)), 0)],
                       map[0 := Leased("d", 1), 1 := Measured("d", 0, 0, 1000)], 2)
  {
    var quiet := map["d" := Entry(1, Some(Metadata(0, 0)), 0)];
    var t := State(quiet, map[0 := Leased("d", 1), 1 := Refreshing("d", 0)], 2);
    OrphanLocked();
    m := State(quiet, map[0 := Leased("d", 1), 1 := Measured("d", 0, 0, 1000)], 2);
    Advance(t, Measure(1, 100, 1000, false), m);
  }

  lemma StalePublish(m: State) returns (s: State, t: State)
    requires m == State(map["d" := Entry(1, Some(Metadata(0, 0)), 0)],
                        map[0 := Leased("d", 1), 1 := Measured("d", 0, 0, 1000)], 2)
    requires Reachable(m)
    ensures Reachable(s) && s == State(map["d" := Entry(1, Some(Metadata(0, 1000)), 7)], map[0 := Leased("d", 1), 1 := AwaitCleanup], 2)
    ensures LiveLease(s, "d")
    ensures Reachable(t) && t == State(s.entries, map[1 := AwaitCleanup], 2)
  {
    hide Reachable;
    var built := State(map["d" := Entry(1, Some(Metadata(0, 0)), 7)], m.procs, 2);
    Advance(m, Build(0, 7), built);
    s := State(map["d" := Entry(1, Some(Metadata(0, 1000)), 7)], map[0 := Leased("d", 1), 1 := AwaitCleanup], 2);
    Advance(built, PublishMeasure(1), s);
    assert 0 in s.procs && s.procs[0].Leased?;
    t := State(s.entries, map[1 := AwaitCleanup], 2);
    Advance(s, Crash(0), t);
  }
}
