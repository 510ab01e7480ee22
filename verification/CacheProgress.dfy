/** Progress of the generated-build cache: no state of a run is a deadlock. */
module CacheProgress {
  import opened Orders
  import opened CacheProtocol
  import opened CacheInvariant

  ghost predicate NoneIdle(s: State) {
    forall p :: p in s.procs ==> !s.procs[p].Idle?
  }

  /** What a process in state `c` does next on its way out: it finishes rather than builds, claims or crashes. */
  function Next(p: Pid, c: Control): Action
    requires !c.Idle?
  {
    match c
    case AwaitManager(_) => TakeManager(p)
    case OpenDomain(_) => Open(p)
    case ProbeDomain(_, _) => Probe(p, 0)
    case AwaitShared(_, _, _) => Share(p)
    case Protected(_, _, _, claim) => if claim.Some? then DropClaim(p) else Publish(p)
    case Leased(_, _) => Release(p)
    case Released(_) => OpenLock(p)
    case Opened(_, _) => TryRefresh(p)
    case Refreshing(_, _) => Measure(p, 0, 0, true)
    case Measured(_, _, _, _) => PublishMeasure(p)
    case AwaitCleanup => TakeManager(p)
    case Cleaning(claim) => if claim.Some? then DropClaim(p) else EndCleanup(p)
    case Inspecting(_) => EndInspect(p)
  }

  /** Steps a process still has before it is done. */
  function Rank(c: Control): nat {
    match c
    case Idle => 0
    case Cleaning(claim) => if claim.Some? then 2 else 1
    case Inspecting(_) => 1
    case AwaitCleanup => 3
    case Measured(_, _, _, _) => 4
    case Refreshing(_, _) => 5
    case Opened(_, _) => 6
    case Released(_) => 7
    case Leased(_, _) => 8
    case Protected(_, _, _, claim) => if claim.Some? then 10 else 9
    case AwaitShared(_, _, _) => 11
    case ProbeDomain(_, _) => 12
    case OpenDomain(_) => 13
    case AwaitManager(_) => 14
  }

  lemma NextLowersRank(s: State, p: Pid)
    requires p in s.procs && !s.procs[p].Idle? && Enabled(s, Next(p, s.procs[p]))
    ensures Rank(At(Apply(s, Next(p, s.procs[p])), p)) < Rank(s.procs[p])
    ensures NoneIdle(s) ==> NoneIdle(Apply(s, Next(p, s.procs[p])))
  {
  }

  /** A wait is at most two deep: for the manager, whose holder may wait for one exclusive holder, who never waits. */
  lemma SomeoneCanMove(s: State) returns (p: Pid)
    requires Inv(s) && NoneIdle(s) && s.procs != map[]
    ensures p in s.procs && Enabled(s, Next(p, s.procs[p]))
  {
    hide Enabled, Next, Inv;
    p :| p in s.procs;
    if WaitsForManager(s.procs[p]) && !ManagerFree(s) {
      p :| p in s.procs && HoldsManager(s.procs[p]);
    }
    var l := if s.procs[p].AwaitShared? then s.procs[p].lock else 0;
    if s.procs[p].AwaitShared? && !NoExclusive(s, l) {
      p :| p in s.procs && Excludes(s.procs[p], l);
    }
    CanMove(s, p);
  }

  predicate WaitsForManager(c: Control) {
    c.AwaitManager? || c.AwaitCleanup?
  }

  /** Only the manager lock and a shared lock are ever waited for. */
  lemma CanMove(s: State, p: Pid)
    requires Inv(s) && p in s.procs && !s.procs[p].Idle?
    requires WaitsForManager(s.procs[p]) ==> ManagerFree(s)
    requires s.procs[p].AwaitShared? ==> NoExclusive(s, s.procs[p].lock)
    ensures Enabled(s, Next(p, s.procs[p]))
  {
    hide ManagerFree, NoExclusive, Free, OneManager, LocksExclude, LocksAllocated;
    var c := s.procs[p];
    if c.ProbeDomain? || c.Protected? { assert Pins(c, c.name, c.lock); }
  }

  ghost function Work(procs: map<Pid, Control>): nat
    decreases |procs|
  {
    if procs == map[] then 0
    else
      var p :| p in procs;
      assert |procs - {p}| < |procs| by { assert procs.Keys == (procs - {p}).Keys + {p}; }
      Rank(procs[p]) + Work(procs - {p})
  }

  lemma {:induction false} WorkSplits(procs: map<Pid, Control>, p: Pid)
    requires p in procs
    ensures Work(procs) == Rank(procs[p]) + Work(procs - {p})
    decreases |procs|
  {
    var q :| q in procs && Work(procs) == Rank(procs[q]) + Work(procs - {q});
    if q != p {
      assert procs.Keys == (procs - {q}).Keys + {q} && procs.Keys == (procs - {p}).Keys + {p};
      WorkSplits(procs - {q}, p);
      WorkSplits(procs - {p}, q);
      assert procs - {q} - {p} == procs - {p} - {q};
    }
  }

  lemma NextIsOwn(p: Pid, c: Control)
    requires !c.Idle?
    ensures Next(p, c).p == p
  {}

  lemma SameOthers(s: State, t: State, p: Pid)
    requires forall q :: q != p ==> (q in t.procs <==> q in s.procs) && At(t, q) == At(s, q)
    ensures t.procs - {p} == s.procs - {p}
  {
    forall q | q in t.procs - {p} ensures q in s.procs - {p} && s.procs[q] == t.procs[q] {
      assert At(t, q) == At(s, q);
    }
    forall q | q in s.procs - {p} ensures q in t.procs - {p} {}
  }

  lemma WorkDrops(s: State, p: Pid)
    requires p in s.procs && !s.procs[p].Idle? && Enabled(s, Next(p, s.procs[p]))
    ensures Work(Apply(s, Next(p, s.procs[p])).procs) < Work(s.procs)
  {
    hide Apply, Enabled, Rank, Work;
    var t := Apply(s, Next(p, s.procs[p]));
    NextLowersRank(s, p);
    NextIsOwn(p, s.procs[p]);
    StepLocal(s, Next(p, s.procs[p]));
    WorkSplits(s.procs, p);
    assert t.procs - {p} == s.procs - {p} by { SameOthers(s, t, p); }
    if p in t.procs {
      WorkSplits(t.procs, p);
    } else {
      assert t.procs == s.procs - {p};
    }
  }

  ghost predicate Executes(s: State, acts: seq<Action>, t: State)
    decreases |acts|
  {
    if acts == [] then s == t else Enabled(s, acts[0]) && Executes(Apply(s, acts[0]), acts[1..], t)
  }

  ghost predicate FinishesOnly(acts: seq<Action>) {
    forall i :: 0 <= i < |acts| ==>
      !(acts[i].Begin? || acts[i].BeginPrune? || acts[i].BeginInspect? || acts[i].Build? || acts[i].TakeClaim?
        || acts[i].Remove? || acts[i].Crash?)
  }

  lemma {:induction false} Drain(s: State) returns (acts: seq<Action>, t: State)
    requires Inv(s) && NoneIdle(s)
    ensures Executes(s, acts, t) && t.procs == map[] && FinishesOnly(acts)
    decreases Work(s.procs)
  {
    if s.procs == map[] {
      acts, t := [], s;
    } else {
      var p := SomeoneCanMove(s);
      var a := Next(p, s.procs[p]);
      NextLowersRank(s, p);
      WorkDrops(s, p);
      InvStep(s, a);
      var rest;
      rest, t := Drain(Apply(s, a));
      acts := [a] + rest;
      assert acts[1..] == rest;
    }
  }

  lemma {:induction false} NoneIdleRun(run: seq<State>, acts: seq<Action>, i: nat)
    requires IsRun(run, acts) && i < |run|
    ensures NoneIdle(run[i])
  {
    if i > 0 {
      NoneIdleRun(run, acts, i - 1);
    }
  }

  /**
   Deadlock freedom: in every state of every run some unfinished process can take its next step, and from that state
   all processes can be run to completion without a crash or a new arrival.
   */
  lemma NoDeadlock(run: seq<State>, acts: seq<Action>, i: nat)
    requires IsRun(run, acts) && i < |run|
    ensures run[i].procs != map[] ==> exists p :: p in run[i].procs && !run[i].procs[p].Idle? && Enabled(run[i], Next(p, run[i].procs[p]))
    ensures exists rest, t :: Executes(run[i], rest, t) && t.procs == map[] && FinishesOnly(rest)
  {
    InvRun(run, acts, i);
    NoneIdleRun(run, acts, i);
    if run[i].procs != map[] {
      var p := SomeoneCanMove(run[i]);
    }
    var rest, t := Drain(run[i]);
  }
}
