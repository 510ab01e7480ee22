/**
 The generated-build cache as a step system over any number of processes and compatibility domains.

 A lock file is an object of its own: a process that opened a domain's lock file keeps that object even after the
 domain's directory was removed and created again with a new lock file. A lock is held exactly while the control state
 of some process says so, so a crash releases everything its process held.
 */
module CacheProtocol {
  import opened Orders

  type Name = string
  type Pid = nat
  type LockId = nat

  const MEASUREMENT_INTERVAL := 10

  datatype Metadata = Metadata(bytes: nat, measuredAt: nat)

  /** One domain directory: its lock file, its published metadata and the bytes of its `target` tree. */
  datatype Entry = Entry(lock: LockId, published: Option<Metadata>, target: nat)

  datatype Claim = Claim(name: Name, lock: LockId)

  /** Where one process stands. The comments say which locks the state holds. */
  datatype Control =
    | Idle
    | AwaitManager(name: Name)
    | OpenDomain(name: Name)                                    // manager
    | ProbeDomain(name: Name, lock: LockId)                     // manager, exclusive on lock
    | AwaitShared(name: Name, lock: LockId, bytes: nat)         // manager
    | Protected(name: Name, lock: LockId, bytes: nat, claim: Option<Claim>)  // manager, shared, exclusive on the claim
    | Leased(name: Name, lock: LockId)                          // shared
    | Released(name: Name)
    | Opened(name: Name, lock: LockId)
    | Refreshing(name: Name, lock: LockId)                      // exclusive
    | Measured(name: Name, lock: LockId, bytes: nat, at: nat)   // exclusive
    | AwaitCleanup
    | Cleaning(claim: Option<Claim>)                            // manager, exclusive on the claim
    | Inspecting(lock: LockId)                                  // exclusive

  datatype State = State(entries: map<Name, Entry>, procs: map<Pid, Control>, nextLock: LockId)

  const INITIAL := State(map[], map[], 0)

  datatype Action =
    | Begin(p: Pid, name: Name)
    | BeginPrune(p: Pid)
    | BeginInspect(p: Pid, lock: LockId)
    | EndInspect(p: Pid)
    | TakeManager(p: Pid)
    | Open(p: Pid)
    | Probe(p: Pid, bound: nat)
    | Share(p: Pid)
    | TakeClaim(p: Pid, name: Name)
    | DropClaim(p: Pid)
    | Remove(p: Pid)
    | Publish(p: Pid)
    | Build(p: Pid, target: nat)
    | Release(p: Pid)
    | OpenLock(p: Pid)
    | TryRefresh(p: Pid)
    | Measure(p: Pid, bound: nat, now: nat, force: bool)
    | PublishMeasure(p: Pid)
    | EndCleanup(p: Pid)
    | Crash(p: Pid)

  // ---- locks ----

  function At(s: State, p: Pid): Control {
    if p in s.procs then s.procs[p] else Idle
  }

  predicate HoldsManager(c: Control) {
    c.OpenDomain? || c.ProbeDomain? || c.AwaitShared? || c.Protected? || c.Cleaning?
  }

  predicate Claims(c: Control, l: LockId) {
    (c.Protected? || c.Cleaning?) && c.claim.Some? && c.claim.value.lock == l
  }

  predicate Excludes(c: Control, l: LockId) {
    ((c.ProbeDomain? || c.Refreshing? || c.Measured? || c.Inspecting?) && c.lock == l) || Claims(c, l)
  }

  predicate Shares(c: Control, l: LockId) {
    (c.Protected? || c.Leased?) && c.lock == l
  }

  predicate ManagerFree(s: State) {
    forall p :: p in s.procs ==> !HoldsManager(s.procs[p])
  }

  predicate NoExclusive(s: State, l: LockId) {
    forall p :: p in s.procs ==> !Excludes(s.procs[p], l)
  }

  predicate Free(s: State, l: LockId) {
    NoExclusive(s, l) && forall p :: p in s.procs ==> !Shares(s.procs[p], l)
  }

  predicate LiveLease(s: State, n: Name) {
    exists p :: p in s.procs && s.procs[p].Leased? && s.procs[p].name == n
  }

  // ---- steps ----

  /** Bytes left after the retained bound was enforced: an oversized `target` tree is dropped whole. */
  function Enforce(target: nat, bound: nat): nat {
    if target <= bound then target else 0
  }

  function Put(s: State, p: Pid, c: Control): State {
    s.(procs := if c.Idle? then s.procs - {p} else s.procs[p := c])
  }

  function WithEntry(s: State, n: Name, e: Entry): State {
    s.(entries := s.entries[n := e])
  }

  function PublishedBytes(e: Entry): nat {
    if e.published.Some? then e.published.value.bytes else 0
  }

  function WithClaim(c: Control, claim: Option<Claim>): Control
    requires c.Protected? || c.Cleaning?
  {
    if c.Protected? then c.(claim := claim) else Cleaning(claim)
  }

  predicate Enabled(s: State, a: Action) {
    var c := At(s, a.p);
    match a
    case Begin(_, _) => c.Idle?
    case BeginPrune(_) => c.Idle?
    case BeginInspect(_, lock) => c.Idle? && lock < s.nextLock && Free(s, lock)
    case EndInspect(_) => c.Inspecting?
    case TakeManager(_) => (c.AwaitManager? || c.AwaitCleanup?) && ManagerFree(s)
    case Open(_) => c.OpenDomain?
    case Probe(_, _) => c.ProbeDomain? && c.name in s.entries
    case Share(_) => c.AwaitShared? && NoExclusive(s, c.lock)
    case TakeClaim(_, name) =>
      (c.Protected? || c.Cleaning?) && c.claim.None? && name in s.entries && Free(s, s.entries[name].lock)
    case DropClaim(_) => (c.Protected? || c.Cleaning?) && c.claim.Some?
    case Remove(_) => (c.Protected? || c.Cleaning?) && c.claim.Some?
    case Publish(_) => c.Protected? && c.claim.None? && c.name in s.entries
    case Build(_, _) => c.Leased? && c.name in s.entries
    case Release(_) => c.Leased?
    case OpenLock(_) => c.Released?
    case TryRefresh(_) => c.Opened?
    case Measure(_, _, _, _) => c.Refreshing?
    case PublishMeasure(_) => c.Measured?
    case EndCleanup(_) => c.Cleaning? && c.claim.None?
    case Crash(_) => !c.Idle?
  }

  function Apply(s: State, a: Action): State
    requires Enabled(s, a)
  {
    var c := At(s, a.p);
    match a
    case Begin(p, name) => Put(s, p, AwaitManager(name))
    case BeginPrune(p) => Put(s, p, AwaitCleanup)
    case BeginInspect(p, lock) => Put(s, p, Inspecting(lock))
    case EndInspect(p) => Put(s, p, Idle)
    case TakeManager(p) => Put(s, p, if c.AwaitManager? then OpenDomain(c.name) else Cleaning(None))
    case Open(p) =>
      var t := if c.name in s.entries then s
               else WithEntry(s, c.name, Entry(s.nextLock, None, 0)).(nextLock := s.nextLock + 1);
      var e := t.entries[c.name];
      Put(t, p, if Free(t, e.lock) then ProbeDomain(c.name, e.lock) else AwaitShared(c.name, e.lock, PublishedBytes(e)))
    case Probe(p, bound) =>
      var e := s.entries[c.name];
      if e.published.None? || e.published.value.measuredAt == 0 || e.published.value.bytes > bound then
        var left := Enforce(e.target, bound);
        Put(WithEntry(s, c.name, e.(target := left)), p, AwaitShared(c.name, c.lock, left))
      else
        Put(s, p, AwaitShared(c.name, c.lock, e.published.value.bytes))
    case Share(p) => Put(s, p, Protected(c.name, c.lock, c.bytes, None))
    case TakeClaim(p, name) => Put(s, p, WithClaim(c, Some(Claim(name, s.entries[name].lock))))
    case DropClaim(p) => Put(s, p, WithClaim(c, None))
    case Remove(p) => Put(s.(entries := s.entries - {c.claim.value.name}), p, WithClaim(c, None))
    case Publish(p) =>
      var e := s.entries[c.name];
      Put(WithEntry(s, c.name, e.(published := Some(Metadata(c.bytes, 0)))), p, Leased(c.name, c.lock))
    case Build(p, target) => WithEntry(s, c.name, s.entries[c.name].(target := target))
    case Release(p) => Put(s, p, Released(c.name))
    case OpenLock(p) => Put(s, p, if c.name in s.entries then Opened(c.name, s.entries[c.name].lock) else AwaitCleanup)
    case TryRefresh(p) => Put(s, p, if Free(s, c.lock) then Refreshing(c.name, c.lock) else AwaitCleanup)
    case Measure(p, bound, now, force) =>
      if c.name !in s.entries || s.entries[c.name].published.None? then Put(s, p, AwaitCleanup)
      else
        var e := s.entries[c.name];
        if !force && now < e.published.value.measuredAt + MEASUREMENT_INTERVAL then Put(s, p, AwaitCleanup)
        else
          var left := Enforce(e.target, bound);
          Put(WithEntry(s, c.name, e.(target := left)), p, Measured(c.name, c.lock, left, now))
    case PublishMeasure(p) =>
      if c.name in s.entries && s.entries[c.name].published.Some? then
        var e := s.entries[c.name];
        Put(WithEntry(s, c.name, e.(published := Some(Metadata(c.bytes, c.at)))), p, AwaitCleanup)
      else Put(s, p, AwaitCleanup)
    case EndCleanup(p) => Put(s, p, Idle)
    case Crash(p) => Put(s, p, Idle)
  }

  /** `run[0]` is the empty cache and every later state follows from the previous one by an enabled action. */
  ghost predicate IsRun(run: seq<State>, acts: seq<Action>) {
    && |run| == |acts| + 1 && run[0] == INITIAL
    && forall i :: 0 <= i < |acts| ==> Enabled(run[i], acts[i]) && run[i + 1] == Apply(run[i], acts[i])
  }

  // ---- the lock discipline ----

  ghost predicate OneManager(s: State) {
    forall p, q :: p in s.procs && q in s.procs && HoldsManager(s.procs[p]) && HoldsManager(s.procs[q]) ==> p == q
  }

  ghost predicate LocksExclude(s: State) {
    forall p, q, l :: p in s.procs && q in s.procs && Excludes(s.procs[p], l) ==>
      !Shares(s.procs[q], l) && (Excludes(s.procs[q], l) ==> p == q)
  }

  /** The control state relies on domain `n` still being the directory whose lock file is `l`. */
  predicate Pins(c: Control, n: Name, l: LockId) {
    || ((c.ProbeDomain? || c.AwaitShared? || c.Protected? || c.Leased?) && c.name == n && c.lock == l)
    || ((c.Protected? || c.Cleaning?) && c.claim == Some(Claim(n, l)))
  }

  ghost predicate PinsHold(s: State) {
    forall p, n, l :: p in s.procs && Pins(s.procs[p], n, l) ==> n in s.entries && s.entries[n].lock == l
  }

  predicate Mentions(c: Control, l: LockId) {
    Excludes(c, l) || Shares(c, l) || ((c.AwaitShared? || c.Opened?) && c.lock == l)
  }

  ghost predicate LocksAllocated(s: State) {
    && (forall n :: n in s.entries ==> s.entries[n].lock < s.nextLock)
    && (forall n, m :: n in s.entries && m in s.entries && s.entries[n].lock == s.entries[m].lock ==> n == m)
    && (forall p, l: LockId :: p in s.procs && Mentions(s.procs[p], l) ==> l < s.nextLock)
  }

  ghost predicate Inv(s: State) {
    OneManager(s) && LocksExclude(s) && PinsHold(s) && LocksAllocated(s)
  }
}
