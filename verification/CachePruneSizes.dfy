/** What a prune leaves in true bytes, also in the runs of the step system. */
module CachePruneSizes {
  import opened Orders
  import opened CachePrune
  import opened CachePruneReport
  import P = CacheProtocol
  import CacheDirtyMark
  import CacheFreshLocks

  function Sizes(dirs: map<string, Directory>): map<string, nat> {
    map p | p in dirs :: dirs[p].size
  }

  /** Every measured record of an idle directory covers what the directory holds. */
  ghost predicate RecordsCover(dirs: map<string, Directory>) {
    forall p :: p in dirs && !Held(dirs[p]) && dirs[p].metadata.Some? && dirs[p].metadata.value.measuredAt != 0 ==>
      dirs[p].size <= dirs[p].metadata.value.logicalBytes
  }

  /** An idle directory counts for less than it holds exactly when a measured record that is too small is trusted. */
  lemma UnderCountedIff(d: Directory, refresh: bool)
    requires !Held(d)
    ensures Weight(d, refresh) < d.size <==>
      !refresh && d.metadata.Some? && d.metadata.value.measuredAt != 0 && d.metadata.value.logicalBytes < d.size
  {}

  /** The idle directories a budget prune leaves. */
  ghost function IdleLeft(listing: seq<string>, dirs: map<string, Directory>, max: nat, refresh: bool): set<string> {
    set p | p in dirs && !Held(dirs[p]) && p !in Taken(listing, dirs, max, [], refresh)
  }

  /**
   With fresh sizes or records that cover, the idle directories a budget prune leaves hold no more than the limit; with
   fresh sizes all that is left does, or nothing idle is left.
   */
  lemma BudgetIsMet(listing: seq<string>, dirs: map<string, Directory>, max: nat, refresh: bool)
    requires Lists(listing, dirs) && forall p :: p in listing ==> p in dirs
    requires refresh || RecordsCover(dirs)
    ensures Sum(IdleLeft(listing, dirs, max, refresh), Sizes(dirs)) <= max
    ensures refresh ==>
      IdleLeft(listing, dirs, max, refresh) == {}
      || Sum(dirs.Keys - Taken(listing, dirs, max, [], refresh), Sizes(dirs)) <= max
  {
    var s, taken := Schedule(listing, dirs, refresh), Taken(listing, dirs, max, [], refresh);
    var idle, left := IdleLeft(listing, dirs, max, refresh), dirs.Keys - taken;
    ReportExact(listing, dirs, max, [], refresh, false);
    ScheduleTells(listing, dirs, refresh);
    BudgetPlans(listing, dirs, max, refresh, s);
    assert Planned(listing, dirs, max, [], refresh, false).afterBytes == PlanOf(listing, dirs, max, [], refresh).projected;
    hide Taken, Schedule, Planned, Plan, PlanOf, Explains, Tells;
    if idle != {} {
      WeightsCover(dirs, refresh, idle, left);
    }
  }

  lemma WeightsCover(dirs: map<string, Directory>, refresh: bool, idle: set<string>, left: set<string>)
    requires refresh || RecordsCover(dirs)
    requires idle <= left <= dirs.Keys && forall p :: p in idle ==> !Held(dirs[p])
    ensures Sum(idle, Sizes(dirs)) <= Sum(left, Weights(dirs, refresh))
    ensures refresh ==> Sum(left, Sizes(dirs)) <= Sum(left, Weights(dirs, refresh))
  {
    SumAtMost(idle, Sizes(dirs), Weights(dirs, refresh));
    SumUnion(idle, left - idle, Weights(dirs, refresh));
    assert idle + (left - idle) == left;
    if refresh { SumAtMost(left, Sizes(dirs), Weights(dirs, refresh)); }
  }

  /** So a budget prune that finds no lock held leaves the whole cache within the limit. */
  lemma UnlockedCacheFits(listing: seq<string>, dirs: map<string, Directory>, max: nat, refresh: bool)
    requires Lists(listing, dirs) && forall p :: p in listing ==> p in dirs
    requires (refresh || RecordsCover(dirs)) && forall p :: p in dirs ==> !Held(dirs[p])
    ensures Sum(dirs.Keys - Taken(listing, dirs, max, [], refresh), Sizes(dirs)) <= max
  {
    BudgetIsMet(listing, dirs, max, refresh);
    assert dirs.Keys - Taken(listing, dirs, max, [], refresh) == IdleLeft(listing, dirs, max, refresh);
  }

  // ---- the cache of the step system ----

  /** A domain of the step system as a prune reads it; when it was used is not part of that system. */
  function AsDirectory(s: P.State, n: P.Name, lastUsed: nat): Directory
    requires n in s.entries
  {
    var e := s.entries[n];
    Directory(if e.published.None? then None else Some(Metadata(n, lastUsed, e.published.value.bytes, e.published.value.measuredAt)),
              e.target, lastUsed, if P.Free(s, e.lock) then Unlocked else Locked)
  }

  function AsDirectories(s: P.State, used: map<P.Name, nat>): map<string, Directory>
    requires s.entries.Keys <= used.Keys
  {
    map n | n in s.entries :: AsDirectory(s, n, used[n])
  }

  /** A prune counts a domain as the dirty mark assumes. */
  lemma CountedIsWeight(s: P.State, n: P.Name, lastUsed: nat, refresh: bool)
    requires n in s.entries
    ensures CacheDirtyMark.Counted(s.entries[n], !P.Free(s, s.entries[n].lock), refresh) == Weight(AsDirectory(s, n, lastUsed), refresh)
  {}

  /**
   When every refresh that got its lock got the one in its domain's directory, a budget prune in any reached state leaves
   no more than the limit in idle domains, whatever crashed before, and whether or not it measures them.
   */
  lemma ReachedCacheFits(run: seq<P.State>, acts: seq<P.Action>, i: nat, used: map<P.Name, nat>, listing: seq<string>,
                         max: nat, refresh: bool)
    requires P.IsRun(run, acts) && i < |run| && run[i].entries.Keys <= used.Keys
    requires forall j :: 0 <= j < i ==> !CacheFreshLocks.TakesStaleLock(run[j], acts[j])
    requires Lists(listing, AsDirectories(run[i], used)) && forall p :: p in listing ==> p in AsDirectories(run[i], used)
    ensures var dirs := AsDirectories(run[i], used);
      Sum(IdleLeft(listing, dirs, max, refresh), Sizes(dirs)) <= max
  {
    var dirs := AsDirectories(run[i], used);
    forall n | n in dirs && !Held(dirs[n]) && dirs[n].metadata.Some? && dirs[n].metadata.value.measuredAt != 0
      ensures dirs[n].size <= dirs[n].metadata.value.logicalBytes
    {
      CacheFreshLocks.IdleDomainsAreNeverUnderCounted(run, acts, i, n, false);
    }
    BudgetIsMet(listing, dirs, max, refresh);
  }
}
