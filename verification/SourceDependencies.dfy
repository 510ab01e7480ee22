/** The memoised, cycle-detecting check of unbaked source dependencies. */
module SourceDependencies {
  import opened Orders
  import opened Graphs

  type Root = string

  datatype Failure = Cycle(root: Root) | Broken(root: Root)

  datatype Result = Ok(metadata: seq<Root>) | Err(failure: Failure)

  /**
   The active source dependencies of every root, in key order, and the roots whose own check fails before or after
   their dependencies were checked. A root without a manifest fails before.
   */
  datatype Project = Project(dependencies: map<Root, seq<Root>>, failsBefore: set<Root>, failsAfter: set<Root>)

  function DependencyGraph(p: Project): Graph<Root> {
    map r | r in p.dependencies :: Elements(p.dependencies[r])
  }

  ghost predicate Listed(p: Project, roots: seq<Root>) {
    forall r :: r in roots ==> r in p.dependencies
  }

  ghost predicate ProjectClosed(p: Project) {
    forall r :: r in p.dependencies ==> Listed(p, p.dependencies[r])
  }

  predicate IsBroken(p: Project, r: Root) {
    r in p.failsBefore || r in p.failsAfter
  }

  ghost predicate Below(p: Project, roots: seq<Root>, r: Root) {
    exists a :: a in roots && Reaches(DependencyGraph(p), a, r)
  }

  /** A failure is justified: the named root is below `roots` and lies on a cycle or fails by itself. */
  ghost predicate Justified(p: Project, roots: seq<Root>, f: Failure) {
    && Below(p, roots, f.root)
    && match f
       case Cycle(r) => ReachesPlus(DependencyGraph(p), r, r)
       case Broken(r) => IsBroken(p, r)
  }

  /** The metadata of a list of dependencies: each dependency's own list, one after the other. */
  function Join(roots: seq<Root>, completed: map<Root, seq<Root>>): seq<Root>
    requires forall r :: r in roots ==> r in completed
  {
    if roots == [] then [] else Join(roots[..|roots| - 1], completed) + completed[roots[|roots| - 1]]
  }

  lemma {:induction false} JoinGrows(roots: seq<Root>, before: map<Root, seq<Root>>, after: map<Root, seq<Root>>)
    requires forall r :: r in roots ==> r in before
    requires forall r :: r in before ==> r in after && after[r] == before[r]
    ensures Join(roots, before) == Join(roots, after)
  {
    if roots != [] {
      JoinGrows(roots[..|roots| - 1], before, after);
    }
  }

  // ---- the same check without memory ----

  /** Check the listed roots one after the other; `path` are the roots being visited. */
  ghost function PlainList(p: Project, roots: seq<Root>, path: set<Root>): Result
    requires ProjectClosed(p) && Listed(p, roots)
    decreases p.dependencies.Keys - path, 1, |roots|
  {
    if roots == [] then Ok([])
    else
      var n := |roots| - 1;
      match PlainList(p, roots[..n], path)
      case Err(f) => Err(f)
      case Ok(before) =>
        match PlainRoot(p, roots[n], path)
        case Err(f) => Err(f)
        case Ok(own) => Ok(before + own)
  }

  ghost function PlainRoot(p: Project, root: Root, path: set<Root>): Result
    requires ProjectClosed(p) && root in p.dependencies
    decreases p.dependencies.Keys - path, 0, 0
  {
    if root in path then Err(Cycle(root))
    else
      assert root in p.dependencies.Keys - path;
      PlainOne(p, root, path + {root})
  }

  /** A root that is being visited: it fails at once, or as its dependencies do, or after them. */
  ghost function PlainOne(p: Project, root: Root, path: set<Root>): Result
    requires ProjectClosed(p) && root in p.dependencies
    decreases p.dependencies.Keys - path, 2, 0
  {
    if root in p.failsBefore then Err(Broken(root))
    else
      match PlainList(p, p.dependencies[root], path)
      case Err(f) => Err(f)
      case Ok(m) => if root in p.failsAfter then Err(Broken(root)) else Ok(m + [root])
  }

  /** A list whose beginning fails, fails with it. */
  lemma {:induction false} PlainFails(p: Project, roots: seq<Root>, i: nat, path: set<Root>)
    requires ProjectClosed(p) && Listed(p, roots) && i <= |roots| && PlainList(p, roots[..i], path).Err?
    ensures PlainList(p, roots, path) == PlainList(p, roots[..i], path)
    decreases |roots| - i
  {
    if i == |roots| {
      assert roots[..i] == roots;
    } else {
      assert roots[..i + 1][..i] == roots[..i];
      PlainFails(p, roots, i + 1, path);
    }
  }

  lemma PlainNext(p: Project, roots: seq<Root>, i: nat, path: set<Root>)
    requires ProjectClosed(p) && Listed(p, roots) && i < |roots| && PlainList(p, roots[..i], path).Ok?
    ensures ListedPrefix(p, roots, i + 1)
    ensures PlainList(p, roots[..i + 1], path) ==
      match PlainRoot(p, roots[i], path)
      case Err(f) => Err(f)
      case Ok(own) => Ok(PlainList(p, roots[..i], path).metadata + own)
  {
    assert roots[..i + 1][..i] == roots[..i];
  }

  /** What is remembered of a root is what checking it again would give, whatever is being visited above it. */
  lemma {:induction false} PlainRemembered(p: Project, completed: map<Root, seq<Root>>, order: seq<Root>, i: nat,
                                           path: set<Root>)
    requires ProjectClosed(p) && Recorded(p, completed) && Distinct(order) && Elements(order) == completed.Keys
    requires SuccessorsFirst(DependencyGraph(p), order) && i < |order| && path !! Elements(order[..i + 1])
    ensures order[i] in completed && PlainRoot(p, order[i], path) == Ok(completed[order[i]])
    decreases i, 1, 0
  {
    var root := order[i];
    assert root in Elements(order);
    NotYetMet(order, i, path);
    DependenciesBefore(p, order, i);
    hide SuccessorsFirst, Distinct, DependencyGraph;
    PlainListRemembered(p, completed, order, i, p.dependencies[root], path + {root});
    hide Elements;
    assert PlainOne(p, root, path + {root}) == Ok(Join(p.dependencies[root], completed) + [root]);
  }

  lemma NotYetMet(order: seq<Root>, i: nat, path: set<Root>)
    requires Distinct(order) && i < |order| && path !! Elements(order[..i + 1])
    ensures order[i] in Elements(order) && order[i] !in path && path + {order[i]} !! Elements(order[..i])
  {
    assert order[..i + 1][i] == order[i];
    forall x | x in order[..i] ensures x in Elements(order[..i + 1]) && x != order[i] {
      var k :| 0 <= k < i && order[..i][k] == x;
      assert order[..i + 1][k] == x && order[k] != order[i];
    }
  }

  lemma DependenciesBefore(p: Project, order: seq<Root>, i: nat)
    requires SuccessorsFirst(DependencyGraph(p), order) && i < |order| && order[i] in p.dependencies
    ensures forall d :: d in p.dependencies[order[i]] ==> d in order[..i]
  {
    forall d | d in p.dependencies[order[i]] ensures d in order[..i] { assert Edge(DependencyGraph(p), order[i], d); }
  }

  lemma {:induction false} PlainListRemembered(p: Project, completed: map<Root, seq<Root>>, order: seq<Root>, i: nat,
                                               roots: seq<Root>, path: set<Root>)
    requires ProjectClosed(p) && Recorded(p, completed) && Distinct(order) && Elements(order) == completed.Keys
    requires SuccessorsFirst(DependencyGraph(p), order) && i <= |order| && path !! Elements(order[..i])
    requires Listed(p, roots) && forall d :: d in roots ==> d in order[..i]
    ensures (forall d :: d in roots ==> d in completed) && PlainList(p, roots, path) == Ok(Join(roots, completed))
    decreases i, 0, |roots|
  {
    forall d | d in roots ensures d in completed { assert d in Elements(order); }
    if roots != [] {
      var n := |roots| - 1;
      assert roots[n] in roots;
      PlainListRemembered(p, completed, order, i, roots[..n], path);
      var k :| 0 <= k < i && order[..i][k] == roots[n];
      forall x | x in order[..k + 1] ensures x in Elements(order[..i]) {
        var l :| 0 <= l < k + 1 && order[..k + 1][l] == x;
        assert order[..i][l] == x;
      }
      PlainRemembered(p, completed, order, k, path);
    }
  }

  lemma BelowStep(p: Project, owner: Root, r: Root, c: Root)
    requires owner in p.dependencies && r in p.dependencies[owner] && Reaches(DependencyGraph(p), r, c)
    ensures Reaches(DependencyGraph(p), owner, c)
  {
    var g := DependencyGraph(p);
    assert Edge(g, owner, r);
    ReachesFirst(g, owner, c);
  }

  class Checker {
    const project: Project
    var completed: map<Root, seq<Root>>
    var visiting: set<Root>
    ghost var order: seq<Root>

    ghost predicate Valid()
      reads this
    {
      && ProjectClosed(project) && visiting !! completed.Keys
      && Distinct(order) && Elements(order) == completed.Keys
      && SuccessorsFirst(DependencyGraph(project), order)
      && Recorded(project, completed)
    }

    constructor (project: Project)
      requires ProjectClosed(project)
      ensures Valid() && this.project == project && completed == map[] && visiting == {} && order == []
    {
      this.project := project;
      completed, visiting, order := map[], {}, [];
    }

    /**
     Check a list of dependencies. `owner` is the root whose dependencies they are, absent for the entry session, which
     is never marked as being visited.
     */
    method CheckDependencies(active: seq<Root>, ghost owner: Option<Root>) returns (r: Result)
      requires Valid() && Listed(project, active)
      requires OnStack(project, visiting, owner, active)
      modifies this
      ensures r.Ok? ==> Valid() && visiting == old(visiting) && old(order) <= order
      ensures r.Ok? ==> Extends(old(completed), completed) && (forall a :: a in active ==> a in completed)
      ensures r.Ok? ==> r.metadata == Join(active, completed)
      ensures r.Ok? ==> AddsBelow(project, active, old(completed), completed)
      ensures r.Err? ==> Justified(project, active, r.failure)
      ensures r == PlainList(project, active, old(visiting))
      decreases project.dependencies.Keys - visiting, 1
    {
      hide ProjectClosed, Listed, OnStack, Recorded, SuccessorsFirst, Distinct, Justified, Join, Extends, AddsBelow;
      hide PlainList, PlainRoot;
      var metadata: seq<Root> := [];
      NothingAdded(project, active, completed);
      NothingPlain(project, active, visiting);
      for i := 0 to |active|
        invariant Valid() && visiting == old(visiting) && old(order) <= order
        invariant Extends(old(completed), completed) && AddsBelow(project, active, old(completed), completed)
        invariant forall a :: a in active[..i] ==> a in completed
        invariant metadata == Join(active[..i], completed)
        invariant ListedPrefix(project, active, i) && PlainList(project, active[..i], visiting) == Ok(metadata)
      {
        var root := active[i];
        ghost var before := completed;
        assert root in active;
        PlainNext(project, active, i, visiting);
        if root in completed {
          NothingAdded(project, active, completed);
          Remembered(root);
        } else {
          var failure := CheckNew(root, active, owner);
          if failure.Some? {
            PlainFails(project, active, i + 1, old(visiting));
            return Err(failure.value);
          }
        }
        OneMore(project, active, i, old(completed), before, completed);
        metadata := metadata + completed[root];
      }
      assert active[..|active|] == active;
      r := Ok(metadata);
    }

    lemma Remembered(root: Root)
      requires Valid() && root in completed
      ensures root in project.dependencies && PlainRoot(project, root, visiting) == Ok(completed[root])
    {
      assert root in Elements(order);
      var i :| 0 <= i < |order| && order[i] == root;
      forall x | x in order[..i + 1] ensures x in Elements(order) {}
      PlainRemembered(project, completed, order, i, visiting);
    }

    /** A root met for the first time is marked while it is being checked and remembered once it is. */
    method CheckNew(root: Root, ghost active: seq<Root>, ghost owner: Option<Root>) returns (failure: Option<Failure>)
      requires Valid() && Listed(project, active) && root in active && root !in completed
      requires OnStack(project, visiting, owner, active)
      modifies this
      ensures failure.None? ==> Valid() && visiting == old(visiting) && old(order) <= order
      ensures failure.None? ==> Extends(old(completed), completed) && root in completed
      ensures failure.None? ==> AddsBelow(project, active, old(completed), completed)
      ensures failure.Some? ==> Justified(project, active, failure.value)
      ensures root in project.dependencies && PlainRoot(project, root, old(visiting))
        == if failure.Some? then Err(failure.value) else Ok(completed[root])
      decreases project.dependencies.Keys - visiting, 0
    {
      if root in visiting {
        VisitedTwice(project, visiting, owner, active, root);
        return Some(Cycle(root));
      }
      Pushed(project, visiting, owner, active, root);
      assert root in project.dependencies.Keys - visiting;
      visiting := visiting + {root};
      var checked := CheckOne(root);
      if checked.Err? {
        JustifiedBelow(project, active, root, checked.failure);
        return Some(checked.failure);
      }
      visiting := visiting - {root};
      Completed(project, completed, order, root, checked.metadata);
      completed := completed[root := checked.metadata];
      order := order + [root];
      ReachesSelf(DependencyGraph(project), root);
      return None;
    }

    /** Check one dependency: its own discovery, then its dependencies, then its public metadata. */
    method CheckOne(root: Root) returns (r: Result)
      requires Valid() && root in visiting && root in project.dependencies
      requires forall v :: v in visiting ==> Reaches(DependencyGraph(project), v, root)
      modifies this
      ensures r.Ok? ==> Valid() && visiting == old(visiting) && old(order) <= order && root !in completed
      ensures r.Ok? ==> Extends(old(completed), completed)
      ensures r.Ok? ==> forall d :: d in project.dependencies[root] ==> d in completed
      ensures r.Ok? ==> r.metadata == Join(project.dependencies[root], completed) + [root] && !IsBroken(project, root)
      ensures r.Ok? ==> forall c :: c in completed && c !in old(completed) ==> Reaches(DependencyGraph(project), root, c)
      ensures r.Err? ==> Justified(project, [root], r.failure)
      ensures r == PlainOne(project, root, old(visiting))
      decreases project.dependencies.Keys - visiting, 2
    {
      ReachesSelf(DependencyGraph(project), root);
      assert root in [root];
      if root in project.failsBefore {
        return Err(Broken(root));
      }
      var inner := CheckDependencies(project.dependencies[root], Some(root));
      if inner.Err? {
        JustifiedAbove(project, root, inner.failure);
        return inner;
      }
      forall c | c in completed && c !in old(completed) ensures Reaches(DependencyGraph(project), root, c) {
        var a :| a in project.dependencies[root] && Reaches(DependencyGraph(project), a, c);
        BelowStep(project, root, a, c);
      }
      if root in project.failsAfter {
        return Err(Broken(root));
      }
      r := Ok(inner.metadata + [root]);
    }
  }

  lemma NothingPlain(p: Project, active: seq<Root>, path: set<Root>)
    requires ProjectClosed(p) && Listed(p, active)
    ensures ListedPrefix(p, active, 0) && PlainList(p, active[..0], path) == Ok([])
  {}

  ghost predicate ListedPrefix(p: Project, active: seq<Root>, i: nat) {
    i <= |active| && Listed(p, active[..i])
  }

  /** Every stored result follows from the stored results of the root's dependencies. */
  ghost predicate Recorded(p: Project, completed: map<Root, seq<Root>>) {
    forall r :: r in completed ==>
      && r in p.dependencies && !IsBroken(p, r)
      && (forall d :: d in p.dependencies[r] ==> d in completed)
      && completed[r] == Join(p.dependencies[r], completed) + [r]
  }

  ghost predicate Extends(before: map<Root, seq<Root>>, after: map<Root, seq<Root>>) {
    forall r :: r in before ==> r in after && after[r] == before[r]
  }

  /** Whatever was remembered meanwhile is below the list. */
  ghost predicate AddsBelow(p: Project, active: seq<Root>, before: map<Root, seq<Root>>, after: map<Root, seq<Root>>) {
    forall c :: c in after && c !in before ==> Below(p, active, c)
  }

  lemma NothingAdded(p: Project, active: seq<Root>, completed: map<Root, seq<Root>>)
    ensures AddsBelow(p, active, completed, completed) && Extends(completed, completed)
    ensures Join(active[..0], completed) == []
  {}

  lemma OneMore(p: Project, active: seq<Root>, i: nat, first: map<Root, seq<Root>>, before: map<Root, seq<Root>>,
                after: map<Root, seq<Root>>)
    requires i < |active| && (forall a :: a in active[..i] ==> a in before)
    requires Extends(first, before) && Extends(before, after) && active[i] in after
    requires AddsBelow(p, active, first, before) && AddsBelow(p, active, before, after)
    ensures Extends(first, after) && AddsBelow(p, active, first, after)
    ensures forall a :: a in active[..i + 1] ==> a in after
    ensures Join(active[..i + 1], after) == Join(active[..i], before) + after[active[i]]
  {
    hide Below;
    JoinGrows(active[..i], before, after);
    assert active[..i + 1] == active[..i] + [active[i]];
    JoinAppend(active, i, after);
  }

  /** The visited roots are the ancestors of the owner, and the list is the owner's; the entry has no ancestors. */
  ghost predicate OnStack(p: Project, visiting: set<Root>, owner: Option<Root>, active: seq<Root>) {
    match owner
    case None => visiting == {}
    case Some(u) =>
      && u in p.dependencies && active == p.dependencies[u]
      && forall v :: v in visiting ==> Reaches(DependencyGraph(p), v, u)
  }

  lemma VisitedTwice(p: Project, visiting: set<Root>, owner: Option<Root>, active: seq<Root>, root: Root)
    requires OnStack(p, visiting, owner, active) && root in active && root in visiting
    ensures Justified(p, active, Cycle(root))
  {
    var g := DependencyGraph(p);
    assert Edge(g, owner.value, root);
    ReachesSelf(g, root);
    ReachesCases(g, root, owner.value);
    if ReachesPlus(g, root, owner.value) {
      var d :| Edge(g, root, d) && Reaches(g, d, owner.value);
      ReachesEdge(g, d, owner.value, root);
    }
  }

  lemma Pushed(p: Project, visiting: set<Root>, owner: Option<Root>, active: seq<Root>, root: Root)
    requires OnStack(p, visiting, owner, active) && root in active
    ensures forall v :: v in visiting + {root} ==> Reaches(DependencyGraph(p), v, root)
  {
    var g := DependencyGraph(p);
    ReachesSelf(g, root);
    forall v | v in visiting ensures Reaches(g, v, root) {
      assert Edge(g, owner.value, root);
      ReachesEdge(g, v, owner.value, root);
    }
  }

  /** Remembering a checked root keeps the record: its dependencies are all remembered already. */
  lemma Completed(p: Project, completed: map<Root, seq<Root>>, order: seq<Root>, root: Root, metadata: seq<Root>)
    requires Recorded(p, completed) && Distinct(order) && Elements(order) == completed.Keys && root !in completed
    requires SuccessorsFirst(DependencyGraph(p), order)
    requires root in p.dependencies && !IsBroken(p, root) && forall d :: d in p.dependencies[root] ==> d in completed
    requires metadata == Join(p.dependencies[root], completed) + [root]
    ensures Recorded(p, completed[root := metadata]) && Distinct(order + [root])
    ensures Elements(order + [root]) == completed[root := metadata].Keys
    ensures SuccessorsFirst(DependencyGraph(p), order + [root])
  {
    var after := completed[root := metadata];
    forall r | r in after ensures forall d :: d in p.dependencies[r] ==> d in completed {}
    forall r | r in after ensures after[r] == Join(p.dependencies[r], after) + [r] {
      JoinGrows(p.dependencies[r], completed, after);
    }
    assert root !in Elements(order);
    var all := order + [root];
    forall j, d | 0 <= j < |all| && Edge(DependencyGraph(p), all[j], d) ensures d in all[..j] {
      if j < |order| {
        assert Edge(DependencyGraph(p), order[j], d) && all[..j] == order[..j];
      } else {
        assert d in Elements(order) && all[..j] == order;
      }
    }
  }

  lemma JustifiedBelow(p: Project, active: seq<Root>, root: Root, f: Failure)
    requires root in active && Justified(p, [root], f)
    ensures Justified(p, active, f)
  {
    var a :| a in [root] && Reaches(DependencyGraph(p), a, f.root);
  }

  lemma JustifiedAbove(p: Project, root: Root, f: Failure)
    requires root in p.dependencies && Justified(p, p.dependencies[root], f)
    ensures Justified(p, [root], f)
  {
    var a :| a in p.dependencies[root] && Reaches(DependencyGraph(p), a, f.root);
    BelowStep(p, root, a, f.root);
    assert root in [root];
  }

  lemma JoinAppend(active: seq<Root>, i: nat, completed: map<Root, seq<Root>>)
    requires i < |active| && forall a :: a in active[..i + 1] ==> a in completed
    ensures forall a :: a in active[..i] ==> a in completed
    ensures Join(active[..i + 1], completed) == Join(active[..i], completed) + completed[active[i]]
  {
    assert active[..i + 1][..i] == active[..i];
    assert active[..i + 1] == active[..i] + [active[i]];
  }

  /**
   The check succeeds exactly when no root below the entry's dependencies lies on a cycle or fails by itself. On success
   exactly those roots were checked, each once and after all of its own dependencies, and nothing stays marked.
   */
  method CheckSession(project: Project, active: seq<Root>)
      returns (r: Result, ghost order: seq<Root>, ghost completed: map<Root, seq<Root>>, ghost visiting: set<Root>)
    requires ProjectClosed(project) && Listed(project, active)
    ensures r.Ok? <==> forall c :: Below(project, active, c) ==>
      && !ReachesPlus(DependencyGraph(project), c, c)
      && c !in project.failsBefore && c !in project.failsAfter
    ensures r.Err? ==> Justified(project, active, r.failure)
    ensures r == PlainList(project, active, {})
    ensures r.Ok? ==> visiting == {} && Distinct(order) && SuccessorsFirst(DependencyGraph(project), order)
    ensures r.Ok? ==> forall c :: c in order <==> Below(project, active, c)
    ensures r.Ok? ==> Recorded(project, completed) && completed.Keys == Elements(order)
    ensures r.Ok? ==> (forall a :: a in active ==> a in completed) && r.metadata == Join(active, completed)
  {
    var checker := new Checker(project);
    r := checker.CheckDependencies(active, None);
    order, completed, visiting := checker.order, checker.completed, checker.visiting;
    if r.Ok? {
      forall c | Below(project, active, c)
        ensures c in order && !ReachesPlus(DependencyGraph(project), c, c) && !IsBroken(project, c)
      {
        var a :| a in active && Reaches(DependencyGraph(project), a, c);
        assert a in Elements(order);
        SuccessorsFirstAcyclic(DependencyGraph(project), order, a);
        assert c in Elements(order);
      }
      forall c | c in order ensures Below(project, active, c) { assert c in Elements(order); }
    }
  }
}
