/** The transitive source-import closure of one module, as handed to the typechecker. */
module ImportClosure {
  import opened Orders
  import opened Graphs

  /** Module `i` imports the modules in `direct[i]`; a module's own index is never recorded there. */
  ghost predicate ValidImports(direct: seq<set<nat>>) {
    forall i: nat, j: nat :: 0 <= i < |direct| && j in direct[i] ==> j < |direct| && j != i
  }

  function ImportGraph(direct: seq<set<nat>>): Graph<nat> {
    map i: nat | i < |direct| :: direct[i]
  }

  /** The members of `s` below `n`, ascending. */
  function Ascending(s: set<nat>, n: nat): seq<nat> {
    if n == 0 then []
    else if n - 1 in s then Ascending(s, n - 1) + [n - 1]
    else Ascending(s, n - 1)
  }

  lemma {:induction false} AscendingLists(s: set<nat>, n: nat)
    ensures forall i: nat :: i in Ascending(s, n) <==> i in s && i < n
    ensures forall a, b :: 0 <= a < b < |Ascending(s, n)| ==> Ascending(s, n)[a] < Ascending(s, n)[b]
  {
    if n > 0 {
      AscendingLists(s, n - 1);
      var t := Ascending(s, n - 1);
      assert forall a :: 0 <= a < |t| ==> t[a] in t;
    }
  }

  /**
   The closure is, in ascending order, every other module reachable by one or more imports. The walk never expands the
   root again, even when a cycle leads back to it, and loses nothing by that.
   */
  method Closure(direct: seq<set<nat>>, root: nat) returns (deps: seq<nat>)
    requires ValidImports(direct)
    ensures forall i, j :: 0 <= i < j < |deps| ==> deps[i] < deps[j]
    ensures forall d: nat :: d in deps <==> root < |direct| && d != root && ReachesPlus(ImportGraph(direct), root, d)
  {
    if root >= |direct| {
      assert root !in ImportGraph(direct);
      return [];
    }
    hide ImportGraph, Reachable, Ascending, Covered, ReachesPlus, Reaches, IsPath;
    ghost var reach := Reachable(direct, root);
    ReachableGrows(direct, root);
    var found: set<nat> := {};
    var pending := Ascending(direct[root], |direct|);
    ListsMembers(direct, root);
    while pending != []
      invariant root !in found && found <= reach && Elements(pending) <= reach
      invariant Covered(direct, root, found, Elements(pending))
      decreases reach - found, |pending|
    {
      var dep, rest := Pop(pending);
      if dep != root && dep !in found {
        CoveredStep(direct, root, found, Elements(rest), dep);
        found := found + {dep};
        ListsMembers(direct, dep);
        ElementsConcat(rest, Ascending(direct[dep], |direct|));
        rest := rest + Ascending(direct[dep], |direct|);
      } else {
        assert found + {root} + Elements(pending) == found + {root} + Elements(rest);
      }
      pending := rest;
    }
    FoundAll(direct, root, found);
    AscendingLists(found, |direct|);
    deps := Ascending(found, |direct|);
  }

  lemma CoveredStep(direct: seq<set<nat>>, root: nat, found: set<nat>, waiting: set<nat>, dep: nat)
    requires Covered(direct, root, found, waiting + {dep}) && dep < |direct|
    ensures Covered(direct, root, found + {dep}, waiting + direct[dep])
  {
    forall x: nat | x in found + {dep} + {root}
      ensures x < |direct| && direct[x] <= found + {dep} + {root} + (waiting + direct[dep])
    {
      if x != dep { assert x in found + {root}; }
    }
  }

  lemma ListsMembers(direct: seq<set<nat>>, i: nat)
    requires ValidImports(direct) && i < |direct|
    ensures Elements(Ascending(direct[i], |direct|)) == direct[i]
  {
    AscendingLists(direct[i], |direct|);
  }

  method Pop(pending: seq<nat>) returns (top: nat, rest: seq<nat>)
    requires pending != []
    ensures Elements(pending) == Elements(rest) + {top} && |rest| < |pending|
  {
    top, rest := pending[|pending| - 1], pending[..|pending| - 1];
    assert pending == rest + [top];
  }

  /** Imports of the root and of everything found are found, waiting, or the root itself. */
  ghost predicate Covered(direct: seq<set<nat>>, root: nat, found: set<nat>, waiting: set<nat>) {
    forall x: nat :: x in found + {root} ==> x < |direct| && direct[x] <= found + {root} + waiting
  }

  lemma ElementsConcat(a: seq<nat>, b: seq<nat>)
    ensures Elements(a + b) == Elements(a) + Elements(b)
  {
  }

  ghost function Reachable(direct: seq<set<nat>>, root: nat): set<nat> {
    set d | d in ImportGraph(direct) && ReachesPlus(ImportGraph(direct), root, d)
  }

  lemma ReachableGrows(direct: seq<set<nat>>, root: nat)
    requires ValidImports(direct) && root < |direct|
    ensures direct[root] <= Reachable(direct, root)
    ensures forall x :: x in Reachable(direct, root) ==> x < |direct| && direct[x] <= Reachable(direct, root)
  {
    var g := ImportGraph(direct);
    forall d | d in direct[root] ensures d in Reachable(direct, root) {
      ReachesSelf(g, d);
      assert Edge(g, root, d);
    }
    forall x, d | x in Reachable(direct, root) && d in direct[x] ensures d in Reachable(direct, root) {
      var e :| Edge(g, root, e) && Reaches(g, e, x);
      ReachesEdge(g, e, x, d);
    }
  }

  lemma FoundAll(direct: seq<set<nat>>, root: nat, found: set<nat>)
    requires ValidImports(direct) && root < |direct| && root !in found && found <= Reachable(direct, root)
    requires Covered(direct, root, found, {})
    ensures forall d: nat :: d in found <==> d != root && ReachesPlus(ImportGraph(direct), root, d)
    ensures forall d: nat :: d in found ==> d < |direct|
  {
    var g := ImportGraph(direct);
    forall d: nat | ReachesPlus(g, root, d) ensures d in found + {root} {
      ReachesFirst(g, root, d);
      ReachesStaysInside(g, found + {root}, root, d);
    }
  }
}
