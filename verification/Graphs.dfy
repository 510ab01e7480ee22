/**
 Finite directed graphs as maps from nodes to successor sets: paths, reachability and cycles.

 The results used elsewhere: closed sets keep reachability inside, a set in which every member has a successor in the
 set lies above a cycle, and a list with successors first is closed and acyclic.
 */
module Graphs {
  import opened Orders

  type Graph<T> = map<T, set<T>>

  predicate Edge<T>(g: Graph<T>, a: T, b: T) {
    a in g && b in g[a]
  }

  ghost predicate IsPath<T>(g: Graph<T>, p: seq<T>, a: T, b: T) {
    && |p| > 0 && p[0] == a && p[|p| - 1] == b
    && forall i :: 0 <= i < |p| - 1 ==> Edge(g, p[i], p[i + 1])
  }

  /** Zero or more edges lead from `a` to `b`. */
  ghost predicate Reaches<T(!new)>(g: Graph<T>, a: T, b: T) {
    exists p :: IsPath(g, p, a, b)
  }

  /** One or more edges lead from `a` to `b`. */
  ghost predicate ReachesPlus<T(!new)>(g: Graph<T>, a: T, b: T) {
    exists d :: Edge(g, a, d) && Reaches(g, d, b)
  }

  ghost predicate CycleBelow<T(!new)>(g: Graph<T>, a: T) {
    exists c :: Reaches(g, a, c) && ReachesPlus(g, c, c)
  }

  ghost predicate Closed<T>(g: Graph<T>, s: set<T>) {
    forall a :: a in s && a in g ==> g[a] <= s
  }

  lemma PathDrop<T>(g: Graph<T>, p: seq<T>, a: T, b: T, i: nat)
    requires IsPath(g, p, a, b) && i < |p|
    ensures IsPath(g, p[i..], p[i], b)
    ensures i + 1 < |p| ==> Edge(g, p[i], p[i + 1])
  {
    var q := p[i..];
    forall k | 0 <= k < |q| - 1 ensures Edge(g, q[k], q[k + 1]) {
      assert Edge(g, p[i + k], p[i + k + 1]);
    }
  }

  lemma PathPrepend<T>(g: Graph<T>, a: T, q: seq<T>, d: T, b: T)
    requires Edge(g, a, d) && IsPath(g, q, d, b)
    ensures IsPath(g, [a] + q, a, b)
  {
    var p := [a] + q;
    forall k | 0 <= k < |p| - 1 ensures Edge(g, p[k], p[k + 1]) {
      if k > 0 { assert Edge(g, q[k - 1], q[k - 1 + 1]); }
    }
  }

  lemma PathAppend<T>(g: Graph<T>, p: seq<T>, a: T, b: T, c: T)
    requires IsPath(g, p, a, b) && Edge(g, b, c)
    ensures IsPath(g, p + [c], a, c)
  {
    var q := p + [c];
    forall k | 0 <= k < |q| - 1 ensures Edge(g, q[k], q[k + 1]) {
      if k < |p| - 1 { assert Edge(g, p[k], p[k + 1]); }
    }
  }

  lemma ReachesSelf<T(!new)>(g: Graph<T>, a: T)
    ensures Reaches(g, a, a)
  {
    assert IsPath(g, [a], a, a);
  }

  lemma ReachesTransitive<T(!new)>(g: Graph<T>, a: T, b: T, c: T)
    requires Reaches(g, a, b) && Reaches(g, b, c)
    ensures Reaches(g, a, c)
  {
    var p :| IsPath(g, p, a, b);
    var q :| IsPath(g, q, b, c);
    var r := p + q[1..];
    forall i | 0 <= i < |r| - 1 ensures Edge(g, r[i], r[i + 1]) {
      if i >= |p| - 1 {
        assert Edge(g, q[i - |p| + 1], q[i - |p| + 2]);
      } else {
        assert Edge(g, p[i], p[i + 1]);
      }
    }
    assert IsPath(g, r, a, c);
  }

  lemma ReachesEdge<T(!new)>(g: Graph<T>, a: T, b: T, c: T)
    requires Reaches(g, a, b) && Edge(g, b, c)
    ensures Reaches(g, a, c)
  {
    assert IsPath(g, [b, c], b, c);
    ReachesTransitive(g, a, b, c);
  }

  lemma ReachesFirst<T(!new)>(g: Graph<T>, a: T, b: T)
    requires ReachesPlus(g, a, b)
    ensures Reaches(g, a, b)
  {
    var d :| Edge(g, a, d) && Reaches(g, d, b);
    assert IsPath(g, [a, d], a, d);
    ReachesTransitive(g, a, d, b);
  }

  lemma ReachesCases<T(!new)>(g: Graph<T>, a: T, b: T)
    ensures Reaches(g, a, b) <==> a == b || ReachesPlus(g, a, b)
  {
    if Reaches(g, a, b) && a != b {
      var p :| IsPath(g, p, a, b);
      PathDrop(g, p, a, b, 0);
      PathDrop(g, p, a, b, 1);
    }
    if a == b { ReachesSelf(g, a); }
    if ReachesPlus(g, a, b) { ReachesFirst(g, a, b); }
  }

  lemma {:induction false} PathStaysInside<T(!new)>(g: Graph<T>, s: set<T>, p: seq<T>, a: T, b: T)
    requires Closed(g, s) && a in s && IsPath(g, p, a, b)
    ensures b in s
    decreases |p|
  {
    if |p| > 1 {
      PathDrop(g, p, a, b, 0);
      PathDrop(g, p, a, b, 1);
      PathStaysInside(g, s, p[1..], p[1], b);
    }
  }

  /** Nothing outside a closed set is reachable from inside it. */
  lemma ReachesStaysInside<T(!new)>(g: Graph<T>, s: set<T>, a: T, b: T)
    requires Closed(g, s) && a in s && Reaches(g, a, b)
    ensures b in s
  {
    var p :| IsPath(g, p, a, b);
    PathStaysInside(g, s, p, a, b);
  }

  /** A set in which every member has a successor in the set has a cycle below every member. */
  lemma StuckMeansCycle<T(!new)>(g: Graph<T>, s: set<T>, a: T)
    requires a in s && forall x :: x in s ==> x in g && g[x] * s != {}
    ensures CycleBelow(g, a)
  {
    assert IsPath(g, [a], a, a);
    WalkUntilRepeat(g, s, [a]);
  }

  lemma {:induction false} WalkUntilRepeat<T(!new)>(g: Graph<T>, s: set<T>, p: seq<T>)
    requires forall x :: x in s ==> x in g && g[x] * s != {}
    requires p != [] && Elements(p) <= s && IsPath(g, p, p[0], p[|p| - 1])
    ensures CycleBelow(g, p[0])
    decreases s - Elements(p)
  {
    var last := p[|p| - 1];
    assert last in Elements(p);
    var next :| next in g[last] * s;
    if next in p {
      var i :| 0 <= i < |p| && p[i] == next;
      PathDrop(g, p, p[0], last, i);
      assert Edge(g, last, next) && Reaches(g, next, last);
      assert Reaches(g, p[0], last) && ReachesPlus(g, last, last);
    } else {
      var q := p + [next];
      PathAppend(g, p, p[0], last, next);
      assert Elements(q) == Elements(p) + {next};
      assert next in s - Elements(p) && next !in s - Elements(q);
      WalkUntilRepeat(g, s, q);
    }
  }

  /** Every member's successors are listed before it. */
  ghost predicate SuccessorsFirst<T(!new)>(g: Graph<T>, order: seq<T>) {
    forall j, d :: 0 <= j < |order| && Edge(g, order[j], d) ==> d in order[..j]
  }

  lemma {:induction false} PathGoesBack<T(!new)>(g: Graph<T>, order: seq<T>, j: nat, p: seq<T>, b: T)
    requires SuccessorsFirst(g, order) && j < |order| && IsPath(g, p, order[j], b)
    ensures b in order[..j + 1]
    ensures |p| > 1 ==> b in order[..j]
    decreases |p|
  {
    if |p| > 1 {
      PathDrop(g, p, order[j], b, 0);
      PathDrop(g, p, order[j], b, 1);
      var i :| 0 <= i < j && order[i] == p[1];
      PathGoesBack(g, order, i, p[1..], b);
    }
  }

  /** A list with successors first is closed and holds no node above a cycle. */
  lemma SuccessorsFirstAcyclic<T(!new)>(g: Graph<T>, order: seq<T>, a: T)
    requires SuccessorsFirst(g, order) && a in order
    ensures !CycleBelow(g, a)
    ensures forall b :: Reaches(g, a, b) ==> b in order
  {
    var j :| 0 <= j < |order| && order[j] == a;
    forall b | Reaches(g, a, b) ensures b in order {
      var p :| IsPath(g, p, a, b);
      PathGoesBack(g, order, j, p, b);
    }
    if CycleBelow(g, a) {
      var c :| Reaches(g, a, c) && ReachesPlus(g, c, c);
      NotOnCycle(g, order, c);
    }
  }

  lemma {:induction false} NotOnCycle<T(!new)>(g: Graph<T>, order: seq<T>, c: T)
    requires SuccessorsFirst(g, order) && c in order
    ensures !ReachesPlus(g, c, c)
    decreases |order|
  {
    if ReachesPlus(g, c, c) {
      var j :| 0 <= j < |order| && order[j] == c;
      var d :| Edge(g, c, d) && Reaches(g, d, c);
      var q :| IsPath(g, q, d, c);
      PathPrepend(g, c, q, d, c);
      PathGoesBack(g, order, j, [c] + q, c);
      SuccessorsFirstPrefix(g, order, j);
      NotOnCycle(g, order[..j], c);
    }
  }

  lemma SuccessorsFirstPrefix<T(!new)>(g: Graph<T>, order: seq<T>, n: nat)
    requires SuccessorsFirst(g, order) && n <= |order|
    ensures SuccessorsFirst(g, order[..n])
  {
    var part := order[..n];
    forall i, e | 0 <= i < |part| && Edge(g, part[i], e) ensures e in part[..i] {
      assert part[i] == order[i] && part[..i] == order[..i];
    }
  }
}
