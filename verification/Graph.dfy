/** Reachability in a finite graph of module names. */
module Graph {

  type Name = string
  type Edges = map<Name, seq<Name>>

  /** `a` requires `b`; names in `skip` are never followed. */
  predicate Edge(g: Edges, skip: set<Name>, a: Name, b: Name) {
    a in g && b in g[a] && b !in skip
  }

  ghost predicate IsPath(g: Edges, skip: set<Name>, p: seq<Name>) {
    p != [] && forall i :: 0 <= i < |p| - 1 ==> Edge(g, skip, p[i], p[i + 1])
  }

  ghost predicate Reach(g: Edges, skip: set<Name>, from: set<Name>, n: Name) {
    exists p :: IsPath(g, skip, p) && p[0] in from && p[|p| - 1] == n
  }

  ghost predicate Closed(g: Edges, skip: set<Name>, s: set<Name>) {
    forall a, b :: a in s && Edge(g, skip, a, b) ==> b in s
  }

  lemma ReachSelf(g: Edges, skip: set<Name>, from: set<Name>, n: Name)
    requires n in from
    ensures Reach(g, skip, from, n)
  {
    assert IsPath(g, skip, [n]);
  }

  lemma ReachEdge(g: Edges, skip: set<Name>, from: set<Name>, a: Name, b: Name)
    requires Reach(g, skip, from, a) && Edge(g, skip, a, b)
    ensures Reach(g, skip, from, b)
  {
    var p :| IsPath(g, skip, p) && p[0] in from && p[|p| - 1] == a;
    var q := p + [b];
    assert IsPath(g, skip, q) && q[0] in from && q[|q| - 1] == b;
  }

  /** A path from a successor of `a` is a path from `a`. */
  lemma ReachVia(g: Edges, skip: set<Name>, a: Name, b: Name, n: Name)
    requires Edge(g, skip, a, b) && Reach(g, skip, {b}, n)
    ensures Reach(g, skip, {a}, n)
  {
    var p :| IsPath(g, skip, p) && p[0] in {b} && p[|p| - 1] == n;
    var q := [a] + p;
    forall i | 0 <= i < |q| - 1
      ensures Edge(g, skip, q[i], q[i + 1])
    {
      if i > 0 { assert q[i] == p[i - 1] && q[i + 1] == p[i]; }
    }
    assert IsPath(g, skip, q) && q[0] in {a} && q[|q| - 1] == n;
  }

  lemma {:induction false} PathStaysIn(g: Edges, skip: set<Name>, s: set<Name>, p: seq<Name>, k: nat)
    requires IsPath(g, skip, p) && k < |p| && p[0] in s && Closed(g, skip, s)
    ensures p[k] in s
  {
    if k > 0 {
      PathStaysIn(g, skip, s, p, k - 1);
      assert Edge(g, skip, p[k - 1], p[k]);
    }
  }

  /** Reachability is the least closed set above its start. */
  lemma ReachLeast(g: Edges, skip: set<Name>, from: set<Name>, s: set<Name>)
    requires from <= s && Closed(g, skip, s)
    ensures forall n :: Reach(g, skip, from, n) ==> n in s
  {
    forall n | Reach(g, skip, from, n)
      ensures n in s
    {
      var p :| IsPath(g, skip, p) && p[0] in from && p[|p| - 1] == n;
      PathStaysIn(g, skip, s, p, |p| - 1);
    }
  }
}
