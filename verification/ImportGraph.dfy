/** Reachability and strongly connected components of a first-party import graph. */
module ImportGraph {
  datatype Name = Name(text: string)
  type Graph = map<Name, set<Name>>

  /** `graph.get(node, ())`: a module that imports nothing has no row. */
  function Succ(g: Graph, n: Name): set<Name> {
    if n in g then g[n] else {}
  }

  /** `y` is at most `k` imports away from `x`. */
  ghost predicate Within(g: Graph, k: nat, x: Name, y: Name) {
    x == y || (k > 0 && exists z :: z in Succ(g, x) && Within(g, k - 1, z, y))
  }

  ghost predicate Reach(g: Graph, x: Name, y: Name) {
    exists k: nat :: Within(g, k, x, y)
  }

  lemma ReachSelf(g: Graph, x: Name)
    ensures Reach(g, x, x)
  {
    assert Within(g, 0, x, x);
  }

  lemma ReachEdge(g: Graph, x: Name, y: Name)
    requires y in Succ(g, x)
    ensures Reach(g, x, y)
  {
    assert Within(g, 0, y, y);
    assert Within(g, 1, x, y);
  }

  lemma ReachTransitive(g: Graph, x: Name, y: Name, z: Name)
    requires Reach(g, x, y) && Reach(g, y, z)
    ensures Reach(g, x, z)
  {
    var k: nat :| Within(g, k, x, y);
    var l: nat :| Within(g, l, y, z);
    WithinTransitive(g, k, l, x, y, z);
  }

  lemma {:induction false} WithinTransitive(g: Graph, k: nat, l: nat, x: Name, y: Name, z: Name)
    requires Within(g, k, x, y) && Within(g, l, y, z)
    ensures Within(g, k + l, x, z)
  {
    if x == y {
      WithinMonotone(g, l, k + l, x, z);
    } else {
      var w :| w in Succ(g, x) && Within(g, k - 1, w, y);
      WithinTransitive(g, k - 1, l, w, y, z);
    }
  }

  lemma {:induction false} WithinMonotone(g: Graph, k: nat, l: nat, x: Name, y: Name)
    requires k <= l && Within(g, k, x, y)
    ensures Within(g, l, x, y)
  {
    if x != y {
      var w :| w in Succ(g, x) && Within(g, k - 1, w, y);
      WithinMonotone(g, k - 1, l - 1, w, y);
    }
  }

  ghost predicate Closed(g: Graph, s: set<Name>) {
    forall x | x in s :: Succ(g, x) <= s
  }

  lemma ClosedReach(g: Graph, s: set<Name>, x: Name, y: Name)
    requires Closed(g, s) && x in s && Reach(g, x, y)
    ensures y in s
  {
    var k: nat :| Within(g, k, x, y);
    ClosedWithin(g, s, k, x, y);
  }

  lemma {:induction false} ClosedWithin(g: Graph, s: set<Name>, k: nat, x: Name, y: Name)
    requires Closed(g, s) && x in s && Within(g, k, x, y)
    ensures y in s
  {
    if x != y {
      var z :| z in Succ(g, x) && Within(g, k - 1, z, y);
      ClosedWithin(g, s, k - 1, z, y);
    }
  }

  ghost predicate Mutual(g: Graph, x: Name, y: Name) {
    Reach(g, x, y) && Reach(g, y, x)
  }

  /** A strongly connected component: everything mutually reachable with each of its members. */
  ghost predicate IsComponent(g: Graph, c: set<Name>) {
    c != {} && Saturated(g, c)
  }

  ghost predicate Saturated(g: Graph, c: set<Name>) {
    forall x, y | x in c :: y in c <==> Mutual(g, x, y)
  }

  lemma ComponentsDisjoint(g: Graph, c: set<Name>, d: set<Name>)
    requires IsComponent(g, c) && IsComponent(g, d) && c * d != {}
    ensures c == d
  {
    var x :| x in c * d;
    forall y ensures y in c <==> y in d {
      assert y in c <==> Mutual(g, x, y);
      assert y in d <==> Mutual(g, x, y);
    }
  }
}
