/** Detection of import cycles by Tarjan's algorithm. */
module ImportCycles {
  import opened Ordering
  import opened ImportGraph

  function NameLess(): (Name, Name) -> bool {
    (a: Name, b: Name) => Lex((x: char, y: char) => x < y, a.text, b.text)
  }

  /** The sort key `(len(items), items)` of the report. */
  function ReportLess(): (seq<Name>, seq<Name>) -> bool {
    (a: seq<Name>, b: seq<Name>) => |a| < |b| || (|a| == |b| && Lex(NameLess(), a, b))
  }

  lemma OrdersTotal()
    ensures StrictTotal(NameLess())
    ensures StrictTotal(ReportLess())
  {
    var byChar := (x: char, y: char) => x < y;
    LexStrictTotal(byChar);
    assert StrictTotal(NameLess()) by {
      forall a: Name, b: Name { LexTotal(byChar, a.text, b.text); }
      forall a: Name, b: Name, c: Name | Lex(byChar, a.text, b.text) && Lex(byChar, b.text, c.text) {
        LexTransitive(byChar, a.text, b.text, c.text);
      }
    }
    forall a: seq<Name>, b: seq<Name> { LexTotal(NameLess(), a, b); }
    forall a: seq<Name>, b: seq<Name>, c: seq<Name> | Lex(NameLess(), a, b) && Lex(NameLess(), b, c) {
      LexTransitive(NameLess(), a, b, c);
    }
  }

  /** What the report must be: exactly the components with at least two modules, each listed
      once, with its modules in order, and the list itself in order. */
  ghost predicate IsReport(g: Graph, cycles: seq<seq<Name>>) {
    && Ascending(ReportLess(), cycles)
    && (forall c | c in cycles :: Ascending(NameLess(), c) && |c| > 1 && IsComponent(g, Elements(c)))
    && (forall c | IsComponent(g, c) && |c| > 1 :: exists r :: r in cycles && Elements(r) == c)
  }

  lemma ElementsSize<T(!new)>(less: (T, T) -> bool, s: seq<T>)
    requires StrictTotal(less) && Ascending(less, s)
    ensures |Elements(s)| == |s|
  {
    DistinctSize(s);
  }

  lemma {:induction false} DistinctSize<T>(s: seq<T>)
    requires forall i, j | 0 <= i < j < |s| :: s[i] != s[j]
    ensures |Elements(s)| == |s|
  {
    if s == [] {
      assert Elements(s) == {};
    } else {
      DistinctSize(s[1..]);
      assert s == [s[0]] + s[1..];
      assert Elements(s) == {s[0]} + Elements(s[1..]);
      assert s[0] !in Elements(s[1..]);
    }
  }

  /** Two distinct modules are listed together exactly when each reaches the other. */
  lemma ReportTogether(g: Graph, cycles: seq<seq<Name>>, x: Name, y: Name)
    requires IsReport(g, cycles) && x != y
    ensures (exists c :: c in cycles && x in c && y in c) <==> Mutual(g, x, y)
  {
    if c :| c in cycles && x in c && y in c {
      assert x in Elements(c) && y in Elements(c);
    }
    if Mutual(g, x, y) {
      var c := ComponentOf(g, x, y);
      var r :| r in cycles && Elements(r) == c;
      assert x in Elements(r) && y in Elements(r);
    }
  }

  ghost function Universe(g: Graph): set<Name> {
    g.Keys + set n, m | n in g && m in g[n] :: m
  }

  /** Everything mutually reachable with `x`, as a finite set. */
  lemma ComponentOf(g: Graph, x: Name, y: Name) returns (c: set<Name>)
    requires Mutual(g, x, y) && x != y
    ensures IsComponent(g, c) && x in c && y in c && |c| > 1
  {
    var all := Universe(g) + {x};
    assert Closed(g, all);
    c := set z | z in all && Mutual(g, x, z);
    ClosedReach(g, all, x, y);
    ReachSelf(g, x);
    forall a, b | a in c ensures b in c <==> Mutual(g, a, b) {
      if b in c {
        ReachTransitive(g, a, x, b);
        ReachTransitive(g, b, x, a);
      }
      if Mutual(g, a, b) {
        ReachTransitive(g, x, a, b);
        ReachTransitive(g, b, a, x);
        ClosedReach(g, all, x, b);
      }
    }
    assert {x, y} <= c;
    assert |{x, y}| <= |c| by { assert |c| == |{x, y}| + |c - {x, y}|; }
  }

  /** No module is listed twice: two listed cycles that share a module are the same cycle. */
  lemma ReportDisjoint(g: Graph, cycles: seq<seq<Name>>, i: nat, j: nat, x: Name)
    requires IsReport(g, cycles) && i < |cycles| && j < |cycles|
    requires x in cycles[i] && x in cycles[j]
    ensures i == j
  {
    OrdersTotal();
    var a, b := cycles[i], cycles[j];
    assert a in cycles && b in cycles;
    assert x in Elements(a) * Elements(b);
    ComponentsDisjoint(g, Elements(a), Elements(b));
    AscendingUnique(NameLess(), a, b);
  }

  /** The report depends on the graph alone, whatever order its rows and imports were visited in. */
  lemma ReportUnique(g: Graph, r: seq<seq<Name>>, s: seq<seq<Name>>)
    requires IsReport(g, r) && IsReport(g, s)
    ensures r == s
  {
    OrdersTotal();
    forall c ensures c in Elements(r) <==> c in Elements(s) {
      if c in r { ReportMember(g, r, s, c); }
      if c in s { ReportMember(g, s, r, c); }
    }
    AscendingUnique(ReportLess(), r, s);
  }

  lemma ReportMember(g: Graph, r: seq<seq<Name>>, s: seq<seq<Name>>, c: seq<Name>)
    requires IsReport(g, r) && IsReport(g, s) && c in r
    ensures c in s
  {
    OrdersTotal();
    ElementsSize(NameLess(), c);
    var d :| d in s && Elements(d) == Elements(c);
    AscendingUnique(NameLess(), c, d);
  }

  /** A snapshot of the search: visit numbers, the stack, the modules whose call has not
      returned, every component popped so far, and those listed for the report. */
  datatype Search = Search(
    indices: map<Name, nat>,
    stack: seq<Name>,
    onStack: set<Name>,
    active: set<Name>,
    found: set<set<Name>>,
    components: seq<seq<Name>>
  ) {
    ghost predicate Numbered() {
      && (forall x | x in indices :: indices[x] < |indices|)
      && (forall x :: x in onStack <==> x in stack)
      && onStack <= indices.Keys
      && (forall i, j | 0 <= i < j < |stack| :: indices[stack[i]] < indices[stack[j]])
      && active <= onStack
    }

    /** An active module reaches everything pushed after it, everything else on the stack
        reaches an active module below it, and a returned call has numbered all its imports. */
    ghost predicate Linked(g: Graph) {
      && (forall x, y | x in active && y in onStack && x in indices && y in indices && indices[x] <= indices[y] ::
            Reach(g, x, y))
      && (forall y | y in onStack - active :: Anchored(g, y))
      && (forall x | x in indices && x !in active :: Succ(g, x) <= indices.Keys)
    }

    ghost predicate Anchored(g: Graph, y: Name) {
      exists x :: x in active && x in indices && y in indices && indices[x] <= indices[y] && Reach(g, y, x)
    }

    ghost function Settled(): set<Name> {
      indices.Keys - onStack
    }

    ghost predicate Valid(g: Graph) {
      Numbered() && Linked(g) && Collected(g, Settled(), found) && Listed(components, found)
    }
  }

  /** The popped components are the components of exactly the settled modules. */
  ghost predicate Collected(g: Graph, settled: set<Name>, found: set<set<Name>>) {
    && Closed(g, settled)
    && {} !in found
    && (forall c | c in found :: Saturated(g, c) && c <= settled)
    && (forall x | x in settled :: exists c :: c in found && x in c)
  }

  /** The list holds each popped component of two or more modules once, in order. */
  ghost predicate Listed(components: seq<seq<Name>>, found: set<set<Name>>) {
    && (forall r | r in components :: Ascending(NameLess(), r) && |r| > 1 && Elements(r) in found)
    && (forall c | c in found && |c| > 1 :: exists r :: r in components && Elements(r) == c)
    && (forall i, j | 0 <= i < j < |components| :: components[i] != components[j])
  }

  ghost predicate Extends(before: map<Name, nat>, after: map<Name, nat>) {
    forall x | x in before :: x in after && after[x] == before[x]
  }

  /** Every import that leads from above `base` on the stack into `base` was seen by `low`. */
  ghost predicate LowBounds(g: Graph, s: Search, base: Search, node: Name, visited: set<Name>, low: nat) {
    forall y, z | y in s.onStack - base.onStack && z in Succ(g, y) && z in base.onStack && (y == node ==> z in visited) ::
      z in s.indices && low <= s.indices[z]
  }

  ghost predicate LowReached(g: Graph, s: Search, roots: set<Name>, node: Name, low: nat) {
    exists z :: z in roots && z in s.indices && s.indices[z] == low && Reach(g, node, z)
  }

  /** What a returned call of `strongconnect(node)` did to the search. */
  ghost predicate Returned(g: Graph, before: Search, after: Search, node: Name, low: nat) {
    && before.stack <= after.stack
    && after.active == before.active
    && Extends(before.indices, after.indices)
    && node !in before.indices && node in after.indices
    && after.indices[node] >= |before.indices|
    && low <= after.indices[node]
    && LowBounds(g, after, before, node, Succ(g, node), low)
    && (if node in after.onStack
        then low < after.indices[node] && LowReached(g, after, before.onStack, node, low)
        else after.stack == before.stack && low == after.indices[node])
  }

  /** The search while `strongconnect(node)`, entered at `before`, has handled `visited`. */
  ghost predicate Exploring(g: Graph, before: Search, s: Search, node: Name, visited: set<Name>, low: nat) {
    && before.Numbered() && s.Numbered()
    && node !in before.indices && node in s.indices
    && before.stack + [node] <= s.stack
    && s.active == before.active + {node}
    && Extends(before.indices, s.indices)
    && s.indices[node] == |before.indices|
    && low <= s.indices[node]
    && visited <= Succ(g, node) * s.indices.Keys
    && LowBounds(g, s, before, node, visited, low)
    && LowReached(g, s, before.onStack + {node}, node, low)
  }

  ghost function Push(s: Search, node: Name): Search {
    s.(indices := s.indices[node := |s.indices|], stack := s.stack + [node],
       onStack := s.onStack + {node}, active := s.active + {node})
  }

  lemma PushNumbered(s: Search, node: Name)
    requires s.Numbered() && node !in s.indices
    ensures Push(s, node).Numbered()
    ensures Push(s, node).Settled() == s.Settled()
  {
  }

  lemma PushLinked(g: Graph, s: Search, node: Name)
    requires s.Numbered() && s.Linked(g) && node !in s.indices
    requires forall x | x in s.active :: Reach(g, x, node)
    ensures Push(s, node).Linked(g)
  {
    var t := Push(s, node);
    ReachSelf(g, node);
    forall y | y in t.onStack - t.active ensures t.Anchored(g, y) {
      assert s.Anchored(g, y);
      var x :| x in s.active && x in s.indices && y in s.indices && s.indices[x] <= s.indices[y] && Reach(g, y, x);
      assert x in t.active;
    }
  }

  lemma PushValid(g: Graph, s: Search, node: Name)
    requires s.Valid(g) && node !in s.indices
    requires forall x | x in s.active :: Reach(g, x, node)
    ensures Push(s, node).Valid(g)
  {
    PushNumbered(s, node);
    PushLinked(g, s, node);
  }

  lemma Entered(g: Graph, s: Search, node: Name)
    requires s.Valid(g) && node !in s.indices
    requires forall x | x in s.active :: Reach(g, x, node)
    ensures Push(s, node).Valid(g)
    ensures Exploring(g, s, Push(s, node), node, {}, |s.indices|)
  {
    PushValid(g, s, node);
    EnteredExploring(g, s, node);
  }

  lemma EnteredExploring(g: Graph, s: Search, node: Name)
    requires s.Numbered() && node !in s.indices
    ensures Exploring(g, s, Push(s, node), node, {}, |s.indices|)
  {
    PushNumbered(s, node);
    ReachSelf(g, node);
    var t := Push(s, node);
    assert node in s.onStack + {node} && t.indices[node] == |s.indices|;
  }

  lemma StackGrows(s: Search, t: Search)
    requires s.Numbered() && t.Numbered() && s.stack <= t.stack
    ensures s.onStack <= t.onStack
  {
    forall x | x in s.onStack ensures x in t.onStack {
      var i :| 0 <= i < |s.stack| && s.stack[i] == x;
      assert t.stack[i] == x;
    }
  }

  lemma CallLowBounds(g: Graph, before: Search, s: Search, t: Search, node: Name, visited: set<Name>,
                      low: nat, next: Name, nextLow: nat)
    requires before.Numbered() && s.Numbered() && t.Numbered()
    requires before.stack <= s.stack && Extends(s.indices, t.indices)
    requires LowBounds(g, s, before, node, visited, low)
    requires LowBounds(g, t, s, next, Succ(g, next), nextLow)
    requires next !in s.indices
    ensures LowBounds(g, t, before, node, visited + {next}, if nextLow < low then nextLow else low)
  {
    StackGrows(before, s);
    var low' := if nextLow < low then nextLow else low;
    forall y, z | y in t.onStack - before.onStack && z in Succ(g, y) && z in before.onStack
                  && (y == node ==> z in visited + {next})
      ensures z in t.indices && low' <= t.indices[z]
    {
      assert z in s.onStack && z in s.indices;
      if y in s.onStack {
        assert low <= s.indices[z];
      } else {
        assert nextLow <= t.indices[z];
      }
    }
  }

  /** On the stack, a smaller number means a lower position. */
  lemma BelowNode(before: Search, s: Search, node: Name, z: Name)
    requires s.Numbered() && before.Numbered() && before.stack + [node] <= s.stack
    requires node in s.indices && z in s.onStack && s.indices[z] < s.indices[node]
    ensures z in before.onStack
  {
    var i :| 0 <= i < |s.stack| && s.stack[i] == z;
    assert s.stack[|before.stack|] == (before.stack + [node])[|before.stack|] == node;
    assert i < |before.stack|;
    assert before.stack[i] == (before.stack + [node])[i] == z;
  }

  lemma CallLowReached(g: Graph, before: Search, s: Search, t: Search, node: Name,
                       low: nat, next: Name, nextLow: nat)
    requires before.Numbered() && s.Numbered() && t.Numbered()
    requires before.stack + [node] <= s.stack && node in s.indices
    requires low <= s.indices[node]
    requires LowReached(g, s, before.onStack + {node}, node, low)
    requires next in Succ(g, node) && Returned(g, s, t, next, nextLow)
    ensures LowReached(g, t, before.onStack + {node}, node, if nextLow < low then nextLow else low)
  {
    if nextLow < low {
      assert s.indices[node] < |s.indices| <= t.indices[next];
      var z :| z in s.onStack && z in t.indices && t.indices[z] == nextLow && Reach(g, next, z);
      BelowNode(before, s, node, z);
      ReachEdge(g, node, next);
      ReachTransitive(g, node, next, z);
    } else {
      var z :| z in before.onStack + {node} && z in s.indices && s.indices[z] == low && Reach(g, node, z);
      assert t.indices[z] == low;
    }
  }

  /** A nested call has returned: its low link is folded into the caller's. */
  lemma AfterCall(g: Graph, before: Search, s: Search, t: Search, node: Name, visited: set<Name>,
                  low: nat, next: Name, nextLow: nat)
    requires Exploring(g, before, s, node, visited, low)
    requires next in Succ(g, node) && next !in s.indices
    requires t.Numbered() && Returned(g, s, t, next, nextLow)
    ensures Exploring(g, before, t, node, visited + {next}, if nextLow < low then nextLow else low)
  {
    CallLowBounds(g, before, s, t, node, visited, low, next, nextLow);
    CallLowReached(g, before, s, t, node, low, next, nextLow);
  }

  /** An import that is still on the stack: its number is folded into the low link. */
  lemma AfterStacked(g: Graph, before: Search, s: Search, node: Name, visited: set<Name>, low: nat, next: Name)
    requires Exploring(g, before, s, node, visited, low)
    requires next in Succ(g, node) && next in s.onStack && next in s.indices
    ensures Exploring(g, before, s, node, visited + {next},
                      if s.indices[next] < low then s.indices[next] else low)
  {
    ReachEdge(g, node, next);
    if s.indices[next] < low {
      BelowNode(before, s, node, next);
      assert next in before.onStack + {node};
    }
  }

  /** An import that was settled earlier changes nothing. */
  lemma AfterSettled(g: Graph, before: Search, s: Search, node: Name, visited: set<Name>, low: nat, next: Name)
    requires Exploring(g, before, s, node, visited, low)
    requires next in Succ(g, node) && next in s.indices && next !in s.onStack
    ensures Exploring(g, before, s, node, visited + {next}, low)
  {
    assert before.stack <= s.stack;
    StackGrows(before, s);
  }

  /** The low link stayed below `node`: the call returns and leaves its modules on the stack. */
  lemma Kept(g: Graph, before: Search, s: Search, node: Name, low: nat)
    requires before.Numbered() && before.Linked(g) && s.Valid(g)
    requires Exploring(g, before, s, node, Succ(g, node), low)
    requires low != s.indices[node]
    ensures s.(active := before.active).Valid(g)
  {
    var z := LowerRoot(g, before, s, node, low);
    KeptLinked(g, before, s, node, z);
  }

  lemma KeptReturned(g: Graph, before: Search, s: Search, node: Name, low: nat)
    requires before.Numbered() && s.Numbered() && before.stack + [node] <= s.stack
    requires Extends(before.indices, s.indices)
    requires node !in before.indices && node in s.indices && s.indices[node] == |before.indices|
    requires low < s.indices[node]
    requires LowBounds(g, s, before, node, Succ(g, node), low)
    requires LowReached(g, s, before.onStack + {node}, node, low)
    ensures Returned(g, before, s.(active := before.active), node, low)
  {
    var z := LowerRoot(g, before, s, node, low);
    assert z in before.onStack && z in s.indices && s.indices[z] == low;
  }

  lemma LowerRoot(g: Graph, before: Search, s: Search, node: Name, low: nat) returns (z: Name)
    requires before.Numbered() && s.Numbered() && before.stack + [node] <= s.stack
    requires LowReached(g, s, before.onStack + {node}, node, low)
    requires node in s.indices && low != s.indices[node]
    ensures before.onStack <= s.onStack && node in s.onStack
    ensures z in before.onStack && s.indices[z] == low && Reach(g, node, z)
  {
    StackGrows(before, s);
    z :| z in before.onStack + {node} && z in s.indices && s.indices[z] == low && Reach(g, node, z);
    assert s.stack[|before.stack|] == (before.stack + [node])[|before.stack|];
  }

  lemma KeptLinked(g: Graph, before: Search, s: Search, node: Name, z: Name)
    requires before.Numbered() && before.Linked(g) && s.Numbered() && s.Linked(g)
    requires before.onStack <= s.onStack
    requires s.active == before.active + {node} && Extends(before.indices, s.indices)
    requires node in s.indices && Succ(g, node) <= s.indices.Keys
    requires z in before.onStack && Reach(g, node, z) && s.indices[z] < s.indices[node]
    ensures s.(active := before.active).Numbered() && s.(active := before.active).Linked(g)
  {
    KeptAnchored(g, before, s, node, z);
    var t := s.(active := before.active);
    forall x | x in t.indices && x !in t.active ensures Succ(g, x) <= t.indices.Keys {
      assert x == node || x !in s.active;
    }
  }

  lemma KeptAnchored(g: Graph, before: Search, s: Search, node: Name, z: Name)
    requires before.Numbered() && before.Linked(g) && s.Numbered() && s.Linked(g)
    requires s.active == before.active + {node} && Extends(before.indices, s.indices)
    requires node in s.indices && z in before.onStack && Reach(g, node, z) && s.indices[z] < s.indices[node]
    ensures forall y | y in s.onStack - before.active :: s.(active := before.active).Anchored(g, y)
  {
    var t := s.(active := before.active);
    var a := AnchorOf(g, before, z);
    ReachTransitive(g, node, z, a);
    forall y | y in s.onStack - before.active ensures t.Anchored(g, y) {
      var x := AnchorOf(g, s, y);
      if x == node {
        ReachTransitive(g, y, node, a);
        assert a in t.active;
      } else {
        assert x in t.active;
      }
    }
  }

  lemma AnchorOf(g: Graph, s: Search, y: Name) returns (x: Name)
    requires s.Numbered() && s.Linked(g) && y in s.onStack
    ensures x in s.active && x in s.indices && s.indices[x] <= s.indices[y] && Reach(g, y, x)
  {
    if y in s.active {
      x := y;
      ReachSelf(g, y);
    } else {
      assert s.Anchored(g, y);
      x :| x in s.active && x in s.indices && y in s.indices && s.indices[x] <= s.indices[y] && Reach(g, y, x);
    }
  }

  lemma AboveNode(g: Graph, before: Search, s: Search, node: Name, x: Name)
    requires before.Numbered() && s.Numbered() && s.Linked(g)
    requires before.stack + [node] <= s.stack && Extends(before.indices, s.indices)
    requires node in s.indices && s.indices[node] == |before.indices| && s.active == before.active + {node}
    requires x in s.onStack - before.onStack
    ensures Mutual(g, node, x)
  {
    var n := |before.stack|;
    assert s.stack[n] == (before.stack + [node])[n] == node;
    var i :| 0 <= i < |s.stack| && s.stack[i] == x;
    assert forall k | 0 <= k < n :: s.stack[k] == (before.stack + [node])[k] == before.stack[k];
    assert s.indices[node] <= s.indices[x];
    var a := AnchorOf(g, s, x);
    if a != node {
      assert a in before.indices && s.indices[a] <= s.indices[node];
      ReachTransitive(g, x, a, node);
    }
  }

  /** Nothing imported by the modules above `base` lies in `base`. */
  lemma NoEscape(g: Graph, before: Search, s: Search, node: Name)
    requires before.Numbered() && s.Numbered() && s.Linked(g) && before.onStack <= s.onStack
    requires Extends(before.indices, s.indices)
    requires node in s.indices && s.active == before.active + {node}
    requires Succ(g, node) <= s.indices.Keys
    requires LowBounds(g, s, before, node, Succ(g, node), |before.indices|)
    requires Closed(g, s.Settled())
    ensures Closed(g, s.indices.Keys - before.onStack)
  {
    forall x, z | x in s.indices.Keys - before.onStack && z in Succ(g, x)
      ensures z in s.indices.Keys - before.onStack
    {
      if x in s.onStack {
        assert x == node || x !in s.active;
        assert z in s.indices;
        assert |before.indices| <= s.indices[z] || z !in before.onStack;
      } else {
        assert x in s.Settled();
      }
    }
  }

  lemma PoppedIsComponent(g: Graph, before: Search, s: Search, node: Name)
    requires before.Numbered() && s.Numbered() && s.Linked(g)
    requires before.stack + [node] <= s.stack && Extends(before.indices, s.indices)
    requires node !in before.indices && node in s.indices && s.indices[node] == |before.indices|
    requires s.active == before.active + {node}
    requires Closed(g, s.Settled()) && Closed(g, s.indices.Keys - before.onStack)
    ensures IsComponent(g, s.onStack - before.onStack) && node in s.onStack - before.onStack
  {
    var c := s.onStack - before.onStack;
    assert s.stack[|before.stack|] == (before.stack + [node])[|before.stack|] == node;
    assert node in c;
    forall x, y | x in c ensures y in c <==> Mutual(g, x, y) {
      AboveNode(g, before, s, node, x);
      if y in c {
        AboveNode(g, before, s, node, y);
        ReachTransitive(g, x, node, y);
        ReachTransitive(g, y, node, x);
      }
      if Mutual(g, x, y) {
        ClosedReach(g, s.indices.Keys - before.onStack, x, y);
        assert y !in s.Settled() by {
          if y in s.Settled() { ClosedReach(g, s.Settled(), y, x); }
        }
      }
    }
  }

  /** Popping down to `node`: the popped modules become one more component. */
  ghost function Pop(before: Search, s: Search, listed: seq<seq<Name>>): Search {
    s.(stack := before.stack, onStack := before.onStack, active := before.active,
       found := s.found + {s.onStack - before.onStack}, components := listed)
  }

  lemma PoppedLinked(g: Graph, before: Search, s: Search, node: Name, listed: seq<seq<Name>>)
    requires before.Numbered() && before.Linked(g) && s.Numbered() && s.Linked(g)
    requires Extends(before.indices, s.indices) && before.onStack <= s.onStack
    requires s.active == before.active + {node} && Succ(g, node) <= s.indices.Keys
    ensures Pop(before, s, listed).Numbered() && Pop(before, s, listed).Linked(g)
  {
    var t := Pop(before, s, listed);
    assert |before.indices| <= |s.indices| by {
      assert before.indices.Keys <= s.indices.Keys;
      SubsetSize(before.indices.Keys, s.indices.Keys);
    }
    forall y | y in t.onStack - t.active ensures t.Anchored(g, y) {
      var x := AnchorOf(g, before, y);
      assert x in t.active && t.indices[x] <= t.indices[y];
    }
    forall x | x in t.indices && x !in t.active ensures Succ(g, x) <= t.indices.Keys {
      assert x == node || x !in s.active;
    }
  }

  lemma SubsetSize<T>(a: set<T>, b: set<T>)
    requires a <= b
    ensures |a| <= |b|
  {
    assert b == a + (b - a);
  }

  lemma Popped(g: Graph, before: Search, s: Search, node: Name, listed: seq<seq<Name>>)
    requires before.Numbered() && before.Linked(g)
    requires s.Numbered() && s.Linked(g) && Collected(g, s.Settled(), s.found)
    requires node in s.indices && Exploring(g, before, s, node, Succ(g, node), s.indices[node])
    requires Listed(listed, s.found + {s.onStack - before.onStack})
    ensures Pop(before, s, listed).Valid(g)
  {
    hide Search.Linked;
    hide Collected;
    hide Listed;
    StackGrows(before, s);
    PoppedLinked(g, before, s, node, listed);
    PoppedSettled(g, before, s, node);
    assert Pop(before, s, listed).Settled() == s.indices.Keys - before.onStack;
  }

  lemma PoppedSettled(g: Graph, before: Search, s: Search, node: Name)
    requires before.Numbered() && s.Numbered() && s.Linked(g)
    requires before.onStack <= s.onStack && Collected(g, s.Settled(), s.found)
    requires node in s.indices && Exploring(g, before, s, node, Succ(g, node), s.indices[node])
    ensures Collected(g, s.indices.Keys - before.onStack, s.found + {s.onStack - before.onStack})
  {
    NoEscape(g, before, s, node);
    PoppedIsComponent(g, before, s, node);
    assert s.indices.Keys - before.onStack == s.Settled() + (s.onStack - before.onStack);
    PoppedCollected(g, s.Settled(), s.found, s.onStack - before.onStack);
  }

  lemma PoppedCollected(g: Graph, settled: set<Name>, found: set<set<Name>>, c: set<Name>)
    requires Collected(g, settled, found) && IsComponent(g, c) && Closed(g, settled + c)
    ensures Collected(g, settled + c, found + {c})
  {
    forall x | x in settled + c ensures exists d :: d in found + {c} && x in d {
      if x in c { assert c in found + {c}; }
    }
  }

  lemma PoppedReturned(g: Graph, before: Search, s: Search, node: Name, listed: seq<seq<Name>>)
    requires before.Numbered() && Extends(before.indices, s.indices)
    requires node !in before.indices && node in s.indices && s.indices[node] == |before.indices|
    ensures Returned(g, before, Pop(before, s, listed), node, s.indices[node])
  {
  }

  /** Adding the popped component to the list when it has two or more modules. */
  lemma ListedPopped(components: seq<seq<Name>>, found: set<set<Name>>, c: set<Name>, r: seq<Name>)
    requires Listed(components, found) && c !in found
    requires Ascending(NameLess(), r) && Elements(r) == c && |r| == |c|
    ensures Listed(if |r| > 1 then components + [r] else components, found + {c})
  {
    if |r| > 1 {
      var next := components + [r];
      forall d | d in found + {c} && |d| > 1 ensures exists q :: q in next && Elements(q) == d {
        if d == c {
          assert r in next;
        } else {
          var q :| q in components && Elements(q) == d;
          assert q in next;
        }
      }
      forall i, j | 0 <= i < j < |next| ensures next[i] != next[j] {
        if j == |components| { assert components[i] in components; }
      }
    }
  }

  lemma ComponentIsNew(g: Graph, before: Search, s: Search, node: Name)
    requires Collected(g, s.Settled(), s.found) && s.Numbered() && node in s.onStack - before.onStack
    ensures s.onStack - before.onStack !in s.found
  {
    assert node !in s.Settled();
  }

  lemma CallReach(g: Graph, before: Search, s: Search, node: Name, next: Name)
    requires s.Numbered() && s.Linked(g) && before.Numbered() && before.stack + [node] <= s.stack
    requires node in s.indices && s.indices[node] == |before.indices| && s.active == before.active + {node}
    requires Extends(before.indices, s.indices) && next in Succ(g, node)
    ensures next in Universe(g)
    ensures forall x | x in s.active :: Reach(g, x, next)
  {
    assert s.stack[|before.stack|] == (before.stack + [node])[|before.stack|] == node;
    ReachEdge(g, node, next);
    forall x | x in s.active ensures Reach(g, x, next) {
      ReachTransitive(g, x, node, next);
    }
  }

  lemma Bottom(before: Search, s: Search, node: Name)
    requires before.Numbered() && s.Numbered() && before.stack + [node] <= s.stack
    requires node !in before.indices
    ensures |before.stack| < |s.stack| && s.stack[|before.stack|] == node
    ensures s.stack[..|before.stack|] == before.stack
    ensures node in s.onStack - before.onStack
  {
    assert s.stack[|before.stack|] == (before.stack + [node])[|before.stack|];
    assert s.stack[..|before.stack|] == (before.stack + [node])[..|before.stack|];
  }

  lemma SplitElements<T>(s: seq<T>, n: nat)
    requires n <= |s| && forall i, j | 0 <= i < j < |s| :: s[i] != s[j]
    ensures Elements(s[n..]) == Elements(s) - Elements(s[..n])
  {
    assert s == s[..n] + s[n..];
    forall x | x in s ensures x in s[n..] <==> x !in s[..n] {
      assert x in s[..n] || x in s[n..];
    }
  }

  lemma UpperElements(before: Search, s: Search)
    requires before.Numbered() && s.Numbered() && before.stack <= s.stack
    ensures Elements(s.stack[|before.stack|..]) == s.onStack - before.onStack
    ensures before.onStack <= s.onStack
    ensures forall i, j | 0 <= i < j < |s.stack| :: s.stack[i] != s.stack[j]
  {
    StackGrows(before, s);
    assert before.stack == s.stack[..|before.stack|];
    SplitElements(s.stack, |before.stack|);
    assert s.onStack == Elements(s.stack) && before.onStack == Elements(before.stack);
  }

  lemma BottomListed(g: Graph, before: Search, s: Search, node: Name, component: seq<Name>)
    requires s.Numbered() && node in s.onStack - before.onStack
    requires Collected(g, s.Settled(), s.found) && Listed(s.components, s.found)
    requires Elements(component) == s.onStack - before.onStack
    requires forall i, j | 0 <= i < j < |component| :: component[i] != component[j]
    ensures var row := Sorted(NameLess(), component);
            Listed(if |component| > 1 then s.components + [row] else s.components, s.found + {s.onStack - before.onStack})
  {
    OrdersTotal();
    SortedSorts(NameLess(), component);
    DistinctSize(component);
    ComponentIsNew(g, before, s, node);
    ListedPopped(s.components, s.found, s.onStack - before.onStack, Sorted(NameLess(), component));
  }

  lemma ReversedElements<T>(r: seq<T>, s: seq<T>)
    requires |r| == |s| && forall k | 0 <= k < |r| :: r[k] == s[|s| - 1 - k]
    ensures Elements(r) == Elements(s)
  {
    forall x | x in s ensures x in r {
      var k :| 0 <= k < |s| && s[k] == x;
      assert r[|s| - 1 - k] == x;
    }
  }

  /** Once every call has returned, every module is settled. */
  lemma AllSettled(g: Graph, s: Search)
    requires s.Numbered() && s.Linked(g) && s.active == {}
    requires g.Keys <= s.indices.Keys <= Universe(g)
    ensures s.onStack == {} && s.Settled() == Universe(g)
  {
    assert forall y | y in s.onStack :: s.Anchored(g, y);
    forall n, m | n in g && m in g[n] ensures m in s.indices {
      assert Succ(g, n) <= s.indices.Keys;
    }
  }

  lemma ReportSorted(g: Graph, s: Search)
    requires Collected(g, Universe(g), s.found) && Listed(s.components, s.found)
    ensures IsReport(g, Sorted(ReportLess(), s.components))
  {
    OrdersTotal();
    var r := Sorted(ReportLess(), s.components);
    SortedSorts(ReportLess(), s.components);
    assert forall c :: c in r <==> c in s.components by {
      hide Collected;
      hide Listed;
      assert forall c :: c in r <==> c in Elements(r);
      assert forall c :: c in s.components <==> c in Elements(s.components);
    }
    forall c | IsComponent(g, c) && |c| > 1 ensures exists q :: q in r && Elements(q) == c {
      var q := ComponentListed(g, s, c);
      assert q in r;
    }
  }

  lemma ComponentListed(g: Graph, s: Search, c: set<Name>) returns (q: seq<Name>)
    requires Collected(g, Universe(g), s.found) && Listed(s.components, s.found)
    requires IsComponent(g, c) && |c| > 1
    ensures q in s.components && Elements(q) == c
  {
    hide Collected;
    hide IsComponent;
    ComponentFound(g, s.found, c);
    q :| q in s.components && Elements(q) == c;
  }

  lemma ComponentFound(g: Graph, found: set<set<Name>>, c: set<Name>)
    requires Collected(g, Universe(g), found) && IsComponent(g, c) && |c| > 1
    ensures c in found
  {
    hide Saturated;
    var x :| x in c;
    InUniverse(g, c, x);
    var d :| d in found && x in d;
    assert x in c * d;
    ComponentsDisjoint(g, c, d);
  }

  /** A module in a component of two or more imports something, so it is in the graph. */
  lemma InUniverse(g: Graph, c: set<Name>, x: Name)
    requires IsComponent(g, c) && |c| > 1 && x in c
    ensures x in Universe(g)
  {
    assert c != {x};
    assert |c - {x}| > 0;
    var y :| y in c - {x};
    assert Mutual(g, x, y);
    var k: nat :| Within(g, k, x, y);
  }

  /** The shared variables of `detect_import_cycles` that the nested calls update. */
  class Tarjan {
    const graph: Graph
    var indices: map<Name, nat>
    var lowlinks: map<Name, nat>
    var stack: seq<Name>
    var onStack: set<Name>
    var components: seq<seq<Name>>
    ghost var active: set<Name>
    ghost var found: set<set<Name>>

    constructor (g: Graph)
      ensures graph == g && View() == Search(map[], [], {}, {}, {}, []) && Valid()
    {
      graph := g;
      indices, lowlinks, stack, onStack, components := map[], map[], [], {}, [];
      active, found := {}, {};
    }

    ghost function View(): Search
      reads this
    {
      Search(indices, stack, onStack, active, found, components)
    }

    ghost predicate Valid()
      reads this
    {
      View().Valid(graph) && lowlinks.Keys == indices.Keys
    }

    /** The inner loop: pops down to and including `node`, which lies at `base`. */
    method PopComponent(node: Name, ghost base: nat) returns (component: seq<Name>)
      requires base < |stack| && stack[base] == node
      requires forall i, j | 0 <= i < j < |stack| :: stack[i] != stack[j]
      modifies this`stack, this`onStack
      ensures stack == old(stack[..base])
      ensures onStack == old(onStack) - Elements(component)
      ensures Elements(component) == Elements(old(stack[base..]))
      ensures forall i, j | 0 <= i < j < |component| :: component[i] != component[j]
    {
      ghost var whole := stack;
      var n := |stack|;
      component := [];
      while true
        invariant base < |stack| <= n && stack == whole[..|stack|]
        invariant |component| == n - |stack|
        invariant forall k | 0 <= k < |component| :: component[k] == whole[n - 1 - k]
        invariant onStack == old(onStack) - Elements(component)
        decreases |stack|
      {
        var item := stack[|stack| - 1];
        ghost var popped := component;
        stack := stack[..|stack| - 1];
        onStack := onStack - {item};
        component := component + [item];
        assert Elements(component) == Elements(popped) + {item};
        if item == node {
          break;
        }
      }
      ReversedElements(component, whole[base..]);
    }

    /** `strongconnect(node)`: numbers `node` and everything first reached from it. */
    method StrongConnect(node: Name)
      requires Valid() && node !in indices && node in Universe(graph)
      requires indices.Keys <= Universe(graph)
      requires forall x | x in active :: Reach(graph, x, node)
      modifies this
      ensures Valid() && indices.Keys <= Universe(graph)
      ensures old(lowlinks.Keys) <= lowlinks.Keys
      ensures forall x | x in old(lowlinks) :: lowlinks[x] == old(lowlinks[x])
      ensures node in lowlinks && Returned(graph, old(View()), View(), node, lowlinks[node])
      decreases Universe(graph) - indices.Keys, 0
    {
      hide Search.Numbered;
      hide Search.Linked;
      hide Collected;
      hide Listed;
      hide LowBounds;
      hide LowReached;
      hide Returned;
      hide Universe;
      hide Reach;
      ghost var before := View();
      Entered(graph, before, node);
      var index := |indices|;
      indices := indices[node := index];
      lowlinks := lowlinks[node := index];
      stack := stack + [node];
      onStack := onStack + {node};
      active := active + {node};
      assert View() == Push(before, node);

      var todo := Succ(graph, node);
      assert Succ(graph, node) - todo == {};
      while todo != {}
        invariant todo <= Succ(graph, node)
        invariant Valid() && indices.Keys <= Universe(graph) && node in lowlinks
        invariant Exploring(graph, before, View(), node, Succ(graph, node) - todo, lowlinks[node])
        invariant old(lowlinks.Keys) <= lowlinks.Keys
        invariant forall x | x in old(lowlinks) :: lowlinks[x] == old(lowlinks[x])
        decreases todo
      {
        var neighbor :| neighbor in todo;
        ghost var visited := Succ(graph, node) - todo;
        Visit(node, neighbor, before, visited);
        todo := todo - {neighbor};
        assert Succ(graph, node) - todo == visited + {neighbor};
      }
      assert Succ(graph, node) - todo == Succ(graph, node);
      Conclude(node, before);
    }

    /** One neighbour of `node`: explored, or its number taken if it is on the stack. */
    method Visit(node: Name, neighbor: Name, ghost before: Search, ghost visited: set<Name>)
      requires Valid() && indices.Keys <= Universe(graph) && node in lowlinks && neighbor in Succ(graph, node)
      requires Exploring(graph, before, View(), node, visited, lowlinks[node])
      modifies this
      ensures Valid() && indices.Keys <= Universe(graph) && node in lowlinks
      ensures Exploring(graph, before, View(), node, visited + {neighbor}, lowlinks[node])
      ensures old(lowlinks.Keys) <= lowlinks.Keys
      ensures forall x | x in old(lowlinks) && x != node :: lowlinks[x] == old(lowlinks[x])
      decreases Universe(graph) - indices.Keys, 1
    {
      hide Search.Numbered;
      hide Search.Linked;
      hide Collected;
      hide Listed;
      hide LowBounds;
      hide LowReached;
      hide Returned;
      hide Universe;
      hide Reach;
      ghost var s, low := View(), lowlinks[node];
      if neighbor !in indices {
        CallReach(graph, before, s, node, neighbor);
        StrongConnect(neighbor);
        AfterCall(graph, before, s, View(), node, visited, low, neighbor, lowlinks[neighbor]);
        if lowlinks[neighbor] < lowlinks[node] {
          lowlinks := lowlinks[node := lowlinks[neighbor]];
        }
      } else if neighbor in onStack {
        AfterStacked(graph, before, s, node, visited, low, neighbor);
        if indices[neighbor] < lowlinks[node] {
          lowlinks := lowlinks[node := indices[neighbor]];
        }
      } else {
        AfterSettled(graph, before, s, node, visited, low, neighbor);
      }
    }

    /** The end of `strongconnect(node)`: pops a component unless something lower is reached. */
    method Conclude(node: Name, ghost before: Search)
      requires Valid() && before.Valid(graph) && node in lowlinks
      requires Exploring(graph, before, View(), node, Succ(graph, node), lowlinks[node])
      modifies this`stack, this`onStack, this`components, this`active, this`found
      ensures Valid()
      ensures Returned(graph, before, View(), node, lowlinks[node])
    {
      hide Search.Numbered;
      hide Search.Linked;
      hide Collected;
      hide Listed;
      hide LowBounds;
      hide LowReached;
      hide Returned;
      ghost var s := View();
      if lowlinks[node] == indices[node] {
        Bottom(before, s, node);
        UpperElements(before, s);
        var component := PopComponent(node, |before.stack|);
        BottomListed(graph, before, s, node, component);
        if |component| > 1 {
          components := components + [Sorted(NameLess(), component)];
        }
        assert onStack == before.onStack;
        active := before.active;
        found := found + {s.onStack - before.onStack};
        assert View() == Pop(before, s, components);
        Popped(graph, before, s, node, components);
        PoppedReturned(graph, before, s, node, components);
      } else {
        Kept(graph, before, s, node, lowlinks[node]);
        KeptReturned(graph, before, s, node, lowlinks[node]);
        active := before.active;
        assert View() == s.(active := before.active);
      }
    }
  }

  /** `detect_import_cycles`, from the import graph on. */
  method DetectImportCycles(g: Graph) returns (cycles: seq<seq<Name>>)
    ensures IsReport(g, cycles)
  {
    var search := new Tarjan(g);
    var todo := g.Keys;
    while todo != {}
      invariant search.Valid() && search.graph == g && fresh(search)
      invariant search.active == {} && todo <= g.Keys
      invariant g.Keys - todo <= search.indices.Keys <= Universe(g)
      decreases todo
    {
      var node :| node in todo;
      if node !in search.indices {
        search.StrongConnect(node);
      }
      todo := todo - {node};
    }
    AllSettled(g, search.View());
    cycles := Sorted(ReportLess(), search.components);
    ReportSorted(g, search.View());
  }
}
