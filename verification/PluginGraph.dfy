/**
 The plugin dependency graph as bit-mask adjacency, and the Kahn traversal that
 visits every node exactly when the graph is acyclic.
 */
module PluginGraph {
  import opened Bytes

  const LIMIT: nat := 64

  // ---- Masks: unsigned words read bit by bit

  predicate Bit(m: nat, i: nat) {
    if i == 0 then m % 2 == 1 else Bit(m / 2, i - 1)
  }

  /** A word with one bit set. */
  function SetBit(m: nat, i: nat): (r: nat) {
    if i == 0 then m / 2 * 2 + 1 else SetBit(m / 2, i - 1) * 2 + m % 2
  }

  lemma {:induction false} SetBitIs(m: nat, i: nat, j: nat)
    ensures Bit(SetBit(m, i), j) <==> i == j || Bit(m, j)
  {
    if i > 0 && j > 0 {
      SetBitIs(m / 2, i - 1, j - 1);
    }
  }

  /** Setting a bit below the width keeps the word in the width. */
  lemma {:induction false} SetBitFits(m: nat, i: nat, width: nat)
    requires i < width && m < Pow2(width)
    ensures SetBit(m, i) < Pow2(width)
  {
    if i > 0 {
      SetBitFits(m / 2, i - 1, width - 1);
    }
  }

  lemma {:induction false} NoBits(i: nat)
    ensures !Bit(0, i)
  {
    if i > 0 { NoBits(i - 1); }
  }

  // ---- Graphs

  predicate Edge(deps: seq<nat>, n: nat, p: nat, c: nat)
    requires n <= |deps| && n <= LIMIT
  {
    p < n && c < n && Bit(deps[p], c)
  }

  predicate StepAt(deps: seq<nat>, n: nat, s: seq<nat>, i: nat)
    requires n <= |deps| && n <= LIMIT && i + 1 < |s|
  {
    Edge(deps, n, s[i], s[i + 1])
  }

  ghost predicate Path(deps: seq<nat>, n: nat, s: seq<nat>)
    requires n <= |deps| && n <= LIMIT
  {
    |s| >= 2 && forall i :: 0 <= i < |s| - 1 ==> StepAt(deps, n, s, i)
  }

  ghost predicate Cyclic(deps: seq<nat>, n: nat)
    requires n <= |deps| && n <= LIMIT
  {
    exists s :: Path(deps, n, s) && s[0] == s[|s| - 1]
  }

  ghost function Predecessors(deps: seq<nat>, n: nat, c: nat): (r: set<nat>)
    requires n <= |deps| && n <= LIMIT
  {
    set p | 0 <= p < n && Edge(deps, n, p, c)
  }

  /** Every predecessor of an element stands before it. */
  ghost predicate Topological(deps: seq<nat>, n: nat, order: seq<nat>)
    requires n <= |deps| && n <= LIMIT
  {
    forall k :: 0 <= k < |order| ==> Predecessors(deps, n, order[k]) <= Elements(order[..k])
  }

  ghost predicate Nodes(n: nat, s: seq<nat>) {
    Distinct(s) && forall i :: 0 <= i < |s| ==> s[i] < n
  }

  lemma ElementsOf<T>(s: seq<T>, x: T)
    ensures x in Elements(s) <==> x in s
  {
  }

  /** Along a path, positions in a topological order of all nodes strictly increase. */
  lemma {:induction false} PathAscends(deps: seq<nat>, n: nat, order: seq<nat>, s: seq<nat>, i: nat, j: nat)
      returns (a: nat, b: nat)
    requires n <= |deps| && n <= LIMIT && Nodes(n, order) && Topological(deps, n, order)
    requires forall x :: 0 <= x < n ==> x in order
    requires Path(deps, n, s) && i < j < |s|
    ensures a < b < |order| && order[a] == s[i] && order[b] == s[j]
    decreases j - i
  {
    hide Bit;
    assert StepAt(deps, n, s, j - 1);
    assert s[j] in order;
    b :| 0 <= b < |order| && order[b] == s[j];
    assert s[j - 1] in Predecessors(deps, n, order[b]);
    assert s[j - 1] in Elements(order[..b]);
    var c :| 0 <= c < b && order[..b][c] == s[j - 1];
    if j - 1 == i {
      a := c;
    } else {
      var d;
      a, d := PathAscends(deps, n, order, s, i, j - 1);
    }
  }

  lemma TopologicalIsAcyclic(deps: seq<nat>, n: nat, order: seq<nat>)
    requires n <= |deps| && n <= LIMIT && Nodes(n, order) && Topological(deps, n, order)
    requires forall x :: 0 <= x < n ==> x in order
    ensures !Cyclic(deps, n)
  {
    if Cyclic(deps, n) {
      var s :| Path(deps, n, s) && s[0] == s[|s| - 1];
      var a, b := PathAscends(deps, n, order, s, 0, |s| - 1);
    }
  }

  /** Some node of the set leads to `c`. */
  ghost predicate FedFrom(deps: seq<nat>, n: nat, rest: set<nat>, c: nat)
    requires n <= |deps| && n <= LIMIT
  {
    exists p :: p in rest && Edge(deps, n, p, c)
  }

  lemma Feeder(deps: seq<nat>, n: nat, rest: set<nat>, c: nat) returns (p: nat)
    requires n <= |deps| && n <= LIMIT && FedFrom(deps, n, rest, c)
    ensures p in rest && Edge(deps, n, p, c)
  {
    p :| p in rest && Edge(deps, n, p, c);
  }

  /** Nodes that each have a predecessor among themselves contain a cycle. */
  lemma StuckIsCyclic(deps: seq<nat>, n: nat, rest: set<nat>)
    requires n <= |deps| && n <= LIMIT && rest != {}
    requires forall c :: c in rest ==> FedFrom(deps, n, rest, c)
    ensures Cyclic(deps, n)
  {
    hide Bit, FedFrom;
    var c :| c in rest;
    var p := Feeder(deps, n, rest, c);
    var s := BackwardWalk(deps, n, rest, c, n + 1);
    if Distinct(s) {
      Pigeonhole(s, 0, n);
    }
    var i, j :| 0 <= i < j < |s| && s[i] == s[j];
    var loop := s[i..j + 1];
    forall k | 0 <= k < |loop| - 1 ensures StepAt(deps, n, loop, k) {
      assert StepAt(deps, n, s, i + k);
    }
    assert Path(deps, n, loop) && loop[0] == loop[|loop| - 1];
  }

  lemma {:induction false} BackwardWalk(deps: seq<nat>, n: nat, rest: set<nat>, c: nat, len: nat) returns (s: seq<nat>)
    requires n <= |deps| && n <= LIMIT && c in rest && len >= 2
    requires forall c :: c in rest ==> FedFrom(deps, n, rest, c)
    ensures |s| == len && Path(deps, n, s) && s[0] in rest && forall i :: 0 <= i < len ==> s[i] < n
    decreases len
  {
    hide Bit, FedFrom;
    if len == 2 {
      var p := Feeder(deps, n, rest, c);
      s := [p, c];
    } else {
      var t := BackwardWalk(deps, n, rest, c, len - 1);
      var p := Feeder(deps, n, rest, t[0]);
      s := [p] + t;
      forall i | 0 <= i < |s| - 1 ensures StepAt(deps, n, s, i) {
        if i > 0 { assert StepAt(deps, n, t, i - 1); }
      }
    }
  }

  // ---- The traversal

  /** Predecessors of a node that have not been visited. */
  ghost function Pending(deps: seq<nat>, n: nat, c: nat, done: set<nat>): (r: set<nat>)
    requires n <= |deps| && n <= LIMIT
  {
    Predecessors(deps, n, c) - done
  }

  /** Visited and ready nodes are exactly those with no pending predecessor. */
  ghost predicate Frontier(deps: seq<nat>, n: nat, order: seq<nat>, ready: seq<nat>, indegree: seq<nat>)
    requires n <= |deps| && n <= LIMIT && n <= |indegree|
  {
    && Nodes(n, order + ready) && Topological(deps, n, order)
    && (forall c :: c in ready ==> Predecessors(deps, n, c) <= Elements(order))
    && (forall c :: 0 <= c < n ==> (indegree[c] == 0 <==> c in order || c in ready))
  }

  /** Indegrees below `k` already count `order`, the others only `before`. */
  ghost predicate Counted(deps: seq<nat>, n: nat, order: seq<nat>, before: seq<nat>, indegree: seq<nat>, k: nat)
    requires n <= |deps| && n <= LIMIT && n <= |indegree|
  {
    forall c :: 0 <= c < n ==> indegree[c] == |Pending(deps, n, c, Elements(if c < k then order else before))|
  }

  lemma ElementsAppend(s: seq<nat>, x: nat)
    ensures Elements(s + [x]) == Elements(s) + {x}
  {
    assert (s + [x])[|s|] == x;
    forall y | y in Elements(s) ensures y in Elements(s + [x]) {
      var i :| 0 <= i < |s| && s[i] == y;
      assert (s + [x])[i] == y;
    }
  }

  /** Where an index of `order + [p] + ready` stood in `order + ready + [p]`. */
  function Moved(a: nat, b: nat, i: nat): (j: nat)
    requires i < a + 1 + b
    ensures j < a + b + 1
  {
    if i < a then i else if i == a then a + b else i - 1
  }

  /** Moving the last ready node behind the visited ones is a rearrangement. */
  lemma MoveNode(n: nat, order: seq<nat>, ready: seq<nat>, p: nat)
    requires Nodes(n, order + (ready + [p]))
    ensures Nodes(n, (order + [p]) + ready) && p < n && p !in order
  {
    var all, all' := order + (ready + [p]), (order + [p]) + ready;
    assert all[|order| + |ready|] == p;
    forall i | 0 <= i < |order| ensures order[i] != p {
      assert all[i] == order[i];
    }
    forall i | 0 <= i < |all'| ensures all'[i] == all[Moved(|order|, |ready|, i)] {
    }
  }

  lemma PrefixNodes(n: nat, a: seq<nat>, b: seq<nat>)
    requires Nodes(n, a + b)
    ensures Nodes(n, a) && |a| <= n
  {
    assert forall i :: 0 <= i < |a| ==> (a + b)[i] == a[i];
    Pigeonhole(a, 0, n);
  }

  lemma TopologicalAppend(deps: seq<nat>, n: nat, order: seq<nat>, p: nat)
    requires n <= |deps| && n <= LIMIT && Topological(deps, n, order)
    requires Predecessors(deps, n, p) <= Elements(order)
    ensures Topological(deps, n, order + [p])
  {
    hide Predecessors, Elements;
    var order' := order + [p];
    forall k | 0 <= k < |order'| ensures Predecessors(deps, n, order'[k]) <= Elements(order'[..k]) {
      if k == |order| {
        assert order'[..k] == order;
      } else {
        assert order'[..k] == order[..k];
      }
    }
  }

  /** Popping a ready node appends it to the visiting order. */
  lemma PopReady(deps: seq<nat>, n: nat, order: seq<nat>, ready: seq<nat>, p: nat, indegree: seq<nat>)
    requires n <= |deps| && n <= LIMIT && n <= |indegree|
    requires Frontier(deps, n, order, ready + [p], indegree) && Counted(deps, n, order, order, indegree, n)
    ensures p < n && p !in order && |order| < n
    ensures Frontier(deps, n, order + [p], ready, indegree)
    ensures Counted(deps, n, order + [p], order, indegree, 0)
  {
    hide Predecessors, Topological, Nodes, Elements, Pending;
    assert (ready + [p])[|ready|] == p;
    assert forall c :: c in ready ==> c in ready + [p];
    MoveNode(n, order, ready, p);
    PrefixNodes(n, order + [p], ready);
    TopologicalAppend(deps, n, order, p);
    ElementsAppend(order, p);
  }

  /** A consumer of the visited node loses one pending predecessor; any other keeps its count. */
  lemma PendingStep(deps: seq<nat>, n: nat, c: nat, before: seq<nat>, p: nat)
    requires n <= |deps| && n <= LIMIT && p < n && c < n && p !in before
    ensures var a, b := Pending(deps, n, c, Elements(before)), Pending(deps, n, c, Elements(before + [p]));
      |a| == |b| + (if Edge(deps, n, p, c) then 1 else 0)
    ensures Pending(deps, n, c, Elements(before + [p])) == {} ==> Predecessors(deps, n, c) <= Elements(before + [p])
  {
    hide Bit;
    ElementsAppend(before, p);
    var a, b := Pending(deps, n, c, Elements(before)), Pending(deps, n, c, Elements(before + [p]));
    if Edge(deps, n, p, c) {
      assert a == b + {p};
    } else {
      assert a == b;
    }
  }

  /** A node whose last pending predecessor was visited joins the ready stack. */
  lemma PushReady(deps: seq<nat>, n: nat, order: seq<nat>, ready: seq<nat>, c: nat, indegree: seq<nat>)
    requires n <= |deps| && n <= LIMIT && n <= |indegree| && c < n
    requires Frontier(deps, n, order, ready, indegree) && indegree[c] != 0
    requires Predecessors(deps, n, c) <= Elements(order)
    ensures Frontier(deps, n, order, ready + [c], indegree[c := 0])
    ensures |order| + |ready| < n
  {
    hide Bit;
    assert c !in order && c !in ready;
    var all := order + ready;
    assert order + (ready + [c]) == all + [c];
    assert c !in all by {
      forall i | 0 <= i < |all| ensures all[i] != c {
        assert all[i] == if i < |order| then order[i] else ready[i - |order|];
      }
    }
    assert Nodes(n, all + [c]);
    Pigeonhole(all + [c], 0, n);
  }

  /** Collect the nodes without predecessors. */
  method CollectRoots(deps: seq<nat>, n: nat, indegree: array<nat>, ready: array<nat>) returns (count: nat)
    requires n <= |deps| && n <= LIMIT <= indegree.Length && LIMIT <= ready.Length && indegree != ready
    requires Counted(deps, n, [], [], indegree[..], n)
    modifies ready
    ensures count <= n && Frontier(deps, n, [], ready[..count], indegree[..])
  {
    hide Frontier, Counted, Roots;
    count := 0;
    ghost var degrees := indegree[..];
    NoRoots(degrees);
    for i := 0 to n
      invariant count <= i && indegree[..] == degrees && Roots(ready[..count], degrees, i)
    {
      NextRoot(ready[..count], degrees, i);
      if indegree[i] == 0 {
        ready[count] := i;
        assert ready[..count + 1] == ready[..count] + [i];
        count := count + 1;
      }
    }
    RootsFrontier(deps, n, ready[..count], degrees);
  }

  /** The list holds, in order, exactly the nodes below `i` whose degree is zero. */
  ghost predicate Roots(s: seq<nat>, degrees: seq<nat>, i: nat)
  {
    && i <= |degrees| && (forall k :: 0 <= k < |s| ==> s[k] < i && degrees[s[k]] == 0)
    && (forall k, l :: 0 <= k < l < |s| ==> s[k] < s[l])
    && (forall c :: 0 <= c < i && degrees[c] == 0 ==> c in s)
  }

  lemma NoRoots(degrees: seq<nat>)
    ensures Roots([], degrees, 0)
  {
  }

  lemma NextRoot(s: seq<nat>, degrees: seq<nat>, i: nat)
    requires i < |degrees| && Roots(s, degrees, i)
    ensures Roots(if degrees[i] == 0 then s + [i] else s, degrees, i + 1)
  {
    var t := s + [i];
    assert t[|s|] == i && forall k :: 0 <= k < |s| ==> t[k] == s[k];
  }

  lemma RootsFrontier(deps: seq<nat>, n: nat, ready: seq<nat>, indegree: seq<nat>)
    requires n <= |deps| && n <= LIMIT && n <= |indegree| && Counted(deps, n, [], [], indegree, n)
      && Roots(ready, indegree, n)
    ensures Frontier(deps, n, [], ready, indegree)
  {
    hide Bit;
    assert [] + ready == ready;
    forall c | c in ready ensures Predecessors(deps, n, c) <= Elements([]) {
      assert indegree[c] == 0;
      assert Pending(deps, n, c, Elements([])) == {};
    }
  }

  /** Release the consumers of a node that has just been visited. */
  method Release(deps: seq<nat>, n: nat, p: nat, indegree: array<nat>, ready: array<nat>, count: nat,
      ghost order: seq<nat>)
    returns (count': nat)
    requires n <= |deps| && n <= LIMIT <= indegree.Length && LIMIT <= ready.Length && indegree != ready
    requires p < n && p !in order && count <= n
    requires Frontier(deps, n, order + [p], ready[..count], indegree[..])
    requires Counted(deps, n, order + [p], order, indegree[..], 0)
    modifies indegree, ready
    ensures count' <= n && Frontier(deps, n, order + [p], ready[..count'], indegree[..])
    ensures Counted(deps, n, order + [p], order + [p], indegree[..], n)
  {
    hide Bit, Frontier, Pending, Predecessors;
    count' := count;
    var consumers := deps[p];
    ghost var order' := order + [p];
    for c := 0 to n
      invariant count' <= n && Frontier(deps, n, order', ready[..count'], indegree[..])
      invariant Counted(deps, n, order', order, indegree[..], c)
    {
      PendingStep(deps, n, c, order, p);
      if Bit(consumers, c) {
        ghost var degrees, stack := indegree[..], ready[..count'];
        indegree[c] := indegree[c] - 1;
        if indegree[c] == 0 {
          PushReady(deps, n, order', stack, c, degrees);
          PrefixCount(deps, n, order', stack, degrees);
          ready[count'] := c;
          assert ready[..count' + 1] == stack + [c];
          count' := count' + 1;
        } else {
          KeepFrontier(deps, n, order', stack, c, degrees, indegree[c]);
        }
        assert indegree[..] == degrees[c := indegree[c]];
      }
    }
  }

  lemma PrefixCount(deps: seq<nat>, n: nat, order: seq<nat>, ready: seq<nat>, indegree: seq<nat>)
    requires n <= |deps| && n <= LIMIT && n <= |indegree| && Frontier(deps, n, order, ready, indegree)
    ensures |order| + |ready| <= n
  {
    Pigeonhole(order + ready, 0, n);
  }

  lemma KeepFrontier(deps: seq<nat>, n: nat, order: seq<nat>, ready: seq<nat>, c: nat, indegree: seq<nat>, d: nat)
    requires n <= |deps| && n <= LIMIT && n <= |indegree| && c < n && d != 0
    requires Frontier(deps, n, order, ready, indegree) && indegree[c] != 0
    ensures Frontier(deps, n, order, ready, indegree[c := d])
  {
  }

  /** Kahn's traversal: it visits every node exactly when the graph has no cycle, in topological order. */
  method Traverse(deps: seq<nat>, n: nat, indegree: array<nat>) returns (visited: nat, ghost order: seq<nat>)
    requires n <= |deps| && n <= LIMIT <= indegree.Length
    requires Counted(deps, n, [], [], indegree[..], n)
    modifies indegree
    ensures visited == |order| <= n && Nodes(n, order) && Topological(deps, n, order)
    ensures visited == n <==> !Cyclic(deps, n)
  {
    hide Bit, Frontier, Counted, Topological, Cyclic;
    var ready := new nat[LIMIT];
    order, visited := [], 0;
    var count: nat := CollectRoots(deps, n, indegree, ready);
    while count != 0
      invariant count <= n && visited == |order| <= n
      invariant Frontier(deps, n, order, ready[..count], indegree[..])
      invariant Counted(deps, n, order, order, indegree[..], n)
      decreases n - visited
    {
      count := count - 1;
      var provider := ready[count];
      assert ready[..count + 1] == ready[..count] + [provider];
      PopReady(deps, n, order, ready[..count], provider, indegree[..]);
      visited := visited + 1;
      count := Release(deps, n, provider, indegree, ready, count, order);
      order := order + [provider];
    }
    assert ready[..0] == [];
    Conclude(deps, n, order, indegree[..]);
  }

  /** An empty frontier decides the question either way. */
  lemma Conclude(deps: seq<nat>, n: nat, order: seq<nat>, indegree: seq<nat>)
    requires n <= |deps| && n <= LIMIT && n <= |indegree|
    requires Frontier(deps, n, order, [], indegree) && Counted(deps, n, order, order, indegree, n)
    ensures Nodes(n, order) && Topological(deps, n, order) && |order| <= n
    ensures |order| == n <==> !Cyclic(deps, n)
  {
    hide Bit, Cyclic;
    assert order + [] == order;
    PrefixNodes(n, order, []);
    if |order| == n {
      AllVisited(n, order);
      TopologicalIsAcyclic(deps, n, order);
    } else {
      var rest := set c: nat | 0 <= c < n && c !in order;
      SomeUnvisited(n, order, rest);
      forall c | c in rest ensures FedFrom(deps, n, rest, c) {
        assert indegree[c] != 0;
        Unfinished(deps, n, order, rest, c);
      }
      StuckIsCyclic(deps, n, rest);
    }
  }

  lemma Unfinished(deps: seq<nat>, n: nat, order: seq<nat>, rest: set<nat>, c: nat)
    requires n <= |deps| && n <= LIMIT && rest == set c: nat | 0 <= c < n && c !in order
    requires |Pending(deps, n, c, Elements(order))| != 0
    ensures FedFrom(deps, n, rest, c)
  {
    hide Bit;
    assert Pending(deps, n, c, Elements(order)) != {};
    var p :| p in Pending(deps, n, c, Elements(order));
    ElementsOf(order, p);
    assert p in rest && Edge(deps, n, p, c);
  }

  lemma AllVisited(n: nat, order: seq<nat>)
    requires Nodes(n, order) && |order| == n
    ensures forall x :: 0 <= x < n ==> x in order
  {
    forall x | 0 <= x < n ensures x in order {
      if x !in order {
        Pigeonhole(order + [x], 0, n);
      }
    }
  }

  lemma SomeUnvisited(n: nat, order: seq<nat>, rest: set<nat>)
    requires Nodes(n, order) && |order| < n && rest == set c: nat | 0 <= c < n && c !in order
    ensures rest != {}
  {
    if rest == {} {
      assert forall x: nat :: 0 <= x < n && x !in order ==> x in rest;
      DistinctCount(order);
      SubsetCount(Interval(0, n), Elements(order));
    }
  }
}
