/** The package manager's dependency ordering: a depth-first visit with `visited`
  * and `in_stack` flags that appends each package after its dependencies.
  *
  * Dependency indices outside the node array (dependencies that are not part of
  * the request) are skipped, so the graph below has only the in-range ones. */
module Topology {

  type Graph = seq<seq<int>>

  predicate Edge(g: Graph, a: int, b: int) {
    0 <= a < |g| && 0 <= b < |g| && b in g[a]
  }

  ghost predicate Path(g: Graph, p: seq<int>) {
    forall k :: 0 <= k < |p| - 1 ==> Edge(g, p[k], p[k + 1])
  }

  ghost predicate Cyclic(g: Graph) {
    exists p :: |p| >= 2 && Path(g, p) && p[0] == p[|p| - 1]
  }

  predicate Distinct(s: seq<int>) {
    forall i, j :: 0 <= i < j < |s| ==> s[i] != s[j]
  }

  /** Every dependency of an element stands before it. */
  ghost predicate DependenciesFirst(g: Graph, s: seq<int>) {
    forall k, d :: 0 <= k < |s| && Edge(g, s[k], d) ==> d in s[..k]
  }

  /** Each node once, dependencies before dependents. */
  ghost predicate InstallOrder(g: Graph, s: seq<int>) {
    && |s| == |g|
    && Distinct(s)
    && (forall n :: 0 <= n < |g| <==> n in s)
    && DependenciesFirst(g, s)
  }

  // ---------------------------------------------------------------- counting

  function Elements(s: seq<int>): (r: set<int>)
    ensures forall x :: x in r <==> x in s
  {
    set x | x in s
  }

  lemma {:induction false} DistinctCounts(s: seq<int>)
    requires Distinct(s)
    ensures |Elements(s)| == |s|
  {
    if s != [] {
      DistinctCounts(s[1..]);
      assert Elements(s) == Elements(s[1..]) + {s[0]};
      assert s[0] !in s[1..];
    } else {
      assert Elements(s) == {};
    }
  }

  function Below(n: nat): (r: set<int>)
    ensures forall x :: x in r <==> 0 <= x < n
  {
    if n == 0 then {} else Below(n - 1) + {n - 1}
  }

  lemma {:induction false} BelowCounts(n: nat)
    ensures |Below(n)| == n
  {
    if n > 0 {
      BelowCounts(n - 1);
      assert n - 1 !in Below(n - 1) && Below(n) == Below(n - 1) + {n - 1};
    }
  }

  lemma {:induction false} SubsetCounts(a: set<int>, b: set<int>)
    requires a <= b
    ensures |a| <= |b|
    ensures |a| == |b| ==> a == b
  {
    assert b == a + (b - a);
  }

  /** Distinct nodes are at most as many as there are, and all of them exactly when
    * none is missing. */
  lemma {:induction false} Pigeonhole(s: seq<int>, n: nat)
    requires Distinct(s) && forall x :: x in s ==> 0 <= x < n
    ensures |s| <= n
    ensures (forall x :: 0 <= x < n ==> x in s) <==> |s| == n
  {
    DistinctCounts(s);
    BelowCounts(n);
    SubsetCounts(Elements(s), Below(n));
    if forall x :: 0 <= x < n ==> x in s {
      assert Elements(s) == Below(n);
    }
    if |s| == n {
      assert Elements(s) == Below(n);
    }
  }

  // ------------------------------------------------------------------ cycles

  lemma {:induction false} Position(s: seq<int>, x: int) returns (k: nat)
    requires x in s
    ensures k < |s| && s[k] == x
  {
    k :| 0 <= k < |s| && s[k] == x;
  }

  /** In an order with dependencies first, an edge goes strictly backwards. */
  lemma {:induction false} EdgeGoesBack(g: Graph, s: seq<int>, i: nat, j: nat)
    requires DependenciesFirst(g, s) && Distinct(s)
    requires i < |s| && j < |s| && Edge(g, s[i], s[j])
    ensures j < i
  {
    assert s[j] in s[..i];
    var k := Position(s[..i], s[j]);
    assert s[k] == s[j];
  }

  lemma {:induction false} PathGoesBack(g: Graph, s: seq<int>, p: seq<int>, i: nat, j: nat)
    requires DependenciesFirst(g, s) && Distinct(s) && Path(g, p) && |p| >= 2
    requires forall x :: 0 <= x < |g| ==> x in s
    requires i < |s| && j < |s| && s[i] == p[0] && s[j] == p[|p| - 1]
    ensures j < i
    decreases |p|
  {
    assert Edge(g, p[0], p[1]);
    var k := Position(s, p[1]);
    EdgeGoesBack(g, s, i, k);
    if |p| > 2 {
      PathGoesBack(g, s, p[1..], k, j);
    } else {
      assert k == j;
    }
  }

  /** A graph with an install order has no cycle. */
  lemma {:induction false} OrderedIsAcyclic(g: Graph, s: seq<int>)
    requires InstallOrder(g, s)
    ensures !Cyclic(g)
  {
    if Cyclic(g) {
      var p :| |p| >= 2 && Path(g, p) && p[0] == p[|p| - 1];
      assert Edge(g, p[0], p[1]);
      var i := Position(s, p[0]);
      PathGoesBack(g, s, p, i, i);
    }
  }

  /** Meeting a node of the stack again closes a cycle. */
  lemma {:induction false} StackCloses(g: Graph, stack: seq<int>, i: int)
    requires stack != [] && Path(g, stack) && Edge(g, stack[|stack| - 1], i) && i in stack
    ensures Cyclic(g)
  {
    var k := Position(stack, i);
    var p := stack[k..] + [i];
    forall m | 0 <= m < |p| - 1
      ensures Edge(g, p[m], p[m + 1])
    {
      assert p[m] == stack[k + m];
      if m < |p| - 2 {
        assert Edge(g, stack[k + m], stack[k + m + 1]);
      }
    }
    assert Path(g, p);
  }

  // ------------------------------------------------- flags, order and stack

  /** The flags describe the order so far and the chain of nodes being visited. */
  ghost predicate Sound(g: Graph, visited: seq<bool>, inStack: seq<bool>, done: seq<int>, stack: seq<int>)
    requires |visited| == |inStack| == |g|
  {
    && Distinct(stack) && Path(g, stack)
    && (forall n :: n in stack ==> 0 <= n < |g| && n !in done)
    && (forall n :: 0 <= n < |g| ==> (inStack[n] <==> n in stack))
    && (forall n :: n in done ==> 0 <= n < |g|)
    && (forall n :: 0 <= n < |g| ==> (visited[n] <==> n in done))
    && Distinct(done)
    && DependenciesFirst(g, done)
  }

  lemma {:induction false} Pushed(g: Graph, visited: seq<bool>, inStack: seq<bool>, done: seq<int>, stack: seq<int>, i: int)
    requires |visited| == |inStack| == |g| && Sound(g, visited, inStack, done, stack)
    requires 0 <= i < |g| && !inStack[i] && !visited[i]
    requires stack == [] || Edge(g, stack[|stack| - 1], i)
    ensures Sound(g, visited, inStack[i := true], done, stack + [i])
    ensures |stack| < |g|
  {
    Pigeonhole(stack + [i], |g|);
  }

  lemma {:induction false} Popped(g: Graph, visited: seq<bool>, inStack: seq<bool>, done: seq<int>, stack: seq<int>, i: int)
    requires |visited| == |inStack| == |g| && 0 <= i < |g|
    requires Sound(g, visited, inStack, done, stack + [i])
    requires forall d :: Edge(g, i, d) ==> d in done
    ensures Sound(g, visited[i := true], inStack[i := false], done + [i], stack)
    ensures |done| < |g|
  {
    var deeper := stack + [i];
    assert deeper[|stack|] == i && stack == deeper[..|stack|];
    assert forall k :: 0 <= k < |stack| ==> stack[k] == deeper[k];
    assert i !in stack && Distinct(stack);
    assert forall n :: n in deeper <==> n in stack || n == i;
    assert forall n :: n in done + [i] <==> n in done || n == i;
    assert i in deeper;
    Pigeonhole(done, |g|);
    Appended(g, done, i);
    forall k | 0 <= k < |stack| - 1
      ensures Edge(g, stack[k], stack[k + 1])
    {
      assert Edge(g, deeper[k], deeper[k + 1]);
    }
  }

  // -------------------------------------------------------------- the resolver

  class Resolver {
    /** `dep_indices[..dep_count]` of each node. */
    const deps: Graph
    var visited: seq<bool>
    var inStack: seq<bool>
    const order: array<int>
    var idx: nat

    constructor (g: Graph, room: array<int>)
      requires room.Length >= |g|
      ensures deps == g && order == room && idx == 0
      ensures visited == seq(|g|, _ => false) && inStack == seq(|g|, _ => false)
    {
      deps, order, idx := g, room, 0;
      visited, inStack := seq(|g|, _ => false), seq(|g|, _ => false);
    }

    ghost function Done(): seq<int>
      requires idx <= order.Length
      reads this, order
    {
      order[..idx]
    }

    /** `stack` is the chain of nodes being visited, oldest first. */
    ghost predicate Inv(stack: seq<int>)
      reads this, order
    {
      && |visited| == |inStack| == |deps| <= order.Length
      && idx <= |deps|
      && Sound(deps, visited, inStack, Done(), stack)
    }

    /** Visits node `i`. On success everything it needs, and itself, is in the order and
      * the stack is as it was; failure means the graph has a cycle. */
    method TopoVisit(i: int, ghost stack: seq<int>) returns (r: int)
      requires Inv(stack) && 0 <= i < |deps|
      requires stack == [] || Edge(deps, stack[|stack| - 1], i)
      modifies this, order
      ensures r == 0 || r == -1
      ensures r == 0 ==> Inv(stack) && visited[i] && old(Done()) <= Done()
      ensures r == -1 ==> Cyclic(deps)
      decreases |deps| - |stack|
    {
      hide Cyclic, Path, DependenciesFirst, Distinct;
      if inStack[i] {
        StackCloses(deps, stack, i);
        return -1;
      }
      if visited[i] {
        return 0;
      }
      ghost var deeper := stack + [i];
      ghost var before := Done();
      Pushed(deps, visited, inStack, before, stack, i);
      inStack := inStack[i := true];
      var d := 0;
      while d < |deps[i]|
        invariant 0 <= d <= |deps[i]|
        invariant Inv(deeper) && before <= Done()
        invariant forall m :: 0 <= m < d && 0 <= deps[i][m] < |deps| ==> deps[i][m] in Done()
      {
        var di := deps[i][d];
        if 0 <= di < |deps| {
          ghost var sofar := Done();
          var v := TopoVisit(di, deeper);
          if v != 0 {
            return -1;
          }
          assert forall x :: x in sofar ==> x in Done();
        }
        d := d + 1;
      }
      ghost var was := Done();
      Popped(deps, visited, inStack, was, stack, i);
      inStack := inStack[i := false];
      visited := visited[i := true];
      order[idx] := i;
      idx := idx + 1;
      assert Done() == was + [i];
      return 0;
    }

    /** From clear flags: the order of all nodes, or -1 exactly when there is a cycle. */
    method TopoSort() returns (r: int)
      requires |deps| <= order.Length && idx == 0
      requires visited == seq(|deps|, _ => false) && inStack == seq(|deps|, _ => false)
      modifies this, order
      ensures r == -1 <==> Cyclic(deps)
      ensures r != -1 ==> r == |deps| && idx == |deps| && InstallOrder(deps, order[..|deps|])
    {
      var i := 0;
      assert Done() == [];
      while i < |deps|
        invariant 0 <= i <= |deps|
        invariant Inv([])
        invariant forall n :: 0 <= n < i ==> n in Done()
      {
        if !visited[i] {
          ghost var sofar := Done();
          var v := TopoVisit(i, []);
          if v != 0 {
            return -1;
          }
          assert forall x :: x in sofar ==> x in Done();
        }
        i := i + 1;
      }
      Pigeonhole(Done(), |deps|);
      assert order[..|deps|] == Done();
      OrderedIsAcyclic(deps, Done());
      return idx;
    }
  }

  lemma {:induction false} Appended(g: Graph, s: seq<int>, i: int)
    requires Distinct(s) && DependenciesFirst(g, s) && i !in s
    requires forall d :: Edge(g, i, d) ==> d in s
    ensures Distinct(s + [i]) && DependenciesFirst(g, s + [i])
  {
    var t := s + [i];
    forall k, d | 0 <= k < |t| && Edge(g, t[k], d)
      ensures d in t[..k]
    {
      assert t[..k] == s[..k];
    }
  }
}
