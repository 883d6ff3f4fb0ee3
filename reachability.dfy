// Bounded reachability over the logical directed graph.
//
// `HasPathLimited` is the iterative depth-first search exactly as the source
// runs it: an explicit stack of (node, depth) frames, a visited set that a node
// enters when it is pushed, and a depth cap past which a popped node is not
// expanded. `HasPathWithin` is the search the diagnostics are meant to perform:
// "is there a walk of at most k edges". The two agree on every well-formed graph
// with at most k nodes (so on the default plant); on larger graphs the
// depth-first search can miss a short walk (see DepthFirstMissesShortPath).
module Reachability {
  import opened Common
  import opened Plant

  /** The depth cap every caller in the engine passes to the search. */
  const MaxDepth: nat := 30

  /** A directed graph: each node's successors, in insertion order. */
  type Digraph = map<NodeId, seq<NodeId>>

  predicate HasEdge(g: Digraph, u: NodeId, v: NodeId)
  {
    u in g && v in g[u]
  }

  /** Every successor is itself a node of the graph. */
  ghost predicate WellFormed(g: Digraph)
  {
    forall u, v :: HasEdge(g, u, v) ==> v in g
  }

  ghost predicate IsWalk(g: Digraph, p: seq<NodeId>)
  {
    |p| >= 1 && forall i :: 0 <= i < |p| - 1 ==> HasEdge(g, p[i], p[i + 1])
  }

  ghost predicate WalkFromTo(g: Digraph, p: seq<NodeId>, s: NodeId, t: NodeId)
  {
    IsWalk(g, p) && p[0] == s && p[|p| - 1] == t
  }

  /** t can be reached from s along at most k edges. */
  ghost predicate ReachableWithin(g: Digraph, s: NodeId, t: NodeId, k: nat)
  {
    exists p :: WalkFromTo(g, p, s, t) && |p| <= k + 1
  }

  ghost predicate Reachable(g: Digraph, s: NodeId, t: NodeId)
  {
    exists p :: WalkFromTo(g, p, s, t)
  }

  lemma ExtendWalk(g: Digraph, p: seq<NodeId>, v: NodeId)
    requires IsWalk(g, p) && HasEdge(g, p[|p| - 1], v)
    ensures IsWalk(g, p + [v])
  {
    var q := p + [v];
    forall i | 0 <= i < |q| - 1 ensures HasEdge(g, q[i], q[i + 1]) {
      if i < |p| - 1 {
        assert q[i] == p[i] && q[i + 1] == p[i + 1];
      }
    }
  }

  // ---------------------------------------------------------------------------
  // The depth-first search as written

  /** A stack frame: a node and the depth at which it was pushed. */
  type Frame = (NodeId, nat)

  function StackNodes(stack: seq<Frame>): set<NodeId>
  {
    set i | 0 <= i < |stack| :: stack[i].0
  }

  /** Every node the search could ever push. */
  ghost function Universe(g: Digraph): set<NodeId>
  {
    g.Keys + (set u, v | u in g && v in g[u] :: v)
  }

  /** How many nodes the search may still push: the measure that bounds it. */
  ghost function Unvisited(g: Digraph, visited: set<NodeId>): nat
  {
    |Universe(g) - visited|
  }

  /**
   * One expansion step: each neighbour not yet visited, in order, is marked
   * visited and pushed with the given depth.
   */
  function PushUnvisited(nbrs: seq<NodeId>, depth: nat, stack: seq<Frame>, visited: set<NodeId>)
    : (r: (seq<Frame>, set<NodeId>))
    ensures visited <= r.1
    ensures |r.0| >= |stack| && r.0[..|stack|] == stack
    decreases |nbrs|
  {
    if nbrs == [] then (stack, visited)
    else if nbrs[0] in visited then PushUnvisited(nbrs[1..], depth, stack, visited)
    else
      var stack' := stack + [(nbrs[0], depth)];
      var r := PushUnvisited(nbrs[1..], depth, stack', visited + {nbrs[0]});
      assert r.0[..|stack'|][..|stack|] == r.0[..|stack|];
      r
  }

  /** After the step every neighbour is visited, only neighbours were added, and nothing is added when nothing is pushed. */
  lemma {:induction false} PushUnvisitedVisits(nbrs: seq<NodeId>, depth: nat, stack: seq<Frame>, visited: set<NodeId>)
    ensures var r := PushUnvisited(nbrs, depth, stack, visited);
            && (forall v :: v in nbrs ==> v in r.1)
            && r.1 - visited <= Elems(nbrs)
            && (|r.0| == |stack| ==> r.1 == visited)
    decreases |nbrs|
  {
    if nbrs != [] {
      assert forall v :: v in nbrs[1..] ==> v in nbrs;
      assert forall v :: v in nbrs ==> v == nbrs[0] || v in nbrs[1..];
      if nbrs[0] in visited {
        PushUnvisitedVisits(nbrs[1..], depth, stack, visited);
      } else {
        var visited' := visited + {nbrs[0]};
        var r := PushUnvisited(nbrs[1..], depth, stack + [(nbrs[0], depth)], visited');
        PushUnvisitedVisits(nbrs[1..], depth, stack + [(nbrs[0], depth)], visited');
        forall x | x in r.1 - visited ensures x in Elems(nbrs) {
          if x != nbrs[0] {
            assert x in r.1 - visited';
          }
        }
      }
    }
  }

  /** Each pushed frame carries the new depth and a neighbour that was not visited before and is now. */
  lemma {:induction false} PushUnvisitedFrames(nbrs: seq<NodeId>, depth: nat, stack: seq<Frame>, visited: set<NodeId>)
    ensures var r := PushUnvisited(nbrs, depth, stack, visited);
            && (forall i :: |stack| <= i < |r.0| ==>
                  r.0[i].1 == depth && r.0[i].0 in nbrs && r.0[i].0 in r.1 && r.0[i].0 !in visited)
            && r.1 - visited <= StackNodes(r.0[|stack|..])
    decreases |nbrs|
  {
    if nbrs != [] {
      assert forall v :: v in nbrs[1..] ==> v in nbrs;
      if nbrs[0] in visited {
        PushUnvisitedFrames(nbrs[1..], depth, stack, visited);
      } else {
        var stack' := stack + [(nbrs[0], depth)];
        var r := PushUnvisited(nbrs[1..], depth, stack', visited + {nbrs[0]});
        PushUnvisitedFrames(nbrs[1..], depth, stack', visited + {nbrs[0]});
        PushUnvisitedVisits(nbrs[1..], depth, stack', visited + {nbrs[0]});
        assert r.0[|stack|] == r.0[..|stack'|][|stack|] == stack'[|stack|];
        var tail := r.0[|stack|..];
        forall x | x in r.1 - visited ensures x in StackNodes(tail) {
          if x == nbrs[0] {
            assert tail[0].0 == x;
          } else {
            assert x in r.1 - (visited + {nbrs[0]});
            assert x in StackNodes(r.0[|stack'|..]);
            var i :| 0 <= i < |r.0[|stack'|..]| && r.0[|stack'|..][i].0 == x;
            assert tail[i + 1] == r.0[|stack'|..][i];
          }
        }
      }
    }
  }

  /** Witness m left the frontier, so the frontier shrank. */
  lemma FrontierShrinks(u: set<NodeId>, visited: set<NodeId>, visited': set<NodeId>, m: NodeId)
    requires visited <= visited' && m in visited' && m !in visited && m in u
    ensures |u - visited'| < |u - visited|
  {
    assert u - visited == (u - visited') + {m} + ((u - visited) - (u - visited') - {m});
    assert m !in u - visited';
  }

  /** Expanding a node either pushes nothing and visits nothing new, or strictly shrinks the unvisited part of the graph. */
  lemma PushShrinks(g: Digraph, n: NodeId, depth: nat, stack: seq<Frame>, visited: set<NodeId>)
    requires n in g
    ensures var r := PushUnvisited(g[n], depth, stack, visited);
            (|r.0| == |stack| && r.1 == visited) || Unvisited(g, r.1) < Unvisited(g, visited)
  {
    var r := PushUnvisited(g[n], depth, stack, visited);
    PushUnvisitedVisits(g[n], depth, stack, visited);
    if |r.0| != |stack| {
      PushUnvisitedFrames(g[n], depth, stack, visited);
      var m := r.0[|stack|].0;
      assert m in g[n];
      assert m in Universe(g);
      FrontierShrinks(Universe(g), visited, r.1, m);
    }
  }

  /**
   * The search from a given stack and visited set: pop the last frame; succeed on
   * the target; skip a frame at or beyond the cap; fail when the node has no
   * successor list (the source's caught lookup error); else push its unvisited
   * successors one level deeper.
   */
  function Run(g: Digraph, t: NodeId, maxDepth: nat, stack: seq<Frame>, visited: set<NodeId>): bool
    decreases Unvisited(g, visited), |stack|
  {
    if stack == [] then false
    else
      var n := stack[|stack| - 1].0;
      var d := stack[|stack| - 1].1;
      var rest := stack[..|stack| - 1];
      if n == t then true
      else if d >= maxDepth then Run(g, t, maxDepth, rest, visited)
      else if n !in g then false
      else
        var next := PushUnvisited(g[n], d + 1, rest, visited);
        PushShrinks(g, n, d + 1, rest, visited);
        Run(g, t, maxDepth, next.0, next.1)
  }

  /** The depth-first search: true at once when source is target, else run from the source at depth 0. */
  function HasPathLimited(g: Digraph, source: NodeId, target: NodeId, maxDepth: nat): bool
  {
    source == target || Run(g, target, maxDepth, [(source, 0)], {source})
  }

  /** The source's inner loop: push every unvisited successor, marking it visited. */
  method PushNeighbors(neighbors: seq<NodeId>, depth: nat, stack: seq<Frame>, visited: set<NodeId>)
    returns (stack': seq<Frame>, visited': set<NodeId>)
    ensures (stack', visited') == PushUnvisited(neighbors, depth, stack, visited)
  {
    stack', visited' := stack, visited;
    for j := 0 to |neighbors|
      invariant PushUnvisited(neighbors[j..], depth, stack', visited')
             == PushUnvisited(neighbors, depth, stack, visited)
    {
      var neighbor := neighbors[j];
      assert neighbors[j..][1..] == neighbors[j + 1..];
      if neighbor !in visited' {
        visited' := visited' + {neighbor};
        stack' := stack' + [(neighbor, depth)];
      }
    }
    assert neighbors[|neighbors|..] == [];
  }

  /** One pop of the search, as Run takes it, when the popped frame is expanded. */
  lemma RunExpands(g: Digraph, t: NodeId, maxDepth: nat, stack: seq<Frame>, visited: set<NodeId>)
    requires stack != [] && stack[|stack| - 1].0 != t && stack[|stack| - 1].1 < maxDepth
    requires stack[|stack| - 1].0 in g
    ensures var next := PushUnvisited(g[stack[|stack| - 1].0], stack[|stack| - 1].1 + 1,
                                      stack[..|stack| - 1], visited);
            Run(g, t, maxDepth, stack, visited) == Run(g, t, maxDepth, next.0, next.1)
  {
  }

  /** The iterative search over an explicit stack; it agrees with HasPathLimited. */
  method HasPathLimitedIterative(g: Digraph, source: NodeId, target: NodeId, maxDepth: nat)
    returns (found: bool)
    ensures found == HasPathLimited(g, source, target, maxDepth)
  {
    if source == target {
      return true;
    }
    var visited := {source};
    var stack: seq<Frame> := [(source, 0)];
    ghost var answer := Run(g, target, maxDepth, stack, visited);
    while stack != []
      invariant Run(g, target, maxDepth, stack, visited) == answer
      decreases Unvisited(g, visited), |stack|
    {
      ghost var stack0 := stack;
      var node := stack[|stack| - 1].0;
      var depth := stack[|stack| - 1].1;
      stack := stack[..|stack| - 1];
      if node == target {
        assert Run(g, target, maxDepth, stack0, visited);
        return true;
      }
      if depth >= maxDepth {
        assert Run(g, target, maxDepth, stack0, visited) == Run(g, target, maxDepth, stack, visited);
        continue;
      }
      if node !in g {
        assert !Run(g, target, maxDepth, stack0, visited);
        return false;
      }
      RunExpands(g, target, maxDepth, stack0, visited);
      PushShrinks(g, node, depth + 1, stack, visited);
      stack, visited := PushNeighbors(g[node], depth + 1, stack, visited);
    }
    return false;
  }

  ghost predicate WalkOfLength(g: Digraph, s: NodeId, n: NodeId, k: nat)
  {
    exists p :: WalkFromTo(g, p, s, n) && |p| == k + 1
  }

  lemma {:induction false} RunSound(g: Digraph, s: NodeId, t: NodeId, maxDepth: nat,
                                    stack: seq<Frame>, visited: set<NodeId>)
    requires FramesBacked(g, s, maxDepth, stack)
    ensures Run(g, t, maxDepth, stack, visited) ==> ReachableWithin(g, s, t, maxDepth)
    decreases Unvisited(g, visited), |stack|
  {
    if stack != [] {
      var top := |stack| - 1;
      var n, d := stack[top].0, stack[top].1;
      var rest := stack[..top];
      assert FramesBacked(g, s, maxDepth, rest) by {
        assert forall i :: 0 <= i < |rest| ==> rest[i] == stack[i];
      }
      assert stack[top].1 <= maxDepth && WalkOfLength(g, s, stack[top].0, stack[top].1);
      if n == t {
        var p :| WalkFromTo(g, p, s, n) && |p| == d + 1;
      } else if d >= maxDepth {
        RunSound(g, s, t, maxDepth, rest, visited);
      } else if n in g {
        var next := PushUnvisited(g[n], d + 1, rest, visited);
        PushShrinks(g, n, d + 1, rest, visited);
        PushBacked(g, s, maxDepth, n, d, rest, visited);
        RunSound(g, s, t, maxDepth, next.0, next.1);
      }
    }
  }

  /** Every frame on the stack is reached from s by a walk of exactly its depth, and no frame is deeper than the cap. */
  ghost predicate FramesBacked(g: Digraph, s: NodeId, maxDepth: nat, stack: seq<Frame>)
  {
    forall i :: 0 <= i < |stack| ==> stack[i].1 <= maxDepth && WalkOfLength(g, s, stack[i].0, stack[i].1)
  }

  /** Expanding a backed frame below the cap pushes only backed frames. */
  lemma PushBacked(g: Digraph, s: NodeId, maxDepth: nat, n: NodeId, d: nat, rest: seq<Frame>, visited: set<NodeId>)
    requires FramesBacked(g, s, maxDepth, rest) && WalkOfLength(g, s, n, d) && d < maxDepth && n in g
    ensures FramesBacked(g, s, maxDepth, PushUnvisited(g[n], d + 1, rest, visited).0)
  {
    var next := PushUnvisited(g[n], d + 1, rest, visited);
    PushUnvisitedFrames(g[n], d + 1, rest, visited);
    var p :| WalkFromTo(g, p, s, n) && |p| == d + 1;
    forall i | 0 <= i < |next.0|
      ensures next.0[i].1 <= maxDepth && WalkOfLength(g, s, next.0[i].0, next.0[i].1)
    {
      if i < |rest| {
        assert next.0[i] == next.0[..|rest|][i] == rest[i];
      } else {
        var m := next.0[i].0;
        ExtendWalk(g, p, m);
        assert WalkFromTo(g, p + [m], s, m) && |p + [m]| == next.0[i].1 + 1;
      }
    }
  }

  /** A true answer is backed by a walk of at most maxDepth edges. */
  lemma HasPathLimitedSound(g: Digraph, s: NodeId, t: NodeId, maxDepth: nat)
    ensures HasPathLimited(g, s, t, maxDepth) ==> ReachableWithin(g, s, t, maxDepth)
  {
    if s == t {
      assert WalkFromTo(g, [s], s, t);
    } else {
      assert WalkFromTo(g, [s], s, s);
      RunSound(g, s, t, maxDepth, [(s, 0)], {s});
    }
  }

  /** What the search keeps true while it runs on a small, well-formed graph. */
  ghost predicate SearchInv(g: Digraph, t: NodeId, maxDepth: nat, stack: seq<Frame>,
                            visited: set<NodeId>, done: set<NodeId>)
  {
    && WellFormed(g)
    && |g.Keys| <= maxDepth
    && visited <= g.Keys
    && visited <= done + StackNodes(stack)
    && StackNodes(stack) <= visited
    && done <= visited
    && t !in done
    && (forall u, v :: u in done && HasEdge(g, u, v) ==> v in visited)
    && (forall i :: 0 <= i < |stack| ==> stack[i].1 < |visited|)
  }

  /** A walk that starts inside a set closed under edges stays inside it. */
  lemma {:induction false} WalkStaysInside(g: Digraph, c: set<NodeId>, p: seq<NodeId>)
    requires forall u, v :: u in c && HasEdge(g, u, v) ==> v in c
    requires IsWalk(g, p) && p[0] in c
    ensures p[|p| - 1] in c
    decreases |p|
  {
    if |p| > 1 {
      var q := p[..|p| - 1];
      assert IsWalk(g, q) by {
        forall i | 0 <= i < |q| - 1 ensures HasEdge(g, q[i], q[i + 1]) {
          assert q[i] == p[i] && q[i + 1] == p[i + 1];
        }
      }
      WalkStaysInside(g, c, q);
      assert HasEdge(g, p[|p| - 2], p[|p| - 1]);
    }
  }

  lemma StackNodesSplit(stack: seq<Frame>, k: nat)
    requires k <= |stack|
    ensures StackNodes(stack) == StackNodes(stack[..k]) + StackNodes(stack[k..])
  {
    forall x | x in StackNodes(stack) ensures x in StackNodes(stack[..k]) + StackNodes(stack[k..]) {
      var i :| 0 <= i < |stack| && stack[i].0 == x;
      if i < k {
        assert stack[..k][i] == stack[i];
      } else {
        assert stack[k..][i - k] == stack[i];
      }
    }
    forall x | x in StackNodes(stack[..k]) ensures x in StackNodes(stack) {
      var i :| 0 <= i < k && stack[..k][i].0 == x;
      assert stack[i] == stack[..k][i];
    }
    forall x | x in StackNodes(stack[k..]) ensures x in StackNodes(stack) {
      var i :| 0 <= i < |stack| - k && stack[k..][i].0 == x;
      assert stack[k + i] == stack[k..][i];
    }
  }

  /** Expanding the top frame keeps SearchInv, with the expanded node now done. */
  lemma SearchInvStep(g: Digraph, t: NodeId, maxDepth: nat, stack: seq<Frame>,
                      visited: set<NodeId>, done: set<NodeId>, stack': seq<Frame>, visited': set<NodeId>)
    requires SearchInv(g, t, maxDepth, stack, visited, done)
    requires stack != [] && stack[|stack| - 1].0 != t
    requires stack[|stack| - 1].0 in g
             ==> (stack', visited') == PushUnvisited(g[stack[|stack| - 1].0], stack[|stack| - 1].1 + 1,
                                                     stack[..|stack| - 1], visited)
    ensures stack[|stack| - 1].0 in g && stack[|stack| - 1].1 < maxDepth
    ensures SearchInv(g, t, maxDepth, stack', visited', done + {stack[|stack| - 1].0})
  {
    var top := |stack| - 1;
    var n, d := stack[top].0, stack[top].1;
    var rest := stack[..top];
    assert n in StackNodes(stack);
    SubsetCard(visited, g.Keys);
    var next := PushUnvisited(g[n], d + 1, rest, visited);
    PushUnvisitedVisits(g[n], d + 1, rest, visited);
    PushUnvisitedFrames(g[n], d + 1, rest, visited);
    StackNodesSplit(stack, top);
    StackNodesSplit(next.0, |rest|);
    assert StackNodes(stack[top..]) == {n} by {
      assert stack[top..] == [(n, d)];
    }
    assert next.1 <= g.Keys by {
      forall v | v in next.1 ensures v in g {
        if v !in visited {
          assert v in Elems(g[n]);
          assert HasEdge(g, n, v);
        }
      }
    }
    StepStack(n, d, rest, visited, next.0, next.1);
  }

  /** The stack half of SearchInvStep: new frames are visited and shallower than the visited count. */
  lemma StepStack(n: NodeId, d: nat, rest: seq<Frame>, visited: set<NodeId>,
                  stack': seq<Frame>, visited': set<NodeId>)
    requires visited <= visited' && |stack'| >= |rest| && stack'[..|rest|] == rest
    requires StackNodes(rest) <= visited
    requires forall i :: 0 <= i < |rest| ==> rest[i].1 < |visited|
    requires d < |visited|
    requires forall i :: |rest| <= i < |stack'| ==>
               stack'[i].1 == d + 1 && stack'[i].0 in visited' && stack'[i].0 !in visited
    ensures StackNodes(stack') <= visited'
    ensures forall i :: 0 <= i < |stack'| ==> stack'[i].1 < |visited'|
  {
    StackNodesSplit(stack', |rest|);
    forall x | x in StackNodes(stack'[|rest|..]) ensures x in visited' {
      var i :| 0 <= i < |stack'[|rest|..]| && stack'[|rest|..][i].0 == x;
      assert stack'[|rest| + i] == stack'[|rest|..][i];
    }
    SubsetCard(visited, visited');
    if |stack'| > |rest| {
      var m := stack'[|rest|].0;
      SubsetCard(visited + {m}, visited');
    }
    forall i | 0 <= i < |stack'| ensures stack'[i].1 < |visited'| {
      if i < |rest| {
        assert stack'[i] == stack'[..|rest|][i] == rest[i];
      }
    }
  }

  lemma {:induction false} RunComplete(g: Digraph, t: NodeId, maxDepth: nat, stack: seq<Frame>,
                                       visited: set<NodeId>, done: set<NodeId>)
    requires SearchInv(g, t, maxDepth, stack, visited, done)
    ensures !Run(g, t, maxDepth, stack, visited) ==> Unreached(g, visited, t)
    decreases Unvisited(g, visited), |stack|
  {
    if stack == [] {
      ExhaustedUnreached(g, t, maxDepth, visited, done);
    } else if stack[|stack| - 1].0 != t {
      var n, d := stack[|stack| - 1].0, stack[|stack| - 1].1;
      var rest := stack[..|stack| - 1];
      assert n in g by {
        assert n in StackNodes(stack);
      }
      var next := PushUnvisited(g[n], d + 1, rest, visited);
      SearchInvStep(g, t, maxDepth, stack, visited, done, next.0, next.1);
      PushShrinks(g, n, d + 1, rest, visited);
      RunComplete(g, t, maxDepth, next.0, next.1, done + {n});
      ExpandUnreached(g, t, maxDepth, stack, visited, next.0, next.1);
    }
  }

  /** When the expanded search finds nothing and nothing is reachable from its larger visited set, neither is anything from the smaller one. */
  lemma ExpandUnreached(g: Digraph, t: NodeId, maxDepth: nat, stack: seq<Frame>, visited: set<NodeId>,
                        stack': seq<Frame>, visited': set<NodeId>)
    requires stack != [] && stack[|stack| - 1].0 != t && stack[|stack| - 1].1 < maxDepth
    requires stack[|stack| - 1].0 in g
    requires (stack', visited') == PushUnvisited(g[stack[|stack| - 1].0], stack[|stack| - 1].1 + 1,
                                                 stack[..|stack| - 1], visited)
    requires !Run(g, t, maxDepth, stack', visited') ==> Unreached(g, visited', t)
    ensures !Run(g, t, maxDepth, stack, visited) ==> Unreached(g, visited, t)
  {
    PushUnvisitedVisits(g[stack[|stack| - 1].0], stack[|stack| - 1].1 + 1, stack[..|stack| - 1], visited);
    RunExpands(g, t, maxDepth, stack, visited);
    if !Run(g, t, maxDepth, stack, visited) {
      UnreachedSubset(g, visited, visited', t);
    }
  }

  /** With the stack empty, the visited set is closed under edges and misses t, so no walk from it reaches t. */
  lemma ExhaustedUnreached(g: Digraph, t: NodeId, maxDepth: nat, visited: set<NodeId>, done: set<NodeId>)
    requires SearchInv(g, t, maxDepth, [], visited, done)
    ensures Unreached(g, visited, t)
  {
    assert visited <= done;
    forall p | IsWalk(g, p) && p[0] in visited ensures p[|p| - 1] != t {
      WalkStaysInside(g, visited, p);
    }
  }

  /** No walk from a node of `start` ends at t. */
  ghost predicate Unreached(g: Digraph, start: set<NodeId>, t: NodeId)
  {
    forall p :: IsWalk(g, p) && p[0] in start ==> p[|p| - 1] != t
  }

  lemma UnreachedSubset(g: Digraph, a: set<NodeId>, b: set<NodeId>, t: NodeId)
    requires a <= b && Unreached(g, b, t)
    ensures Unreached(g, a, t)
  {
  }

  lemma SubsetCard<T>(a: set<T>, b: set<T>)
    requires a <= b
    ensures |a| <= |b|
  {
    assert b == a + (b - a);
  }

  /**
   * On a well-formed graph with no more nodes than the cap, the depth-first
   * search finds every reachable target.
   */
  lemma HasPathLimitedComplete(g: Digraph, s: NodeId, t: NodeId, maxDepth: nat)
    requires WellFormed(g) && s in g && |g.Keys| <= maxDepth
    requires Reachable(g, s, t)
    ensures HasPathLimited(g, s, t, maxDepth)
  {
    if s != t {
      assert [(s, 0)][0].0 == s;
      assert StackNodes([(s, 0)]) == {s};
      assert SearchInv(g, t, maxDepth, [(s, 0)], {s}, {});
      RunComplete(g, t, maxDepth, [(s, 0)], {s}, {});
      var p :| WalkFromTo(g, p, s, t);
      assert IsWalk(g, p) && p[0] in {s};
    }
  }

  /** Pushing a successor not yet visited records it and marks it visited. */
  lemma PushFresh(n: NodeId, nbrs: seq<NodeId>, depth: nat, stack: seq<Frame>, visited: set<NodeId>)
    requires n !in visited
    ensures PushUnvisited([n] + nbrs, depth, stack, visited)
         == PushUnvisited(nbrs, depth, stack + [(n, depth)], visited + {n})
  {
    assert ([n] + nbrs)[1..] == nbrs;
  }

  /** s reaches x directly through a, and the long way round through b and c. */
  const Detour: Digraph := map["s" := ["a", "b"], "a" := ["x"], "b" := ["c"],
                               "c" := ["x"], "x" := ["t"], "t" := []]

  lemma DetourWellFormed()
    ensures WellFormed(Detour)
  {
    forall u, v | HasEdge(Detour, u, v) ensures v in Detour {
      assert u in Detour.Keys;
      assert u == "s" || u == "a" || u == "b" || u == "c" || u == "x" || u == "t";
    }
  }

  lemma DetourPushFromS()
    ensures PushUnvisited(["a", "b"], 1, [], {"s"}) == ([("a", 1), ("b", 1)], {"s", "a", "b"})
  {
    assert ["a", "b"] == ["a"] + ["b"] && ["b"] == ["b"] + [];
    assert [] + [("a", 1)] == [("a", 1)] && [("a", 1)] + [("b", 1)] == [("a", 1), ("b", 1)];
    assert "a" !in {"s"} && "b" !in {"s", "a"};
    PushFresh("a", ["b"], 1, [], {"s"});
    PushFresh("b", [], 1, [("a", 1)], {"s", "a"});
    assert {"s"} + {"a"} == {"s", "a"} && {"s", "a"} + {"b"} == {"s", "a", "b"};
  }

  /** s, at depth 0, pushes a and b. */
  lemma DetourStep1()
    ensures Run(Detour, "t", 3, [("s", 0)], {"s"})
         == Run(Detour, "t", 3, [("a", 1), ("b", 1)], {"s", "a", "b"})
  {
    DetourPushFromS();
    assert Detour["s"] == ["a", "b"] && [("s", 0)][..0] == [];
    RunExpands(Detour, "t", 3, [("s", 0)], {"s"});
  }

  /** b, at depth 1, pushes c. */
  lemma DetourStep2()
    ensures Run(Detour, "t", 3, [("a", 1), ("b", 1)], {"s", "a", "b"})
         == Run(Detour, "t", 3, [("a", 1), ("c", 2)], {"s", "a", "b", "c"})
  {
    assert ["c"] == ["c"] + [] && [("a", 1), ("b", 1)][..1] == [("a", 1)] && Detour["b"] == ["c"];
    assert [("a", 1)] + [("c", 2)] == [("a", 1), ("c", 2)];
    assert "c" !in {"s", "a", "b"};
    PushFresh("c", [], 2, [("a", 1)], {"s", "a", "b"});
    assert {"s", "a", "b"} + {"c"} == {"s", "a", "b", "c"};
    RunExpands(Detour, "t", 3, [("a", 1), ("b", 1)], {"s", "a", "b"});
  }

  /** c, at depth 2, pushes x at depth 3, the cap. */
  lemma DetourStep3()
    ensures Run(Detour, "t", 3, [("a", 1), ("c", 2)], {"s", "a", "b", "c"})
         == Run(Detour, "t", 3, [("a", 1), ("x", 3)], {"s", "a", "b", "c", "x"})
  {
    assert ["x"] == ["x"] + [];
    assert [("a", 1)] + [("x", 3)] == [("a", 1), ("x", 3)];
    assert "x" !in {"s", "a", "b", "c"};
    PushFresh("x", [], 3, [("a", 1)], {"s", "a", "b", "c"});
    assert {"s", "a", "b", "c"} + {"x"} == {"s", "a", "b", "c", "x"};
    RunExpands(Detour, "t", 3, [("a", 1), ("c", 2)], {"s", "a", "b", "c"});
  }

  /** x is at the cap and is skipped; a finds x already visited; the stack runs out. */
  lemma DetourStep4()
    ensures !Run(Detour, "t", 3, [("a", 1), ("x", 3)], {"s", "a", "b", "c", "x"})
  {
    var v: set<NodeId> := {"s", "a", "b", "c", "x"};
    assert Run(Detour, "t", 3, [("a", 1), ("x", 3)], v) == Run(Detour, "t", 3, [("a", 1)], v);
    assert PushUnvisited(["x"], 2, [], v) == ([], v);
    RunExpands(Detour, "t", 3, [("a", 1)], v);
  }

  /**
   * The search as written is incomplete on graphs larger than the cap: the walk
   * s -> a -> x -> t has 3 edges, but with a cap of 3 the search first reaches x
   * at depth 3 through b and c, marks it visited there without expanding it, and
   * so never reaches t.
   */
  lemma DepthFirstMissesShortPath()
    ensures WellFormed(Detour) && ReachableWithin(Detour, "s", "t", 3)
    ensures !HasPathLimited(Detour, "s", "t", 3)
  {
    DetourWellFormed();
    assert WalkFromTo(Detour, ["s", "a", "x", "t"], "s", "t");
    DetourStep1();
    DetourStep2();
    DetourStep3();
    DetourStep4();
  }

  // ---------------------------------------------------------------------------
  // The intended search: every node within k edges

  function Successors(g: Digraph, s: set<NodeId>): set<NodeId>
  {
    set u, v | u in s && u in g && v in g[u] :: v
  }

  /** The nodes reachable from s along at most k edges, computed level by level. */
  function Layer(g: Digraph, s: NodeId, k: nat): set<NodeId>
  {
    if k == 0 then {s}
    else Layer(g, s, k - 1) + Successors(g, Layer(g, s, k - 1))
  }

  lemma {:induction false} LayerSound(g: Digraph, s: NodeId, k: nat, v: NodeId)
    requires v in Layer(g, s, k)
    ensures ReachableWithin(g, s, v, k)
  {
    if k == 0 {
      assert WalkFromTo(g, [s], s, v);
    } else if v in Layer(g, s, k - 1) {
      LayerSound(g, s, k - 1, v);
    } else {
      var u :| u in Layer(g, s, k - 1) && u in g && v in g[u];
      LayerSound(g, s, k - 1, u);
      var p :| WalkFromTo(g, p, s, u) && |p| <= k;
      ExtendWalk(g, p, v);
      assert WalkFromTo(g, p + [v], s, v);
    }
  }

  lemma {:induction false} LayerComplete(g: Digraph, s: NodeId, k: nat, p: seq<NodeId>)
    requires IsWalk(g, p) && p[0] == s && |p| <= k + 1
    ensures p[|p| - 1] in Layer(g, s, k)
    decreases k
  {
    if k > 0 {
      if |p| == 1 {
        LayerComplete(g, s, k - 1, p);
      } else {
        var q := p[..|p| - 1];
        assert IsWalk(g, q) by {
          forall i | 0 <= i < |q| - 1 ensures HasEdge(g, q[i], q[i + 1]) {
            assert q[i] == p[i] && q[i + 1] == p[i + 1];
          }
        }
        LayerComplete(g, s, k - 1, q);
        assert HasEdge(g, q[|q| - 1], p[|p| - 1]);
      }
    }
  }

  /** The corrected bounded search: true exactly when a walk of at most k edges exists. */
  function HasPathWithin(g: Digraph, source: NodeId, target: NodeId, k: nat): (r: bool)
    ensures r <==> ReachableWithin(g, source, target, k)
  {
    if target in Layer(g, source, k) then
      LayerSound(g, source, k, target);
      true
    else
      assert forall p :: WalkFromTo(g, p, source, target) && |p| <= k + 1 ==> false by {
        forall p | WalkFromTo(g, p, source, target) && |p| <= k + 1 ensures false {
          LayerComplete(g, source, k, p);
        }
      }
      false
  }

  /**
   * On every well-formed graph with at most maxDepth nodes (the default plant has
   * 23 and the cap is 30) the search as written and the corrected one agree.
   */
  lemma LimitedAgreesOnSmallGraphs(g: Digraph, s: NodeId, t: NodeId, maxDepth: nat)
    requires WellFormed(g) && |g.Keys| <= maxDepth
    ensures HasPathLimited(g, s, t, maxDepth) == HasPathWithin(g, s, t, maxDepth)
  {
    HasPathLimitedSound(g, s, t, maxDepth);
    if HasPathWithin(g, s, t, maxDepth) && s != t {
      var p :| WalkFromTo(g, p, s, t) && |p| <= maxDepth + 1;
      assert HasEdge(g, p[0], p[1]);
      HasPathLimitedComplete(g, s, t, maxDepth);
    }
  }

  /** Adding edges never removes a walk. */
  ghost predicate Subgraph(g: Digraph, h: Digraph)
  {
    forall u, v :: HasEdge(g, u, v) ==> HasEdge(h, u, v)
  }

  lemma ReachableWithinMonotone(g: Digraph, h: Digraph, s: NodeId, t: NodeId, k: nat)
    requires Subgraph(g, h) && ReachableWithin(g, s, t, k)
    ensures ReachableWithin(h, s, t, k)
  {
    var p :| WalkFromTo(g, p, s, t) && |p| <= k + 1;
    assert WalkFromTo(h, p, s, t);
  }
}
