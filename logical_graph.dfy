// The logical directed graph built from the physical topology: a forward edge
// for each segment with a working forward strand, a return edge for each with a
// working return strand, then the patches at the center that close the ring of
// circuits where no path closes it already.
module LogicalGraph {
  import opened Common
  import opened Plant
  import opened Fibers
  import opened Reachability

  /**
   * Adding a directed edge: both ends become nodes, and an edge already present
   * keeps its place in the successor list.
   */
  function AddEdge(g: Digraph, u: NodeId, v: NodeId): (r: Digraph)
    ensures r.Keys == g.Keys + {u, v}
    ensures forall a, b :: HasEdge(r, a, b) <==> HasEdge(g, a, b) || (a == u && b == v)
    ensures forall a :: a in g && a != u ==> r[a] == g[a]
  {
    var g1 := if u in g then g else g[u := []];
    var g2 := if v in g1 then g1 else g1[v := []];
    if v in g2[u] then g2 else g2[u := g2[u] + [v]]
  }

  lemma AddEdgeWellFormed(g: Digraph, u: NodeId, v: NodeId)
    requires WellFormed(g)
    ensures WellFormed(AddEdge(g, u, v))
  {
  }

  /** Whether some strand of a role list is present and `Ok`; an empty strand map has none. */
  function AnyOk(fibers: FiberMap, dir: seq<nat>): (r: bool)
    ensures r <==> exists i :: 0 <= i < |dir| && IsOk(fibers, dir[i])
    ensures fibers == map[] ==> !r
  {
    if fibers == map[] || dir == [] then false
    else if IsOk(fibers, dir[0]) then true
    else
      var r := AnyOk(fibers, dir[1..]);
      assert forall i :: 1 <= i < |dir| ==> dir[i] == dir[1..][i - 1];
      r
  }

  /** One node per physical node and no edges yet. */
  function NodeGraph(nodes: seq<Node>): (g: Digraph)
    ensures g.Keys == NodeIds(nodes)
    ensures forall u :: u in g ==> g[u] == []
  {
    if nodes == [] then map[]
    else
      var init := nodes[..|nodes| - 1];
      var g := NodeGraph(init)[nodes[|nodes| - 1].id := []];
      assert forall i :: 0 <= i < |init| ==> init[i] == nodes[i];
      assert NodeIds(nodes) == NodeIds(init) + {nodes[|nodes| - 1].id} by {
        forall x | x in NodeIds(nodes) ensures x in NodeIds(init) + {nodes[|nodes| - 1].id} {
          var i :| 0 <= i < |nodes| && nodes[i].id == x;
          if i < |init| {
            assert init[i].id == x;
          }
        }
      }
      g
  }

  /** The edges one segment contributes: forward when a forward strand works, return when a return strand works. */
  function AddSegmentEdges(g: Digraph, s: Segment, roles: FiberRoles): Digraph
  {
    var g1 := if AnyOk(s.fibers, roles.commsIda) then AddEdge(g, s.source, s.target) else g;
    if AnyOk(s.fibers, roles.commsVuelta) then AddEdge(g1, s.target, s.source) else g1
  }

  predicate Contributes(s: Segment, roles: FiberRoles, a: NodeId, b: NodeId)
  {
    || (a == s.source && b == s.target && AnyOk(s.fibers, roles.commsIda))
    || (a == s.target && b == s.source && AnyOk(s.fibers, roles.commsVuelta))
  }

  /** The graph before patching: every node, then each segment's edges in turn. */
  function BaseGraph(nodes: seq<Node>, segs: seq<Segment>, roles: FiberRoles): Digraph
    decreases |segs|
  {
    if segs == [] then NodeGraph(nodes)
    else AddSegmentEdges(BaseGraph(nodes, segs[..|segs| - 1], roles), segs[|segs| - 1], roles)
  }

  ghost predicate EndpointsIn(nodes: seq<Node>, segs: seq<Segment>)
  {
    forall i :: 0 <= i < |segs| ==> segs[i].source in NodeIds(nodes) && segs[i].target in NodeIds(nodes)
  }

  lemma {:induction false} BaseGraphShape(nodes: seq<Node>, segs: seq<Segment>, roles: FiberRoles)
    requires EndpointsIn(nodes, segs)
    ensures BaseGraph(nodes, segs, roles).Keys == NodeIds(nodes)
    ensures WellFormed(BaseGraph(nodes, segs, roles))
    decreases |segs|
  {
    if segs != [] {
      var init := segs[..|segs| - 1];
      var s := segs[|segs| - 1];
      assert forall i :: 0 <= i < |init| ==> init[i] == segs[i];
      BaseGraphShape(nodes, init, roles);
      var g0 := BaseGraph(nodes, init, roles);
      var g1 := if AnyOk(s.fibers, roles.commsIda) then AddEdge(g0, s.source, s.target) else g0;
      AddEdgeWellFormed(g0, s.source, s.target);
      AddEdgeWellFormed(g1, s.target, s.source);
    }
  }

  /** Before patching, a -> b is an edge exactly when some segment contributes it. */
  lemma {:induction false} BaseGraphEdges(nodes: seq<Node>, segs: seq<Segment>, roles: FiberRoles, a: NodeId, b: NodeId)
    ensures HasEdge(BaseGraph(nodes, segs, roles), a, b) <==>
              exists i :: 0 <= i < |segs| && Contributes(segs[i], roles, a, b)
    decreases |segs|
  {
    if segs != [] {
      var init := segs[..|segs| - 1];
      var s := segs[|segs| - 1];
      BaseGraphEdges(nodes, init, roles, a, b);
      if HasEdge(BaseGraph(nodes, segs, roles), a, b) && !Contributes(s, roles, a, b) {
        var i :| 0 <= i < |init| && Contributes(init[i], roles, a, b);
        assert segs[i] == init[i];
      }
      if !Contributes(s, roles, a, b) && exists i :: 0 <= i < |segs| && Contributes(segs[i], roles, a, b) {
        var i :| 0 <= i < |segs| && Contributes(segs[i], roles, a, b);
        assert i < |init| && init[i] == segs[i];
      }
    }
  }

  ghost predicate PairsUnique(segs: seq<Segment>)
  {
    forall i, j :: 0 <= i < |segs| && 0 <= j < |segs| && i != j ==>
      !SamePair(segs[j], segs[i].source, segs[i].target)
  }

  /**
   * With one segment per pair of nodes, the segment u-v gives the edge u -> v
   * exactly when one of its forward strands is Ok, and v -> u exactly when one
   * of its return strands is Ok; the two are independent.
   */
  lemma SegmentEdgeRule(nodes: seq<Node>, segs: seq<Segment>, roles: FiberRoles, i: nat)
    requires PairsUnique(segs)
    requires i < |segs| && segs[i].source != segs[i].target
    ensures HasEdge(BaseGraph(nodes, segs, roles), segs[i].source, segs[i].target)
            <==> AnyOk(segs[i].fibers, roles.commsIda)
    ensures HasEdge(BaseGraph(nodes, segs, roles), segs[i].target, segs[i].source)
            <==> AnyOk(segs[i].fibers, roles.commsVuelta)
  {
    var s := segs[i];
    BaseGraphEdges(nodes, segs, roles, s.source, s.target);
    BaseGraphEdges(nodes, segs, roles, s.target, s.source);
    if HasEdge(BaseGraph(nodes, segs, roles), s.source, s.target) {
      var j :| 0 <= j < |segs| && Contributes(segs[j], roles, s.source, s.target);
      assert SamePair(segs[j], s.source, s.target);
    }
    if HasEdge(BaseGraph(nodes, segs, roles), s.target, s.source) {
      var j :| 0 <= j < |segs| && Contributes(segs[j], roles, s.target, s.source);
      assert SamePair(segs[j], s.source, s.target);
    }
    assert Contributes(s, roles, s.source, s.target) <==> AnyOk(s.fibers, roles.commsIda);
    assert Contributes(s, roles, s.target, s.source) <==> AnyOk(s.fibers, roles.commsVuelta);
  }

  // ---------------------------------------------------------------------------
  // Ring patches

  /** Ring position i pairs the last CT of circuit ring[i] with the first of the next circuit, when both have CTs. */
  function RingPair(circuits: CircuitTable, ring: seq<CircuitId>, i: nat): Option<(NodeId, NodeId)>
    requires i < |ring|
  {
    var cur := Lookup(circuits, ring[i]);
    var nxt := Lookup(circuits, ring[(i + 1) % |ring|]);
    if cur == [] || nxt == [] then None else Some((cur[|cur| - 1], nxt[0]))
  }

  /** Whether ring position i has a pair whose ends, and the center, are nodes of g. */
  predicate Patchable(g: Digraph, circuits: CircuitTable, ring: seq<CircuitId>, i: nat)
    requires i < |ring|
  {
    RingPair(circuits, ring, i).Some?
    && RingPair(circuits, ring, i).value.0 in g
    && RingPair(circuits, ring, i).value.1 in g
    && Center in g
  }

  /** One ring position: the patch last -> first, added only when both ends and the center are nodes and no short walk joins them yet. */
  function RingStep(g: Digraph, circuits: CircuitTable, ring: seq<CircuitId>, i: nat): (r: Digraph)
    requires i < |ring|
    ensures r.Keys == g.Keys
    ensures Subgraph(g, r)
  {
    match RingPair(circuits, ring, i)
    case None => g
    case Some((last, first)) =>
      if last in g && Center in g && first in g && !HasPathWithin(g, last, first, MaxDepth) then
        AddEdge(g, last, first)
      else g
  }

  /**
   * A ring position changes the graph only by the patch of its own pair, and
   * only when that pair is patchable and not yet joined by a walk of at most
   * MaxDepth edges.
   */
  lemma RingStepPatches(g: Digraph, circuits: CircuitTable, ring: seq<CircuitId>, i: nat)
    requires i < |ring|
    ensures var r := RingStep(g, circuits, ring, i);
            r != g ==>
              && Patchable(g, circuits, ring, i)
              && !ReachableWithin(g, RingPair(circuits, ring, i).value.0, RingPair(circuits, ring, i).value.1, MaxDepth)
              && r == AddEdge(g, RingPair(circuits, ring, i).value.0, RingPair(circuits, ring, i).value.1)
  {
  }

  /** After a ring position's step its pair, when patchable, is joined by a walk of at most MaxDepth edges. */
  lemma RingStepConnects(g: Digraph, circuits: CircuitTable, ring: seq<CircuitId>, i: nat, a: NodeId, b: NodeId)
    requires i < |ring| && Patchable(g, circuits, ring, i) && RingPair(circuits, ring, i) == Some((a, b))
    ensures ReachableWithin(RingStep(g, circuits, ring, i), a, b, MaxDepth)
  {
    var r := RingStep(g, circuits, ring, i);
    if r != g {
      assert r == AddEdge(g, a, b);
      assert HasEdge(r, a, b);
      assert WalkFromTo(r, [a, b], a, b);
    } else {
      assert HasPathWithin(g, a, b, MaxDepth);
    }
  }

  /** The first k ring positions applied in order. */
  function RingPatches(g: Digraph, circuits: CircuitTable, ring: seq<CircuitId>, k: nat): (r: Digraph)
    requires k <= |ring|
    ensures r.Keys == g.Keys
    ensures Subgraph(g, r)
  {
    if k == 0 then g
    else RingStep(RingPatches(g, circuits, ring, k - 1), circuits, ring, k - 1)
  }

  lemma {:induction false} RingPatchesWellFormed(g: Digraph, circuits: CircuitTable, ring: seq<CircuitId>, k: nat)
    requires k <= |ring| && WellFormed(g)
    ensures WellFormed(RingPatches(g, circuits, ring, k))
  {
    if k > 0 {
      var prev := RingPatches(g, circuits, ring, k - 1);
      RingPatchesWellFormed(g, circuits, ring, k - 1);
      RingStepWellFormed(prev, circuits, ring, k - 1);
    }
  }

  lemma RingStepWellFormed(g: Digraph, circuits: CircuitTable, ring: seq<CircuitId>, i: nat)
    requires i < |ring| && WellFormed(g)
    ensures WellFormed(RingStep(g, circuits, ring, i))
  {
    if RingPair(circuits, ring, i).Some? {
      var (a, b) := RingPair(circuits, ring, i).value;
      AddEdgeWellFormed(g, a, b);
    }
  }

  /** A ring step keeps every short walk. */
  lemma RingStepKeepsWalks(g: Digraph, circuits: CircuitTable, ring: seq<CircuitId>, i: nat, a: NodeId, b: NodeId)
    requires i < |ring| && ReachableWithin(g, a, b, MaxDepth)
    ensures ReachableWithin(RingStep(g, circuits, ring, i), a, b, MaxDepth)
  {
    ReachableWithinMonotone(g, RingStep(g, circuits, ring, i), a, b, MaxDepth);
  }

  /** After the patches every patchable ring pair is joined by a walk of at most MaxDepth edges. */
  lemma {:induction false} RingPatchesConnect(g: Digraph, circuits: CircuitTable, ring: seq<CircuitId>,
                                              k: nat, i: nat, a: NodeId, b: NodeId)
    requires i < k <= |ring|
    requires Patchable(g, circuits, ring, i) && RingPair(circuits, ring, i) == Some((a, b))
    ensures ReachableWithin(RingPatches(g, circuits, ring, k), a, b, MaxDepth)
  {
    var prev := RingPatches(g, circuits, ring, k - 1);
    if i < k - 1 {
      RingPatchesConnect(g, circuits, ring, k - 1, i, a, b);
      RingStepKeepsWalks(prev, circuits, ring, k - 1, a, b);
    } else {
      assert prev.Keys == g.Keys;
      RingStepConnects(prev, circuits, ring, i, a, b);
    }
  }

  /** Every edge the patches add is a ring pair whose ends and the center were nodes. */
  lemma {:induction false} RingPatchesOnlyRingPairs(g: Digraph, circuits: CircuitTable, ring: seq<CircuitId>,
                                                    k: nat, a: NodeId, b: NodeId)
    requires k <= |ring|
    requires HasEdge(RingPatches(g, circuits, ring, k), a, b) && !HasEdge(g, a, b)
    ensures exists i :: 0 <= i < k && Patchable(g, circuits, ring, i) && RingPair(circuits, ring, i) == Some((a, b))
  {
    var prev := RingPatches(g, circuits, ring, k - 1);
    if HasEdge(prev, a, b) {
      RingPatchesOnlyRingPairs(g, circuits, ring, k - 1, a, b);
      var i :| 0 <= i < k - 1 && Patchable(g, circuits, ring, i) && RingPair(circuits, ring, i) == Some((a, b));
    } else {
      RingStepPatches(prev, circuits, ring, k - 1);
      assert Patchable(prev, circuits, ring, k - 1);
      assert Patchable(g, circuits, ring, k - 1);
    }
  }

  /** The logical graph: the base graph with every ring position patched. */
  function LogicalGraphOf(nodes: seq<Node>, segs: seq<Segment>, cfg: PlantConfig): Digraph
  {
    RingPatches(BaseGraph(nodes, segs, cfg.fibers), cfg.circuits, cfg.ringOrder, |cfg.ringOrder|)
  }

  /** The nodes of the logical graph are the physical nodes, and every edge's ends are nodes. */
  lemma LogicalGraphShape(nodes: seq<Node>, segs: seq<Segment>, cfg: PlantConfig)
    requires EndpointsIn(nodes, segs)
    ensures LogicalGraphOf(nodes, segs, cfg).Keys == NodeIds(nodes)
    ensures WellFormed(LogicalGraphOf(nodes, segs, cfg))
  {
    BaseGraphShape(nodes, segs, cfg.fibers);
    RingPatchesWellFormed(BaseGraph(nodes, segs, cfg.fibers), cfg.circuits, cfg.ringOrder, |cfg.ringOrder|);
  }

  /** A ring position as the source writes it, deciding the patch with the depth-first search. */
  function RingStepAsWritten(g: Digraph, circuits: CircuitTable, ring: seq<CircuitId>, i: nat): Digraph
    requires i < |ring|
  {
    match RingPair(circuits, ring, i)
    case None => g
    case Some((last, first)) =>
      if last in g && Center in g && first in g && !HasPathLimited(g, last, first, MaxDepth) then
        AddEdge(g, last, first)
      else g
  }

  /** The first k ring positions applied in order, as the source writes them. */
  function RingPatchesAsWritten(g: Digraph, circuits: CircuitTable, ring: seq<CircuitId>, k: nat): Digraph
    requires k <= |ring|
  {
    if k == 0 then g
    else RingStepAsWritten(RingPatchesAsWritten(g, circuits, ring, k - 1), circuits, ring, k - 1)
  }

  /** The two searches answer alike for the pair of ring position i. */
  predicate PairSearchesAgree(g: Digraph, circuits: CircuitTable, ring: seq<CircuitId>, i: nat)
    requires i < |ring|
  {
    match RingPair(circuits, ring, i)
    case None => true
    case Some((a, b)) => HasPathLimited(g, a, b, MaxDepth) == HasPathWithin(g, a, b, MaxDepth)
  }

  /** Where the two searches agree on its pair, a ring position patches as the source's does. */
  lemma RingStepAgrees(g: Digraph, circuits: CircuitTable, ring: seq<CircuitId>, i: nat)
    requires i < |ring| && PairSearchesAgree(g, circuits, ring, i)
    ensures RingStepAsWritten(g, circuits, ring, i) == RingStep(g, circuits, ring, i)
  {
  }

  /** On a well-formed graph within the depth limit, the searches agree on every pair along the patch sequence. */
  lemma PatchSearchesAgree(g: Digraph, circuits: CircuitTable, ring: seq<CircuitId>, k: nat)
    requires k < |ring| && WellFormed(g) && |g.Keys| <= MaxDepth
    ensures PairSearchesAgree(RingPatches(g, circuits, ring, k), circuits, ring, k)
  {
    var h := RingPatches(g, circuits, ring, k);
    RingPatchesWellFormed(g, circuits, ring, k);
    RingPatchesKeys(g, circuits, ring, k);
    if RingPair(circuits, ring, k).Some? {
      var (a, b) := RingPair(circuits, ring, k).value;
      LimitedAgreesOnSmallGraphs(h, a, b, MaxDepth);
    }
  }

  /**
   * On a well-formed graph with no more nodes than the depth limit, the patches
   * decided by the depth-first search are those decided by the corrected
   * search, at every intermediate graph of the patch sequence.
   */
  lemma {:induction false} RingPatchesAgree(g: Digraph, circuits: CircuitTable, ring: seq<CircuitId>, k: nat)
    requires k <= |ring| && WellFormed(g) && |g.Keys| <= MaxDepth
    ensures RingPatchesAsWritten(g, circuits, ring, k) == RingPatches(g, circuits, ring, k)
  {
    if k > 0 {
      RingPatchesAgree(g, circuits, ring, k - 1);
      PatchSearchesAgree(g, circuits, ring, k - 1);
      RingPatchesAgreeStep(g, circuits, ring, k);
    }
  }

  /** One step of `RingPatchesAgree`: agreement up to position k - 1 extends to position k. */
  lemma RingPatchesAgreeStep(g: Digraph, circuits: CircuitTable, ring: seq<CircuitId>, k: nat)
    requires 0 < k <= |ring|
    requires RingPatchesAsWritten(g, circuits, ring, k - 1) == RingPatches(g, circuits, ring, k - 1)
    requires PairSearchesAgree(RingPatches(g, circuits, ring, k - 1), circuits, ring, k - 1)
    ensures RingPatchesAsWritten(g, circuits, ring, k) == RingPatches(g, circuits, ring, k)
  {
    RingStepAgrees(RingPatches(g, circuits, ring, k - 1), circuits, ring, k - 1);
  }

  /** The patch sequence keeps the node set, so its intermediate graphs stay within the depth limit. */
  lemma RingPatchesKeys(g: Digraph, circuits: CircuitTable, ring: seq<CircuitId>, k: nat)
    requires k <= |ring| && |g.Keys| <= MaxDepth
    ensures |RingPatches(g, circuits, ring, k).Keys| <= MaxDepth
  {
    assert RingPatches(g, circuits, ring, k).Keys == g.Keys;
  }

  /** The logical graph as the source builds it, with the depth-first search deciding the patches. */
  function LogicalGraphAsWritten(nodes: seq<Node>, segs: seq<Segment>, cfg: PlantConfig): Digraph
  {
    RingPatchesAsWritten(BaseGraph(nodes, segs, cfg.fibers), cfg.circuits, cfg.ringOrder, |cfg.ringOrder|)
  }

  /** With no more nodes than the depth limit, the logical graph as written is the modelled one. */
  lemma LogicalGraphAgrees(nodes: seq<Node>, segs: seq<Segment>, cfg: PlantConfig)
    requires EndpointsIn(nodes, segs) && |NodeIds(nodes)| <= MaxDepth
    ensures LogicalGraphAsWritten(nodes, segs, cfg) == LogicalGraphOf(nodes, segs, cfg)
  {
    BaseGraphShape(nodes, segs, cfg.fibers);
    RingPatchesAgree(BaseGraph(nodes, segs, cfg.fibers), cfg.circuits, cfg.ringOrder, |cfg.ringOrder|);
  }

  lemma RingStepCases(g: Digraph, circuits: CircuitTable, ring: seq<CircuitId>, i: nat)
    requires i < |ring|
    ensures var cur := Lookup(circuits, ring[i]);
            var nxt := Lookup(circuits, ring[(i + 1) % |ring|]);
            RingStep(g, circuits, ring, i)
            == if cur == [] || nxt == [] then g
               else if cur[|cur| - 1] in g && Center in g && nxt[0] in g
                       && !HasPathWithin(g, cur[|cur| - 1], nxt[0], MaxDepth)
               then AddEdge(g, cur[|cur| - 1], nxt[0])
               else g
  {
  }

  /** The patching loop over the ring order. */
  method AddRingConnections(g: Digraph, circuits: CircuitTable, ring: seq<CircuitId>) returns (r: Digraph)
    ensures r == RingPatches(g, circuits, ring, |ring|)
  {
    r := g;
    if |ring| == 0 {
      return;
    }
    for i := 0 to |ring|
      invariant r == RingPatches(g, circuits, ring, i)
    {
      ghost var prev := r;
      RingStepCases(r, circuits, ring, i);
      var cur := Lookup(circuits, ring[i]);
      var nxt := Lookup(circuits, ring[(i + 1) % |ring|]);
      if cur != [] && nxt != [] {
        var last := cur[|cur| - 1];
        var first := nxt[0];
        var pathExists := HasPathWithin(r, last, first, MaxDepth);
        if last in r && Center in r && first in r && !pathExists {
          r := AddEdge(r, last, first);
        }
      }
      assert r == RingStep(prev, circuits, ring, i);
      assert RingPatches(g, circuits, ring, i + 1) == RingStep(RingPatches(g, circuits, ring, i), circuits, ring, i);
    }
  }

  /** The build loop over the segments, followed by the ring patches. */
  method BuildDirectedLogicalGraph(nodes: seq<Node>, segs: seq<Segment>, cfg: PlantConfig)
    returns (dg: Digraph)
    ensures dg == LogicalGraphOf(nodes, segs, cfg)
  {
    dg := NodeGraph(nodes);
    for i := 0 to |segs|
      invariant dg == BaseGraph(nodes, segs[..i], cfg.fibers)
    {
      var s := segs[i];
      assert segs[..i + 1][..i] == segs[..i];
      if AnyOk(s.fibers, cfg.fibers.commsIda) {
        dg := AddEdge(dg, s.source, s.target);
      }
      if AnyOk(s.fibers, cfg.fibers.commsVuelta) {
        dg := AddEdge(dg, s.target, s.source);
      }
    }
    assert segs[..|segs|] == segs;
    dg := AddRingConnections(dg, cfg.circuits, cfg.ringOrder);
  }
}
