// The physical topology the store builds for a plant (the default branch of
// graph initialisation), the theorem that such a topology leaves every CT
// connected, and the ordering of the segment list the store hands out.
module Topology {
  import opened Common
  import opened Plant
  import opened Fibers
  import opened Reachability
  import opened LogicalGraph
  import opened Diagnostics

  // ---------------------------------------------------------------------------
  // Nodes

  ghost predicate IdsDistinct(nodes: seq<Node>)
  {
    forall i, j :: 0 <= i < j < |nodes| ==> nodes[i].id != nodes[j].id
  }

  /** The position of a node in node order (the first one with that id), or the end when it is absent. */
  function IndexOf(nodes: seq<Node>, id: NodeId): (r: nat)
    ensures r <= |nodes|
    ensures r < |nodes| <==> id in NodeIds(nodes)
    ensures r < |nodes| ==> nodes[r].id == id
  {
    if nodes == [] then 0
    else if nodes[0].id == id then 0
    else
      assert id in NodeIds(nodes) ==> id in NodeIds(nodes[1..]) by {
        if id in NodeIds(nodes) {
          var i :| 0 <= i < |nodes| && nodes[i].id == id;
          assert nodes[1..][i - 1] == nodes[i];
        }
      }
      1 + IndexOf(nodes[1..], id)
  }

  /** Adding a CT: a new node at the end, or, when the id is already there, only its circuit is overwritten. */
  function AddCt(nodes: seq<Node>, ct: NodeId, c: CircuitId): (r: seq<Node>)
    ensures NodeIds(r) == NodeIds(nodes) + {ct}
    ensures IdsDistinct(nodes) ==> IdsDistinct(r)
  {
    if ct in NodeIds(nodes) then
      var i := IndexOf(nodes, ct);
      var r := nodes[i := nodes[i].(circuit := Some(c))];
      assert forall j :: 0 <= j < |r| ==> r[j].id == nodes[j].id;
      assert NodeIds(r) == NodeIds(nodes);
      r
    else
      var r := nodes + [Node(ct, CtNode, Some(c))];
      assert NodeIds(r) == NodeIds(nodes) + {ct} by {
        assert r[|nodes|].id == ct;
        assert forall j :: 0 <= j < |nodes| ==> r[j] == nodes[j];
      }
      assert forall j :: 0 <= j < |nodes| ==> nodes[j].id in NodeIds(nodes);
      r
  }

  /** The CTs of one circuit added in list order. */
  function AddCts(nodes: seq<Node>, c: CircuitId, cts: seq<NodeId>): (r: seq<Node>)
    ensures NodeIds(r) == NodeIds(nodes) + Elems(cts)
    ensures IdsDistinct(nodes) ==> IdsDistinct(r)
  {
    if cts == [] then nodes
    else
      var init := cts[..|cts| - 1];
      assert cts == init + [cts[|cts| - 1]];
      assert Elems(cts) == Elems(init) + {cts[|cts| - 1]};
      AddCt(AddCts(nodes, c, init), cts[|cts| - 1], c)
  }

  /** The CTs of the first k circuits added in table order. */
  function AddCircuits(nodes: seq<Node>, circuits: CircuitTable, k: nat): (r: seq<Node>)
    requires k <= |circuits|
    ensures forall i, x :: 0 <= i < k && x in circuits[i].1 ==> x in NodeIds(r)
    ensures NodeIds(nodes) <= NodeIds(r)
    ensures IdsDistinct(nodes) ==> IdsDistinct(r)
  {
    if k == 0 then nodes
    else AddCts(AddCircuits(nodes, circuits, k - 1), circuits[k - 1].0, circuits[k - 1].1)
  }

  const CenterNode: Node := Node(Center, SetNode, None)

  /** The nodes of a fresh plant: the center, then every CT of every circuit. */
  function InitNodes(circuits: CircuitTable): (r: seq<Node>)
    ensures Center in NodeIds(r)
    ensures forall i, x :: 0 <= i < |circuits| && x in circuits[i].1 ==> x in NodeIds(r)
    ensures IdsDistinct(r)
  {
    assert [CenterNode][0].id == Center;
    AddCircuits([CenterNode], circuits, |circuits|)
  }

  // ---------------------------------------------------------------------------
  // Segments

  /** The first stored segment joining u and v, in either orientation. */
  function FindPair(segs: seq<Segment>, u: NodeId, v: NodeId): (r: Option<nat>)
    ensures r.Some? ==> r.value < |segs| && SamePair(segs[r.value], u, v)
    ensures r.None? ==> forall j :: 0 <= j < |segs| ==> !SamePair(segs[j], u, v)
  {
    if segs == [] then None
    else if SamePair(segs[0], u, v) then Some(0)
    else
      match FindPair(segs[1..], u, v)
      case None =>
        assert forall j :: 1 <= j < |segs| ==> segs[j] == segs[1..][j - 1];
        None
      case Some(j) => Some(j + 1)
  }

  /** Segment endpoints are stored in node order, as the store's edge listing reports them. */
  ghost predicate Oriented(nodes: seq<Node>, segs: seq<Segment>)
  {
    EndpointsIn(nodes, segs)
    && forall i :: 0 <= i < |segs| ==> IndexOf(nodes, segs[i].source) <= IndexOf(nodes, segs[i].target)
  }

  /** Every segment carries the given strand map. */
  ghost predicate AllFresh(segs: seq<Segment>, strands: FiberMap)
  {
    forall i :: 0 <= i < |segs| ==> segs[i].fibers == strands
  }

  /**
   * Adding the link u-v of circuit c: a new segment with identifier "u-v" and
   * all strands `Ok`, or, when u and v are already joined, that segment's
   * identifier, circuit and strands are overwritten.
   */
  function AddLink(nodes: seq<Node>, segs: seq<Segment>, u: NodeId, v: NodeId, c: CircuitId, fibers: FiberMap)
    : seq<Segment>
  {
    var id := DashJoin(u, v);
    match FindPair(segs, u, v)
    case Some(j) => segs[j := segs[j].(id := id, circuit := Some(c), fibers := fibers)]
    case None =>
      if IndexOf(nodes, u) <= IndexOf(nodes, v) then segs + [Segment(id, u, v, Some(c), fibers)]
      else segs + [Segment(id, v, u, Some(c), fibers)]
  }

  /** Some stored segment joins u and v. */
  ghost predicate Joined(segs: seq<Segment>, u: NodeId, v: NodeId)
  {
    exists j :: 0 <= j < |segs| && SamePair(segs[j], u, v)
  }

  /** r keeps every segment of segs in place, with the same endpoints. */
  ghost predicate KeepsPairs(segs: seq<Segment>, r: seq<Segment>)
  {
    |segs| <= |r| && forall j :: 0 <= j < |segs| ==> r[j].source == segs[j].source && r[j].target == segs[j].target
  }

  /** The store's invariants on its segments. */
  ghost predicate StoreInv(nodes: seq<Node>, segs: seq<Segment>, strands: FiberMap)
  {
    Oriented(nodes, segs) && PairsUnique(segs) && AllFresh(segs, strands)
  }

  lemma JoinedKept(segs: seq<Segment>, r: seq<Segment>, u: NodeId, v: NodeId)
    requires KeepsPairs(segs, r) && Joined(segs, u, v)
    ensures Joined(r, u, v)
  {
    var j :| 0 <= j < |segs| && SamePair(segs[j], u, v);
    assert SamePair(r[j], u, v);
  }

  lemma KeepsPairsTrans(a: seq<Segment>, b: seq<Segment>, c: seq<Segment>)
    requires KeepsPairs(a, b) && KeepsPairs(b, c)
    ensures KeepsPairs(a, c)
  {
  }

  /** Adding a link keeps every existing pair and joins u and v. */
  lemma AddLinkJoins(nodes: seq<Node>, segs: seq<Segment>, u: NodeId, v: NodeId, c: CircuitId, strands: FiberMap)
    ensures KeepsPairs(segs, AddLink(nodes, segs, u, v, c, strands))
    ensures Joined(AddLink(nodes, segs, u, v, c, strands), u, v)
  {
    var r := AddLink(nodes, segs, u, v, c, strands);
    match FindPair(segs, u, v)
    case Some(j) =>
      assert SamePair(r[j], u, v);
    case None =>
      assert SamePair(r[|segs|], u, v);
  }

  /** r has the same endpoints as segs, segment by segment. */
  ghost predicate SameEndpoints(segs: seq<Segment>, r: seq<Segment>)
  {
    |segs| == |r| && forall j :: 0 <= j < |segs| ==> r[j].source == segs[j].source && r[j].target == segs[j].target
  }

  lemma SameEndpointsKeep(nodes: seq<Node>, segs: seq<Segment>, r: seq<Segment>)
    requires SameEndpoints(segs, r)
    ensures Oriented(nodes, segs) ==> Oriented(nodes, r)
    ensures PairsUnique(segs) ==> PairsUnique(r)
  {
  }

  /** Adding a link keeps the store's invariants. */
  lemma AddLinkKeepsInv(nodes: seq<Node>, segs: seq<Segment>, u: NodeId, v: NodeId, c: CircuitId, strands: FiberMap)
    requires u in NodeIds(nodes) && v in NodeIds(nodes)
    requires StoreInv(nodes, segs, strands)
    ensures StoreInv(nodes, AddLink(nodes, segs, u, v, c, strands), strands)
  {
    AddLinkOriented(nodes, segs, u, v, c, strands);
    AddLinkFresh(nodes, segs, u, v, c, strands);
    var r := AddLink(nodes, segs, u, v, c, strands);
    if FindPair(segs, u, v).Some? {
      assert SameEndpoints(segs, r);
      SameEndpointsKeep(nodes, segs, r);
    } else {
      AddLinkAppendUnique(nodes, segs, u, v, c, strands);
    }
  }

  lemma AddLinkOriented(nodes: seq<Node>, segs: seq<Segment>, u: NodeId, v: NodeId, c: CircuitId, strands: FiberMap)
    requires u in NodeIds(nodes) && v in NodeIds(nodes)
    requires Oriented(nodes, segs)
    ensures Oriented(nodes, AddLink(nodes, segs, u, v, c, strands))
  {
    var r := AddLink(nodes, segs, u, v, c, strands);
    if FindPair(segs, u, v).Some? {
      assert SameEndpoints(segs, r);
      SameEndpointsKeep(nodes, segs, r);
    } else {
      assert forall i :: 0 <= i < |segs| ==> r[i] == segs[i];
    }
  }

  lemma AddLinkFresh(nodes: seq<Node>, segs: seq<Segment>, u: NodeId, v: NodeId, c: CircuitId, strands: FiberMap)
    requires u in NodeIds(nodes) && v in NodeIds(nodes)
    requires AllFresh(segs, strands)
    ensures AllFresh(AddLink(nodes, segs, u, v, c, strands), strands)
  {
  }

  lemma AddLinkAppendUnique(nodes: seq<Node>, segs: seq<Segment>, u: NodeId, v: NodeId, c: CircuitId, strands: FiberMap)
    requires u in NodeIds(nodes) && v in NodeIds(nodes)
    requires FindPair(segs, u, v).None?
    requires PairsUnique(segs)
    ensures PairsUnique(AddLink(nodes, segs, u, v, c, strands))
  {
    var r := AddLink(nodes, segs, u, v, c, strands);
    var n := |segs|;
    assert forall i :: 0 <= i < n ==> r[i] == segs[i];
    assert SamePair(r[n], u, v);
    forall i, j | 0 <= i < |r| && 0 <= j < |r| && i != j ensures !SamePair(r[j], r[i].source, r[i].target) {
      if i == n {
        assert !SamePair(segs[j], u, v);
      } else if j == n {
        assert !SamePair(segs[i], u, v);
      }
    }
  }

  /** The walk a circuit's links follow: the center, then its CTs in list order. */
  function Chain(cts: seq<NodeId>): seq<NodeId>
  {
    [Center] + cts
  }

  /** The first k links of a chain added in order. */
  function AddChainLinks(nodes: seq<Node>, segs: seq<Segment>, chain: seq<NodeId>, c: CircuitId, k: nat,
                         strands: FiberMap): seq<Segment>
    requires k < |chain|
  {
    if k == 0 then segs
    else AddLink(nodes, AddChainLinks(nodes, segs, chain, c, k - 1, strands), chain[k - 1], chain[k], c, strands)
  }

  /** The links of a chain's first k steps are joined, and earlier pairs are kept. */
  lemma {:induction false} AddChainLinksJoins(nodes: seq<Node>, segs: seq<Segment>, chain: seq<NodeId>,
                                              c: CircuitId, k: nat, strands: FiberMap)
    requires k < |chain|
    ensures KeepsPairs(segs, AddChainLinks(nodes, segs, chain, c, k, strands))
    ensures forall m :: 0 <= m < k ==> Joined(AddChainLinks(nodes, segs, chain, c, k, strands), chain[m], chain[m + 1])
  {
    if k > 0 {
      var prev := AddChainLinks(nodes, segs, chain, c, k - 1, strands);
      var r := AddChainLinks(nodes, segs, chain, c, k, strands);
      AddChainLinksJoins(nodes, segs, chain, c, k - 1, strands);
      assert r == AddLink(nodes, prev, chain[k - 1], chain[k], c, strands);
      AddLinkJoins(nodes, prev, chain[k - 1], chain[k], c, strands);
      ChainStepJoins(segs, prev, r, chain, k);
    }
  }

  /** One more link of a chain: what was kept and joined stays so, and the new pair is joined. */
  lemma ChainStepJoins(segs: seq<Segment>, prev: seq<Segment>, r: seq<Segment>, chain: seq<NodeId>, k: nat)
    requires 0 < k < |chain|
    requires KeepsPairs(segs, prev) && KeepsPairs(prev, r) && Joined(r, chain[k - 1], chain[k])
    requires forall m :: 0 <= m < k - 1 ==> Joined(prev, chain[m], chain[m + 1])
    ensures KeepsPairs(segs, r)
    ensures forall m :: 0 <= m < k ==> Joined(r, chain[m], chain[m + 1])
  {
    KeepsPairsTrans(segs, prev, r);
    forall m | 0 <= m < k - 1 ensures Joined(r, chain[m], chain[m + 1]) {
      JoinedKept(prev, r, chain[m], chain[m + 1]);
    }
  }

  lemma {:induction false} AddChainLinksInv(nodes: seq<Node>, segs: seq<Segment>, chain: seq<NodeId>,
                                            c: CircuitId, k: nat, strands: FiberMap)
    requires k < |chain| && forall x :: x in chain ==> x in NodeIds(nodes)
    requires StoreInv(nodes, segs, strands)
    ensures StoreInv(nodes, AddChainLinks(nodes, segs, chain, c, k, strands), strands)
  {
    if k > 0 {
      var prev := AddChainLinks(nodes, segs, chain, c, k - 1, strands);
      AddChainLinksInv(nodes, segs, chain, c, k - 1, strands);
      AddLinkKeepsInv(nodes, prev, chain[k - 1], chain[k], c, strands);
    }
  }

  /** The links of the first k circuits, each circuit's chain in turn. */
  function AddCircuitLinks(nodes: seq<Node>, segs: seq<Segment>, circuits: CircuitTable, k: nat, strands: FiberMap)
    : seq<Segment>
    requires k <= |circuits|
  {
    if k == 0 then segs
    else
      var chain := Chain(circuits[k - 1].1);
      AddChainLinks(nodes, AddCircuitLinks(nodes, segs, circuits, k - 1, strands), chain, circuits[k - 1].0, |chain| - 1, strands)
  }

  /** Every link of the chain of a circuit with CTs cts is joined by a segment. */
  ghost predicate ChainJoined(segs: seq<Segment>, cts: seq<NodeId>)
  {
    forall m :: 0 <= m < |cts| ==> Joined(segs, Chain(cts)[m], Chain(cts)[m + 1])
  }

  lemma ChainJoinedKept(segs: seq<Segment>, r: seq<Segment>, cts: seq<NodeId>)
    requires KeepsPairs(segs, r) && ChainJoined(segs, cts)
    ensures ChainJoined(r, cts)
  {
    forall m | 0 <= m < |cts| ensures Joined(r, Chain(cts)[m], Chain(cts)[m + 1]) {
      JoinedKept(segs, r, Chain(cts)[m], Chain(cts)[m + 1]);
    }
  }

  /** Every link of the first k circuits' chains is joined by a segment. */
  lemma {:induction false} AddCircuitLinksJoins(nodes: seq<Node>, circuits: CircuitTable, k: nat, strands: FiberMap)
    requires k <= |circuits|
    ensures forall i :: 0 <= i < k ==> ChainJoined(AddCircuitLinks(nodes, [], circuits, k, strands), circuits[i].1)
  {
    if k > 0 {
      var prev := AddCircuitLinks(nodes, [], circuits, k - 1, strands);
      var r := AddCircuitLinks(nodes, [], circuits, k, strands);
      AddCircuitLinksJoins(nodes, circuits, k - 1, strands);
      var cts := circuits[k - 1].1;
      assert r == AddChainLinks(nodes, prev, Chain(cts), circuits[k - 1].0, |cts|, strands);
      ChainLinksJoined(nodes, prev, cts, circuits[k - 1].0, strands);
      CircuitStepJoins(prev, r, circuits, k);
    }
  }

  /** A whole chain's links are joined, and earlier pairs are kept. */
  lemma ChainLinksJoined(nodes: seq<Node>, segs: seq<Segment>, cts: seq<NodeId>, c: CircuitId, strands: FiberMap)
    ensures KeepsPairs(segs, AddChainLinks(nodes, segs, Chain(cts), c, |cts|, strands))
    ensures ChainJoined(AddChainLinks(nodes, segs, Chain(cts), c, |cts|, strands), cts)
  {
    AddChainLinksJoins(nodes, segs, Chain(cts), c, |cts|, strands);
  }

  lemma CircuitStepJoins(prev: seq<Segment>, r: seq<Segment>, circuits: CircuitTable, k: nat)
    requires 0 < k <= |circuits|
    requires KeepsPairs(prev, r) && ChainJoined(r, circuits[k - 1].1)
    requires forall i :: 0 <= i < k - 1 ==> ChainJoined(prev, circuits[i].1)
    ensures forall i :: 0 <= i < k ==> ChainJoined(r, circuits[i].1)
  {
    forall i | 0 <= i < k - 1 ensures ChainJoined(r, circuits[i].1) {
      ChainJoinedKept(prev, r, circuits[i].1);
    }
  }

  lemma {:induction false} AddCircuitLinksInv(nodes: seq<Node>, circuits: CircuitTable, k: nat, strands: FiberMap)
    requires k <= |circuits|
    requires Center in NodeIds(nodes)
    requires forall i, x :: 0 <= i < |circuits| && x in circuits[i].1 ==> x in NodeIds(nodes)
    ensures StoreInv(nodes, AddCircuitLinks(nodes, [], circuits, k, strands), strands)
  {
    if k > 0 {
      var prev := AddCircuitLinks(nodes, [], circuits, k - 1, strands);
      AddCircuitLinksInv(nodes, circuits, k - 1, strands);
      var chain := Chain(circuits[k - 1].1);
      assert forall x :: x in chain ==> x == Center || x in circuits[k - 1].1;
      AddChainLinksInv(nodes, prev, chain, circuits[k - 1].0, |chain| - 1, strands);
    }
  }

  /** The segments of a fresh plant: for each circuit, center to first CT, then CT to CT along the list. */
  function InitSegments(circuits: CircuitTable): seq<Segment>
  {
    AddCircuitLinks(InitNodes(circuits), [], circuits, |circuits|, InitialFibers(DefaultTotalFibras))
  }

  /** A fresh plant's segments join consecutive chain members, are stored in node order, join each pair once, and carry only `Ok` strands. */
  lemma InitSegmentsProperties(circuits: CircuitTable)
    ensures forall i :: 0 <= i < |circuits| ==> ChainJoined(InitSegments(circuits), circuits[i].1)
    ensures StoreInv(InitNodes(circuits), InitSegments(circuits), InitialFibers(DefaultTotalFibras))
  {
    AddCircuitLinksJoins(InitNodes(circuits), circuits, |circuits|, InitialFibers(DefaultTotalFibras));
    AddCircuitLinksInv(InitNodes(circuits), circuits, |circuits|, InitialFibers(DefaultTotalFibras));
  }

  // ---------------------------------------------------------------------------
  // A fresh plant is connected

  /** A segment joining a and b whose strand map has a working forward and a working return strand gives both edges. */
  lemma JoinedEdges(nodes: seq<Node>, segs: seq<Segment>, roles: FiberRoles, strands: FiberMap, a: NodeId, b: NodeId)
    requires AllFresh(segs, strands) && AnyOk(strands, roles.commsIda) && AnyOk(strands, roles.commsVuelta)
    requires Joined(segs, a, b)
    ensures HasEdge(BaseGraph(nodes, segs, roles), a, b) && HasEdge(BaseGraph(nodes, segs, roles), b, a)
  {
    var j :| 0 <= j < |segs| && SamePair(segs[j], a, b);
    assert segs[j].fibers == strands;
    assert Contributes(segs[j], roles, a, b) && Contributes(segs[j], roles, b, a);
    BaseGraphEdges(nodes, segs, roles, a, b);
    BaseGraphEdges(nodes, segs, roles, b, a);
  }

  function Reversed(s: seq<NodeId>): (r: seq<NodeId>)
    ensures |r| == |s| && forall i :: 0 <= i < |s| ==> r[i] == s[|s| - 1 - i]
  {
    if s == [] then [] else Reversed(s[1..]) + [s[0]]
  }

  /** Along a chain whose consecutive members are joined both ways, its m-th member is m edges from the head, both ways. */
  lemma ChainWalks(g: Digraph, chain: seq<NodeId>, m: nat)
    requires m < |chain|
    requires forall i :: 0 <= i < m ==> HasEdge(g, chain[i], chain[i + 1]) && HasEdge(g, chain[i + 1], chain[i])
    ensures ReachableWithin(g, chain[0], chain[m], m)
    ensures ReachableWithin(g, chain[m], chain[0], m)
  {
    var p := chain[..m + 1];
    assert WalkFromTo(g, p, chain[0], chain[m]);
    var q := Reversed(p);
    forall i | 0 <= i < |q| - 1 ensures HasEdge(g, q[i], q[i + 1]) {
      assert q[i] == chain[m - i] && q[i + 1] == chain[m - i - 1];
    }
    assert WalkFromTo(g, q, chain[m], chain[0]);
  }

  /** Along a chain of joined pairs with working strands, the m-th member is m edges from the head in the base graph, both ways. */
  lemma {:induction false} BaseChainReach(nodes: seq<Node>, segs: seq<Segment>, roles: FiberRoles, strands: FiberMap,
                                          chain: seq<NodeId>, m: nat)
    requires AllFresh(segs, strands) && AnyOk(strands, roles.commsIda) && AnyOk(strands, roles.commsVuelta)
    requires m < |chain| && forall k :: 0 <= k < m ==> Joined(segs, chain[k], chain[k + 1])
    ensures ReachableWithin(BaseGraph(nodes, segs, roles), chain[0], chain[m], m)
    ensures ReachableWithin(BaseGraph(nodes, segs, roles), chain[m], chain[0], m)
  {
    var base := BaseGraph(nodes, segs, roles);
    forall k | 0 <= k < m ensures HasEdge(base, chain[k], chain[k + 1]) && HasEdge(base, chain[k + 1], chain[k]) {
      JoinedEdges(nodes, segs, roles, strands, chain[k], chain[k + 1]);
    }
    ChainWalks(base, chain, m);
  }

  /** Reachability in the base graph within k <= MaxDepth edges survives in the patched logical graph. */
  lemma BaseToLogical(nodes: seq<Node>, segs: seq<Segment>, cfg: PlantConfig, s: NodeId, t: NodeId, k: nat)
    requires k <= MaxDepth && ReachableWithin(BaseGraph(nodes, segs, cfg.fibers), s, t, k)
    ensures ReachableWithin(LogicalGraphOf(nodes, segs, cfg), s, t, MaxDepth)
  {
    var base := BaseGraph(nodes, segs, cfg.fibers);
    var p :| WalkFromTo(base, p, s, t) && |p| <= k + 1;
    assert ReachableWithin(base, s, t, MaxDepth);
    ReachableWithinMonotone(base, LogicalGraphOf(nodes, segs, cfg), s, t, MaxDepth);
  }

  /** In segments that join a circuit's chain with working strands, each of its CTs is within MaxDepth edges of the center, both ways. */
  lemma ChainConnected(nodes: seq<Node>, segs: seq<Segment>, cfg: PlantConfig, strands: FiberMap, cts: seq<NodeId>, m: nat)
    requires AllFresh(segs, strands) && AnyOk(strands, cfg.fibers.commsIda) && AnyOk(strands, cfg.fibers.commsVuelta)
    requires ChainJoined(segs, cts) && m < |cts| <= MaxDepth
    ensures ReachableWithin(LogicalGraphOf(nodes, segs, cfg), Center, cts[m], MaxDepth)
    ensures ReachableWithin(LogicalGraphOf(nodes, segs, cfg), cts[m], Center, MaxDepth)
  {
    var chain := Chain(cts);
    assert forall k :: 0 <= k < m + 1 ==> Joined(segs, chain[k], chain[k + 1]);
    BaseChainReach(nodes, segs, cfg.fibers, strands, chain, m + 1);
    assert chain[0] == Center && chain[m + 1] == cts[m];
    BaseToLogical(nodes, segs, cfg, Center, cts[m], m + 1);
    BaseToLogical(nodes, segs, cfg, cts[m], Center, m + 1);
  }

  /**
   * In a freshly built plant whose circuits have at most MaxDepth CTs each and
   * whose fresh strand map has a working forward and a working return strand,
   * every CT of every circuit is connected.
   */
  lemma FreshPlantConnected(cfg: PlantConfig, i: nat, x: NodeId)
    requires forall k :: 0 <= k < |cfg.circuits| ==> |cfg.circuits[k].1| <= MaxDepth
    requires AnyOk(InitialFibers(DefaultTotalFibras), cfg.fibers.commsIda)
    requires AnyOk(InitialFibers(DefaultTotalFibras), cfg.fibers.commsVuelta)
    requires i < |cfg.circuits| && x in cfg.circuits[i].1
    ensures ConnectivityOf(NodeIds(InitNodes(cfg.circuits)),
                           LogicalGraphOf(InitNodes(cfg.circuits), InitSegments(cfg.circuits), cfg), x) == Conectado
  {
    var nodes, segs := InitNodes(cfg.circuits), InitSegments(cfg.circuits);
    InitSegmentsProperties(cfg.circuits);
    var cts := cfg.circuits[i].1;
    var m :| 0 <= m < |cts| && cts[m] == x;
    ChainConnected(nodes, segs, cfg, InitialFibers(DefaultTotalFibras), cts, m);
  }
}
