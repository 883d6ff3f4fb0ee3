// The network model object: the physical topology of the active plant, the
// cached logical graph, and the operations that read and change them.
module Network {
  import opened Common
  import opened Plant
  import opened Fibers
  import opened Reachability
  import opened LogicalGraph
  import opened Diagnostics
  import opened Topology
  import opened SegmentList

  /** Seconds after which a built logical graph is rebuilt even if still valid. */
  const CacheExpirationTime: int := 10

  // ---------------------------------------------------------------------------
  // Segment lookup and strand mutations, as functions of the segment list

  /** The first segment (in listing order) answering to the identifier. */
  function FindSegment(segs: seq<Segment>, segmentId: string): (r: Option<nat>)
    ensures r.Some? ==> r.value < |segs| && Matches(segs[r.value], segmentId)
    ensures r.Some? ==> forall j :: 0 <= j < r.value ==> !Matches(segs[j], segmentId)
    ensures r.None? ==> forall j :: 0 <= j < |segs| ==> !Matches(segs[j], segmentId)
  {
    if segs == [] then None
    else if Matches(segs[0], segmentId) then Some(0)
    else
      match FindSegment(segs[1..], segmentId)
      case None =>
        assert forall j :: 1 <= j < |segs| ==> segs[j] == segs[1..][j - 1];
        None
      case Some(j) =>
        assert forall i :: 1 <= i <= j ==> segs[i] == segs[1..][i - 1];
        Some(j + 1)
  }

  /** The search loop over the segment list, stopping at the first match. */
  method FindMatch(segs: seq<Segment>, segmentId: string) returns (r: Option<nat>)
    ensures r == FindSegment(segs, segmentId)
  {
    r := None;
    for j := 0 to |segs|
      invariant forall i :: 0 <= i < j ==> !Matches(segs[i], segmentId)
    {
      if segs[j].id == segmentId || DashJoin(segs[j].source, segs[j].target) == segmentId
         || DashJoin(segs[j].target, segs[j].source) == segmentId {
        r := Some(j);
        FirstMatch(segs, segmentId, j);
        return;
      }
    }
    FindSegmentNone(segs, segmentId);
  }

  lemma {:induction false} FirstMatch(segs: seq<Segment>, segmentId: string, j: nat)
    requires j < |segs| && Matches(segs[j], segmentId)
    requires forall i :: 0 <= i < j ==> !Matches(segs[i], segmentId)
    ensures FindSegment(segs, segmentId) == Some(j)
  {
    if j > 0 {
      assert !Matches(segs[0], segmentId);
      assert forall i :: 0 <= i < j - 1 ==> segs[1..][i] == segs[i + 1];
      FirstMatch(segs[1..], segmentId, j - 1);
    }
  }

  lemma FindSegmentNone(segs: seq<Segment>, segmentId: string)
    requires forall i :: 0 <= i < |segs| ==> !Matches(segs[i], segmentId)
    ensures FindSegment(segs, segmentId) == None
  {
  }

  /** The outcome of a strand update; the first two report success. */
  datatype UpdateOutcome = Changed | Unchanged | InvalidState | SegmentNotFound | FiberNotFound

  predicate Succeeded(o: UpdateOutcome)
  {
    o.Changed? || o.Unchanged?
  }

  /** A change of one strand, as recorded in the history log. */
  datatype FiberChange = FiberChange(plantId: string, segmentId: string, fiber: nat, oldState: Strand, newState: Strand)

  /** Setting strand `fiber` of the first matching segment to the named state: the outcome and the new segment list. */
  function ApplyUpdate(segs: seq<Segment>, segmentId: string, fiber: nat, status: string): (UpdateOutcome, seq<Segment>)
  {
    match ParseStrand(status)
    case None => (InvalidState, segs)
    case Some(st) =>
      match FindSegment(segs, segmentId)
      case None => (SegmentNotFound, segs)
      case Some(j) =>
        if fiber !in segs[j].fibers then (FiberNotFound, segs)
        else if segs[j].fibers[fiber] == st then (Unchanged, segs)
        else (Changed, segs[j := segs[j].(fibers := segs[j].fibers[fiber := st])])
  }

  /** The history entry an update adds: one entry for a real change, none otherwise. */
  function LoggedChanges(segs: seq<Segment>, plantId: string, segmentId: string, fiber: nat, status: string)
    : seq<FiberChange>
  {
    if ApplyUpdate(segs, segmentId, fiber, status).0 == Changed then
      var j := FindSegment(segs, segmentId).value;
      [FiberChange(plantId, segmentId, fiber, segs[j].fibers[fiber], ParseStrand(status).value)]
    else []
  }

  /**
   * An update succeeds exactly when the state is valid, a segment matches and
   * it has that strand; it then leaves the strand in the requested state. It
   * changes nothing but that one strand, and changes nothing at all unless the
   * outcome is `Changed`, which happens exactly when the old state differed.
   */
  lemma UpdateEffect(segs: seq<Segment>, segmentId: string, fiber: nat, status: string)
    ensures var (o, r) := ApplyUpdate(segs, segmentId, fiber, status);
            && (Succeeded(o) <==> ParseStrand(status).Some? && FindSegment(segs, segmentId).Some?
                                  && fiber in segs[FindSegment(segs, segmentId).value].fibers)
            && (o == InvalidState <==> ParseStrand(status).None?)
            && (o != Changed ==> r == segs)
            && |r| == |segs|
            && (Succeeded(o) ==>
                  var j := FindSegment(segs, segmentId).value;
                  && (o == Changed <==> segs[j].fibers[fiber] != ParseStrand(status).value)
                  && r[j].fibers == segs[j].fibers[fiber := ParseStrand(status).value]
                  && r[j] == segs[j].(fibers := r[j].fibers)
                  && forall i :: 0 <= i < |segs| && i != j ==> r[i] == segs[i])
  {
    match ParseStrand(status)
    case None =>
    case Some(st) =>
      match FindSegment(segs, segmentId)
      case None =>
      case Some(j) =>
        if fiber in segs[j].fibers && segs[j].fibers[fiber] == st {
          assert segs[j].fibers[fiber := st] == segs[j].fibers;
        }
  }

  /** Repeating an update changes nothing more. */
  lemma UpdateIdempotent(segs: seq<Segment>, segmentId: string, fiber: nat, status: string)
    ensures var (o, r) := ApplyUpdate(segs, segmentId, fiber, status);
            var (o2, r2) := ApplyUpdate(r, segmentId, fiber, status);
            r2 == r && (Succeeded(o) ==> o2 == Unchanged) && (!Succeeded(o) ==> o2 == o)
  {
    var (o, r) := ApplyUpdate(segs, segmentId, fiber, status);
    UpdateEffect(segs, segmentId, fiber, status);
    if o == Changed {
      var j := FindSegment(segs, segmentId).value;
      forall i | 0 <= i < |r| ensures Matches(r[i], segmentId) <==> Matches(segs[i], segmentId) {
      }
      FirstMatch(r, segmentId, j);
    }
  }

  /** The strand map after restoring: every faulty strand becomes `Ok`, the rest are kept. */
  function RestoredFibers(f: FiberMap): (r: FiberMap)
    ensures r.Keys == f.Keys
    ensures forall k :: k in r ==> r[k] == Ok
  {
    map k | k in f :: if f[k] == Averiado then Ok else f[k]
  }

  /** The faulty strands of a strand map. */
  function FaultyStrands(f: FiberMap): set<nat>
  {
    set k | k in f && f[k] == Averiado
  }

  lemma NoFaultyRestored(f: FiberMap)
    requires |FaultyStrands(f)| == 0
    ensures RestoredFibers(f) == f
  {
    forall k | k in f ensures f[k] == Ok {
      assert FaultyStrands(f) == {};
      assert k !in FaultyStrands(f);
    }
  }

  /** Restoring the first matching segment: whether one matched, how many strands changed, and the new list. */
  function ApplyRestore(segs: seq<Segment>, segmentId: string): (bool, nat, seq<Segment>)
  {
    match FindSegment(segs, segmentId)
    case None => (false, 0, segs)
    case Some(j) =>
      (true, |FaultyStrands(segs[j].fibers)|, segs[j := segs[j].(fibers := RestoredFibers(segs[j].fibers))])
  }

  /**
   * Restoring leaves no faulty strand in the matched segment, keeps its strand
   * indices and every other segment, reports as many strands as were faulty,
   * changes nothing when none was, and a second restore changes nothing more.
   */
  lemma RestoreEffect(segs: seq<Segment>, segmentId: string)
    ensures var (found, n, r) := ApplyRestore(segs, segmentId);
            && (found <==> FindSegment(segs, segmentId).Some?)
            && |r| == |segs|
            && (found ==>
                  var j := FindSegment(segs, segmentId).value;
                  && r[j].fibers.Keys == segs[j].fibers.Keys
                  && (forall k :: k in r[j].fibers ==> r[j].fibers[k] == Ok)
                  && r[j] == segs[j].(fibers := r[j].fibers)
                  && (forall i :: 0 <= i < |segs| && i != j ==> r[i] == segs[i]))
            && (n == 0 ==> r == segs)
            && ApplyRestore(r, segmentId) == (found, 0, r)
  {
    match FindSegment(segs, segmentId)
    case None =>
    case Some(j) =>
      var (_, n, r) := ApplyRestore(segs, segmentId);
      if n == 0 {
        NoFaultyRestored(segs[j].fibers);
        assert r == segs;
      }
      assert FaultyStrands(r[j].fibers) == {} by {
        forall k | k in r[j].fibers ensures r[j].fibers[k] == Ok { }
      }
      NoFaultyRestored(r[j].fibers);
      forall i | 0 <= i < |r| ensures Matches(r[i], segmentId) <==> Matches(segs[i], segmentId) {
      }
      FirstMatch(r, segmentId, j);
      assert r[j := r[j].(fibers := RestoredFibers(r[j].fibers))] == r;
  }

  /** The restoring loop over a strand map's indices. */
  method RestoreStrands(f: FiberMap) returns (g: FiberMap, n: nat)
    ensures g == RestoredFibers(f) && n == |FaultyStrands(f)|
  {
    g := f;
    n := 0;
    var remaining := f.Keys;
    while remaining != {}
      invariant PartlyRestored(f, g, remaining)
      invariant n == |FaultyStrands(f) - remaining|
      decreases |remaining|
    {
      var k :| k in remaining;
      FaultyCountStep(f, remaining, k);
      RestoreStep(f, g, remaining, k);
      if g[k] == Averiado {
        g := g[k := Ok];
        n := n + 1;
      }
      remaining := remaining - {k};
    }
    assert FaultyStrands(f) - {} == FaultyStrands(f);
    RestoredPointwise(f, g);
  }

  /** The strands outside `remaining` are restored and those inside are untouched. */
  ghost predicate PartlyRestored(f: FiberMap, g: FiberMap, remaining: set<nat>)
  {
    && remaining <= f.Keys && g.Keys == f.Keys
    && (forall k :: k in f && k !in remaining ==> g[k] == (if f[k] == Averiado then Ok else f[k]))
    && (forall k :: k in remaining ==> g[k] == f[k])
  }

  lemma RestoreStep(f: FiberMap, g: FiberMap, remaining: set<nat>, k: nat)
    requires PartlyRestored(f, g, remaining) && k in remaining
    ensures k in g && g[k] == f[k]
    ensures PartlyRestored(f, if g[k] == Averiado then g[k := Ok] else g, remaining - {k})
  {
  }

  lemma RestoredPointwise(f: FiberMap, g: FiberMap)
    requires PartlyRestored(f, g, {})
    ensures g == RestoredFibers(f)
  {
  }

  /** Taking strand k out of the remaining ones adds one to the faulty strands already seen exactly when k is faulty. */
  lemma FaultyCountStep(f: FiberMap, remaining: set<nat>, k: nat)
    requires k in remaining && remaining <= f.Keys
    ensures |FaultyStrands(f) - (remaining - {k})| == |FaultyStrands(f) - remaining| + (if f[k] == Averiado then 1 else 0)
  {
    if f[k] == Averiado {
      assert FaultyStrands(f) - (remaining - {k}) == (FaultyStrands(f) - remaining) + {k};
    } else {
      assert FaultyStrands(f) - (remaining - {k}) == FaultyStrands(f) - remaining;
    }
  }

  // ---------------------------------------------------------------------------
  // Building the default topology

  /** The node loop: the center, then each circuit's CTs in order. */
  method BuildNodes(circuits: CircuitTable) returns (ns: seq<Node>)
    ensures ns == InitNodes(circuits)
  {
    ns := [CenterNode];
    for k := 0 to |circuits|
      invariant ns == AddCircuits([CenterNode], circuits, k)
    {
      ns := AddCircuitNodes(ns, circuits[k].0, circuits[k].1);
    }
  }

  /** One circuit's CTs added in order; an id already present only takes the new circuit. */
  method AddCircuitNodes(nodes: seq<Node>, cid: CircuitId, cts: seq<NodeId>) returns (ns: seq<Node>)
    ensures ns == AddCts(nodes, cid, cts)
  {
    ns := nodes;
    for m := 0 to |cts|
      invariant ns == AddCts(nodes, cid, cts[..m])
    {
      assert cts[..m + 1][..m] == cts[..m];
      var ct := cts[m];
      if ct in NodeIds(ns) {
        var i := IndexOf(ns, ct);
        ns := ns[i := ns[i].(circuit := Some(cid))];
      } else {
        ns := ns + [Node(ct, CtNode, Some(cid))];
      }
    }
    assert cts[..|cts|] == cts;
  }

  /** The link loop: for each circuit, center to its first CT, then CT to CT along its list. */
  method BuildSegments(nodes: seq<Node>, circuits: CircuitTable) returns (segs: seq<Segment>)
    ensures segs == AddCircuitLinks(nodes, [], circuits, |circuits|, InitialFibers(DefaultTotalFibras))
  {
    var strands := InitialFibers(DefaultTotalFibras);
    segs := [];
    for k := 0 to |circuits|
      invariant segs == AddCircuitLinks(nodes, [], circuits, k, strands)
    {
      var cid := circuits[k].0;
      var cts := circuits[k].1;
      var chain := Chain(cts);
      if cts == [] {
        continue;
      }
      ghost var before := segs;
      segs := AddLink(nodes, segs, Center, cts[0], cid, strands);
      for m := 0 to |cts| - 1
        invariant segs == AddChainLinks(nodes, before, chain, cid, m + 1, strands)
      {
        segs := AddLink(nodes, segs, cts[m], cts[m + 1], cid, strands);
      }
    }
  }

  /** The default topology of a circuit table, with the store's invariants. */
  method BuildTopology(circuits: CircuitTable) returns (ns: seq<Node>, segs: seq<Segment>)
    ensures ns == InitNodes(circuits) && segs == InitSegments(circuits)
    ensures IdsDistinct(ns) && Oriented(ns, segs) && PairsUnique(segs)
  {
    ns := BuildNodes(circuits);
    segs := BuildSegments(ns, circuits);
    InitSegmentsProperties(circuits);
  }

  /**
   * The model's invariant on its state: node ids are distinct; segment
   * endpoints are nodes, stored in node order, each pair joined once; and a
   * valid cache holds the logical graph of the current topology.
   */
  ghost predicate StoreValid(nodes: seq<Node>, segs: seq<Segment>, cfg: PlantConfig, cacheValid: bool,
                             cache: Option<Digraph>)
  {
    && IdsDistinct(nodes)
    && Oriented(nodes, segs)
    && PairsUnique(segs)
    && (cacheValid ==> cache == Some(LogicalGraphOf(nodes, segs, cfg)))
  }

  /** An edit that keeps every segment's endpoints keeps the invariant once the cache is dropped. */
  lemma StoreValidEdited(nodes: seq<Node>, segs: seq<Segment>, r: seq<Segment>, cfg: PlantConfig,
                         cacheValid: bool, cache: Option<Digraph>)
    requires StoreValid(nodes, segs, cfg, cacheValid, cache) && SameEndpoints(segs, r)
    ensures StoreValid(nodes, r, cfg, false, None)
  {
    SameEndpointsKeep(nodes, segs, r);
  }

  /** The state a plant starts from: its configuration and its default topology. */
  ghost predicate PlantDefault(plantId: string, cfg: PlantConfig, nodes: seq<Node>, segs: seq<Segment>)
  {
    cfg == GetPlantConfig(plantId) && nodes == InitNodes(cfg.circuits) && segs == InitSegments(cfg.circuits)
  }

  /** No more nodes than the depth limit of the searches. */
  ghost predicate WithinDepth(nodes: seq<Node>)
  {
    |NodeIds(nodes)| <= MaxDepth
  }

  /** A plant's configuration and its default topology. */
  method PlantTopology(plantId: string) returns (cfg: PlantConfig, ns: seq<Node>, segs: seq<Segment>)
    ensures PlantDefault(plantId, cfg, ns, segs)
    ensures StoreValid(ns, segs, cfg, false, None) && WithinDepth(ns)
  {
    cfg := GetPlantConfig(plantId);
    ns, segs := BuildTopology(cfg.circuits);
    PlantNodeIds(plantId);
  }

  // ---------------------------------------------------------------------------
  // Strand mutations as loops over the segment list

  /** The update loop: the first matching segment, its strand checked and set. */
  method UpdateStrand(plantId: string, segs: seq<Segment>, segmentId: string, fiber: nat, status: string)
    returns (outcome: UpdateOutcome, r: seq<Segment>, logged: seq<FiberChange>)
    ensures (outcome, r) == ApplyUpdate(segs, segmentId, fiber, status)
    ensures logged == LoggedChanges(segs, plantId, segmentId, fiber, status)
    ensures outcome != Changed ==> r == segs && logged == []
    ensures SameEndpoints(segs, r)
  {
    var parsed := ParseStrand(status);
    if parsed.None? {
      return InvalidState, segs, [];
    }
    var found := FindMatch(segs, segmentId);
    if found.None? {
      return SegmentNotFound, segs, [];
    }
    var j := found.value;
    if fiber !in segs[j].fibers {
      return FiberNotFound, segs, [];
    }
    var previous := segs[j].fibers[fiber];
    if previous == parsed.value {
      return Unchanged, segs, [];
    }
    r := segs[j := segs[j].(fibers := segs[j].fibers[fiber := parsed.value])];
    outcome := Changed;
    logged := [FiberChange(plantId, segmentId, fiber, previous, parsed.value)];
  }

  /** The restore loop: the first matching segment, its faulty strands set to `Ok` and counted. */
  method RestoreFirst(segs: seq<Segment>, segmentId: string) returns (found: bool, n: nat, r: seq<Segment>)
    ensures (found, n, r) == ApplyRestore(segs, segmentId)
    ensures n == 0 ==> r == segs
    ensures SameEndpoints(segs, r)
  {
    var idx := FindMatch(segs, segmentId);
    if idx.None? {
      return false, 0, segs;
    }
    var j := idx.value;
    var fibers, changed := RestoreStrands(segs[j].fibers);
    if changed == 0 {
      NoFaultyRestored(segs[j].fibers);
    }
    return true, changed, segs[j := segs[j].(fibers := fibers)];
  }

  /** Updates and restores change strand states only, never a segment's endpoints. */
  lemma UpdateKeepsEndpoints(segs: seq<Segment>, segmentId: string, fiber: nat, status: string)
    ensures SameEndpoints(segs, ApplyUpdate(segs, segmentId, fiber, status).1)
  {
    UpdateEffect(segs, segmentId, fiber, status);
  }

  lemma RestoreKeepsEndpoints(segs: seq<Segment>, segmentId: string)
    ensures SameEndpoints(segs, ApplyRestore(segs, segmentId).2)
  {
    RestoreEffect(segs, segmentId);
  }

  // ---------------------------------------------------------------------------
  // The plant a fresh model starts from

  /** Every plant's circuits are short enough for the depth limit, and its fresh strands work both ways. */
  lemma DefaultPlantFits(plantId: string)
    ensures forall k :: 0 <= k < |GetPlantConfig(plantId).circuits| ==> |GetPlantConfig(plantId).circuits[k].1| <= MaxDepth
    ensures AnyOk(InitialFibers(DefaultTotalFibras), GetPlantConfig(plantId).fibers.commsIda)
    ensures AnyOk(InitialFibers(DefaultTotalFibras), GetPlantConfig(plantId).fibers.commsVuelta)
  {
    var cfg := GetPlantConfig(plantId);
    var strands := InitialFibers(DefaultTotalFibras);
    assert IsOk(strands, cfg.fibers.commsIda[0]);
    assert IsOk(strands, cfg.fibers.commsVuelta[0]);
  }

  /** The CTs of the first k circuits are those of the first k - 1 followed by circuit k's own. */
  lemma {:induction false} AllCtsSnoc(circuits: CircuitTable, k: nat)
    requires 0 < k <= |circuits|
    ensures AllCts(circuits[..k]) == AllCts(circuits[..k - 1]) + circuits[k - 1].1
  {
    assert circuits[..k][0] == circuits[0];
    if k == 1 {
      assert circuits[..1][1..] == [] && circuits[..0] == [];
    } else {
      var tail := circuits[1..];
      AllCtsSnoc(tail, k - 1);
      assert circuits[..k][1..] == tail[..k - 1];
      assert circuits[..k - 1][1..] == tail[..k - 2];
      assert circuits[..k - 1][0] == circuits[0];
    }
  }

  /** Adding the first k circuits adds exactly their CTs to the node ids. */
  lemma {:induction false} AddCircuitsIds(nodes: seq<Node>, circuits: CircuitTable, k: nat)
    requires k <= |circuits|
    ensures NodeIds(AddCircuits(nodes, circuits, k)) == NodeIds(nodes) + Elems(AllCts(circuits[..k]))
  {
    if k == 0 {
      assert circuits[..0] == [];
    } else {
      AddCircuitsIds(nodes, circuits, k - 1);
      AllCtsSnoc(circuits, k);
      var a, b := AllCts(circuits[..k - 1]), circuits[k - 1].1;
      assert Elems(a + b) == Elems(a) + Elems(b);
    }
  }

  /** With each CT in one circuit only and none named as the center, the initial nodes are the center and one per CT. */
  lemma InitNodeIds(circuits: CircuitTable)
    requires CircuitsPartitionCts(circuits)
    ensures NodeIds(InitNodes(circuits)) == {Center} + Elems(AllCts(circuits))
    ensures |NodeIds(InitNodes(circuits))| == |AllCts(circuits)| + 1
  {
    AddCircuitsIds([CenterNode], circuits, |circuits|);
    assert circuits[..|circuits|] == circuits;
    assert [CenterNode][0].id == Center;
    assert NodeIds([CenterNode]) == {Center};
    DistinctCard(AllCts(circuits));
    assert Center !in Elems(AllCts(circuits));
  }

  /** A plant's default nodes are the center and its 22 CTs. */
  lemma PlantNodeIds(plantId: string)
    ensures |NodeIds(InitNodes(GetPlantConfig(plantId).circuits))| == 23
  {
    DefaultCircuitsPartitionCts();
    InitNodeIds(GetPlantConfig(plantId).circuits);
  }

  /**
   * Over any plant's default nodes, whatever the segments and strands, the
   * logical graph is well formed with no more nodes than the depth limit, so
   * the depth-first search and the corrected search give the same answers.
   */
  lemma PlantGraphFits(plantId: string, segs: seq<Segment>)
    requires EndpointsIn(InitNodes(GetPlantConfig(plantId).circuits), segs)
    ensures var cfg := GetPlantConfig(plantId);
            var g := LogicalGraphOf(InitNodes(cfg.circuits), segs, cfg);
            && WellFormed(g) && |g.Keys| <= MaxDepth
            && (forall s, t :: HasPathLimited(g, s, t, MaxDepth) == HasPathWithin(g, s, t, MaxDepth))
            && LogicalGraphAsWritten(InitNodes(cfg.circuits), segs, cfg) == g
  {
    var cfg := GetPlantConfig(plantId);
    var g := LogicalGraphOf(InitNodes(cfg.circuits), segs, cfg);
    LogicalGraphShape(InitNodes(cfg.circuits), segs, cfg);
    PlantNodeIds(plantId);
    LogicalGraphAgrees(InitNodes(cfg.circuits), segs, cfg);
    forall s, t ensures HasPathLimited(g, s, t, MaxDepth) == HasPathWithin(g, s, t, MaxDepth) {
      LimitedAgreesOnSmallGraphs(g, s, t, MaxDepth);
    }
  }

  /** Right after a model is built, every CT of its plant is reported connected. */
  lemma EveryPlantStartsConnected(plantId: string, i: nat, x: NodeId)
    requires i < |GetPlantConfig(plantId).circuits| && x in GetPlantConfig(plantId).circuits[i].1
    ensures var cfg := GetPlantConfig(plantId);
            ConnectivityOf(NodeIds(InitNodes(cfg.circuits)),
                           LogicalGraphOf(InitNodes(cfg.circuits), InitSegments(cfg.circuits), cfg), x) == Conectado
  {
    DefaultPlantFits(plantId);
    FreshPlantConnected(GetPlantConfig(plantId), i, x);
  }

  /** The ring check of any plant reports one entry per ring position, keyed by the pair of circuits. */
  lemma PlantRingMapSize(plantId: string, dg: Digraph)
    ensures var cfg := GetPlantConfig(plantId);
            && |RingMap(dg, cfg.circuits, cfg.ringOrder, |cfg.ringOrder|)| == |cfg.ringOrder|
            && forall i :: 0 <= i < |cfg.ringOrder| ==>
                 PairKey(cfg.ringOrder, i) in RingMap(dg, cfg.circuits, cfg.ringOrder, |cfg.ringOrder|)
  {
    DefaultRingIsPermutation();
    assert forall c :: c in DefaultRingOrder ==> '-' !in c;
    RingMapSize(dg, DefaultCircuits, DefaultRingOrder);
  }

  // ---------------------------------------------------------------------------
  // The model object

  class NetworkModel {
    var plantId: string
    var config: PlantConfig
    var nodes: seq<Node>
    var segments: seq<Segment>
    var cacheValid: bool
    var cache: Option<Digraph>
    var lastCacheTime: int
    /** The strand-change history kept by the store. */
    var history: seq<FiberChange>

    /**
     * There are no more nodes than the depth limit (the constructor sets the
     * plant's 23 default nodes, and no method changes them); node ids are
     * distinct; segment endpoints are nodes, stored in node order, each pair
     * joined once; and a valid cache holds the logical graph of the current
     * topology.
     */
    ghost predicate Valid()
      reads this
    {
      && WithinDepth(nodes)
      && StoreValid(nodes, segments, config, cacheValid, cache)
    }

    /**
     * In every valid state the logical graph is well formed and has no more
     * nodes than the depth limit, so the depth-first search used by the
     * diagnostics answers as the corrected search does.
     */
    lemma GraphFits()
      requires Valid()
      ensures var g := LogicalGraphOf(nodes, segments, config);
              && WellFormed(g) && |g.Keys| <= MaxDepth
              && (forall s, t :: HasPathLimited(g, s, t, MaxDepth) == HasPathWithin(g, s, t, MaxDepth))
              && LogicalGraphAsWritten(nodes, segments, config) == g
    {
      var g := LogicalGraphOf(nodes, segments, config);
      LogicalGraphShape(nodes, segments, config);
      LogicalGraphAgrees(nodes, segments, config);
      forall s, t ensures HasPathLimited(g, s, t, MaxDepth) == HasPathWithin(g, s, t, MaxDepth) {
        LimitedAgreesOnSmallGraphs(g, s, t, MaxDepth);
      }
    }

    /**
     * A model whose active plant is `plantId`, with that plant's default
     * topology: the center, the CTs of every circuit, and each circuit's chain
     * of segments with all strands `Ok`; the cache is reset.
     */
    constructor (plantId: string)
      ensures Valid()
      ensures this.plantId == plantId && PlantDefault(plantId, config, nodes, segments)
      ensures !cacheValid && cache == None && lastCacheTime == 0 && history == []
    {
      var cfg, ns, segs := PlantTopology(plantId);
      this.plantId := plantId;
      config := cfg;
      nodes := ns;
      segments := segs;
      cacheValid := false;
      cache := None;
      lastCacheTime := 0;
      history := [];
    }

    /**
     * The logical graph of the current topology. It is rebuilt when the cache
     * is invalid or empty or older than the expiration time, and the rebuild
     * time is recorded; either way the graph returned is that of the current
     * nodes and segments.
     */
    method GetLogicalGraph(now: int) returns (dg: Digraph)
      requires Valid()
      modifies this
      ensures Valid()
      ensures dg == LogicalGraphOf(nodes, segments, config)
      ensures cacheValid && cache == Some(dg)
      ensures lastCacheTime ==
                if old(!cacheValid || cache.None? || now - lastCacheTime > CacheExpirationTime) then now
                else old(lastCacheTime)
      ensures plantId == old(plantId) && config == old(config) && nodes == old(nodes)
      ensures segments == old(segments) && history == old(history)
    {
      if !cacheValid || cache.None? || now - lastCacheTime > CacheExpirationTime {
        var g := BuildDirectedLogicalGraph(nodes, segments, config);
        cache := Some(g);
        cacheValid := true;
        lastCacheTime := now;
      }
      dg := cache.value;
    }

    /** The status of one node: the center without any work, an unknown node as an error, otherwise from the logical graph. */
    method CheckCtConnectivity(target: NodeId, now: int) returns (st: CtStatus)
      requires Valid()
      modifies this
      ensures Valid()
      ensures st == ConnectivityOf(NodeIds(nodes), LogicalGraphOf(nodes, segments, config), target)
      ensures plantId == old(plantId) && config == old(config) && nodes == old(nodes)
      ensures segments == old(segments) && history == old(history)
      ensures target == Center || target !in NodeIds(nodes) ==>
                cacheValid == old(cacheValid) && cache == old(cache) && lastCacheTime == old(lastCacheTime)
    {
      if target == Center {
        return Conectado;
      }
      if target !in NodeIds(nodes) {
        return Error;
      }
      var dg := GetLogicalGraph(now);
      if Center !in dg || target !in dg {
        return Aislado;
      }
      var toCt := HasPathWithin(dg, Center, target, MaxDepth);
      var fromCt := HasPathWithin(dg, target, Center, MaxDepth);
      if toCt && fromCt {
        st := Conectado;
      } else {
        st := Aislado;
      }
    }

    /** The ring-integrity map of the current logical graph. */
    method CheckRingIntegrity(now: int) returns (results: map<string, bool>)
      requires Valid()
      modifies this
      ensures Valid()
      ensures results == RingMap(LogicalGraphOf(nodes, segments, config), config.circuits, config.ringOrder,
                                 |config.ringOrder|)
      ensures plantId == old(plantId) && config == old(config) && nodes == old(nodes)
      ensures segments == old(segments) && history == old(history)
    {
      var dg := GetLogicalGraph(now);
      results := RingIntegrity(dg, config.circuits, config.ringOrder);
    }

    /** The segment list: one entry per pair of nodes, sorted by (circuit, id). */
    method GetSegmentData() returns (list: seq<Segment>)
      ensures list == SegmentData(segments)
    {
      var unique := DedupSegments(segments);
      list := SortByKey(unique);
    }

    /** Storing an edited segment list: the changes are logged and the cached logical graph is dropped. */
    method Commit(r: seq<Segment>, logged: seq<FiberChange>)
      requires Valid() && SameEndpoints(segments, r)
      modifies this
      ensures Valid()
      ensures segments == r && history == old(history) + logged && !cacheValid && cache == None
      ensures plantId == old(plantId) && config == old(config) && nodes == old(nodes)
      ensures lastCacheTime == old(lastCacheTime)
    {
      StoreValidEdited(nodes, segments, r, config, cacheValid, cache);
      history := history + logged;
      segments := r;
      cacheValid := false;
      cache := None;
    }

    /**
     * Setting one strand of the first segment answering to `segmentId`. Only a
     * real change alters the topology, invalidates the cache and is logged.
     */
    method UpdateFiberStatus(segmentId: string, fiber: nat, newStatus: string)
      returns (success: bool, outcome: UpdateOutcome)
      requires Valid()
      modifies this
      ensures Valid()
      ensures (outcome, segments) == ApplyUpdate(old(segments), segmentId, fiber, newStatus)
      ensures success == Succeeded(outcome)
      ensures history == old(history) + LoggedChanges(old(segments), plantId, segmentId, fiber, newStatus)
      ensures outcome == Changed ==> !cacheValid && cache == None
      ensures outcome != Changed ==> cacheValid == old(cacheValid) && cache == old(cache)
      ensures plantId == old(plantId) && config == old(config) && nodes == old(nodes)
      ensures lastCacheTime == old(lastCacheTime)
    {
      var o, r, logged := UpdateStrand(plantId, segments, segmentId, fiber, newStatus);
      if o == Changed {
        Commit(r, logged);
      }
      success, outcome := Succeeded(o), o;
    }

    /** Restoring every faulty strand of the first segment answering to `segmentId`. */
    method RestoreSegmentFibers(segmentId: string) returns (found: bool, restored: nat)
      requires Valid()
      modifies this
      ensures Valid()
      ensures (found, restored, segments) == ApplyRestore(old(segments), segmentId)
      ensures restored > 0 ==> !cacheValid && cache == None
      ensures restored == 0 ==> cacheValid == old(cacheValid) && cache == old(cache)
      ensures plantId == old(plantId) && config == old(config) && nodes == old(nodes)
      ensures lastCacheTime == old(lastCacheTime) && history == old(history)
    {
      var f, n, r := RestoreFirst(segments, segmentId);
      if n > 0 {
        Commit(r, []);
      }
      found, restored := f, n;
    }

    /** The strand statistics of a segment list under the active plant's roles. */
    method GetFiberStatistics(segs: seq<Segment>) returns (st: FiberStats)
      requires Valid()
      ensures st == StatsOf(segs, config.fibers)
    {
      st := FiberStatistics(segs, config.fibers);
    }

    /** The advisor: segment plans, the ring check of the current logical graph, and the summary over the given CT statuses. */
    method GetReconnectionSuggestions(statuses: map<NodeId, CtStatus>, segs: seq<Segment>, now: int)
      returns (advice: Advice)
      requires Valid()
      modifies this
      ensures Valid()
      ensures advice == Advise(statuses, Plans(segs, config.fibers),
                               exists i :: 0 <= i < |segs| && HasCommsFault(segs[i], config.fibers),
                               RingMap(LogicalGraphOf(nodes, segments, config), config.circuits, config.ringOrder,
                                       |config.ringOrder|))
      ensures plantId == old(plantId) && config == old(config) && nodes == old(nodes)
      ensures segments == old(segments) && history == old(history)
    {
      var plans, anyCommsFault := PlanReconnections(segs, config.fibers);
      var ring := CheckRingIntegrity(now);
      advice := Advise(statuses, plans, anyCommsFault, ring);
    }
  }
}
