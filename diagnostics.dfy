// The diagnostics computed over the logical graph and the strand maps: the
// status of each CT, the ring-integrity map, the greedy reserve plan for
// faulty communication strands, the strand statistics and the advisor summary.
module Diagnostics {
  import opened Common
  import opened Plant
  import opened Fibers
  import opened Reachability
  import opened LogicalGraph

  // ---------------------------------------------------------------------------
  // CT connectivity

  datatype CtStatus = Conectado | Aislado | Error

  lemma ReachableWithinEnds(g: Digraph, s: NodeId, t: NodeId, k: nat)
    requires ReachableWithin(g, s, t, k) && s != t
    ensures s in g
  {
    var p :| WalkFromTo(g, p, s, t) && |p| <= k + 1;
    assert HasEdge(g, p[0], p[1]);
  }

  /**
   * The status of one node: the center is always connected; a node that is not
   * in the physical graph is an error; otherwise it is connected exactly when
   * walks of at most MaxDepth edges lead from the center to it and back.
   */
  function ConnectivityOf(physical: set<NodeId>, dg: Digraph, target: NodeId): (r: CtStatus)
    ensures r == Error <==> target != Center && target !in physical
    ensures r == Conectado <==>
              target == Center
              || (target in physical && ReachableWithin(dg, Center, target, MaxDepth)
                  && ReachableWithin(dg, target, Center, MaxDepth))
  {
    if target == Center then Conectado
    else if target !in physical then Error
    else if Center !in dg || target !in dg then
      assert !ReachableWithin(dg, Center, target, MaxDepth) || !ReachableWithin(dg, target, Center, MaxDepth) by {
        if ReachableWithin(dg, Center, target, MaxDepth) && ReachableWithin(dg, target, Center, MaxDepth) {
          ReachableWithinEnds(dg, Center, target, MaxDepth);
          ReachableWithinEnds(dg, target, Center, MaxDepth);
        }
      }
      Aislado
    else if HasPathWithin(dg, Center, target, MaxDepth) && HasPathWithin(dg, target, Center, MaxDepth) then Conectado
    else Aislado
  }

  // ---------------------------------------------------------------------------
  // Ring integrity

  /** The key of ring position i: the two circuit names joined by a dash. */
  function PairKey(ring: seq<CircuitId>, i: nat): string
    requires i < |ring|
  {
    DashJoin(ring[i], ring[(i + 1) % |ring|])
  }

  /**
   * Whether ring position i is intact: both circuits have CTs, the last CT of
   * the one is not the first of the next, both are nodes of the logical graph
   * and a walk of at most MaxDepth edges leads from the one to the other.
   */
  function PairIntact(dg: Digraph, circuits: CircuitTable, ring: seq<CircuitId>, i: nat): (r: bool)
    requires i < |ring|
    ensures r <==> RingPair(circuits, ring, i).Some?
                   && RingPair(circuits, ring, i).value.0 != RingPair(circuits, ring, i).value.1
                   && RingPair(circuits, ring, i).value.0 in dg
                   && RingPair(circuits, ring, i).value.1 in dg
                   && ReachableWithin(dg, RingPair(circuits, ring, i).value.0,
                                      RingPair(circuits, ring, i).value.1, MaxDepth)
  {
    match RingPair(circuits, ring, i)
    case None => false
    case Some((last, first)) =>
      if last == first then false
      else if last in dg && first in dg then HasPathWithin(dg, last, first, MaxDepth)
      else false
  }

  /** The results map after the first k ring positions; a repeated key keeps the later value. */
  function RingMap(dg: Digraph, circuits: CircuitTable, ring: seq<CircuitId>, k: nat): map<string, bool>
    requires k <= |ring|
  {
    if k == 0 then map[]
    else RingMap(dg, circuits, ring, k - 1)[PairKey(ring, k - 1) := PairIntact(dg, circuits, ring, k - 1)]
  }

  /** The keys of the sequence of ring positions, in ring order. */
  function PairKeys(ring: seq<CircuitId>, k: nat): (keys: seq<string>)
    requires k <= |ring|
    ensures |keys| == k
    ensures forall i :: 0 <= i < k ==> keys[i] == PairKey(ring, i)
  {
    if k == 0 then [] else PairKeys(ring, k - 1) + [PairKey(ring, k - 1)]
  }

  /** The map has one key per ring position. */
  lemma {:induction false} RingMapKeys(dg: Digraph, circuits: CircuitTable, ring: seq<CircuitId>, k: nat)
    requires k <= |ring|
    ensures RingMap(dg, circuits, ring, k).Keys == Elems(PairKeys(ring, k))
  {
    if k > 0 {
      RingMapKeys(dg, circuits, ring, k - 1);
      assert PairKeys(ring, k) == PairKeys(ring, k - 1) + [PairKey(ring, k - 1)];
      assert Elems(PairKeys(ring, k)) == Elems(PairKeys(ring, k - 1)) + {PairKey(ring, k - 1)};
    }
  }

  /** Each position whose key is not repeated later maps to its intactness. */
  lemma {:induction false} RingMapValues(dg: Digraph, circuits: CircuitTable, ring: seq<CircuitId>, k: nat)
    requires k <= |ring|
    ensures forall i :: 0 <= i < k && (forall j :: i < j < k ==> PairKey(ring, j) != PairKey(ring, i)) ==>
              PairKey(ring, i) in RingMap(dg, circuits, ring, k)
              && RingMap(dg, circuits, ring, k)[PairKey(ring, i)] == PairIntact(dg, circuits, ring, i)
  {
    if k > 0 {
      RingMapValues(dg, circuits, ring, k - 1);
      var prev, key := RingMap(dg, circuits, ring, k - 1), PairKey(ring, k - 1);
      var m := prev[key := PairIntact(dg, circuits, ring, k - 1)];
      assert m == RingMap(dg, circuits, ring, k);
      forall i | 0 <= i < k && (forall j :: i < j < k ==> PairKey(ring, j) != PairKey(ring, i))
        ensures PairKey(ring, i) in m && m[PairKey(ring, i)] == PairIntact(dg, circuits, ring, i)
      {
        if i < k - 1 {
          assert key != PairKey(ring, i);
          assert m[PairKey(ring, i)] == prev[PairKey(ring, i)];
        }
      }
    }
  }

  /** Joining with a dash is injective on names that contain no dash. */
  lemma DashJoinInjective(a: string, b: string, c: string, d: string)
    requires '-' !in a && '-' !in c
    requires DashJoin(a, b) == DashJoin(c, d)
    ensures a == c && b == d
  {
    var x := DashJoin(a, b);
    assert x == c + "-" + d;
    assert x[|a|] == '-' && x[|c|] == '-';
    assert forall i :: 0 <= i < |c| ==> x[i] == c[i] != '-';
    assert forall i :: 0 <= i < |a| ==> x[i] == a[i] != '-';
    assert |a| == |c|;
    assert a == x[..|a|] == c;
    assert b == x[|a| + 1..] == d;
  }

  lemma {:induction false} DistinctCard<T>(s: seq<T>)
    requires NoDuplicates(s)
    ensures |Elems(s)| == |s|
  {
    if s != [] {
      var init := s[..|s| - 1];
      assert NoDuplicates(init) by {
        forall i, j | 0 <= i < j < |init| ensures init[i] != init[j] {
          assert init[i] == s[i] && init[j] == s[j];
        }
      }
      DistinctCard(init);
      assert s == init + [s[|s| - 1]];
      assert Elems(s) == Elems(init) + {s[|s| - 1]};
      assert s[|s| - 1] !in Elems(init) by {
        forall i | 0 <= i < |init| ensures init[i] != s[|s| - 1] {
          assert init[i] == s[i];
        }
      }
    }
  }

  /**
   * When the ring names each circuit once and no circuit name contains a dash,
   * the ring map has exactly one key per ring position, each mapping to that
   * position's intactness.
   */
  lemma RingMapSize(dg: Digraph, circuits: CircuitTable, ring: seq<CircuitId>)
    requires NoDuplicates(ring) && forall c :: c in ring ==> '-' !in c
    ensures |RingMap(dg, circuits, ring, |ring|)| == |ring|
    ensures forall i :: 0 <= i < |ring| ==>
              PairKey(ring, i) in RingMap(dg, circuits, ring, |ring|)
              && RingMap(dg, circuits, ring, |ring|)[PairKey(ring, i)] == PairIntact(dg, circuits, ring, i)
  {
    var keys := PairKeys(ring, |ring|);
    forall i, j | 0 <= i < j < |ring| ensures PairKey(ring, i) != PairKey(ring, j) {
      if PairKey(ring, i) == PairKey(ring, j) {
        DashJoinInjective(ring[i], ring[(i + 1) % |ring|], ring[j], ring[(j + 1) % |ring|]);
      }
    }
    assert NoDuplicates(keys);
    DistinctCard(keys);
    RingMapKeys(dg, circuits, ring, |ring|);
    RingMapValues(dg, circuits, ring, |ring|);
  }

  /** The ring check loop: one entry per ring position, keyed by the two circuit names. */
  method RingIntegrity(dg: Digraph, circuits: CircuitTable, ring: seq<CircuitId>)
    returns (results: map<string, bool>)
    ensures results == RingMap(dg, circuits, ring, |ring|)
  {
    results := map[];
    for i := 0 to |ring|
      invariant results == RingMap(dg, circuits, ring, i)
    {
      var cur := Lookup(circuits, ring[i]);
      var nxt := Lookup(circuits, ring[(i + 1) % |ring|]);
      var key := DashJoin(ring[i], ring[(i + 1) % |ring|]);
      var intact := false;
      if cur != [] && nxt != [] {
        var last := cur[|cur| - 1];
        var first := nxt[0];
        if last != first && last in dg && first in dg {
          intact := HasPathWithin(dg, last, first, MaxDepth);
        }
      }
      assert intact == PairIntact(dg, circuits, ring, i);
      results := results[key := intact];
    }
  }

  /**
   * Because the logical graph is patched at every ring position, the ring check
   * reports a position intact whenever its two CTs differ and, like the center,
   * are physical nodes, whatever the state of the strands.
   */
  lemma RingIntactAfterPatches(nodes: seq<Node>, segs: seq<Segment>, cfg: PlantConfig, i: nat)
    requires EndpointsIn(nodes, segs) && Center in NodeIds(nodes)
    requires i < |cfg.ringOrder|
    requires RingPair(cfg.circuits, cfg.ringOrder, i).Some?
    requires RingPair(cfg.circuits, cfg.ringOrder, i).value.0 != RingPair(cfg.circuits, cfg.ringOrder, i).value.1
    requires RingPair(cfg.circuits, cfg.ringOrder, i).value.0 in NodeIds(nodes)
    requires RingPair(cfg.circuits, cfg.ringOrder, i).value.1 in NodeIds(nodes)
    ensures PairIntact(LogicalGraphOf(nodes, segs, cfg), cfg.circuits, cfg.ringOrder, i)
  {
    var base := BaseGraph(nodes, segs, cfg.fibers);
    BaseGraphShape(nodes, segs, cfg.fibers);
    LogicalGraphShape(nodes, segs, cfg);
    assert Patchable(base, cfg.circuits, cfg.ringOrder, i);
    var (a, b) := RingPair(cfg.circuits, cfg.ringOrder, i).value;
    RingPatchesConnect(base, cfg.circuits, cfg.ringOrder, |cfg.ringOrder|, i, a, b);
  }

  // ---------------------------------------------------------------------------
  // Strand selection and sorting

  /** The indices of a role list whose strand is in the given state, in list order. */
  function Select(fibers: FiberMap, dir: seq<nat>, st: Strand): (r: seq<nat>)
    ensures |r| <= |dir|
    ensures forall x :: x in r <==> x in dir && x in fibers && fibers[x] == st
  {
    if dir == [] then []
    else
      var rest := Select(fibers, dir[1..], st);
      assert forall x :: x in dir <==> x == dir[0] || x in dir[1..];
      if dir[0] in fibers && fibers[dir[0]] == st then [dir[0]] + rest else rest
  }

  lemma {:induction false} SelectNoDuplicates(fibers: FiberMap, dir: seq<nat>, st: Strand)
    requires NoDuplicates(dir)
    ensures NoDuplicates(Select(fibers, dir, st))
  {
    if dir != [] {
      assert NoDuplicates(dir[1..]) by {
        forall i, j | 0 <= i < j < |dir[1..]| ensures dir[1..][i] != dir[1..][j] {
          assert dir[1..][i] == dir[i + 1] && dir[1..][j] == dir[j + 1];
        }
      }
      SelectNoDuplicates(fibers, dir[1..], st);
      var rest := Select(fibers, dir[1..], st);
      assert dir[0] !in dir[1..] by {
        forall i | 0 <= i < |dir[1..]| ensures dir[1..][i] != dir[0] {
          assert dir[1..][i] == dir[i + 1];
        }
      }
      NoDuplicatesAppend([dir[0]], rest);
    }
  }

  predicate SortedAsc(s: seq<nat>)
  {
    forall i, j :: 0 <= i < j < |s| ==> s[i] <= s[j]
  }

  function InsertAsc(x: nat, s: seq<nat>): (r: seq<nat>)
    requires SortedAsc(s)
    ensures SortedAsc(r)
    ensures multiset(r) == multiset(s) + multiset{x}
    ensures |r| == |s| + 1 && r[0] == (if s == [] || x <= s[0] then x else s[0])
  {
    if s == [] then [x]
    else if x <= s[0] then [x] + s
    else
      var r' := InsertAsc(x, s[1..]);
      assert s == [s[0]] + s[1..];
      [s[0]] + r'
  }

  /** Ascending order of a list of strand indices, as `sorted` gives it. */
  function SortAsc(s: seq<nat>): (r: seq<nat>)
    ensures SortedAsc(r)
    ensures multiset(r) == multiset(s)
  {
    if s == [] then []
    else
      assert s == [s[0]] + s[1..];
      InsertAsc(s[0], SortAsc(s[1..]))
  }

  // ---------------------------------------------------------------------------
  // Reserve allocation

  /** What the advisor says for one group of faulty strands. */
  datatype Proposal = NoFault | Propose(reserves: seq<nat>) | Insufficient(available: nat, needed: nat)

  datatype Allocation = Allocation(ida: Proposal, vuelta: Proposal, cctv: Proposal)

  /** First fit: the first `needed` strands of the pool, when there are that many. */
  function Offer(pool: seq<nat>, needed: nat): (p: Proposal)
    ensures p == NoFault <==> needed == 0
    ensures p.Propose? ==> needed <= |pool| && p.reserves == pool[..needed]
    ensures p.Insufficient? ==> p.available == |pool| < needed == p.needed
  {
    if needed == 0 then NoFault
    else if |pool| >= needed then Propose(pool[..needed])
    else Insufficient(|pool|, needed)
  }

  function Reserves(p: Proposal): seq<nat>
  {
    if p.Propose? then p.reserves else []
  }

  /** The reserves a segment's plan proposes, forward first, then return, then auxiliary. */
  function Proposed(a: Allocation): seq<nat>
  {
    Reserves(a.ida) + Reserves(a.vuelta) + Reserves(a.cctv)
  }

  /**
   * The allocation as written: the forward proposal is taken out of the pool,
   * but the return proposal is not, so the auxiliary proposal is drawn from the
   * same strands as the return one.
   */
  function AllocateAsWritten(pool: seq<nat>, nIda: nat, nVuelta: nat, nCctv: nat): Allocation
  {
    var ida := Offer(pool, nIda);
    var pool1 := pool[|Reserves(ida)|..];
    Allocation(ida, Offer(pool1, nVuelta), Offer(pool1, nCctv))
  }

  /** One return strand and one auxiliary strand down: both are offered the same reserve. */
  lemma AsWrittenProposesTwice()
    ensures var a := AllocateAsWritten([5, 6, 7, 8, 9, 10, 11, 12], 0, 1, 1);
            a.vuelta == Propose([5]) && a.cctv == Propose([5])
            && !NoDuplicates(Proposed(a))
  {
    var pool := [5, 6, 7, 8, 9, 10, 11, 12];
    var a := AllocateAsWritten(pool, 0, 1, 1);
    assert a.ida == NoFault;
    assert pool[0..] == pool && pool[..1] == [5];
    assert Proposed(a) == [5, 5];
    assert Proposed(a)[0] == Proposed(a)[1];
  }

  /**
   * The allocation as written, for all inputs: the forward group is served
   * first and taken out; the return and the auxiliary groups are both served
   * from what the forward group left; no group gets more than the pool it is
   * served from; and whenever both the return and the auxiliary group are
   * proposed reserves, some strand is proposed twice.
   */
  lemma AsWrittenAllocation(pool: seq<nat>, nIda: nat, nVuelta: nat, nCctv: nat)
    ensures var a := AllocateAsWritten(pool, nIda, nVuelta, nCctv);
            var rest := pool[|Reserves(a.ida)|..];
            && a.ida == Offer(pool, nIda)
            && a.vuelta == Offer(rest, nVuelta) && a.cctv == Offer(rest, nCctv)
            && |Reserves(a.ida)| + |Reserves(a.vuelta)| <= |pool|
            && |Reserves(a.ida)| + |Reserves(a.cctv)| <= |pool|
            && (a.vuelta.Propose? && a.cctv.Propose? ==> !NoDuplicates(Proposed(a)))
  {
    var a := AllocateAsWritten(pool, nIda, nVuelta, nCctv);
    if a.vuelta.Propose? && a.cctv.Propose? {
      var n1, n2 := |Reserves(a.ida)|, |a.vuelta.reserves|;
      var p := Proposed(a);
      assert p[n1] == a.vuelta.reserves[0] == pool[n1];
      assert p[n1 + n2] == a.cctv.reserves[0] == pool[n1];
    }
  }

  /**
   * The corrected allocation: each proposal is taken out of the pool before the
   * next group is served. What is proposed is a prefix of the pool (the smallest
   * strands, when the pool is sorted), so nothing is proposed twice and no more
   * is proposed than there is.
   */
  function Allocate(pool: seq<nat>, nIda: nat, nVuelta: nat, nCctv: nat): (a: Allocation)
    ensures |Proposed(a)| <= |pool| && Proposed(a) == pool[..|Proposed(a)|]
    ensures a.ida == Offer(pool, nIda)
    ensures a.vuelta == Offer(pool[|Reserves(a.ida)|..], nVuelta)
    ensures a.cctv == Offer(pool[|Reserves(a.ida)| + |Reserves(a.vuelta)|..], nCctv)
  {
    var ida := Offer(pool, nIda);
    var pool1 := pool[|Reserves(ida)|..];
    var vuelta := Offer(pool1, nVuelta);
    var pool2 := pool1[|Reserves(vuelta)|..];
    assert pool2 == pool[|Reserves(ida)| + |Reserves(vuelta)|..];
    var a := Allocation(ida, vuelta, Offer(pool2, nCctv));
    assert Proposed(a) == pool[..|Proposed(a)|] by {
      var n1, n2, n3 := |Reserves(ida)|, |Reserves(vuelta)|, |Reserves(a.cctv)|;
      assert Reserves(ida) == pool[..n1];
      assert Reserves(vuelta) == pool[n1..n1 + n2];
      assert Reserves(a.cctv) == pool[n1 + n2..n1 + n2 + n3];
      assert pool[..n1 + n2 + n3] == pool[..n1] + pool[n1..n1 + n2] + pool[n1 + n2..n1 + n2 + n3];
    }
    a
  }

  /**
   * The corrected allocation differs from the one as written only in the
   * auxiliary group, and only when the return group was proposed reserves.
   */
  lemma AllocateAgreesAsWritten(pool: seq<nat>, nIda: nat, nVuelta: nat, nCctv: nat)
    ensures var a := Allocate(pool, nIda, nVuelta, nCctv);
            var w := AllocateAsWritten(pool, nIda, nVuelta, nCctv);
            && a.ida == w.ida && a.vuelta == w.vuelta
            && (!a.vuelta.Propose? ==> a == w)
  {
  }

  /** From a duplicate-free pool the corrected allocation never proposes a strand twice. */
  lemma AllocateDistinct(pool: seq<nat>, nIda: nat, nVuelta: nat, nCctv: nat)
    requires NoDuplicates(pool)
    ensures NoDuplicates(Proposed(Allocate(pool, nIda, nVuelta, nCctv)))
  {
    var p := Proposed(Allocate(pool, nIda, nVuelta, nCctv));
    forall i, j | 0 <= i < j < |p| ensures p[i] != p[j] {
      assert p[i] == pool[i] && p[j] == pool[j];
    }
  }

  /** From a sorted pool every proposal consists of the smallest strands still free. */
  lemma OfferTakesSmallest(pool: seq<nat>, needed: nat)
    requires SortedAsc(pool)
    ensures var p := Offer(pool, needed);
            p.Propose? ==> forall i, j :: 0 <= i < needed <= j < |pool| ==> p.reserves[i] <= pool[j]
  {
  }

  // ---------------------------------------------------------------------------
  // Per-segment plans

  datatype SegmentPlan = SegmentPlan(
    segmentId: string,
    source: NodeId,
    target: NodeId,
    idaFaulty: seq<nat>,
    vueltaFaulty: seq<nat>,
    cctvFaulty: seq<nat>,
    allocation: Allocation)

  /** The sorted `Ok` reserve strands of a segment. */
  function ReservePool(s: Segment, roles: FiberRoles): seq<nat>
  {
    SortAsc(Select(s.fibers, roles.reserva, Ok))
  }

  predicate HasCommsFault(s: Segment, roles: FiberRoles)
  {
    Select(s.fibers, roles.commsIda, Averiado) != [] || Select(s.fibers, roles.commsVuelta, Averiado) != []
  }

  function PlanFor(s: Segment, roles: FiberRoles): SegmentPlan
  {
    var idaF := Select(s.fibers, roles.commsIda, Averiado);
    var vueltaF := Select(s.fibers, roles.commsVuelta, Averiado);
    var cctvF := Select(s.fibers, roles.cctv, Averiado);
    SegmentPlan(s.id, s.source, s.target, idaF, vueltaF, cctvF,
                Allocate(ReservePool(s, roles), |idaF|, |vueltaF|, |cctvF|))
  }

  /** A plan for each segment with a faulty communication strand, in segment order. */
  function Plans(segs: seq<Segment>, roles: FiberRoles): seq<SegmentPlan>
  {
    if segs == [] then []
    else
      var init := Plans(segs[..|segs| - 1], roles);
      var s := segs[|segs| - 1];
      if HasCommsFault(s, roles) then init + [PlanFor(s, roles)] else init
  }

  /**
   * Every plan belongs to a segment with a faulty communication strand, and
   * proposes only `Ok` reserve strands of that segment, none twice, smallest first.
   */
  lemma {:induction false} PlansSound(segs: seq<Segment>, roles: FiberRoles)
    requires NoDuplicates(roles.reserva)
    ensures forall p :: p in Plans(segs, roles) ==>
              exists i :: 0 <= i < |segs| && HasCommsFault(segs[i], roles) && p == PlanFor(segs[i], roles)
    ensures forall p :: p in Plans(segs, roles) ==> NoDuplicates(Proposed(p.allocation))
  {
    if segs != [] {
      var init := segs[..|segs| - 1];
      PlansSound(init, roles);
      forall p | p in Plans(segs, roles)
        ensures exists i :: 0 <= i < |segs| && HasCommsFault(segs[i], roles) && p == PlanFor(segs[i], roles)
        ensures NoDuplicates(Proposed(p.allocation))
      {
        if p in Plans(init, roles) {
          var i :| 0 <= i < |init| && HasCommsFault(init[i], roles) && p == PlanFor(init[i], roles);
          assert segs[i] == init[i];
        } else {
          assert p == PlanFor(segs[|segs| - 1], roles);
          PlanDistinct(segs[|segs| - 1], roles);
        }
      }
    }
  }

  /** The reserve pool holds each `Ok` reserve strand once. */
  lemma PoolDistinct(s: Segment, roles: FiberRoles)
    requires NoDuplicates(roles.reserva)
    ensures NoDuplicates(ReservePool(s, roles))
    ensures forall x :: x in ReservePool(s, roles) ==> x in roles.reserva && IsOk(s.fibers, x)
  {
    var sel := Select(s.fibers, roles.reserva, Ok);
    var pool := ReservePool(s, roles);
    SelectNoDuplicates(s.fibers, roles.reserva, Ok);
    forall i, j | 0 <= i < j < |pool| ensures pool[i] != pool[j] {
      if pool[i] == pool[j] {
        MultisetTwice(pool, i, j);
        NoDuplicatesCount(sel, pool[i]);
      }
    }
    forall x | x in pool ensures x in roles.reserva && IsOk(s.fibers, x) {
      assert x in multiset(pool);
      assert x in multiset(sel);
    }
  }

  /** A plan proposes only `Ok` reserve strands, none twice. */
  lemma PlanDistinct(s: Segment, roles: FiberRoles)
    requires NoDuplicates(roles.reserva)
    ensures NoDuplicates(Proposed(PlanFor(s, roles).allocation))
    ensures forall x :: x in Proposed(PlanFor(s, roles).allocation) ==> x in roles.reserva && IsOk(s.fibers, x)
  {
    var pool := ReservePool(s, roles);
    PoolDistinct(s, roles);
    var n1 := |Select(s.fibers, roles.commsIda, Averiado)|;
    var n2 := |Select(s.fibers, roles.commsVuelta, Averiado)|;
    var n3 := |Select(s.fibers, roles.cctv, Averiado)|;
    var a := Allocate(pool, n1, n2, n3);
    assert PlanFor(s, roles).allocation == a;
    AllocateDistinct(pool, n1, n2, n3);
    forall x | x in Proposed(a) ensures x in pool {
      var k :| 0 <= k < |Proposed(a)| && Proposed(a)[k] == x;
      assert pool[k] == x;
    }
  }

  lemma MultisetTwice(s: seq<nat>, i: nat, j: nat)
    requires i < j < |s| && s[i] == s[j]
    ensures multiset(s)[s[i]] >= 2
  {
    assert s == s[..i] + [s[i]] + s[i + 1..j] + [s[j]] + s[j + 1..];
  }

  lemma {:induction false} NoDuplicatesCount(s: seq<nat>, x: nat)
    requires NoDuplicates(s)
    ensures multiset(s)[x] <= 1
  {
    if s != [] {
      assert NoDuplicates(s[1..]) by {
        forall i, j | 0 <= i < j < |s[1..]| ensures s[1..][i] != s[1..][j] {
          assert s[1..][i] == s[i + 1] && s[1..][j] == s[j + 1];
        }
      }
      NoDuplicatesCount(s[1..], x);
      assert s == [s[0]] + s[1..];
      if s[0] == x {
        assert x !in s[1..] by {
          forall i | 0 <= i < |s[1..]| ensures s[1..][i] != x {
            assert s[1..][i] == s[i + 1];
          }
        }
      }
    }
  }

  /** One group's block of the allocation: offer the first `needed` reserves when there are that many, and take them out. */
  method TakeReserves(reservasOk: seq<nat>, needed: nat) returns (p: Proposal, rest: seq<nat>)
    ensures p == Offer(reservasOk, needed) && rest == reservasOk[|Reserves(p)|..]
  {
    p, rest := NoFault, reservasOk;
    if needed > 0 {
      if |reservasOk| >= needed {
        p := Propose(reservasOk[..needed]);
        rest := reservasOk[needed..];
      } else {
        p := Insufficient(|reservasOk|, needed);
      }
    }
  }

  /** The plan for one faulty segment: forward, then return, then auxiliary strands, each served from what is left. */
  method PlanSegment(s: Segment, roles: FiberRoles) returns (plan: SegmentPlan)
    ensures plan == PlanFor(s, roles)
  {
    var averiadasIda := Select(s.fibers, roles.commsIda, Averiado);
    var averiadasVuelta := Select(s.fibers, roles.commsVuelta, Averiado);
    var reservasOk := SortAsc(Select(s.fibers, roles.reserva, Ok));
    var cctvAveriadas := Select(s.fibers, roles.cctv, Averiado);
    var ida, vuelta, cctv;
    ida, reservasOk := TakeReserves(reservasOk, |averiadasIda|);
    vuelta, reservasOk := TakeReserves(reservasOk, |averiadasVuelta|);
    cctv, reservasOk := TakeReserves(reservasOk, |cctvAveriadas|);
    plan := SegmentPlan(s.id, s.source, s.target, averiadasIda, averiadasVuelta, cctvAveriadas,
                        Allocation(ida, vuelta, cctv));
  }

  /** The advisor's loop over the segments: a plan per faulty segment, and whether any segment had a communications fault. */
  method PlanReconnections(segs: seq<Segment>, roles: FiberRoles)
    returns (plans: seq<SegmentPlan>, anyCommsFault: bool)
    ensures plans == Plans(segs, roles)
    ensures anyCommsFault <==> exists i :: 0 <= i < |segs| && HasCommsFault(segs[i], roles)
  {
    plans := [];
    anyCommsFault := false;
    for i := 0 to |segs|
      invariant plans == Plans(segs[..i], roles)
      invariant anyCommsFault <==> exists j :: 0 <= j < i && HasCommsFault(segs[j], roles)
    {
      assert segs[..i + 1][..i] == segs[..i];
      if HasCommsFault(segs[i], roles) {
        anyCommsFault := true;
        var plan := PlanSegment(segs[i], roles);
        plans := plans + [plan];
      }
    }
    assert segs[..|segs|] == segs;
  }

  // ---------------------------------------------------------------------------
  // Strand statistics

  datatype FiberStats = FiberStats(
    commOk: nat, commTotal: nat,
    reserveOk: nat, reserveTotal: nat,
    cctvOk: nat, cctvTotal: nat)

  /** How many strands of a role list are `Ok` in one segment; a repeated index counts each time. */
  function OkCount(fibers: FiberMap, dir: seq<nat>): (n: nat)
    ensures n <= |dir|
    ensures n == |dir| <==> forall i :: 0 <= i < |dir| ==> IsOk(fibers, dir[i])
  {
    if dir == [] then 0
    else
      var rest := OkCount(fibers, dir[1..]);
      assert forall i :: 1 <= i < |dir| ==> dir[i] == dir[1..][i - 1];
      (if IsOk(fibers, dir[0]) then 1 else 0) + rest
  }

  /** The `Ok` count is the number of `Ok` strands the list selects. */
  lemma {:induction false} OkCountSelect(fibers: FiberMap, dir: seq<nat>)
    ensures OkCount(fibers, dir) == |Select(fibers, dir, Ok)|
  {
    if dir != [] {
      OkCountSelect(fibers, dir[1..]);
    }
  }

  /** The arithmetic step of the bound on `OkSum`. */
  lemma MulSucc(n: nat, m: nat)
    ensures (n + 1) * m == n * m + m
  {
  }

  /** The `Ok` count of one role list summed over segments; at most the number of segments times the list size. */
  function OkSum(segs: seq<Segment>, dir: seq<nat>): (n: nat)
    ensures n <= |segs| * |dir|
  {
    if segs == [] then 0
    else
      MulSucc(|segs| - 1, |dir|);
      OkSum(segs[..|segs| - 1], dir) + OkCount(segs[|segs| - 1].fibers, dir)
  }

  /** Counting over a role list split in two adds the counts of the two parts. */
  lemma {:induction false} OkCountAppend(fibers: FiberMap, d1: seq<nat>, d2: seq<nat>)
    ensures OkCount(fibers, d1 + d2) == OkCount(fibers, d1) + OkCount(fibers, d2)
  {
    if d1 != [] {
      assert (d1 + d2)[1..] == d1[1..] + d2;
      assert (d1 + d2)[0] == d1[0];
      OkCountAppend(fibers, d1[1..], d2);
    } else {
      assert d1 + d2 == d2;
    }
  }

  /** Summing over a segment list split in two adds the sums of the two parts; one segment contributes its own count. */
  lemma {:induction false} OkSumAppend(a: seq<Segment>, b: seq<Segment>, dir: seq<nat>)
    ensures OkSum(a + b, dir) == OkSum(a, dir) + OkSum(b, dir)
    ensures |b| == 1 ==> OkSum(b, dir) == OkCount(b[0].fibers, dir)
    decreases |b|
  {
    if b != [] {
      var b', last := b[..|b| - 1], b[|b| - 1];
      assert (a + b)[..|a + b| - 1] == a + b';
      assert (a + b)[|a + b| - 1] == last;
      OkSumAppend(a, b', dir);
      assert OkSum(b, dir) == OkSum(b', dir) + OkCount(last.fibers, dir);
    } else {
      assert a + b == a;
    }
  }

  /** Summed over segments, the count over a split role list is the sum of the counts over its parts. */
  lemma {:induction false} OkSumSplit(segs: seq<Segment>, d1: seq<nat>, d2: seq<nat>)
    ensures OkSum(segs, d1 + d2) == OkSum(segs, d1) + OkSum(segs, d2)
    decreases |segs|
  {
    if segs != [] {
      OkSumSplit(segs[..|segs| - 1], d1, d2);
      OkCountAppend(segs[|segs| - 1].fibers, d1, d2);
    }
  }

  /** With every strand of the list `Ok` in every segment, the sum reaches its bound. */
  lemma {:induction false} OkSumAllOk(segs: seq<Segment>, dir: seq<nat>)
    requires forall i, k :: 0 <= i < |segs| && k in dir ==> IsOk(segs[i].fibers, k)
    ensures OkSum(segs, dir) == |segs| * |dir|
  {
    if segs != [] {
      var init := segs[..|segs| - 1];
      assert forall i :: 0 <= i < |init| ==> init[i] == segs[i];
      OkSumAllOk(init, dir);
      MulSucc(|init|, |dir|);
      var f := segs[|segs| - 1].fibers;
      assert forall i :: 0 <= i < |dir| ==> IsOk(f, dir[i]) by {
        forall i | 0 <= i < |dir| ensures IsOk(f, dir[i]) {
          assert dir[i] in dir;
        }
      }
      assert OkCount(f, dir) == |dir|;
    }
  }

  /** The communication range is the forward strands followed by the return strands. */
  function CommRange(roles: FiberRoles): seq<nat>
  {
    roles.commsIda + roles.commsVuelta
  }

  /**
   * The statistics over all segments: the `Ok` counts of each role range and
   * the totals, which are the number of segments times the size of the range.
   */
  function StatsOf(segs: seq<Segment>, roles: FiberRoles): (st: FiberStats)
    ensures st.commOk <= st.commTotal && st.reserveOk <= st.reserveTotal && st.cctvOk <= st.cctvTotal
    ensures segs == [] ==> st == FiberStats(0, 0, 0, 0, 0, 0)
  {
    FiberStats(OkSum(segs, CommRange(roles)), |segs| * |CommRange(roles)|,
               OkSum(segs, roles.reserva), |segs| * |roles.reserva|,
               OkSum(segs, roles.cctv), |segs| * |roles.cctv|)
  }

  /**
   * The communication count is the working forward strands plus the working
   * return strands; the reserve and CCTV counts range over their own roles.
   */
  lemma StatsComm(segs: seq<Segment>, roles: FiberRoles)
    ensures var st := StatsOf(segs, roles);
            && st.commOk == OkSum(segs, roles.commsIda) + OkSum(segs, roles.commsVuelta)
            && st.reserveOk == OkSum(segs, roles.reserva) && st.cctvOk == OkSum(segs, roles.cctv)
  {
    OkSumSplit(segs, roles.commsIda, roles.commsVuelta);
  }

  /** Each total is the number of segments times the number of strands in its role range. */
  lemma StatsTotals(segs: seq<Segment>, roles: FiberRoles)
    ensures var st := StatsOf(segs, roles);
            && st.commTotal == |segs| * (|roles.commsIda| + |roles.commsVuelta|)
            && st.reserveTotal == |segs| * |roles.reserva| && st.cctvTotal == |segs| * |roles.cctv|
  {
    assert |CommRange(roles)| == |roles.commsIda| + |roles.commsVuelta|;
  }

  /** With every strand of every role `Ok` in every segment, each count equals its total. */
  lemma StatsAllOk(segs: seq<Segment>, roles: FiberRoles)
    requires forall i, k :: 0 <= i < |segs| && k in CommRange(roles) + roles.reserva + roles.cctv
               ==> IsOk(segs[i].fibers, k)
    ensures var st := StatsOf(segs, roles);
            st.commOk == st.commTotal && st.reserveOk == st.reserveTotal && st.cctvOk == st.cctvTotal
  {
    var all := CommRange(roles) + roles.reserva + roles.cctv;
    assert forall k :: k in CommRange(roles) || k in roles.reserva || k in roles.cctv ==> k in all;
    OkSumAllOk(segs, CommRange(roles));
    OkSumAllOk(segs, roles.reserva);
    OkSumAllOk(segs, roles.cctv);
  }

  /** The statistics loop over the segments. */
  method FiberStatistics(segs: seq<Segment>, roles: FiberRoles) returns (st: FiberStats)
    ensures st == StatsOf(segs, roles)
  {
    if segs == [] {
      return FiberStats(0, 0, 0, 0, 0, 0);
    }
    var comm := roles.commsIda + roles.commsVuelta;
    var commOk, reserveOk, cctvOk := 0, 0, 0;
    for i := 0 to |segs|
      invariant commOk == OkSum(segs[..i], comm)
      invariant reserveOk == OkSum(segs[..i], roles.reserva)
      invariant cctvOk == OkSum(segs[..i], roles.cctv)
    {
      assert segs[..i + 1][..i] == segs[..i];
      var fibers := segs[i].fibers;
      commOk := commOk + OkCount(fibers, comm);
      reserveOk := reserveOk + OkCount(fibers, roles.reserva);
      cctvOk := cctvOk + OkCount(fibers, roles.cctv);
    }
    assert segs[..|segs|] == segs;
    st := FiberStats(commOk, |segs| * |comm|, reserveOk, |segs| * |roles.reserva|, cctvOk, |segs| * |roles.cctv|);
  }

  // ---------------------------------------------------------------------------
  // Advisor summary

  /** The advisor's conclusions, with the wording of its messages left aside. */
  datatype Advice = Advice(
    errors: set<NodeId>,
    isolated: set<NodeId>,
    allConnected: bool,
    noCts: bool,
    plans: seq<SegmentPlan>,
    patchHint: bool,
    ringComplete: bool,
    brokenLinks: set<string>)

  /**
   * The summary: the CTs in error and isolated; "all connected" when there are
   * CTs and none is isolated or in error; "no CTs" when there are none; the
   * segment plans; a hint to check the patching at the center when CTs are
   * isolated but no communication strand is faulty; and the broken ring links.
   */
  function Advise(statuses: map<NodeId, CtStatus>, plans: seq<SegmentPlan>, anyCommsFault: bool,
                  ring: map<string, bool>): (a: Advice)
    ensures forall ct :: ct in a.errors <==> ct in statuses && statuses[ct] == Error
    ensures forall ct :: ct in a.isolated <==> ct in statuses && statuses[ct] == Aislado
    ensures a.allConnected <==> statuses != map[] && forall ct :: ct in statuses ==> statuses[ct] == Conectado
    ensures a.noCts <==> statuses == map[]
    ensures a.patchHint <==> !anyCommsFault && exists ct :: ct in statuses && statuses[ct] == Aislado
    ensures forall k :: k in a.brokenLinks <==> k in ring && !ring[k]
    ensures a.ringComplete <==> a.brokenLinks == {}
  {
    var errors := set ct | ct in statuses && statuses[ct] == Error;
    var isolated := set ct | ct in statuses && statuses[ct] == Aislado;
    var broken := set k | k in ring && !ring[k];
    var allConnected := isolated == {} && errors == {} && |statuses| > 0;
    assert allConnected <==> statuses != map[] && forall ct :: ct in statuses ==> statuses[ct] == Conectado by {
      if statuses != map[] && forall ct :: ct in statuses ==> statuses[ct] == Conectado {
        assert |statuses| != 0;
      }
      if allConnected {
        forall ct | ct in statuses ensures statuses[ct] == Conectado {
          assert ct !in isolated && ct !in errors;
        }
      }
    }
    assert isolated != {} <==> exists ct :: ct in statuses && statuses[ct] == Aislado by {
      if exists ct :: ct in statuses && statuses[ct] == Aislado {
        var ct :| ct in statuses && statuses[ct] == Aislado;
        assert ct in isolated;
      }
    }
    assert (forall k :: k in ring ==> ring[k]) <==> broken == {} by {
      if !(forall k :: k in ring ==> ring[k]) {
        var k :| k in ring && !ring[k];
        assert k in broken;
      }
    }
    Advice(errors, isolated, allConnected, |statuses| == 0, plans,
           !anyCommsFault && isolated != {}, forall k :: k in ring ==> ring[k], broken)
  }
}
