// Strand states, physical nodes and segments of the topology store.
module Fibers {
  import opened Common
  import opened Plant

  /** The state of one strand; every other stored value is read as `Ok`. */
  datatype Strand = Ok | Averiado

  /** Strand index -> state, as a segment's `fibers` dictionary. */
  type FiberMap = map<nat, Strand>

  datatype NodeKind = SetNode | CtNode

  /** A physical node with its kind and circuit membership. */
  datatype Node = Node(id: NodeId, kind: NodeKind, circuit: Option<CircuitId>)

  /** An undirected physical link between two nodes, with its strand map. */
  datatype Segment = Segment(
    id: string,
    source: NodeId,
    target: NodeId,
    circuit: Option<CircuitId>,
    fibers: FiberMap)

  function StrandName(s: Strand): string
  {
    match s
    case Ok => "ok"
    case Averiado => "averiado"
  }

  /** The state a caller names; only "ok" and "averiado" are accepted. */
  function ParseStrand(name: string): (r: Option<Strand>)
    ensures r.Some? <==> name == "ok" || name == "averiado"
    ensures r.Some? ==> StrandName(r.value) == name
  {
    if name == "ok" then Some(Ok)
    else if name == "averiado" then Some(Averiado)
    else None
  }

  lemma ParseStrandName(s: Strand)
    ensures ParseStrand(StrandName(s)) == Some(s)
  {
  }

  /** The state a strand starts in, whatever its index. */
  function InitialState(k: nat): Strand
  {
    Ok
  }

  /** A fresh strand map: indices 1..total, all `Ok`. */
  function InitialFibers(total: nat): (f: FiberMap)
    ensures forall k :: k in f <==> 1 <= k <= total
    ensures forall k :: k in f ==> f[k] == Ok
  {
    map k: nat | 1 <= k <= total :: InitialState(k)
  }

  /** Whether the strand at index k is present and `Ok` (`fibers.get(str(k)) == 'ok'`). */
  predicate IsOk(f: FiberMap, k: nat)
  {
    k in f && f[k] == Ok
  }

  /** Whether the strand at index k is present and faulty. */
  predicate IsAveriado(f: FiberMap, k: nat)
  {
    k in f && f[k] == Averiado
  }

  /** The identifier written as "u-v", as the store builds it for a segment from u to v. */
  function DashJoin(a: string, b: string): string
  {
    a + "-" + b
  }

  /** A segment answers to its stored id and to either "u-v" spelling of its endpoints. */
  predicate Matches(seg: Segment, segmentId: string)
  {
    seg.id == segmentId
    || DashJoin(seg.source, seg.target) == segmentId
    || DashJoin(seg.target, seg.source) == segmentId
  }

  /** Whether two segments join the same unordered pair of nodes. */
  predicate SamePair(s: Segment, u: NodeId, v: NodeId)
  {
    (s.source == u && s.target == v) || (s.source == v && s.target == u)
  }

  function NodeIds(nodes: seq<Node>): set<NodeId>
  {
    set i | 0 <= i < |nodes| :: nodes[i].id
  }
}
