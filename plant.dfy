// The plant constants: default circuits, ring order, strand roles, the table
// of predefined plants and the two lookups over it.
module Plant {
  import opened Common

  type NodeId = string
  type CircuitId = string

  /** The central substation every circuit is fed from. */
  const Center: NodeId := "SET"

  /** An ordered table circuit -> field sites (CTs), as a Python dict in insertion order. */
  type CircuitTable = seq<(CircuitId, seq<NodeId>)>

  /** Which strand indices play which role in every segment, and how many strands there are. */
  datatype FiberRoles = FiberRoles(
    commsIda: seq<nat>,     // forward communications
    commsVuelta: seq<nat>,  // return communications
    reserva: seq<nat>,      // reserve
    cctv: seq<nat>,         // auxiliary (video)
    total: nat)

  /** A plant configuration; GPS coordinates are reduced to the set of nodes that have one. */
  datatype PlantConfig = PlantConfig(
    circuits: CircuitTable,
    ringOrder: seq<CircuitId>,
    fibers: FiberRoles,
    positioned: set<NodeId>)

  const DefaultCircuits: CircuitTable := [
    ("C1", ["CT21", "CT22"]),
    ("C2", ["CT12", "CT19", "CT20"]),
    ("C3", ["CT16", "CT17", "CT18"]),
    ("C4", ["CT13", "CT14", "CT15"]),
    ("C5", ["CT07", "CT10", "CT11"]),
    ("C6", ["CT04", "CT05", "CT06"]),
    ("C7", ["CT01", "CT02", "CT03"]),
    ("C8", ["CT09", "CT08"])
  ]

  const DefaultRingOrder: seq<CircuitId> := ["C1", "C2", "C3", "C4", "C5", "C6", "C7", "C8"]

  const DefaultFibrasCommsIda: seq<nat> := [1, 2]
  const DefaultFibrasCommsVuelta: seq<nat> := [3, 4]
  const DefaultFibrasReserva: seq<nat> := Range(5, 13)
  const DefaultFibrasCctv: seq<nat> := Range(13, 17)
  const DefaultTotalFibras: nat := 16

  const DefaultFiberRoles: FiberRoles := FiberRoles(
    DefaultFibrasCommsIda, DefaultFibrasCommsVuelta, DefaultFibrasReserva,
    DefaultFibrasCctv, DefaultTotalFibras)

  /** The nodes that have a GPS position in the "Sabinar I" entry. */
  const SabinarPositioned: set<NodeId> := {
    "SET", "CT01", "CT02", "CT03", "CT04", "CT05", "CT06", "CT07", "CT08", "CT09", "CT10",
    "CT11", "CT12", "CT13", "CT14", "CT15", "CT16", "CT17", "CT18", "CT19", "CT20",
    "CT21", "CT22"
  }

  const PlantConfigs: map<string, PlantConfig> := map[
    "Sabinar I" := PlantConfig(DefaultCircuits, DefaultRingOrder, DefaultFiberRoles, SabinarPositioned)
  ]

  /** Row i is the first row of the table naming circuit c. */
  ghost predicate FirstRow(circuits: CircuitTable, c: CircuitId, i: nat)
  {
    i < |circuits| && circuits[i].0 == c && forall j :: 0 <= j < i ==> circuits[j].0 != c
  }

  /** The CTs of a circuit, or none when the circuit is unknown (`circuitos.get(c, [])`). */
  function Lookup(circuits: CircuitTable, c: CircuitId): seq<NodeId>
  {
    if circuits == [] then []
    else if circuits[0].0 == c then circuits[0].1
    else Lookup(circuits[1..], c)
  }

  /** Lookup finds the first row naming the circuit, and nothing for a circuit the table does not name. */
  lemma {:induction false} LookupFirstRow(circuits: CircuitTable, c: CircuitId)
    ensures c !in CircuitNames(circuits) ==> Lookup(circuits, c) == []
    ensures forall i: nat :: FirstRow(circuits, c, i) ==> Lookup(circuits, c) == circuits[i].1
  {
    if circuits != [] && circuits[0].0 != c {
      LookupFirstRow(circuits[1..], c);
      assert CircuitNames(circuits) == [circuits[0].0] + CircuitNames(circuits[1..]);
      forall i: nat | FirstRow(circuits, c, i) ensures Lookup(circuits, c) == circuits[i].1 {
        assert FirstRow(circuits[1..], c, i - 1);
      }
    }
  }

  function CircuitNames(circuits: CircuitTable): (names: seq<CircuitId>)
    ensures |names| == |circuits|
    ensures forall i :: 0 <= i < |circuits| ==> names[i] == circuits[i].0
  {
    seq(|circuits|, i requires 0 <= i < |circuits| => circuits[i].0)
  }

  /** All field sites of all circuits, circuit by circuit. */
  function AllCts(circuits: CircuitTable): seq<NodeId>
  {
    if circuits == [] then [] else circuits[0].1 + AllCts(circuits[1..])
  }

  /** The four role lists are duplicate-free, pairwise disjoint and together are exactly 1..total. */
  ghost predicate RolesPartition(roles: FiberRoles)
  {
    && NoDuplicates(roles.commsIda) && NoDuplicates(roles.commsVuelta)
    && NoDuplicates(roles.reserva) && NoDuplicates(roles.cctv)
    && Elems(roles.commsIda) !! Elems(roles.commsVuelta)
    && Elems(roles.commsIda) !! Elems(roles.reserva)
    && Elems(roles.commsIda) !! Elems(roles.cctv)
    && Elems(roles.commsVuelta) !! Elems(roles.reserva)
    && Elems(roles.commsVuelta) !! Elems(roles.cctv)
    && Elems(roles.reserva) !! Elems(roles.cctv)
    && Elems(roles.commsIda) + Elems(roles.commsVuelta) + Elems(roles.reserva) + Elems(roles.cctv)
       == Elems(Range(1, roles.total + 1))
  }

  /** The ring order names every circuit exactly once. */
  ghost predicate RingIsPermutation(circuits: CircuitTable, ring: seq<CircuitId>)
  {
    && NoDuplicates(CircuitNames(circuits))
    && NoDuplicates(ring)
    && |ring| == |circuits|
    && Elems(ring) == Elems(CircuitNames(circuits))
  }

  /** No field site is listed twice over all circuits, and none is the center. */
  ghost predicate CircuitsPartitionCts(circuits: CircuitTable)
  {
    NoDuplicates(AllCts(circuits)) && Center !in AllCts(circuits)
  }

  lemma {:induction false} InAllCts(circuits: CircuitTable, i: nat, x: NodeId)
    requires i < |circuits| && x in circuits[i].1
    ensures x in AllCts(circuits)
  {
    if i > 0 {
      InAllCts(circuits[1..], i - 1, x);
    }
  }

  /** With no site listed twice, no CT appears in two different circuits. */
  lemma {:induction false} NoCtInTwoCircuits(circuits: CircuitTable, i: nat, j: nat)
    requires CircuitsPartitionCts(circuits)
    requires i < j < |circuits|
    ensures Elems(circuits[i].1) !! Elems(circuits[j].1)
  {
    var rest := AllCts(circuits[1..]);
    assert AllCts(circuits) == circuits[0].1 + rest;
    NoDuplicatesAppend(circuits[0].1, rest);
    if i == 0 {
      forall x | x in circuits[j].1 ensures x in Elems(rest) {
        InAllCts(circuits[1..], j - 1, x);
      }
    } else {
      NoCtInTwoCircuits(circuits[1..], i - 1, j - 1);
    }
  }

  lemma DefaultRoleLists()
    ensures DefaultFibrasReserva == [5, 6, 7, 8, 9, 10, 11, 12]
    ensures DefaultFibrasCctv == [13, 14, 15, 16]
    ensures Range(1, 17) == DefaultFibrasCommsIda + DefaultFibrasCommsVuelta + DefaultFibrasReserva + DefaultFibrasCctv
  {
  }

  lemma {:induction false} DefaultRolesPartition()
    ensures RolesPartition(DefaultFiberRoles)
    ensures |DefaultFibrasCommsIda| == 2 && |DefaultFibrasCommsVuelta| == 2
    ensures |DefaultFibrasReserva| == 8 && |DefaultFibrasCctv| == 4
  {
    DefaultRoleLists();
    var ida, vuelta, reserva, cctv := DefaultFibrasCommsIda, DefaultFibrasCommsVuelta, DefaultFibrasReserva, DefaultFibrasCctv;
    RangeProperties(1, 17);
    NoDuplicatesAppend(ida + vuelta + reserva, cctv);
    NoDuplicatesAppend(ida + vuelta, reserva);
    NoDuplicatesAppend(ida, vuelta);
    assert Elems(ida + vuelta + reserva) == Elems(ida) + Elems(vuelta) + Elems(reserva);
    assert Elems(ida + vuelta) == Elems(ida) + Elems(vuelta);
    assert Elems(Range(1, 17)) == Elems(ida) + Elems(vuelta) + Elems(reserva) + Elems(cctv);
  }

  lemma DefaultRingIsPermutation()
    ensures RingIsPermutation(DefaultCircuits, DefaultRingOrder)
  {
    assert CircuitNames(DefaultCircuits) == DefaultRingOrder;
    var r := DefaultRingOrder;
    forall i, j | 0 <= i < j < |r| ensures r[i] != r[j] {
      assert r[i][1] != r[j][1];
    }
  }

  /** The CTs of the default circuits, in circuit order. */
  const DefaultCtList: seq<NodeId> :=
    ["CT21", "CT22", "CT12", "CT19", "CT20", "CT16", "CT17", "CT18",
     "CT13", "CT14", "CT15", "CT07", "CT10", "CT11", "CT04", "CT05",
     "CT06", "CT01", "CT02", "CT03", "CT09", "CT08"]

  lemma DefaultCts()
    ensures AllCts(DefaultCircuits) == DefaultCtList
  {
  }

  lemma DefaultCtsDistinct()
    ensures NoDuplicates(DefaultCtList)
    ensures Center !in DefaultCtList
  {
    var all := DefaultCtList;
    forall i, j | 0 <= i < j < |all| ensures all[i] != all[j] {
      assert all[i][2] != all[j][2] || all[i][3] != all[j][3];
    }
    forall i | 0 <= i < |all| ensures all[i] != Center {
      assert all[i][0] != Center[0];
    }
  }

  /** The default plant has 22 distinct CTs, none of them the center. */
  lemma DefaultCircuitsPartitionCts()
    ensures CircuitsPartitionCts(DefaultCircuits)
    ensures |AllCts(DefaultCircuits)| == 22
  {
    DefaultCts();
    DefaultCtsDistinct();
  }

  /**
   * The configuration of a plant: a predefined plant gets its table entry, any
   * other plant the default circuits, ring order and strand roles without positions.
   */
  function GetPlantConfig(plantId: string): (cfg: PlantConfig)
    ensures cfg.circuits == DefaultCircuits && cfg.ringOrder == DefaultRingOrder
    ensures cfg.fibers == DefaultFiberRoles
    ensures plantId in PlantConfigs ==> cfg == PlantConfigs[plantId]
    ensures cfg.positioned == {} <==> plantId !in PlantConfigs
  {
    if plantId in PlantConfigs then PlantConfigs[plantId]
    else PlantConfig(DefaultCircuits, DefaultRingOrder, DefaultFiberRoles, {})
  }

  /** Every plant the lookup can return has a consistent layout and role partition. */
  lemma PlantConfigsWellFormed(plantId: string)
    ensures RolesPartition(GetPlantConfig(plantId).fibers)
    ensures RingIsPermutation(GetPlantConfig(plantId).circuits, GetPlantConfig(plantId).ringOrder)
    ensures CircuitsPartitionCts(GetPlantConfig(plantId).circuits)
  {
    DefaultRolesPartition();
    DefaultRingIsPermutation();
    DefaultCircuitsPartitionCts();
  }

  /** The CCTV installation at one CT: number of cameras and the poles carrying them. */
  datatype CctvSite = CctvSite(cameras: nat, poles: seq<string>)

  const CctvConfigs: map<string, map<NodeId, CctvSite>> := map[
    "Sabinar I" := map[
      "CT01" := CctvSite(2, ["B01", "B02"]),
      "CT05" := CctvSite(1, ["B03"]),
      "CT10" := CctvSite(3, ["B04", "B05", "B06"]),
      "CT15" := CctvSite(2, ["B07", "B08"]),
      "CT20" := CctvSite(1, ["B09"])
    ]
  ]

  /**
   * The CCTV layout of a plant (a copy of its entry), empty for a plant without one.
   * Every listed site is a CT of the default circuits with one pole per camera.
   */
  function GetCctvConfig(plantId: string): (r: map<NodeId, CctvSite>)
    ensures plantId !in CctvConfigs ==> r == map[]
    ensures plantId in CctvConfigs ==> r == CctvConfigs[plantId]
    ensures forall ct :: ct in r ==> r[ct].cameras == |r[ct].poles| && ct in AllCts(DefaultCircuits)
  {
    DefaultCircuitsPartitionCts();
    if plantId in CctvConfigs then CctvConfigs[plantId] else map[]
  }
}
