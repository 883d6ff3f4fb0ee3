# Fiber ring diagnostics — a verified model

This project models the topology and diagnostic engine of a solar plant's
medium-voltage fibre network (the `NetworkModel` class and the plant constants
it reads) and proves properties of that model in Dafny.

The plant is a central substation `SET` and field sites (CTs) grouped in
circuits. Each circuit is a chain SET → first CT → … → last CT of physical
segments. Every segment carries a map of 16 strands, each `ok` or `averiado`
(faulty). Strands 1–2 carry traffic forward (*ida*), 3–4 carry it back
(*vuelta*), 5–12 are reserves and 13–16 carry video (CCTV).

From the physical topology the engine builds a **logical directed graph**:
- a segment u–v gives the edge u → v when one of its forward strands is `ok`;
- it gives v → u when one of its return strands is `ok`;
- then, walking the ring order of circuits, a patch edge joins the last CT of
  each circuit to the first CT of the next one, unless a short walk already
  joins them.

On that graph it:
- runs a depth-first search capped at 30 levels;
- classifies each CT as `conectado`, `aislado` or `error`;
- reports whether each link of the ring of circuits is intact;
- proposes reserve strands for faulty communication strands, first fit in
  ascending order;
- counts working strands per role.

Strand updates and restores change one segment's strand map in place,
invalidate the cached logical graph, and are logged to a history.

Modules, one per part of the engine:
- `Plant` (`plant.dfy`): the constants and the two configuration lookups.
- `Fibers` (`fibers.dfy`): strands, nodes and segments.
- `Reachability` (`reachability.dfy`): the bounded search as written and the
  corrected one.
- `LogicalGraph` (`logical_graph.dfy`): the edge rule and the ring patches.
- `Diagnostics` (`diagnostics.dfy`): CT status, ring map, reserve allocation,
  statistics and the advisor summary.
- `Topology` (`topology.dfy`): the default topology of a plant, and the
  theorem that it starts fully connected.
- `SegmentList` (`segment_list.dfy`): the de-duplicated, sorted segment listing.
- `Network` (`network_model.dfy`): the pure forms of the mutations, and the
  class `NetworkModel` whose fields are the topology, the cache and the
  history.
- `Common` (`common.dfy`): shared helpers.

The source's statement loops are methods, each proved equal to a
specification function: the search (`Reachability.HasPathLimitedIterative`,
`Reachability.PushNeighbors`), the ring patching
(`LogicalGraph.AddRingConnections`), the ring check
(`Diagnostics.RingIntegrity`), the repair planner (`Diagnostics.PlanSegment`,
`Diagnostics.PlanReconnections`, `Diagnostics.TakeReserves`), the statistics
(`Diagnostics.FiberStatistics`), the segment listing
(`SegmentList.DedupSegments`) and the topology and update loops of `Network`.
The properties are proved about the specification function, as lemmas or as
its `ensures`. Three loops are modelled by functions alone: the early-return
scan of `_check_segment_path_direction` (`LogicalGraph.AnyOk`), and the
advisor's list comprehensions, its sorted CT lists (`Diagnostics.Advise`,
`Diagnostics.SortAsc`) and its strand selections (`Diagnostics.Select`).

## Model

| member | source | states |
|---|---|---|
| Reachability.HasPathLimitedIterative | Beta_05/src/model/network_model.py:43-64 | The stack-and-visited-set loop terminates on every graph, cyclic ones included, and returns exactly the answer of the search function `HasPathLimited`, which is true at once when source equals target and never expands a frame whose depth has reached the cap |
| Reachability.PushNeighbors | Beta_05/src/model/network_model.py:56-60 | The inner loop pushes exactly the successors not yet visited, one level deeper, marking each one visited as it is pushed |
| Reachability.HasPathLimitedSound | Beta_05/src/model/network_model.py:43-64 | A true answer is backed by a walk of at most max_depth edges from source to target |
| Reachability.HasPathLimitedComplete | Beta_05/src/model/network_model.py:43-64 | On a well-formed graph with at most max_depth nodes the search finds every reachable target |
| Reachability.DepthFirstMissesShortPath | Beta_05/src/model/network_model.py:47-60 | There is a well-formed graph with a 3-edge walk from s to t for which the search with cap 3 answers false: marking a node visited when it is pushed deep blocks the short route through it |
| Reachability.HasPathWithin | Beta_05/src/model/network_model.py:43-64 | The corrected bounded search: true exactly when a walk of at most k edges joins source to target |
| Reachability.LimitedAgreesOnSmallGraphs | Beta_05/src/model/network_model.py:43-64 | On every well-formed graph with at most max_depth nodes the search as written and the corrected search give the same answer |
| Reachability.ReachableWithinMonotone | Beta_05/src/model/network_model.py:274-280 | Adding edges, as a patch does, never removes a short walk |
| Fibers.ParseStrand | Beta_05/src/model/network_model.py:455-456 | Exactly the two names `ok` and `averiado` are accepted, and each maps back to the name it came from |
| Fibers.ParseStrandName | Beta_05/src/model/network_model.py:455-456 | Parsing the name of a state gives that state back |
| Fibers.InitialFibers | Beta_05/src/model/network_model.py:200-202 | A fresh strand map has exactly the indices 1..total, each `ok` |
| LogicalGraph.AnyOk | Beta_05/src/model/network_model.py:240-249 | True exactly when some strand of the role list is present and `ok`; an empty strand map gives false |
| LogicalGraph.AddEdge | Beta_05/src/model/network_model.py:231-234 | Adding an edge makes both ends nodes, adds exactly that edge, and leaves every other node's successors alone |
| LogicalGraph.NodeGraph | Beta_05/src/model/network_model.py:219-220 | The graph starts with exactly the physical nodes and no edges |
| LogicalGraph.BaseGraphEdges | Beta_05/src/model/network_model.py:225-235 | Before patching, a → b is an edge exactly when some segment contributes it: a forward edge from a working forward strand, a return edge from a working return strand |
| LogicalGraph.SegmentEdgeRule | Beta_05/src/model/network_model.py:225-249 | With one segment per pair of nodes, u → v is an edge exactly when a forward strand of u–v is `ok`, and v → u exactly when a return strand is; the two are independent |
| LogicalGraph.BaseGraphShape | Beta_05/src/model/network_model.py:219-235 | The graph before patching has exactly the physical nodes, and every edge ends at a node |
| LogicalGraph.RingStep | Beta_05/src/model/network_model.py:259-280 | A ring step keeps the node set and every edge |
| LogicalGraph.RingStepPatches | Beta_05/src/model/network_model.py:262-280 | A ring step changes the graph only by adding the patch last → first of its own pair, and only when both CTs have circuits with CTs, both ends and the center are nodes, and no walk of at most 30 edges joins them yet |
| LogicalGraph.RingStepConnects | Beta_05/src/model/network_model.py:262-280 | After its step, a patchable ring pair is joined by a walk of at most 30 edges |
| LogicalGraph.RingPatchesConnect | Beta_05/src/model/network_model.py:256-281 | After all patches, every patchable ring pair is joined by a walk of at most 30 edges |
| LogicalGraph.RingStepAgrees | Beta_05/src/model/network_model.py:262-280 | Where the search as written and the corrected search agree on its pair, a ring position adds the same patch either way |
| LogicalGraph.PatchSearchesAgree | Beta_05/src/model/network_model.py:256-281 | From a well-formed graph with at most 30 nodes, every intermediate graph of the patch sequence is one too, so the two searches agree on the pair patched next |
| LogicalGraph.RingPatchesAgree | Beta_05/src/model/network_model.py:256-281 | From a well-formed graph with at most 30 nodes, the patches decided by the search as written are those decided by the corrected search |
| LogicalGraph.LogicalGraphAgrees | Beta_05/src/model/network_model.py:204-281 | When every segment joins two nodes and there are at most 30 nodes, the logical graph the source builds is the modelled one |
| LogicalGraph.RingPatchesOnlyRingPairs | Beta_05/src/model/network_model.py:256-281 | Every edge the patches add is the pair of some ring position whose ends and the center were nodes; a circuit without CTs yields none |
| LogicalGraph.LogicalGraphShape | Beta_05/src/model/network_model.py:217-238 | The logical graph has exactly the physical nodes, and every edge ends at a node |
| LogicalGraph.AddRingConnections | Beta_05/src/model/network_model.py:251-281 | The patch loop over the ring order computes the ring patches step by step; an empty ring order changes nothing |
| LogicalGraph.BuildDirectedLogicalGraph | Beta_05/src/model/network_model.py:217-238 | The build loop over the segments, followed by the patches, computes the logical graph of the topology |
| Diagnostics.ConnectivityOf | Beta_05/src/model/network_model.py:284-312 | `SET` is always connected; a node absent from the physical graph is an error; any other node is connected exactly when walks of at most 30 edges lead from SET to it and back, and isolated otherwise |
| Diagnostics.PairIntact | Beta_05/src/model/network_model.py:322-343 | A ring position is intact exactly when both circuits have CTs, the last CT of one differs from the first of the next, both are nodes, and a walk of at most 30 edges joins them |
| Diagnostics.RingMapKeys | Beta_05/src/model/network_model.py:322-343 | The ring map's keys are exactly the `"c-c'"` keys of the ring positions |
| Diagnostics.RingMapValues | Beta_05/src/model/network_model.py:322-343 | A position whose key is not repeated later maps to its own intactness |
| Diagnostics.RingMapSize | Beta_05/src/model/network_model.py:314-347 | When the ring names each circuit once and no name contains a dash, the map has exactly one key per ring position, so its size is the number of circuits, and each maps to that position's intactness |
| Diagnostics.RingIntegrity | Beta_05/src/model/network_model.py:314-344 | The ring check loop builds exactly the ring map |
| Diagnostics.RingIntactAfterPatches | Beta_05/src/model/network_model.py:251-281 | Because every ring position is patched, the check reports a position intact whenever its two CTs differ and, like SET, are physical nodes, whatever the state of the strands |
| Diagnostics.Select | Beta_05/src/model/network_model.py:534-540 | The selected indices are exactly the role-list entries whose strand is present and in the given state |
| Diagnostics.SelectNoDuplicates | Beta_05/src/model/network_model.py:534-540 | Selecting from a duplicate-free role list repeats nothing |
| Diagnostics.SortAsc | Beta_05/src/model/network_model.py:538 | Sorting gives an ascending permutation of its input |
| Diagnostics.Offer | Beta_05/src/model/network_model.py:548-567 | One group's proposal: nothing when no strand is faulty; the first `needed` reserves of the pool when there are that many; otherwise a shortfall naming what is available and what is needed |
| Diagnostics.AsWrittenProposesTwice | Beta_05/src/model/network_model.py:559-574 | As written, with one faulty return strand and one faulty CCTV strand, both are offered reserve 5, so one strand is proposed twice |
| Diagnostics.AsWrittenAllocation | Beta_05/src/model/network_model.py:548-574 | As written, forward strands are served from the pool and the rest of the pool serves both the return and the CCTV strands; no group is offered more reserves than its pool holds; whenever both the return and the CCTV groups get proposals, some reserve is proposed twice |
| Diagnostics.AllocateAgreesAsWritten | Beta_05/src/model/network_model.py:548-574 | The corrected allocation differs from the source's only in the CCTV group, and only when the return group gets a proposal |
| Diagnostics.Allocate | Beta_05/src/model/network_model.py:548-574 | The corrected allocation serves forward, then return, then CCTV strands, each from what is left; all it proposes is a prefix of the pool, so never more reserves than there are |
| Diagnostics.AllocateDistinct | Beta_05/src/model/network_model.py:548-574 | From a duplicate-free pool the corrected allocation never proposes a strand twice |
| Diagnostics.OfferTakesSmallest | Beta_05/src/model/network_model.py:538-555 | From a sorted pool a proposal consists of the smallest strands still free |
| Diagnostics.PoolDistinct | Beta_05/src/model/network_model.py:538 | The reserve pool holds each working reserve strand once, and only such strands |
| Diagnostics.PlanDistinct | Beta_05/src/model/network_model.py:528-576 | A segment's plan proposes only working reserve strands of that segment, none twice |
| Diagnostics.PlansSound | Beta_05/src/model/network_model.py:528-576 | Every plan belongs to a segment with a faulty communication strand, and proposes no reserve twice |
| Diagnostics.TakeReserves | Beta_05/src/model/network_model.py:548-557 | One group's block offers the first `needed` reserves when there are that many and takes them out of the pool; otherwise the pool is kept |
| Diagnostics.PlanSegment | Beta_05/src/model/network_model.py:534-574 | The per-segment block computes the segment's plan with the corrected allocation |
| Diagnostics.PlanReconnections | Beta_05/src/model/network_model.py:526-577 | The advisor's segment loop yields a plan per segment with a faulty communication strand, in order, and the fault flag is set exactly when some segment has such a fault |
| Diagnostics.OkCount | Beta_05/src/model/network_model.py:638-640 | A segment's count of working strands in a role list is at most the list's size, and reaches it exactly when every listed strand works |
| Diagnostics.OkCountSelect | Beta_05/src/model/network_model.py:638-640 | The count is the number of role-list entries whose strand is present and `ok` |
| Diagnostics.OkCountAppend | Beta_05/src/model/network_model.py:621-638 | Counting over two role lists joined together adds their counts, so the communication count is the forward count plus the return count |
| Diagnostics.OkSum | Beta_05/src/model/network_model.py:634-640 | Summed over segments, the count is at most the number of segments times the list's size |
| Diagnostics.OkSumAppend | Beta_05/src/model/network_model.py:634-640 | The sum over two segment lists joined together adds their sums; one segment contributes its own count |
| Diagnostics.OkSumSplit | Beta_05/src/model/network_model.py:621-638 | Summed over segments, the count over the communication range is the forward sum plus the return sum |
| Diagnostics.StatsOf | Beta_05/src/model/network_model.py:602-649 | Each working count is at most its total; no segments give all zeros |
| Diagnostics.StatsComm | Beta_05/src/model/network_model.py:620-640 | The communication count is the working forward strands plus the working return strands; the reserve and CCTV counts are the working strands of their own roles |
| Diagnostics.StatsTotals | Beta_05/src/model/network_model.py:625-627 | Each total is the number of segments times the size of its role range |
| Diagnostics.StatsAllOk | Beta_05/src/model/network_model.py:620-649 | With every strand of every role working in every segment, each count equals its total |
| Diagnostics.FiberStatistics | Beta_05/src/model/network_model.py:602-649 | The statistics loop computes exactly the statistics of the segment list |
| Diagnostics.Advise | Beta_05/src/model/network_model.py:497-514 | The summary names exactly the CTs in error and the isolated CTs; it says "all connected" exactly when there are CTs and all are connected, and "no CTs" exactly when there are none |
| Topology.AddCt | Beta_05/src/model/network_model.py:146-152 | Adding a CT adds its id to the node set; an id already present keeps its node; ids stay distinct |
| Topology.AddCts | Beta_05/src/model/network_model.py:146-152 | Adding a circuit's CTs adds exactly those ids, and ids stay distinct |
| Topology.InitNodes | Beta_05/src/model/network_model.py:141-152 | A fresh plant's nodes are SET and every CT of every circuit, with distinct ids |
| Topology.FindPair | Beta_05/src/model/network_model.py:164-184 | The first stored segment joining the two nodes in either orientation, or none when no segment joins them |
| Topology.AddLinkJoins | Beta_05/src/model/network_model.py:164-184 | Adding a link joins its two nodes and keeps every earlier segment's endpoints |
| Topology.AddLinkKeepsInv | Beta_05/src/model/network_model.py:164-184 | Adding a link between nodes keeps segments in node order, each pair joined once, with fresh strands |
| Topology.InitSegmentsProperties | Beta_05/src/model/network_model.py:154-184 | A fresh plant's segments join SET to each circuit's first CT and each CT to the next; they are stored in node order, join each pair once and carry only working strands |
| Topology.FreshPlantConnected | Beta_05/src/model/network_model.py:133-197 | In a freshly built plant whose circuits have at most 30 CTs and whose fresh strands work both ways, every CT of every circuit is connected |
| SegmentList.SortedPairSame | Beta_05/src/model/network_model.py:427 | Two pairs of endpoints have the same sorted key exactly when they join the same two nodes |
| SegmentList.Dedup | Beta_05/src/model/network_model.py:426-431 | De-duplication keeps only stored segments |
| SegmentList.DedupPairsUnique | Beta_05/src/model/network_model.py:426-431 | After de-duplication no unordered pair of nodes is joined twice |
| SegmentList.DedupKeepsFirsts | Beta_05/src/model/network_model.py:426-431 | De-duplication keeps the first entry of every pair of nodes |
| SegmentList.DedupOnlyFirsts | Beta_05/src/model/network_model.py:426-431 | De-duplication keeps nothing but the first entry of its pair |
| SegmentList.DedupCoversPairs | Beta_05/src/model/network_model.py:426-431 | Every pair of nodes the input joins is still joined after de-duplication |
| SegmentList.DedupUnique | Beta_05/src/model/network_model.py:426-431 | When no pair is joined twice, de-duplication keeps every entry |
| SegmentList.DedupSegments | Beta_05/src/model/network_model.py:422-447 | The listing loop with its set of seen pair keys keeps exactly the first entry of each pair of nodes: no pair twice, every pair still joined, nothing but first entries |
| SegmentList.SortByKey | Beta_05/src/model/network_model.py:450 | The listing is sorted by (circuit, id), with segments without a circuit under "ZZZ", and is a permutation of its input |
| SegmentList.SegmentDataPermutes | Beta_05/src/model/network_model.py:420-451 | With every pair joined once, the listing is a sorted permutation of the stored segments |
| Network.FindSegment | Beta_05/src/model/network_model.py:462-468 | The first segment that answers to the identifier, by its stored id or by either "u-v" spelling, or none when no segment answers |
| Network.FindMatch | Beta_05/src/model/network_model.py:462-468 | The search loop stops at the first matching segment |
| Network.FirstMatch | Beta_05/src/model/network_model.py:462-468 | A match with no match before it is the one the lookup finds |
| Network.UpdateEffect | Beta_05/src/model/network_model.py:453-491 | An update succeeds exactly when the state is valid, a segment matches and it has the strand; it then leaves that strand in the requested state and changes nothing else; an invalid state is rejected; the list changes only when the old state differed |
| Network.UpdateIdempotent | Beta_05/src/model/network_model.py:453-491 | Repeating an update changes nothing more, and a repeated success reports no change |
| Network.UpdateStrand | Beta_05/src/model/network_model.py:453-491 | The update loop computes the update's outcome and new segment list; it logs exactly one entry for a real change and none otherwise, and keeps every segment's endpoints |
| Network.RestoredFibers | Beta_05/src/model/network_model.py:673-677 | Restoring keeps the strand indices and leaves every strand `ok` |
| Network.RestoreEffect | Beta_05/src/model/network_model.py:651-687 | Restore finds the first matching segment; it leaves no faulty strand there, keeps its indices and every other segment, and reports how many strands were faulty; with none faulty nothing changes, and a second restore changes nothing and reports 0 |
| Network.RestoreStrands | Beta_05/src/model/network_model.py:674-677 | The loop over a strand map turns every faulty strand `ok`, keeps the others, and counts the faulty strands |
| Network.RestoreFirst | Beta_05/src/model/network_model.py:657-685 | The restore loop computes the restore's result; when it restores nothing the list is unchanged; endpoints are kept |
| Network.UpdateKeepsEndpoints | Beta_05/src/model/network_model.py:472-476 | An update never changes a segment's endpoints |
| Network.RestoreKeepsEndpoints | Beta_05/src/model/network_model.py:674-677 | A restore never changes a segment's endpoints |
| Network.BuildNodes | Beta_05/src/model/network_model.py:141-152 | The node loop builds the fresh plant's nodes |
| Network.AddCircuitNodes | Beta_05/src/model/network_model.py:147-152 | The loop over one circuit's CTs adds each one, or only updates the circuit of an id already present |
| Network.BuildSegments | Beta_05/src/model/network_model.py:154-184 | The link loop builds the fresh plant's segments |
| Network.BuildTopology | Beta_05/src/model/network_model.py:133-184 | The default topology has distinct node ids, segments in node order, and each pair joined once |
| Network.PlantTopology | Beta_05/src/model/network_model.py:133-197 | A plant's configuration and its default topology satisfy the store's invariant |
| Network.DefaultPlantFits | Beta_05/src/constants.py:10-27 | Every plant's circuits have at most 30 CTs, and its fresh strands work in both directions |
| Network.EveryPlantStartsConnected | Beta_05/src/model/network_model.py:284-312 | Right after a model is built, every CT of its plant is reported connected |
| Network.AddCircuitsIds | Beta_05/src/model/network_model.py:141-152 | Adding the first k circuits adds exactly their CTs to the node ids |
| Network.InitNodeIds | Beta_05/src/model/network_model.py:141-152 | When no CT is in two circuits and none is SET, a fresh plant's node ids are SET and the CTs, one node each |
| Network.PlantNodeIds | Beta_05/src/model/network_model.py:141-152 | Every plant starts with 23 nodes |
| Network.PlantGraphFits | Beta_05/src/model/network_model.py:204-238 | Over any plant's default nodes, whatever the segments, the logical graph is well formed and within the depth limit, so the search as written and the corrected search agree on it, and the graph the source builds with the search as written is the modelled one |
| Network.PlantRingMapSize | Beta_05/src/model/network_model.py:314-347 | For every plant the ring check reports exactly one entry per ring position, 8 for the default ring |
| Network.NetworkModel.constructor | Beta_05/src/model/network_model.py:84-103 | A new model holds its plant's default topology, an empty cache and an empty history, and satisfies the invariant |
| Network.NetworkModel.GraphFits | Beta_05/src/model/network_model.py:204-238 | In every valid state the logical graph is well formed with at most 30 nodes, so the search as written and the corrected search agree on it, and the graph the source builds with the search as written is the modelled one |
| Network.NetworkModel.GetLogicalGraph | Beta_05/src/model/network_model.py:204-215 | Returns the logical graph of the current topology; rebuilds and stamps the time when the cache is invalid, empty or older than 10 seconds; keeps the invariant |
| Network.NetworkModel.CheckCtConnectivity | Beta_05/src/model/network_model.py:284-312 | The status is the classification of the target over the current logical graph; SET and unknown nodes leave the cache untouched |
| Network.NetworkModel.CheckRingIntegrity | Beta_05/src/model/network_model.py:314-347 | The ring map of the current logical graph |
| Network.NetworkModel.GetSegmentData | Beta_05/src/model/network_model.py:420-451 | The de-duplicated listing of the stored segments, sorted by (circuit, id) |
| Network.NetworkModel.UpdateFiberStatus | Beta_05/src/model/network_model.py:453-491 | Applies the update to the stored segments and reports success as the source does; only a real change invalidates the cache and is logged; the invariant is kept |
| Network.NetworkModel.RestoreSegmentFibers | Beta_05/src/model/network_model.py:651-687 | Applies the restore to the stored segments; the cache is invalidated exactly when some strand was restored; the invariant is kept |
| Network.NetworkModel.GetFiberStatistics | Beta_05/src/model/network_model.py:602-649 | The statistics of the given segments under the active plant's strand roles |
| Network.NetworkModel.GetReconnectionSuggestions | Beta_05/src/model/network_model.py:493-600 | The advisor summary over the given statuses, the plans for the given segments and the ring map of the current logical graph |
| Plant.LookupFirstRow | Beta_05/src/model/network_model.py:262-263 | Looking a circuit up gives the CTs of its first row, and nothing for a circuit the table does not name |
| Plant.DefaultRoleLists | Beta_05/src/constants.py:23-27 | The reserve list is 5..12, the CCTV list is 13..16, and the four lists in order are exactly 1..16 |
| Plant.DefaultRolesPartition | Beta_05/src/constants.py:23-27 | The four role lists are duplicate-free and pairwise disjoint, and together cover exactly 1..16 |
| Plant.DefaultRingIsPermutation | Beta_05/src/constants.py:10-20 | The ring order names every circuit of the default table exactly once |
| Plant.DefaultCts | Beta_05/src/constants.py:10-19 | The CTs of the default circuits, in order |
| Plant.DefaultCtsDistinct | Beta_05/src/constants.py:10-19 | The 22 default CTs are distinct, and none is SET |
| Plant.DefaultCircuitsPartitionCts | Beta_05/src/constants.py:10-19 | The default circuits list 22 CTs, none twice and none SET |
| Plant.NoCtInTwoCircuits | Beta_05/src/constants.py:10-19 | When no CT is listed twice, no CT belongs to two circuits |
| Plant.GetPlantConfig | Beta_05/src/constants.py:81-106 | A known plant gets its table entry; any other plant gets the default circuits, ring order and strand roles with no GPS positions |
| Plant.PlantConfigsWellFormed | Beta_05/src/constants.py:30-106 | Every configuration the lookup returns has a role partition, a ring that permutes its circuits, and no CT twice |
| Plant.GetCctvConfig | Beta_05/src/constants.py:108-121 | A plant without a CCTV configuration gets an empty map, a known one its entry; every listed site is a default CT with one pole per camera |

## Left out

- Storage, I/O and logging are left out. The history log the store keeps is an append-only `history` sequence of the model.
- `threading.Lock` is left out: every method runs sequentially.
- The clock is an integer parameter `now`. The 10-second expiry and its strict comparison are kept.
- Network.NetworkModel.constructor takes the active plant's id. The source starts with the id "default", which has the same defaults. `set_active_plant`, `create_plant`, `rename_plant`, `delete_plant`, the save/load methods and `export_diagnostic` are storage glue and are not modelled.
- The branch of `_init_graph` that loads a stored graph is not modelled: it deserialises storage data. GPS coordinates are floats; a configuration keeps only the set of nodes that have one.
- `get_network_status` and the unused recursive `_has_path_limited` are not modelled.
- The wording of the advisor's messages is not modelled; Diagnostics.Advice keeps what the messages state.
- A stored strand value other than `ok`/`averiado`, and a segment without a strand dictionary, cannot arise in the model: a strand is two-valued and every segment has a map. The branches that repair them, including the coercion in `get_segment_data`, are therefore not modelled.
- Strand keys are the strings `str(k)` in the source and natural numbers `k` here.
- networkx is replaced by maps. Successors and segments are kept in insertion order. networkx groups edges by node, which can change which successor the depth-first search visits first, but not the corrected search.
- Topology.IndexOf returns the end of the list for an absent id. Callers only use it for ids that are present.
- SegmentList.SortByKey: the stability of Python's sort (entries with equal keys keep their order) is not stated in the contract.
- Diagnostics.PlanDistinct, Diagnostics.PlansSound, Diagnostics.PlanSegment, Diagnostics.PlanReconnections and Network.NetworkModel.GetReconnectionSuggestions use the corrected allocation Diagnostics.Allocate, which takes the return proposal out of the reserve pool before serving CCTV strands. The source does not (see Findings), so its plans can propose a reserve twice. Its allocation is Diagnostics.AsWrittenAllocation; Diagnostics.AllocateAgreesAsWritten proves the two differ only in the CCTV proposal, and only when return strands get a proposal.
- Diagnostics.Allocate reports a CCTV shortfall as `Insufficient`, which the source only implies by printing nothing.
- The diagnostics (CT status, ring integrity, ring patches) use the corrected search Reachability.HasPathWithin instead of the search as written. Reachability.LimitedAgreesOnSmallGraphs proves that the two agree on every well-formed graph with at most 30 nodes, and Network.NetworkModel.GraphFits that every valid model state's graph is one (a plant has 23 nodes). LogicalGraph.LogicalGraphAgrees proves the same for the intermediate graphs of the ring patching, so the logical graph built with the search as written is the modelled one. See Findings.
- Reachability.HasPathLimitedIterative: the source catches an exception raised by `successors` for a node absent from the graph and returns false. Here that case is the explicit test `n !in g`.

## Findings

| source | as written | input that shows it | evidently intended | confidence | as-written member | corrected member |
|---|---|---|---|---|---|---|
| Beta_05/src/model/network_model.py:47-60 | The search marks a node visited when it is pushed and does not expand a node at the depth cap. A node first reached through a long route is never expanded again, so a shorter route through it is lost. | Edges s→a, s→b, b→c, c→x, a→x, x→t with cap 3. The walk s→a→x→t has 3 edges, but x is first pushed at depth 3 via b and c, so t is never reached and the answer is false. | True exactly when a walk of at most the cap in edges exists. | not executed | Reachability.DepthFirstMissesShortPath | Reachability.HasPathWithin |
| Beta_05/src/model/network_model.py:559-574 | The return-strand proposal is not taken out of the reserve pool, unlike the forward one, so the CCTV proposal is drawn from the same strands. | One faulty return strand (3) and one faulty CCTV strand (13), all reserves `ok`: both are offered reserve 5. | Each proposal is taken out of the pool before the next group is served, so no reserve is proposed twice. | not executed | Diagnostics.AsWrittenProposesTwice | Diagnostics.AllocateDistinct |
