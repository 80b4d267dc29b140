# Verified preprocessing for Multi-Level Dijkstra

A Dafny model of the parts of OSRM that turn a road graph into a multi-level overlay, and of four
smaller pieces around it: contraction with exclusions, the shared-memory monitor with its
watchdogs, the live-traffic store, and the concurrent id map. Each operation is modelled as the
C++ code performs it (classes and arrays that are updated in place, loops, scans that carry
iterators along) and is proved against a definition that does not mention it.

## The main results

* **The overlay is exact.** After `Customization.Customize` the three arrays hold, at the address
  of every pair of source and destination of every cell on every level, the sums of the weights,
  durations and distances of the edges of one route inside the cell over allowed nodes. No such
  route has a smaller weight, none of that weight a smaller duration, and none of that weight and
  duration a smaller distance. The weight is invalid exactly when there is no route. The statement
  (`Customization.LevelCheapest`, `Routes.Cheapest`) names stored edges, nodes, sums and addresses
  only; `Customization.LevelExactIsCheapest` shows it equivalent to the exactness that the search
  keeps. The cells of a level are taken in any order. The proof is a Dijkstra invariant
  (`OverlaySearch`), a decomposition of every walk into lower-level segments (`OverlayExactness`)
  and an induction over levels (`Customization`).
* **From the edges on file to the answers.** `Preprocessing.Preprocess` is the partitioner behind
  the bisection followed by the customizer: load, repair, renumber, pack, lay out, save, load
  again, sort the adjacency, customize one metric for each exclusion filter. For every source and
  destination of a repaired cell the answer is the weight, duration and distance of a drive over
  the edges *on file* (forwards or backwards as each allows, repeated or not) that stays in the
  cell and passes the filter, under the nodes' old numbers; a weight below 1 counts as 1, no such
  drive weighs less, and the answer is invalid exactly when there is none
  (`FileWalks.LeastDrive`). Every stored edge keeps the turn id, duration and distance of an edge
  on file of its weight (`EdgeNormalisation.StoredIsOnFile`). It asks of the file what the
  extractor writes (one direction and a turn id of its own for each edge), of the partition that
  it is nested, and of sizes that cell numbers fit 64 bits and nothing wraps around; both size
  conditions are exact (`MultiLevelPartitions.Build`, `Preprocessing.FittingIff`). Between layout
  and customization weights may change and roads may be closed: the layout depends on the links it
  was made for, and the answers are least over the edges that are left
  (`CorrespondingNetworks.LayoutServesEveryUpdate`, `Preprocessing.RunCustomizer`).
* **Renumbering.** `Permutations.InplacePermutation` follows each cycle of the permutation once
  and moves every element to its new place. The new numbering puts border nodes first, so the
  offset table of the multi-level graph has rows for border nodes only
  (`Preprocessing.TableCoversBorderNodes`), and renumbering commutes with loading
  (`RenumberedEdges.RenamedIsLoaded`).
* **Pruning changes nothing.** Skipping the clique arcs of a node that was itself reached by a
  clique arc leaves every label as it would be without the shortcut.
* **Packing.** All levels of a nested partition fit one 64-bit word per node, faithfully, and it
  fails only if no choice of field widths would do (`LevelLayout.BitsSufficeIff`); the
  most-significant-bit lookup is the highest level on which two nodes differ; children of a cell
  are an interval, and the intervals tile.
* **Repair always succeeds** on loaded graphs, so the warning branch of the cell layout is dead.
  Every move leaves the moved node with the fewest crossings of cell borders, counted over its
  edges and the levels concerned, that a move to any candidate would leave
  (`PartitionRepair.BestMoveHasFewestCrossings`), and the count returned is the number of visits
  that met an unconnected node.
* **Runs.** Every interleaving of watchdogs, destructors and publishers keeps the monitor safe,
  serves waiters first in first out and never shows a half-swapped dataset. A swap serves the
  current regions, and a sleeping watchdog serves them or can wake
  (`DataWatchdogs.SleeperServesCurrent`). Every interleaving of id lookups gives each key its
  arrival number as id, reduced to the id type. The workers that customize the cells of a level
  settle node by node and store value by value in any interleaving, and a search may read each
  value at any moment of the level: every such run ends exact
  (`Interleaving.InterleavingIsExact`), with the values of the single-threaded loop, which is
  itself shown to be one of these runs (`Interleaving.CustomizeLevel`). Level after level this
  makes the whole parallel customization exact and its result unique
  (`Interleaving.ParallelCustomizationIsExact`, `Interleaving.ParallelCustomizationsAgree`).

## Where the code does less than its comments or callers suggest

* The edge offsets of `MultiLevelGraph` are 8 bits wide. The split of a node's edges on a level is
  exact if and only if the offset table has no row for the node (it is not node 0, and no edge
  across a border reaches it or a later node) or fewer than 256 of its edges stay in its cell
  (`EdgeOffsets.SplitsExactlyIff`). `LargeCells.BuildLargeCell` loads and builds a graph for which
  it is not, from 257 nodes on.
* The number of values of a cell is computed in 32 bits. Every slot has an address of its own
  inside the arrays if and only if no product wraps around (`CellMetrics.SlotsAreSeparateIff`).
  `LargeCells.BuildLargeCell` lays out a cell of 65536 border nodes, which is given room for no
  value at all.
* The iterators of `RelaxNode` fall out of step when a valid entry leads to an excluded node
  (`continue` skips their increments). They stay in step if and only if no such entry exists
  (`NodeRelaxation.IteratorsStayInStep`); exactness of the level below rules it out.
* `QueryEdge::operator<` compares end points only, so neither the lists handed to `Merge` nor the
  edges handed to `Insert` need be in merge order, and an edge can end up in the container twice:
  because of the new list (`ContractedEdges.UnsortedListsRepeatEdges`) or because of the container
  (`ContractedEdges.UnsortedContainerRepeatsEdges`). `ContractedEdges.NoDuplicateIff` is the exact
  condition for all pairs of lists: the container repeats no edge, the new list repeats none that
  is not stored, and for every new edge that is stored the new edges before it lead the scan to a
  stored copy and not beyond. On a container in merge order it says that no stored edge comes
  after a larger one in the new list (`ContractedEdges.SortedMergesCleanlyIff`). The first merge
  after `Insert` is clean if and only if neither list repeats an edge
  (`ExcludableContraction.FirstMergeIsClean`), and `ContractExcludableGraph` leaves no duplicate
  if and only if all its merges are clean. The views are exact all the same, except that
  `mergeCompare` does not look at the distance: of two edges that differ in nothing else only the
  first is stored, and it stands for the other in the views
  (`ContractedEdges.DistanceIsNotCompared`).
* `toContractorGraph` takes minima value by value: a stored edge can combine the weight of one
  parallel edge with the duration of another (`ContractorAdaptors.MinimaMixEdges`) and the id of a
  third. It is one of the parallel edges if and only if one of them is least in all three values
  (`ContractorAdaptors.StoredEdgeIsACopyIff`).
* A slot of the semaphore ring is created anew after 16384 enqueues. A posted waiter that has not
  woken up by then loses its post: `DataWatchdogs.WakeUpCanBeLost` gives the run,
  `DataWatchdogs.ReuseTakesThePost` the exact condition, `DataWatchdogs.NoLostWakeUp` the theorem
  for all runs in which no waiter falls that far behind.
* When no new samples arrive, stale traffic segments are kept, because the clean-up runs only
  after a non-empty drain (`LiveDataStores.AggregatePendingTrafficSamples`).
* Samples that arrive during an aggregation are published by a nested call first and can be
  overwritten by the older ones of the outer call (`LiveDataStores.OverwriteNewer`). A segment
  shows every user's latest sample of all calls if and only if no earlier call has a newer one
  (`TrafficHistory.SegmentIsLatestIff`). For one aggregation this says that no sample that arrives
  meanwhile is newer than the waiting one of its user (`TrafficHistory.OwnSegmentIsLatestIff`).
* The groups of one aggregation depend on the order of arrival exactly when the latest sample of
  some user on some geometry is not unique (`LiveTraffic.ArrivalOrderDoesNotMatterIff`).
* Scaling can turn a positive weight into zero (`LiveDataStores.ScalingKeepsOrder`) and changes
  the marker of unusable segments (`LiveDataStores.InvalidMarkerIsScaled`). A weight survives
  scaling if and only if the factor is within half a unit of 1, relative to the weight
  (`LiveDataStores.WeightSurvivesIff`).
* Ids are cast to the value type of the map, so the map is a bijection if and only if there are at
  most as many keys as ids (`ConcurrentIdMaps.BijectiveIff`). `ConcurrentIdMaps.IdsRunOut` gives
  the run for any larger number of keys, `ConcurrentIdMaps.DescriptionIdsRunOut` the one for lane
  descriptions with their 16-bit ids.

## Reading order

`RoadGraph`, `OverlayNetwork`, `Routes`, `OverlaySearch`, `OverlayExactness` hold the theory.
`Words`, `LevelLayout`, `NodeOrder`, `Runs`, `MultiLevelPartition`, `MultiLevelGraph`,
`EdgeOffsets`, `CellBoundaries`, `CellStorage`, `CellMetric` hold the data structures.
`QueryHeap`, `RelaxNode`, `CellCustomizer`, `Customization`, `Interleaving` hold the customizer.
`EdgeNormalisation`, `FileWalks`, `RemoveUnconnected`, `Permutation`, `Renumbering`,
`RenumberedEdges`, `CorrespondingNetworks`, `MldPipeline`, `Preparation`, `Preprocessing` put them
together, and `LargeCells` holds the inputs on which counters wrap around. The remaining files are
the smaller cores; `LiveTraffic`, `TrafficHistory`, `LiveDataStore` belong together.

## Model

| member | source | states |
|---|---|---|
| `RoadGraph.ExactIsUnique` | include/customizer/cell_customizer.hpp:90-106 | a slot that is exact for two nodes has one possible value: least cost of a walk, or none |
| `RoadGraph.WalkWeight` | include/partitioner/edge_based_graph_reader.hpp:42 | with weights of at least one a walk weighs at least as much as it has edges |
| `RoadGraph.ExactTriangle` | include/customizer/cell_customizer.hpp:152-158 | exact slots satisfy the triangle inequality that the comment on clique arcs appeals to |
| `OverlayNetwork.BoundaryBelow` | include/partitioner/cell_storage.hpp:263-289 | a border node of a cell is a border node of its sub-cells |
| `Routes.CostIsTotals` | include/customizer/cell_customizer.hpp:204-222 | the cost of a walk is the three sums of the weights, durations and distances of its edges |
| `Routes.ExactIsCheapest` | include/customizer/cell_customizer.hpp:90-106 | a slot is exact if and only if its three values are the sums over the edges of a route inside the cell that no other route undercuts by weight, then duration, then distance; invalid if and only if there is no route |
| `OverlaySearch.RelaxArcsIsRelaxed` | include/customizer/cell_customizer.hpp:179-193 | relaxing arcs one by one gives each node the least of its old label and all offers |
| `OverlaySearch.SearchStarts` | include/customizer/cell_customizer.hpp:61-62 | the labels after inserting the source satisfy the search invariant |
| `OverlaySearch.SettledLabelsAreFinal` | include/customizer/cell_customizer.hpp:67-81 | no arc out of the removed minimum improves a node removed earlier |
| `OverlaySearch.CliqueTriangle` | include/customizer/cell_customizer.hpp:152-158 | a clique arc followed by a clique arc is never better than the direct clique arc |
| `OverlaySearch.PruningChangesNothing` | include/customizer/cell_customizer.hpp:152-201 | at a node reached by a clique arc, relaxing its clique arcs or skipping them leaves the same labels |
| `OverlaySearch.SettleNode` | include/customizer/cell_customizer.hpp:65-84 | one round of the search loop, pruned or not, keeps the search invariant |
| `OverlayExactness.EveryWalkIsCovered` | include/customizer/cell_customizer.hpp:65-84 | every walk inside the cell is dominated by a queued node or by a final label |
| `OverlayExactness.SearchIsExact` | include/customizer/cell_customizer.hpp:33-111 | when the search stops, the label of every removed or unreachable destination is the least cost of a walk in the region |
| `QueryHeaps.QueryHeap.constructor` | include/util/query_heap.hpp:193-230 | an empty heap over a given number of nodes |
| `QueryHeaps.QueryHeap.Clear` | include/util/query_heap.hpp:220-226 | forgets all labels although the index array keeps its stale entries |
| `QueryHeaps.QueryHeap.WasInserted` | include/util/query_heap.hpp:283-292 | true exactly for nodes with a label, whatever stale index the array holds |
| `QueryHeaps.QueryHeap.Insert` | include/util/query_heap.hpp:231-239 | adds one label and queues the node |
| `QueryHeaps.QueryHeap.DeleteMin` | include/util/query_heap.hpp:327-352 | removes a queued node of least weight and keeps all labels |
| `QueryHeaps.QueryHeap.DecreaseKey` | include/util/query_heap.hpp:354-372 | lowers the weight of a queued node and nothing else |
| `Words.ValueOfBits` | include/partitioner/multi_level_partition.hpp:165-172 | writing a number into bits and reading it back gives the number |
| `Words.WriteFieldBits` | include/partitioner/multi_level_partition.hpp:165-172 | clearing a field and or-ing a shifted id changes the bits of that field only |
| `Words.FieldMaskBits` | include/partitioner/multi_level_partition.hpp:207-224 | the xor of two low masks has ones exactly between the two offsets |
| `Words.Msb` | include/partitioner/multi_level_partition.hpp:107-114 | the highest one bit of a word that is not zero |
| `LevelLayout.MakeLevelOffsets` | include/partitioner/multi_level_partition.hpp:175-200 | running sums of the bit lengths; fails exactly when they need more than 64 bits |
| `LevelLayout.MakeLevelMasks` | include/partitioner/multi_level_partition.hpp:202-227 | the mask of a level has ones exactly on the bits of its field, also when the field ends at bit 64 |
| `LevelLayout.MakeBitToLevel` | include/partitioner/multi_level_partition.hpp:229-245 | every bit is mapped to the level whose field contains it |
| `LevelLayout.MakeLevelData` | include/partitioner/multi_level_partition.hpp:149-156 | valid level data if and only if fields that hold all cell numbers can fit 64 bits together |
| `LevelLayout.BitsSufficeIff` | include/partitioner/multi_level_partition.hpp:175-200 | the computed bit lengths fit 64 bits if and only if some choice of field widths that holds all cell numbers does |
| `LevelLayout.ReadCellIsField` | include/partitioner/multi_level_partition.hpp:93-99 | mask and shift read the number stored in the field of the level |
| `LevelLayout.ReadCellByDivision` | include/partitioner/multi_level_partition.hpp:93-99 | mask and shift are quotient and remainder: the word divided by 2 to the offset, modulo 2 to the width |
| `LevelLayout.WriteCellFields` | include/partitioner/multi_level_partition.hpp:165-172 | writing one level sets its field and disturbs no other |
| `LevelLayout.HighestDifferentLevelIsHighest` | include/partitioner/multi_level_partition.hpp:107-114 | the bit lookup gives the highest level whose fields differ, 0 if the words are equal |
| `NodeOrder.StableSortOrders` | include/partitioner/multi_level_partition.hpp:273-280 | stable sorts from the finest to the coarsest level order nodes by the coarsest cell first, then the next |
| `Runs.RunIdSeparates` | include/partitioner/multi_level_partition.hpp:287-297 | along grouped values, two positions get the same running id exactly when their values agree |
| `Runs.ChildStartsBracket` | include/partitioner/multi_level_partition.hpp:311-324 | the recorded starts bracket exactly the child ids of each parent run |
| `MultiLevelPartitions.SetCellID` | include/partitioner/multi_level_partition.hpp:165-172 | one node's id on one level changes, every other id of every node stays |
| `MultiLevelPartitions.SortNodes` | include/partitioner/multi_level_partition.hpp:249-280 | a permutation of the nodes in which every cell of every level is contiguous |
| `MultiLevelPartitions.AssignLevel` | include/partitioner/multi_level_partition.hpp:287-299 | ids of one level follow the runs of cells, and the sentinel counts them |
| `MultiLevelPartitions.BuildChildren` | include/partitioner/multi_level_partition.hpp:303-325 | the child table of every level holds the starts of the children of each cell |
| `MultiLevelPartitions.Build` | include/partitioner/multi_level_partition.hpp:75-81 | succeeds exactly when some choice of field widths fits 64 bits, and then packs the nested input partition |
| `MultiLevelPartitions.PackingIsFaithful` | include/partitioner/multi_level_partition.hpp:247-301 | packed ids of two nodes agree on a level exactly when the input cells agree |
| `MultiLevelPartitions.IdsAreDense` | include/partitioner/multi_level_partition.hpp:118-121 | ids of a level are 0 to n - 1, each used, and n is the number of input cells |
| `MultiLevelPartitions.HighestDifferentLevelSplits` | include/partitioner/multi_level_partition.hpp:107-114 | cells of two nodes differ on a level exactly when the looked-up level is at least that high |
| `MultiLevelPartitions.ChildrenAreIntervals` | include/partitioner/multi_level_partition.hpp:124-139 | the sub-cells of a cell are exactly the ids from BeginChildren up to EndChildren |
| `MultiLevelPartitions.ChildIntervalsTile` | include/partitioner/multi_level_partition.hpp:303-325 | the child intervals of consecutive cells join, from 0 to the number of sub-cells |
| `MultiLevelGraphs.FindHighestBorderLevels` | include/partitioner/multi_level_graph.hpp:159-167 | each edge gets the level on which its ends lie in different cells while they agree on all levels above, 0 if they agree on all |
| `MultiLevelGraphs.FindMaxBorderNode` | include/partitioner/multi_level_graph.hpp:78-88 | the largest end of an edge across a border, 0 if there is none |
| `MultiLevelGraphs.InitializeNodeArray` | include/util/static_graph.hpp:286-311 | each node's edges are the range between its entry and the next |
| `MultiLevelGraphs.InitializeOffsets` | include/partitioner/multi_level_graph.hpp:188-218 | every table entry is the number of edges below a level, reduced to 8 bits |
| `MultiLevelGraphs.Build` | include/partitioner/multi_level_graph.hpp:64-97 | a rearrangement of the input edges in ascending order of source, then border level, then target, with both tables filled |
| `MultiLevelGraphs.BorderStartIsCut` | include/partitioner/multi_level_graph.hpp:118-136 | the border start is the true one exactly when the offset fits, also beyond the truncated table |
| `MultiLevelGraphs.RangeSplitIsExact` | include/partitioner/multi_level_graph.hpp:101-136 | the internal range holds exactly the edges that stay in the cell and the border range the rest, if and only if the 8-bit offset fits |
| `EdgeOffsets.TableCovers` | include/partitioner/multi_level_graph.hpp:78-97 | the table has a row for a node if and only if it is node 0 or an edge across a lowest-level border reaches it or a later node |
| `EdgeOffsets.SplitsExactlyIff` | include/partitioner/multi_level_graph.hpp:101-136 | the same in terms of the input: the ranges are exact if and only if the table does not cover the node or fewer than 256 of its edges stay in its cell |
| `LargeCells.CellIsListed` | include/partitioner/cell_storage.hpp:258-291 | in the graph loaded from these roads all n nodes of the cell are sources and destinations, so its matrix has n rows and n columns |
| `LargeCells.FirstNodeOverflows` | include/partitioner/multi_level_graph.hpp:209-210 | in the same graph, from 257 nodes on, the first node has 256 or more edges inside its cell and a row in the offset table |
| `LargeCells.BuildLargeCell` | include/partitioner/cell_storage.hpp:349-355 | loading, packing and laying out this graph: with more than 256 nodes the ranges of the first node are not exact, with 65536 the block size 2^32 becomes 0 in 32 bits, and from there on slots are not separate |
| `MultiLevelGraphs.GraphStoresEdges` | include/partitioner/multi_level_graph.hpp:64-97 | the adjacency ranges hold every input edge and no other |
| `CellBoundaries.ScanNode` | include/partitioner/cell_storage.hpp:258-272 | the three flags say whether a node is on the border and has inner outgoing and incoming edges |
| `CellBoundaries.CollectLevel` | include/partitioner/cell_storage.hpp:253-291 | lists exactly the sources and destinations of a level; the warning count is the number of unconnected border nodes |
| `CellBoundaries.InsertCellBoundaries` | include/partitioner/cell_storage.hpp:297-337 | each cell's span names its own nodes in the shared boundary array |
| `CellBoundaries.InsertLevel` | include/partitioner/cell_storage.hpp:293-337 | after sorting and inserting, every cell of the level lists its members in ascending order; earlier levels stay |
| `CellStorages.CountCells` | include/partitioner/cell_storage.hpp:234-242 | running totals of the cells of the finer levels |
| `CellStorages.SetValueOffsets` | include/partitioner/cell_storage.hpp:349-355 | blocks follow each other, with each size computed in 32 bits |
| `CellStorages.Build` | include/partitioner/cell_storage.hpp:230-356 | every cell of every level lists exactly its sources and destinations; the warning count is zero exactly when no border node is unconnected |
| `CellStorages.RowsAndColumns` | include/partitioner/cell_storage.hpp:258-291 | the rows of a cell are its nodes with a link out of the cell and one that may be left inside it, the columns those with a link out that may be entered inside or have no way on, in terms of links and cells only |
| `CellMetrics.RowAndColumnMeet` | include/partitioner/cell_storage.hpp:134-159 | the row view at the destination's index and the column view at the source's index name the same slot |
| `CellMetrics.BlocksAreSeparateIff` | include/partitioner/cell_storage.hpp:349-355 | no address lies in two blocks or outside the arrays if and only if no 32-bit product wraps around |
| `CellMetrics.SlotsAreSeparateIff` | include/partitioner/cell_storage.hpp:134-144 | every (cell, source, destination) has a slot of its own inside the arrays if and only if rows times columns stays below 2^32 in every cell |
| `CellMetrics.CellMetric.constructor` | include/partitioner/cell_storage.hpp:358-377 | a metric of one value per slot and one spare, all invalid |
| `NodeRelaxation.IteratorsStayInStep` | include/customizer/cell_customizer.hpp:160-199 | the three iterators stay in step with the weights if and only if every valid entry leads to an allowed node |
| `NodeRelaxation.ScanFindsValidSlots` | include/customizer/cell_customizer.hpp:166-199 | in step, the scan relaxes exactly the valid entries with their own costs |
| `NodeRelaxation.Relax` | include/customizer/cell_customizer.hpp:179-193 | inserts or lowers a label exactly when the offer is lexicographically less; only queued nodes are lowered |
| `NodeRelaxation.RelaxCliqueArcs` | include/customizer/cell_customizer.hpp:160-199 | the heap afterwards holds the labels relaxed with all clique arcs of the node |
| `NodeRelaxation.RelaxEdges` | include/customizer/cell_customizer.hpp:204-231 | the heap afterwards holds the labels relaxed with exactly the usable forward edges between sub-cells; what these labels amount to is `Customization.Customize` |
| `CellCustomizers.ExactLevelIsGoodClique` | include/customizer/cell_customizer.hpp:160-199 | the matrices of an exact level are a clique of exact distances between its sources and destinations |
| `CellCustomizers.RelaxNode` | include/customizer/cell_customizer.hpp:137-232 | settling a node keeps the search invariant, with and without pruning |
| `CellCustomizers.Search` | include/customizer/cell_customizer.hpp:61-84 | terminates, keeps the search invariant, and stops only when every allowed destination is final or unreachable |
| `CellCustomizers.WriteRow` | include/customizer/cell_customizer.hpp:86-109 | writes label or invalid values into the row of the source and into no other slot |
| `CellCustomizers.CellStaysExact` | include/customizer/cell_customizer.hpp:122-133 | writing one cell leaves every other cell exact |
| `CellCustomizers.OutsideRegionIsDisconnected` | include/customizer/cell_customizer.hpp:48-51 | an excluded source has no walk, so the invalid row it keeps is exact |
| `Customization.CustomizeRow` | include/customizer/cell_customizer.hpp:46-110 | the row of an allowed source becomes exact, holding the labels a search over the values before ended with; rows done before stay exact and nothing outside the row changes |
| `Customization.CustomizeCell` | include/customizer/cell_customizer.hpp:34-111 | all slots of the cell become exact and no slot outside changes; the rows were searched and stored one after the other |
| `Customization.CustomizeSource` | include/customizer/cell_customizer.hpp:46-51 | an excluded source is skipped and its row is exact already; an allowed one is searched and stored |
| `Customization.Customize` | include/customizer/cell_customizer.hpp:114-134 | on all levels every slot of every cell, read at its address, holds weight, duration and distance of a cheapest route of stored edges inside the cell, with the invalid marks exactly where there is none; for any order of the cells of a level |
| `Customization.LevelExactIsCheapest` | include/customizer/cell_customizer.hpp:86-106 | a level is exact if and only if the values at all its addresses are those of cheapest routes, with 2^31 - 1 and the largest float as marks where there is none |
| `OverlaySearch.RoundFollows` | include/customizer/cell_customizer.hpp:65-84 | the rounds of a search extend one by one: remove a cheapest node, relax what leaves it |
| `Interleaving.ViewIsExactBelow` | include/customizer/cell_customizer.hpp:160-199 | whenever during the level a search reads each weight, duration and distance of the level below, it reads the exact one |
| `Interleaving.RoundKeepsSearch` | include/customizer/cell_customizer.hpp:65-84 | a round over values read at any moments keeps the invariant of a search over the values at the start of the level |
| `Interleaving.StoreKeepsOwn` | include/customizer/cell_customizer.hpp:86-106 | storing one of the three values of a slot keeps the worker's slots exact, and completes the slot with the third |
| `Interleaving.StepKeepsGood` | include/customizer/cell_customizer.hpp:122-133 | every skip, start, round and end of a search, stored value and row end of every worker keeps all slots done exact, all slots to be skipped invalid, all searches in their invariant, and everything off the level unchanged |
| `Interleaving.InterleavingIsExact` | include/customizer/cell_customizer.hpp:122-133 | in every interleaving of the workers of a level, once all are through, every slot of the level is exact and no other value has changed |
| `Interleaving.InterleavingDoesNotMatter` | include/customizer/cell_customizer.hpp:122-133 | all finished interleavings from the same values leave the same values |
| `Interleaving.LevelFollows` | include/customizer/cell_customizer.hpp:120-133 | a full run of the next level keeps the levels below exact and leaves those above ready |
| `Interleaving.ParallelCustomizationIsExact` | include/customizer/cell_customizer.hpp:120-133 | a metric that was just made, customized level after level by parallel workers in any interleaving, holds on all levels the three sums of cheapest routes |
| `Interleaving.ParallelCustomizationsAgree` | include/customizer/cell_customizer.hpp:120-133 | two parallel customizations from the same values agree after every level |
| `Interleaving.ExactSlotsAgree` | include/customizer/cell_customizer.hpp:114-134 | a slot of an exact level has one possible weight, duration and distance, whether the cells were taken in parallel or one after the other |
| `Interleaving.CustomizeLevel` | include/customizer/cell_customizer.hpp:122-133 | the loop of one thread over the cells of a level is itself such a run, and every other run ends with its values |
| `EdgeNormalisation.SplitBidirectionalEdges` | include/partitioner/edge_based_graph_reader.hpp:28-62 | the edges with a valid weight in both directions, with flags to match, the weight raised to 1 if below, and the same turn id, duration and distance; nothing else |
| `EdgeNormalisation.PrepareEdgesForUsageInGraph` | include/partitioner/edge_based_graph_reader.hpp:64-138 | for each pair of different nodes the least weight of each direction, merged or as two edges, each with turn id, duration and distance of an input edge of that weight; no loops |
| `EdgeNormalisation.LoadEdges` | include/partitioner/edge_based_graph_reader.hpp:186-197 | every stored edge has the turn id, duration and distance of an edge on file, and its weight or 1 if that is less than 1; for each pair of different nodes the least weight of each direction |
| `EdgeNormalisation.StoredIsOnFile` | include/partitioner/edge_based_graph_reader.hpp:28-138 | every stored edge stands for an edge on file that may be driven that way: same turn id, duration and distance, weight raised to 1 if below |
| `EdgeNormalisation.CheapestIsLoadedAt` | include/partitioner/edge_based_graph_reader.hpp:42 | if an edge on file is the lightest from one node to another, the graph has a forward edge between them at exactly its weight if that is at least 1, and at 1 otherwise |
| `EdgeNormalisation.LoadingKeepsCosts` | include/partitioner/edge_based_graph_reader.hpp:28-138 | the graph has a forward edge of weight w exactly when w is the least clamped weight the list offers, and the backward edge at the other end |
| `EdgeNormalisation.LoadedGraphIsMirrored` | include/partitioner/edge_based_graph_reader.hpp:28-138 | every stored edge has a mirror with swapped flags and the same weight |
| `EdgeNormalisation.GraphToEdges` | include/partitioner/edge_based_graph_reader.hpp:140-184 | forward edges stored at their turn id, gaps left as loops |
| `EdgeNormalisation.ForwardTurnsAreDistinct` | include/partitioner/edge_based_graph_reader.hpp:165-180 | no two forward edges are written to the same entry |
| `EdgeNormalisation.ReloadIsIdentity` | include/partitioner/edge_based_graph_reader.hpp:140-197 | saving and loading again gives the same sources, targets, weights and flags |
| `EdgeNormalisation.Reload` | include/partitioner/edge_based_graph_reader.hpp:140-197 | the round trip as a program |
| `FileWalks.SameLeastWeight` | include/partitioner/edge_based_graph_reader.hpp:28-138 | lists of hops that are no dearer than each other, under any renaming of nodes, have the same least walk weights |
| `FileWalks.LoadedSlotIsLeastOnFile` | include/partitioner/edge_based_graph_reader.hpp:28-138 | an exact slot of the loaded graph holds the least clamped weight of a walk over the edges on file, invalid exactly when there is none |
| `FileWalks.LoadedWalkIsDrive` | include/partitioner/edge_based_graph_reader.hpp:28-138 | every walk over the loaded graph is a drive over edges on file through the same region with the same duration and distance, and the same weight with weights below 1 counted as 1 |
| `FileWalks.LoadedSlotIsLeastDrive` | include/partitioner/edge_based_graph_reader.hpp:28-138 | an exact slot of the loaded graph holds weight, duration and distance of a drive over edges on file inside the cell, and no such drive weighs less; invalid exactly when there is none |
| `Permutations.OrderingToPermutation` | include/util/permutation.hpp:59-67 | the inverse of the ordering |
| `Permutations.FollowCycle` | include/util/permutation.hpp:45-55 | one cycle with one buffer: its elements are moved to their places, no other is touched, and it ends where it began |
| `Permutations.InplacePermutation` | include/util/permutation.hpp:21-57 | every element ends up at its new number, for every permutation |
| `Renumbering.GetHighestBorderLevel` | src/partitioner/renumber.cpp:10-36 | for every node the highest level at which it is an end of an edge across a border, 0 if there is none |
| `Renumbering.MakePermutation` | src/partitioner/renumber.cpp:39-66 | a permutation in which higher border levels come first and nodes of one border level follow the nested cells |
| `Renumbering.RenumberPartitions` | include/partitioner/renumber.hpp:42-49 | the cell of every node is found under its new number, on every level |
| `Renumbering.RenumberedIsNested` | include/partitioner/renumber.hpp:42-49 | the renumbered partition is still nested |
| `RenumberedEdges.RenumberEdges` | include/util/dynamic_graph.hpp:408-432 | every end of every edge gets its new number |
| `RenumberedEdges.RenamedIsLoaded` | include/util/dynamic_graph.hpp:408-432 | the renumbered graph is the graph that the renumbered edge list would have been loaded into |
| `CorrespondingNetworks.RolesCorrespond` | include/partitioner/cell_storage.hpp:258-291 | border nodes, sources and destinations depend on links and cells only: they survive renumbering, reweighting and renaming of cells |
| `CorrespondingNetworks.RegionsCorrespond` | include/customizer/cell_customizer.hpp:34-51 | corresponding nodes lie in corresponding cells and pass corresponding filters |
| `CorrespondingNetworks.LayoutServesEveryUpdate` | src/customize/customizer.cpp:73-96 | a layout serves whatever edges are left of the links it was made for, at whatever weights |
| `PartitionRepair.VisitKeepsNesting` | include/partitioner/remove_unconnected.hpp:60-100 | one visit keeps the partition nested and changes no coarser level |
| `PartitionRepair.NeverStuck` | include/partitioner/remove_unconnected.hpp:60-73 | with the coarser levels settled, an unconnected node always has a witness |
| `PartitionRepair.MoveKeepsSettled` | include/partitioner/remove_unconnected.hpp:95-99 | moving an unconnected node settles it and unsettles nobody on this level |
| `PartitionRepair.FindBest` | include/partitioner/remove_unconnected.hpp:75-93 | a remaining witness that induces the fewest border edges; what is counted is `PartitionRepair.InducedIsCrossing` |
| `PartitionRepair.InducedIsCrossing` | include/partitioner/remove_unconnected.hpp:75-93 | the number computed for a witness is the number of (edge, level) pairs at which an edge of the node crosses a border after the node has moved to the cells of the witness |
| `PartitionRepair.BestMoveHasFewestCrossings` | include/partitioner/remove_unconnected.hpp:75-99 | moving to a best witness leaves the node with no more crossings than moving to any other neighbour in another cell of the same parent cell would |
| `PartitionRepair.VisitNode` | include/partitioner/remove_unconnected.hpp:27-101 | one visit does nothing, gives up, or moves the node to the cells of a best witness, which leaves it with the fewest crossings |
| `PartitionRepair.RemoveUnconnectedBoundaryNodes` | include/partitioner/remove_unconnected.hpp:16-109 | visits every node on every level, coarse to fine, in order; the two counts are the visits that met an unconnected node and those that could not move it; keeps nesting, uses only given cells; on symmetric flagged graphs nothing is left unfixed and every node with edges shares each cell with a neighbour |
| `MldPipeline.PackingRenamesCells` | include/partitioner/multi_level_partition.hpp:247-301 | the packed network separates the same nodes on every level as the input |
| `MldPipeline.SameClique` | include/customizer/cell_customizer.hpp:34-111 | exact distances do not depend on how cells are numbered |
| `MldPipeline.LayoutServesEveryFilter` | src/customize/customizer.cpp:98-115 | rows and columns are the same for every exclusion filter |
| `MldPipeline.FewEdgesFit` | include/partitioner/multi_level_graph.hpp:209-210 | a node with fewer than 256 edges always has an exact split |
| `MldPipeline.SmallGraphsFit` | include/partitioner/cell_storage.hpp:354 | fewer than 256 edges at each node and fewer than 2^32 entries in each matrix are all that exactness asks of sizes |
| `MldPipeline.ReadyForEveryFilter` | src/customize/customizer.cpp:98-115 | one built hierarchy meets the customizer's needs for every filter |
| `MldPipeline.BuildHierarchy` | src/partitioner/partitioner.cpp:176-184 | partition, graph and layout of a partitioned graph; fails exactly when the bits do not suffice |
| `MldPipeline.CustomizeFilteredMetrics` | src/customize/customizer.cpp:98-115 | one metric for each filter; on every level it answers with the least cost inside the input cell over allowed nodes |
| `Preparation.LoadedGraphIsWellFormed` | include/partitioner/edge_based_graph_reader.hpp:186-197 | loaded edges are loop-free, positive and mirrored, as the overlay needs them |
| `Preparation.SettledMeansConnected` | include/partitioner/cell_storage.hpp:283-289 | a repaired partition has no unconnected border node |
| `Preparation.LoadAndRepair` | src/partitioner/partitioner.cpp:82-116 | loaded and repaired: nothing unfixed, nested, no new cells, no unconnected border node |
| `Preparation.RenumberedCorresponds` | src/partitioner/partitioner.cpp:126-128 | the renumbered network corresponds to the one before, link by link and cell by cell |
| `Preparation.Prepare` | src/partitioner/partitioner.cpp:82-184 | load, repair, renumber with border nodes first, pack and lay out: nothing unfixed, no unconnected border node; fails exactly when the bits do not suffice |
| `Preprocessing.LoadForCustomization` | src/customize/customizer.cpp:73-96 | the graph loaded from updated edges with any weights and any roads closed, on top of the partition and the layout of the partitioner |
| `Preprocessing.FittingIff` | include/partitioner/cell_storage.hpp:354 | no size wraps around if and only if all 32-bit products fit and every node the offset table covers has fewer than 256 edges inside its cell, on every level |
| `Preprocessing.AnswersAreLeast` | src/customize/customizer.cpp:73-115 | whatever the updated weights and whatever has been closed, the answer across a cell is weight, duration and distance of a drive over the updated edges inside the cell, none of which weighs less; invalid exactly when there is none |
| `Preprocessing.RunCustomizer` | src/customize/customizer.cpp:117-182 | the customizer on what the partitioner left and the updater changed: if nothing wraps around, which is decided exactly, the values of every filter are exact on all levels and answer with a drive of least weight over the updated edges |
| `Preprocessing.AnswerFromFile` | src/customize/customizer.cpp:73-115 | without updates the answer under the new numbers is weight, duration and distance of a drive of least weight over the edges on file under the old ones |
| `Preprocessing.Preprocess` | src/customize/customizer.cpp:117-182 | partitioner and customizer in a row: a hierarchy exactly when the bits suffice, and for every filter answers with weight, duration and distance of a drive of least weight over the edges on file |
| `Preprocessing.TableCoversBorderNodes` | include/partitioner/multi_level_graph.hpp:118-130 | after renumbering the offset table has rows for border nodes only, and for node 0 |
| `ContractedEdges.MergeOrder` | include/contractor/contracted_edge_container.hpp:26-49 | mergeCompare is a strict total order of keys and mergable is equality of keys |
| `ContractedEdges.MergableIff` | include/contractor/contracted_edge_container.hpp:45-49 | two edges are mergable if and only if they agree in source, target, shortcut flag, turn id, weight, duration and both direction flags |
| `ContractedEdges.MergeCompareIff` | include/contractor/contracted_edge_container.hpp:26-43 | an edge comes first if and only if it is smaller in the first of these eight fields in which the two differ |
| `ContractedEdges.NoEdgeTwiceMeans` | include/contractor/contracted_edge_container.hpp:45-49 | a list repeats no edge if and only if no two of its edges agree in all eight fields |
| `ContractedEdges.DistanceIsNotCompared` | include/contractor/contracted_edge_container.hpp:26-49 | an edge that differs from a stored one in its distance only is dropped, and the stored one shows it in the new view |
| `ContractedEdges.ContractedEdgeContainer.Insert` | include/contractor/contracted_edge_container.hpp:52-59 | all edges with all bits set |
| `ContractedEdges.ContractedEdgeContainer.Filter` | include/contractor/contracted_edge_container.hpp:61-78 | one bit becomes "both ends allowed", no other bit changes |
| `ContractedEdges.ContractedEdgeContainer.ScanNew` | include/contractor/contracted_edge_container.hpp:86-122 | the stateful scan flags the old edges it meets and keeps the others |
| `ContractedEdges.ContractedEdgeContainer.Merge` | include/contractor/contracted_edge_container.hpp:80-144 | field by field one view gains exactly the new edges, all others stay, no old edge is lost; the result has no duplicate if and only if the two lists merge cleanly, whatever their order |
| `ContractedEdges.ContractedEdgeContainer.MakeEdgeFilters` | include/contractor/contracted_edge_container.hpp:146-159 | one row of bits for each merged list |
| `ContractedEdges.VisitIsComplete` | include/contractor/contracted_edge_container.hpp:95-121 | on sorted old edges the scan finds a new edge exactly when it is there |
| `ContractedEdges.NoDuplicateIff` | include/contractor/contracted_edge_container.hpp:91-122 | for any two lists the merge leaves no duplicate if and only if the container repeats no edge, the new list repeats none that is not stored and, for every new edge that is stored, an ascent through the earlier new edges leads to a stored copy and not beyond |
| `ContractedEdges.SortedMergesCleanlyIff` | include/contractor/contracted_edge_container.hpp:91-122 | on a container in merge order this means that no stored edge comes after a larger one in the new list, and no edge that is not stored is repeated in it |
| `ContractedEdges.NewEdgesMergeCleanlyIff` | include/contractor/contracted_edge_container.hpp:91-122 | if no new edge is stored yet it means that neither list repeats an edge, whatever the order |
| `ContractedEdges.SortedListsMergeCleanly` | include/contractor/contracted_edge_container.hpp:91-122 | a new list in merge order without duplicates is clean against every container in merge order |
| `ContractedEdges.UnsortedListsRepeatEdges` | include/contractor/query_edge.hpp:64-67 | two edges with the same ends: both orders satisfy the end-point order, and the second merge stores one of them twice |
| `ContractedEdges.UnsortedContainerRepeatsEdges` | include/contractor/contracted_edge_container.hpp:52-59 | the same two edges the other way round in the container: one of them, merged again, is stored twice |
| `ExcludableContraction.FirstMergeIsClean` | include/contractor/contract_excludable_graph.hpp:61-90 | inserted edges have an end outside the core and merged ones have none, so the first merge is clean if and only if neither list repeats an edge |
| `ExcludableContraction.MergeStep` | include/contractor/contract_excludable_graph.hpp:61-90 | one more merge: the keys stored are the shared ones and those of the cores so far, and there is no duplicate if and only if all merges so far were clean |
| `ExcludableContraction.AlwaysAllowed` | include/contractor/contract_excludable_graph.hpp:45-52 | the nodes that every filter allows |
| `ExcludableContraction.ContractExcludableGraph` | include/contractor/contract_excludable_graph.hpp:27-94 | view i shows, field by field, exactly the shared edges filter i allows and the edges of core i; there is no duplicate if and only if the inserted edges and all merged lists are clean; the single all-true filter takes the full graph |
| `ContractorAdaptors.MinimaAreLeast` | include/contractor/graph_contractor_adaptors.hpp:89-108 | each accumulator is the least value of its kind in its direction, invalid exactly when there is none |
| `ContractorAdaptors.EmittedFits` | include/contractor/graph_contractor_adaptors.hpp:109-128 | a group never writes more edges than it has |
| `ContractorAdaptors.CompactInPlace` | include/contractor/graph_contractor_adaptors.hpp:64-131 | the write index stays behind the read index; the prefix has the least weights, durations and distances and at most two edges for each pair |
| `ContractorAdaptors.ToContractorGraph` | include/contractor/graph_contractor_adaptors.hpp:17-134 | the compacted edges of the split input |
| `ContractorAdaptors.ContractorKeepsCosts` | include/contractor/graph_contractor_adaptors.hpp:17-134 | both directions of every pair keep exactly the least usable input weight |
| `ContractorAdaptors.BothLoadersAgree` | include/contractor/graph_contractor_adaptors.hpp:64-131 | contraction and partitioning start from graphs with the same weights |
| `ContractorAdaptors.StoredEdgeIsACopyIff` | include/contractor/graph_contractor_adaptors.hpp:91-98 | a stored edge has the values of one of its parallel edges if and only if one of them is least in weight, duration and distance at once |
| `ContractorAdaptors.MinimaMixEdges` | include/contractor/graph_contractor_adaptors.hpp:89-128 | an input every compacted output of which stores an edge that is none of the parallel edges |
| `SharedMonitors.InternalData.Size` | include/storage/shared_monitor.hpp:161 | the two indices give the queue length as long as it is below the buffer size |
| `SharedMonitors.InternalData.EnqueueSemaphore` | include/storage/shared_monitor.hpp:165-184 | a fresh semaphore in the next slot; fails exactly when half the buffer would be queued, with the head already moved |
| `SharedMonitors.InternalData.DequeueSemaphore` | include/storage/shared_monitor.hpp:186-191 | the oldest queued slot |
| `SharedMonitors.InternalData.NotifyAll` | include/storage/shared_monitor.hpp:107-114 | every queued semaphore is posted once, oldest first, and no other slot changes |
| `DataWatchdogs.StepKeepsSafe` | include/engine/data_watchdog.hpp:91-130 | every step of every thread keeps mutual exclusion, ticket order, consistent data and "no missed reason to wake" |
| `DataWatchdogs.StepKeepsConsistent` | include/engine/data_watchdog.hpp:106-113 | with the regions replaced and copied one by one, the mutex keeps every watchdog on a published pair, except between its two copies |
| `DataWatchdogs.NobodyOvertakes` | include/storage/shared_monitor.hpp:107-114 | over every run: as long as a waiter has not been posted, nobody who enqueued after it has been |
| `DataWatchdogs.NotificationPostsEveryone` | include/storage/shared_monitor.hpp:107-114 | when a notification returns, every thread that had enqueued has been posted |
| `DataWatchdogs.NoLostWakeUp` | include/engine/data_watchdog.hpp:70-127 | over every run without overrun: after its destructor's notification, or with outdated data and no publisher at work, a sleeping watchdog can wake |
| `DataWatchdogs.NotifiedWatchdogStops` | include/engine/data_watchdog.hpp:70-75 | after the notification each own step brings the watchdog closer to its end, and no other step holds it back |
| `DataWatchdogs.DestructorReturns` | include/engine/data_watchdog.hpp:70-75 | over every run a notified watchdog takes at most four more steps |
| `DataWatchdogs.NoDeadlock` | include/engine/data_watchdog.hpp:70-75 | a notified watchdog that has not stopped can move, or the holder of the mutex can, unless an enqueue fails |
| `DataWatchdogs.FacadesAreConsistent` | src/storage/storage.cpp:118-135 | over every run the served data is one published pair of regions, never the static part of one dataset with the updatable part of another; which pair is `DataWatchdogs.SwapServesCurrent` |
| `DataWatchdogs.ServedIsKnown` | include/engine/data_watchdog.hpp:106-125 | over every run a watchdog serves the pair it knows, except between copying the regions and the swap |
| `DataWatchdogs.SwapServesCurrent` | include/engine/data_watchdog.hpp:119-126 | over every run the pair served after a swap is the one in the regions at that moment |
| `DataWatchdogs.SleeperServesCurrent` | include/engine/data_watchdog.hpp:97-101 | over every run without overrun, with no publisher at work, a sleeping watchdog serves the current pair or can wake |
| `DataWatchdogs.UpdateReachesTheFacade` | src/storage/storage.cpp:118-143 | whichever of the two regions a publisher replaces, a run follows after which the watchdog serves the new pair |
| `DataWatchdogs.TimestampsCountSwaps` | src/storage/storage.cpp:118-135 | after every run each timestamp has grown by the number of times its region was replaced |
| `DataWatchdogs.PublishedAtUnlock` | src/storage/storage.cpp:95-136 | the published pairs are those in the regions when a publisher releases the mutex, and no others |
| `DataWatchdogs.ReuseTakesThePost` | include/storage/shared_monitor.hpp:173-183 | enqueueing wipes out a pending post if and only if the waiter is a whole buffer behind |
| `DataWatchdogs.WakeUpCanBeLost` | include/storage/shared_monitor.hpp:173-183 | a run after which a notified watchdog sleeps on an unposted semaphore |
| `LiveTraffic.ComputeTrafficWeightFactor` | include/engine/traffic_aggregator.hpp:22-29 | factor times speed is 50 from 5 km/h on, 10 below; at most 10, and at least 1/6 exactly up to 300 km/h |
| `LiveTraffic.InsertKeepsLatest` | include/engine/traffic_aggregator.hpp:99-102 | one turn of the grouping loop keeps the latest relevant sample for each geometry and user |
| `LiveTraffic.GroupingIsLatest` | include/engine/traffic_aggregator.hpp:76-103 | the groups hold, for every geometry and user with a relevant sample, a latest one |
| `LiveTraffic.GroupsMean` | include/engine/traffic_aggregator.hpp:76-103 | a user is in the group of a geometry if and only if a sample of theirs, fresh and snapped to it, was drained, and then with a latest such sample |
| `LiveTraffic.LastOfTheLatestIsKept` | include/engine/traffic_aggregator.hpp:99-102 | of several samples of one user on one geometry with the latest time, the one that arrived last is kept |
| `LiveTraffic.ArrivalOrderDoesNotMatterIff` | include/engine/traffic_aggregator.hpp:76-103 | all orders of arrival give the same groups if and only if the latest relevant sample of every user on every geometry is unique |
| `LiveTraffic.Summarise` | include/engine/traffic_aggregator.hpp:105-132 | means over all users, latest time and count, for any order of the users |
| `LiveTraffic.MeansOverAnyListing` | include/engine/traffic_aggregator.hpp:105-132 | for any listing of the users of a group, speed, bearing, latitude and longitude times the number of users are the sums over the listing |
| `LiveTraffic.SummaryIsUnique` | include/engine/traffic_aggregator.hpp:105-132 | the summary of a group is determined by the group |
| `LiveTraffic.AdmittedSpeedsBoundTheFactor` | include/engine/traffic_aggregator.hpp:123-126 | speeds of at most 300 give a mean speed of at most 300 and a factor between 1/6 and 10 |
| `TrafficHistory.UnmentionedSegmentStays` | include/engine/traffic_aggregator.hpp:105-138 | a segment no call mentions is the old one, and is gone exactly when some call finds it stale |
| `TrafficHistory.CallMeans` | include/engine/traffic_aggregator.hpp:105-138 | a call writes a segment exactly for geometries with a fresh drained sample, keeps the others, and drops what is older than the limit |
| `TrafficHistory.LastMentionDecides` | include/engine/traffic_aggregator.hpp:105-138 | a segment shows what the last call that mentions it wrote, unless that call or a later one finds it stale |
| `TrafficHistory.SegmentIsLatestIff` | include/engine/traffic_aggregator.hpp:65-138 | a segment shows every user's latest sample of all calls if and only if every sample an earlier call snapped to it is outdone by one of the same user in the last call |
| `TrafficHistory.OwnSegmentIsLatestIff` | include/engine/traffic_aggregator.hpp:65-138 | for a call and those nested in it: the segment shows every user's latest sample if and only if no sample that arrived meanwhile, was fresh when handled and lies on the geometry is newer than the latest waiting one of its user |
| `LiveDataStores.LiveDataStore.RemoveStaleSegments` | include/engine/live_data_store.hpp:81-96 | keeps exactly the segments at most the given number of seconds old, times being in milliseconds, and their data |
| `LiveDataStores.LiveDataStore.TakePendingSamples` | include/engine/live_data_store.hpp:50-54 | hands over all waiting samples and leaves none |
| `LiveDataStores.ProcessPacket` | include/engine/traffic_updater.hpp:143-166 | a packet becomes one waiting sample exactly when speed, position and age are in range, whatever the configured minimum speed; the sample has all values of the packet, and the current time if it came without one |
| `LiveDataStores.GroupSamples` | include/engine/traffic_aggregator.hpp:76-103 | groups the drained samples although snapping re-enters the aggregation; the segments are those before, replayed with the nested calls |
| `LiveDataStores.AggregatePendingTrafficSamples` | include/engine/traffic_aggregator.hpp:65-138 | terminates; the segments afterwards are those before, replayed with the nested calls and this one last; the calls handled exactly the samples no longer waiting; a geometry that waiting samples are on shows them, and these are the latest exactly when nothing newer of the same user arrives meanwhile; one call if nothing arrives; no stale segment after a call that drained something, no change after one that did not |
| `LiveDataStores.Snap` | include/engine/geospatial_query.hpp:313 | building a phantom node re-enters the aggregation, which descends on the number of samples still to handle; the segments are replayed with the calls it made |
| `LiveDataStores.PublishAndClean` | include/engine/traffic_aggregator.hpp:105-138 | every group is summarised into its segment, stale segments go, all others stay |
| `LiveDataStores.NewerSampleIsOverwritten` | include/engine/traffic_aggregator.hpp:79-138 | when a newer sample of the same user was published by a nested call, the outer call leaves the older one |
| `LiveDataStores.OverwriteNewer` | include/engine/traffic_aggregator.hpp:65-138 | one waiting sample and one arriving batch lead there |
| `LiveDataStores.ScalingKeepsOrder` | include/engine/traffic_aggregator.hpp:49-53 | scaling keeps the order of weights; a weight becomes zero exactly when it falls below one half |
| `LiveDataStores.SmallWeightsVanish` | include/engine/traffic_aggregator.hpp:49-53 | a positive weight that scaling turns into zero |
| `LiveDataStores.WeightSurvivesIff` | include/engine/traffic_aggregator.hpp:49-53 | scaling leaves a weight unchanged if and only if the factor is within half a unit of 1, relative to the weight |
| `LiveDataStores.InvalidMarkerIsScaled` | include/engine/traffic_aggregator.hpp:49-53 | the marker of an unusable segment does not survive scaling |
| `LiveDataStores.ApplyLiveTrafficToSegmentWeights` | include/engine/traffic_aggregator.hpp:42-54 | scales all weights of a live geometry in place and leaves others alone |
| `ConcurrentIdMaps.StepKeepsSafe` | include/util/concurrent_id_map.hpp:51-72 | any critical section of any thread keeps the numbering and all ids handed out |
| `ConcurrentIdMaps.EveryInterleavingIsSafe` | include/util/concurrent_id_map.hpp:51-72 | in every state of every interleaving keys are numbered in order and all answers are true |
| `ConcurrentIdMaps.IdsAreArrivalNumbers` | include/util/concurrent_id_map.hpp:66-71 | in every state of every interleaving the id of the i-th key is i modulo the number of ids, and i itself as long as ids last |
| `ConcurrentIdMaps.AnswersAgree` | include/util/concurrent_id_map.hpp:51-72 | two threads never get different ids for one key |
| `ConcurrentIdMaps.BijectiveIff` | include/util/concurrent_id_map.hpp:68-70 | the map is a bijection onto 0 to n - 1 if and only if n does not exceed the number of ids |
| `ConcurrentIdMaps.IdsRunOut` | include/util/concurrent_id_map.hpp:68-70 | for any list of different keys longer than the number of ids, a run that asks for them and ends with a map that is no bijection |
| `ConcurrentIdMaps.DescriptionIdsRunOut` | include/extractor/turn_lane_types.hpp:68-69 | such a run for 65537 lane descriptions, whose ids have 16 bits |
| `ConcurrentIdMaps.PartialSum` | include/extractor/turn_lane_types.hpp:88-89 | the in-place prefix sum gives the start of every description |
| `ConcurrentIdMaps.TransformTurnLaneMapIntoArrays` | include/extractor/turn_lane_types.hpp:74-99 | every description is the slice between the two offsets at its id |
| `ConcurrentIdMaps.MapCanBeFlattened` | include/extractor/turn_lane_types.hpp:68-69 | a map built by any interleaving can be flattened as long as ids have not run out |

## Left out

- Files, archives, shared-memory set-up, sockets and logging: clocks, filters, contractions and snapping are parameters instead.
- Bisection of the graph, route search, guidance, geometry and `contractGraph` itself.
- `Preprocessing.LoadForCustomization`: an update may change weights and close roads in any way, but must not offer a direction that was not offered at layout; opening such a road would need a new layout.
- `Preprocessing.Preprocess`: duration and distance are those of some drive of least weight; which of several parallel edges of one weight supplies them is left open by the loader's sort. It asks whether a size wraps around and ends there, where the code goes on with wrong values.
- `RenumberedEdges.RenumberEdges`: the order of the rows in the dynamic graph and its dummy edges are not modelled; the cell layout and the multi-level graph sort edges anyway.
- `Interleaving.InterleavingIsExact`: a worker settles a node in one step, since labels are its own; each value it reads may stem from a different moment. Memory is sequentially consistent.
- `QueryHeaps.QueryHeap.DeleteMin`: the order inside the d-ary heap is not modelled; any queued node of least weight may be returned.
- `LevelLayout.MakeLevelOffsets`: the fixed array length for the number of levels is not modelled; `ceil(log2(n + 1))` is the exact bit length.
- `OverlayExactness.SearchIsExact`: sums of weights and durations do not overflow, and distances are real numbers.
- `MultiLevelGraphs.Build`: edge indices and node times level products are unbounded; the 8-bit offsets are modelled.
- `CellStorages.Build`: counts are unbounded; the 32-bit product of rows and columns is modelled.
- `ContractorAdaptors.ToContractorGraph`: the constant original-edge count and shortcut flag of the produced edges are not modelled.
- `DataWatchdogs.NoLostWakeUp`: reads and writes of `active` are sequentially consistent, waiting threads are not killed, and no enqueue fails; timestamps do not wrap around.
- `ConcurrentIdMaps.TransformTurnLaneMapIntoArrays`: offsets are unbounded rather than 32 bits wide.
- `LiveTraffic.Summarise`: averages are over real numbers, without rounding.
- The boost condition-variable variant of the monitor, and the colour scale of traffic speeds.
