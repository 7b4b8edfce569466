# Verification of PyTorchSim's kernels, schedulers and link protocol

This Dafny project models the algorithms that PyTorchSim generates or runs and proves what they are for.
It stands beside the repository; every path below is relative to the repository root.

| group | what is modelled | files |
|---|---|---|
| Sort kernel | the stage generator, the vector network on (value, index) pairs, the merge-split network on 16-wide chunks, and the emitted loops over the YV and XI buffers | `BitonicLanes`, `CountNetwork`, `LaneSums`, `BitonicStages`, `VectorSort`, `SortPrograms`, `ChunkNetwork`, `ChunkConservation`, `SortKernel`, `SortStability`, `SortTies` |
| Flash attention | the streaming softmax over key tiles, on one query row over the reals, for any function that satisfies the exponential law, with chunked loads that may read past the tile and tiles that may reach past the keys | `SoftmaxTheory`, `AttentionRows`, `AttentionMeaning`, `AttentionTiles`, `FlashAttention` |
| Interval tree | construction, both range queries, `visit_all`, `is_valid` | `IntervalTree` |
| Tile layout and tile search | strides, lane split, padding, divisibility repair; the GEMM tile search | `Arithmetic`, `Sequences`, `Wrappers`, `Permutations`, `MixedRadix`, `TileLayout`, `TileDescriptor`, `GemmMapping`, `GemmSearch` |
| Tile graph | the preorder parser with its loop-end stack, the ready-counter scheduler, the range iterator | `TogDump`, `TogWalk`, `TogWiring`, `TogOrder`, `TogEdges`, `TogReach`, `TogPreds`, `TogEnds`, `TogGenerator`, `TileScheduler`, `TileOrders`, `TileRuns`, `RangeIterator` |
| LegoSim and weight ranges | link and simlet as two processes over two channels, the latency arithmetic, range merging and lookup | `SimletLatency`, `LegoSimProtocol`, `WeightRanges` |

How the sorting proof goes: for every threshold the contents of the chunks are abstracted to counts, a
merge-split becomes the pair (max(0, x+y-w), min(x+y, w)) of counts, and the count network is shown to
turn every input into empty cells, one partial cell and full cells. With w = 1 this is the 0-1 argument
for the network inside a vector; with w = 16 it is the argument for the chunk network.

Where the code does less than one would expect, the code is kept and the exact condition is proved:

* The stable sort template is a stable sort for every input exactly when the row has at most two chunks
  (`SortStability.StableIffAtMostTwoChunks`). A row of four or more chunks whose quarters hold 0, 2, 1, 1
  comes out with equal values in the wrong index order, although `tests/test_sort.py:82-98` compares the
  indices of a row of four chunks with those of a stable sort.
* The sort without stable mode permutes the (value, index) pairs of a vector exactly when its values are pairwise
  distinct (`SortTies.NonStablePermutesIff`): where two equal values meet, one pair is kept twice and the other one
  is lost. A row with distinct values keeps the index permutation in both modes (`SortKernel.KernelResult`).
* For a length and a tile size the attention kernel is right for every row, whatever lies in memory behind its keys,
  its values and its score buffer, exactly when the tile is a multiple of 16 keys and divides the length
  (`AttentionTiles.AttentionIffTilesFit`). Its loop takes whole tiles from `0 to s step tile_s`, and its reductions
  load 16 scores at a time; `select_tile` takes one key per lane, and
  `configs/systolic_ws_8x8_c1_simple_noc.yml:5` has 8 lanes, so there each load takes in 8 foreign words. For given
  foreign words the exact condition is `AttentionRows.KernelExactIff`.
* The graph parser accepts every preorder dump: no pop fails (`TogDump.NoPopFails`). The loop-end stack is the chain
  of open loops throughout, and the emitted order is the walk over the loop nest, each exactly when no loop is
  directly followed by a sibling (`TogDump.StackIsAlwaysChain`, `TogWalk.WalkIff`).
* In a parsed graph every node inside a loop leads to the end node of that loop exactly when no record inside a
  loop is stranded: only the last of two loads (or waits) in a row gets an edge to a store or to an inner loop
  (`TogReach.BodiesFinishIff`). In a loop of two loads and a store the first load has no edge out.
* `is_finished()` of a tile subgraph reports the end while the last tiles are still running; it means that all
  tiles have finished exactly when none is running (`TileScheduler.FinishedMeansAll`,
  `TileRuns.EndBeforeLastTile`).
* A finish keeps every tile in one place exactly when no child that it frees is listed twice. On an acyclic
  graph no order of finishing ever queues a tile twice exactly when every child that a tile lists more than
  once also has a parent that descends from that tile (`TileOrders.TwinFreeIffCovered`).
* `begin()` of the range iterator visits points outside the loop nest exactly when some range is empty
  (`RangeIterator.VisitsOnlyTheNest`).
* The GEMM search tries K tiles that do not divide the padded K exactly when K was raised to 8 past a
  lane count below 8 that does not divide 8 (`GemmMapping.KCoveredIff`).
* The page count is exact exactly when the request ends inside the 64-bit address space, and the byte
  count for every request exactly when not all pages of memory are touched. No part of
  a request takes longer than the whole, for any settings, exactly when the request leaves some page of memory
  untouched; a request for all of memory but one byte is modelled faster than one for a single byte
  (`SimletLatency`). The comment in `ssd_simlet.cpp` rounds the
  transfer time up before adding the base latency; the code rounds the sum, and so does the model.
* A run of link and simlet gets stuck exactly when a latency is asked for after shutdown
  (`LegoSimProtocol.StuckIffAskedLate`).
* One lookup in a sorted range list is right for every address exactly when no earlier range sticks out
  of a later one into a gap (`WeightRanges.LookupExactIff`); merging achieves that, sorting alone does not.
* The per-lane strides of a tile are those of the per-lane tile exactly when the remainder of the split, times the
  elements of all faster axes, stays below the number of shares (`TileLayout.PerLaneLayoutIff`). A repaired tile is
  not padded, so this can fail: (2, 5, 10) on four lanes gives a stride of 16 where 15 is needed.
* The structural check of the interval tree takes the greatest stop of every subtree for zero. It accepts a tree
  exactly when all nodes are sorted, right subtrees start after their centre, and no centre with a left subtree is
  zero (`IntervalTrees.IntervalTree.IsValid`).
* The scratchpad test on the total size never rejects a tile that passes the test per lane
  (`GemmMapping.PerLaneTestSuffices`).

## Model

| member | source | states |
|---|---|---|
| `BitonicStages.ComputeBitonicStages` | PyTorchSimFrontend/mlir/mlir_sort_template.py:72-99 | the generated list is the stages for every block size and every stride, largest stride first, each with its closed-form shuffle and mask |
| `BitonicStages.FillStage` | PyTorchSimFrontend/mlir/mlir_sort_template.py:78-92 | the three inner loops give every lane the lane `stride` away as partner and the side its block direction asks for; no lane stays unset |
| `BitonicStages.StagesPairUp` | PyTorchSimFrontend/mlir/mlir_sort_template.py:82-96 | each generated shuffle is an involution without fixed points that pairs lanes one stride apart, with exactly one min lane in each pair |
| `CountNetwork.HalfClean` | PyTorchSimFrontend/mlir/mlir_sort_template.py:145-173 | comparing the two halves of a bitonic group of cells, each holding a count of at most w, leaves two bitonic groups of which one is extreme |
| `CountNetwork.MergeSorts` | PyTorchSimFrontend/mlir/mlir_sort_template.py:326-426 | the stages of one phase sort every bitonic group in the direction of its block |
| `CountNetwork.NetworkSorts` | PyTorchSimFrontend/mlir/mlir_sort_template.py:72-99 | for every power of two and every capacity the network leaves empty cells, one partial cell and full cells, in the requested direction |
| `SortPrograms.BitonicSortPair` | PyTorchSimFrontend/mlir/mlir_sort_template.py:116-142 | running the generated stages on value and index vectors computes the pair network |
| `SortPrograms.StageListRuns` | PyTorchSimFrontend/mlir/mlir_sort_template.py:119-141 | every generated stage fits the vector, and running the list equals the network on lanes |
| `VectorSort.SortPairInOrder` | PyTorchSimFrontend/mlir/mlir_sort_template.py:116-142 | for every power-of-two length the network sorts by value in the requested direction; in stable mode ties are in index order |
| `VectorSort.SortPairPermutesValues` | PyTorchSimFrontend/mlir/mlir_sort_template.py:135-141 | in both modes the values are a permutation of the input values |
| `VectorSort.StableSortPairPermutes` | PyTorchSimFrontend/mlir/mlir_sort_template.py:123-133 | in stable mode the (value, index) pairs are a permutation of the input pairs |
| `VectorSort.NetworkSelects` | PyTorchSimFrontend/mlir/mlir_sort_template.py:136-141 | every output pair is some input pair, also where the non-stable mode keeps a pair twice |
| `SortTies.NonStablePermutesIff` | PyTorchSimFrontend/mlir/mlir_sort_template.py:116-142 | for a vector of distinct pairs the non-stable sort permutes the pairs if and only if the values are pairwise distinct |
| `SortTies.TieLoses` | PyTorchSimFrontend/mlir/mlir_sort_template.py:123-141 | a comparison of two equal values loses the pair of the max lane |
| `SortTies.TwoEqualValues` | PyTorchSimFrontend/mlir/mlir_sort_template.py:123-141 | two equal values come out with the index 0 twice |
| `SortPrograms.BitonicSort` | PyTorchSimFrontend/mlir/mlir_ops.py:1198-1241 | the value-only network returns a sorted permutation in the requested direction |
| `SortKernel.CheckSortSize` | PyTorchSimFrontend/mlir/mlir_sort_template.py:205-217 | a size is accepted by the bit test exactly when it is a power of two of chunks; all kernel results hold for every accepted size |
| `BitonicLanes.BitTest` | PyTorchSimFrontend/mlir/mlir_sort_template.py:212-216 | for every positive n, n & (n - 1) is zero exactly for powers of two |
| `SortKernel.MergeSortedPairVectors` | PyTorchSimFrontend/mlir/mlir_sort_template.py:145-173 | the four merged vectors are the lane-wise winners and losers of the left vector against the reversed right one |
| `ChunkNetwork.MergeSplitCounts` | PyTorchSimFrontend/mlir/mlir_sort_template.py:378-400 | for every threshold the merge-split of two arbitrary chunks of w elements turns their counts x, y of elements above it into max(0, x+y-w) and min(x+y, w), the larger one on the side the direction asks for |
| `ChunkNetwork.KernelSorts` | PyTorchSimFrontend/mlir/mlir_sort_template.py:285-427 | after the local sorts and the chunk network every chunk is in order and chunks are in order by value, for every power-of-two number of chunks; ties too in stable mode with at most two chunks |
| `ChunkConservation.KernelPermutes` | PyTorchSimFrontend/mlir/mlir_sort_template.py:285-427 | the values of the row are permuted; in stable mode whole pairs are |
| `ChunkConservation.KernelHolds` | PyTorchSimFrontend/mlir/mlir_sort_template.py:298-319 | whatever holds of every input pair holds of every output pair; used for "the index names its value" |
| `SortKernel.Kernel.LocalSorts` | PyTorchSimFrontend/mlir/mlir_sort_template.py:285-319 | the chunk loop leaves in YV and XI the sorted chunks of X with their positions |
| `SortKernel.Kernel.MergeSplitAt` | PyTorchSimFrontend/mlir/mlir_sort_template.py:343-424 | one loop body replaces exactly two chunks of the buffers by their merge-split |
| `SortKernel.Kernel.MergeStage` | PyTorchSimFrontend/mlir/mlir_sort_template.py:327-424 | the in-place passes over even and odd blocks, with loops over base, p and q, compute one stage of the chunk network |
| `SortKernel.Kernel.ChunkMerges` | PyTorchSimFrontend/mlir/mlir_sort_template.py:321-427 | the k and j loops compute the whole chunk network |
| `SortKernel.Kernel.Run` | PyTorchSimFrontend/mlir/mlir_sort_template.py:281-427 | the buffers end sorted in the requested direction with the input values, YV[i] == X[XI[i]] everywhere, and XI a permutation of the positions in stable mode and for every row without equal values |
| `SortKernel.KernelResult` | PyTorchSimFrontend/mlir/mlir_sort_template.py:281-427 | the same promises read off the chunk network as facts about the row |
| `SortStability.StableIffAtMostTwoChunks` | PyTorchSimFrontend/mlir/mlir_sort_template.py:464-474 | the stable template sorts every row stably if and only if the row has at most two chunks |
| `SortStability.UnstableAbove` | PyTorchSimFrontend/mlir/mlir_sort_template.py:102-113 | for every power of two from four chunks on, in both directions, a concrete row comes out with equal values out of index order |
| `SortStability.MergeSplitRuns` | PyTorchSimFrontend/mlir/mlir_sort_template.py:378-400 | a stable merge-split of two chunks that each hold one value is a compare-exchange of whole chunks |
| `FlashAttention.RowKernel.Run` | PyTorchSimFrontend/mlir/mlir_sdpa_template.py:204-316 | for every length, tile size and content behind the keys, the values and the score buffer, the streamed output is the row of the specification, or the row sum is zero; when the tile is a multiple of 16 and divides the length it is softmax attention, so it does not depend on the tile size: output d times the sum of the weights is the weighted sum of feature d of the values, equal value rows come out as they are, and no other feature of the values changes output d |
| `AttentionMeaning.AttentionIsAverage` | PyTorchSimFrontend/mlir/mlir_sdpa_template.py:283-316 | each output feature d, times the sum over all keys i of exp(scale · query · key[i]), is the sum of value[i][d] times that weight, with all sums written over the plain indices |
| `AttentionMeaning.EqualValues` | PyTorchSimFrontend/mlir/mlir_sdpa_template.py:300-304 | when all value rows are one row, that row is the only such average |
| `AttentionMeaning.OtherFeaturesIgnored` | PyTorchSimFrontend/mlir/mlir_sdpa_template.py:300-304 | two problems that agree on queries, keys and feature d of the values have the same output d |
| `AttentionTiles.AttentionIffTilesFit` | PyTorchSimFrontend/mlir/mlir_sdpa_template.py:211-316 | for a length and a tile the output is attention for every row and every content behind it if and only if the tile is a multiple of 16 and divides the length |
| `AttentionTiles.PartTileFails` | PyTorchSimFrontend/mlir/mlir_sdpa_template.py:211-214 | for every length that the tile does not divide, a row and foreign key and value rows that give a wrong output |
| `AttentionRows.AttentionIffWholeChunks` | PyTorchSimFrontend/mlir/mlir_sdpa_template.py:536-549 | where the tiles fill the keys: the kernel row is softmax attention for every row and every content behind the score buffer if and only if the tile is a multiple of 16 |
| `AttentionRows.RowExactIff` | PyTorchSimFrontend/mlir/mlir_sdpa_template.py:283-316 | for one row whose attention is not all zero: right for every content behind the buffer if and only if the tile is a multiple of 16 |
| `AttentionRows.KernelExactIff` | PyTorchSimFrontend/mlir/mlir_sdpa_template.py:283-316 | for given foreign words the row is attention if and only if their sum is zero, or the attention is zero in every feature and the row sum is not |
| `AttentionRows.ReductionExactIff` | PyTorchSimFrontend/mlir/mlir_sdpa_template.py:237-241 | the chunked maximum and the chunked sum are the plain ones for all foreign words if and only if the tile is a multiple of 16 |
| `AttentionRows.EightLanesFail` | PyTorchSimFrontend/mlir/mlir_sdpa_template.py:536-549 | with eight lanes, and so tiles of eight keys, some row and some foreign words give a wrong output |
| `FlashAttention.RowKernel.StreamTile` | PyTorchSimFrontend/mlir/mlir_sdpa_template.py:211-304 | one tile keeps: the maximum buffer is the maximum of all scores and foreign words so far, sum and output are the softmax denominator (plus the share of the foreign words) and numerators shifted by it; the maximum never falls and no score so far exceeds it |
| `FlashAttention.RowKernel.ScoreTile` | PyTorchSimFrontend/mlir/mlir_sdpa_template.py:217-231 | the score buffer holds the scaled products of the keys of the tile with the query |
| `FlashAttention.RowKernel.ReduceTile` | PyTorchSimFrontend/mlir/mlir_sdpa_template.py:237-246 | the chunked reduction with the 8x2 fold and the shuffle is the plain maximum or sum over the tile and the words behind it up to a whole chunk, in both lanes; for whole chunks over the tile alone |
| `FlashAttention.RowKernel.UpdateMax` | PyTorchSimFrontend/mlir/mlir_sdpa_template.py:235-249 | the new maximum bounds every score of the tile and is at least the old one, so no rescale exponent is positive |
| `FlashAttention.RowKernel.ExpTile` | PyTorchSimFrontend/mlir/mlir_sdpa_template.py:273-279 | every score of the tile becomes the exponential of its distance to the new maximum, and none of these exponents is positive |
| `FlashAttention.RowKernel.RescaleAccumulators` | PyTorchSimFrontend/mlir/mlir_sdpa_template.py:253-269 | rescaling turns accumulators shifted by the old maximum into accumulators shifted by the new one |
| `FlashAttention.RowKernel.RunningSumBound` | PyTorchSimFrontend/mlir/mlir_sdpa_template.py:283-296 | once a score above the initial floor and no less than the foreign words was seen, and these do not add up to less than zero, the running sum is at least 1 |
| `SoftmaxTheory.ShiftedAverage` | PyTorchSimFrontend/mlir/mlir_sdpa_template.py:306-316 | numerator times reciprocal denominator is the softmax average, whatever the shift |
| `SoftmaxTheory.SoftmaxSumsToOne` | PyTorchSimFrontend/mlir/mlir_sdpa_template.py:306-316 | the reference softmax weights sum to one |
| `IntervalTrees.MakeInterval` | TOGSim/include/IntervalTree.h:20-24 | an interval's ends are ordered and are the two given scalars |
| `IntervalTrees.IntervalTree.constructor` | TOGSim/include/IntervalTree.h:92-163 | construction ends, keeps the tree invariant and puts each input interval in exactly one node; the sortedness assertion holds (also after unsigned wrap-around of depth and centre) |
| `IntervalTrees.Split` | TOGSim/include/IntervalTree.h:134-149 | the distribution loop splits the intervals by side, keeps all of them and keeps each part sorted |
| `IntervalTrees.IntervalTree.NearFinds` | TOGSim/include/IntervalTree.h:167-179 | pruning by front start and by centre loses no interval that overlaps the query |
| `IntervalTrees.IntervalTree.FindOverlapping` | TOGSim/include/IntervalTree.h:189-217 | the result is the linear scan over the contents of the tree, exactly: an interval comes as often as the tree holds it when it starts by the end of the query and stops no earlier than its start, and otherwise not at all |
| `IntervalTrees.IntervalTree.FindContained` | TOGSim/include/IntervalTree.h:201-226 | the same for intervals with ordered ends that start and stop inside the query: each as often as the tree holds it, and no other |
| `IntervalTrees.FilterOfPermutation` | TOGSim/include/IntervalTree.h:210-226 | a linear scan depends on the multiset of intervals only, so the queries equal a scan of the original list as multisets |
| `IntervalTrees.IntervalTree.IsValid` | TOGSim/include/IntervalTree.h:268-306 | on any tree, true exactly when every node is sorted by start, every right subtree starts after its centre and no centre with a left subtree is zero; so true on every tree that satisfies the invariant |
| `IntervalTrees.IntervalTree.VisitAll` | TOGSim/include/IntervalTree.h:241-249 | every interval is visited as often as it was inserted |
| `IntervalTrees.IntervalTree.Empty` | TOGSim/include/IntervalTree.h:227-238 | true exactly when the tree holds no interval |
| `IntervalTrees.IsCacheable` | TOGSim/include/TileGraph.h:22-22 | true exactly when some interval of the plan overlaps the closed query range |
| `IntervalTrees.InitCachePlan` | TOGSim/include/TileGraph.h:74-76 | the plan made from a list, with the default settings, is a valid tree that holds exactly the list |
| `IntervalTrees.OverlappingIn` | TOGSim/include/IntervalTree.h:189-217 | from the list through the tree to the answer: an interval of the list comes as often as the list holds it when it meets the closed query range, and otherwise not at all |
| `IntervalTrees.ContainedInList` | TOGSim/include/IntervalTree.h:201-226 | the same for containment, start <= x.start and x.stop <= stop, for intervals with ordered ends |
| `IntervalTrees.IsCacheableIn` | TOGSim/include/TileGraph.h:22-22 | on a plan made from a list, true exactly when some interval of the list overlaps the closed query range |
| `TileDescriptor.MultiDimTile.UpdateTileStride` | PyTorchSimFrontend/mlir/mlir_common.py:574-586 | the strides follow the stable descending order of the axis keys |
| `TileLayout.SortAxes` | PyTorchSimFrontend/mlir/mlir_common.py:578-582 | the axes come back as a permutation in stable descending key order |
| `TileLayout.StridesAreBijective` | PyTorchSimFrontend/mlir/mlir_common.py:574-586 | for every axis order and positive sizes the address map is a bijection from the index box onto 0..numel-1 |
| `TileLayout.PaddingIsExact` | PyTorchSimFrontend/mlir/mlir_common.py:458-463 | padding is the least enlargement by whole lane blocks, keeps the number of used lanes, splits evenly, and padding again changes nothing |
| `TileLayout.UsedLanesIsMost` | PyTorchSimFrontend/mlir/mlir_common.py:263-267 | the used lanes are the greatest number of lanes, among those there are, that each find a block of the axis to take |
| `TileLayout.PerLaneLayout` | PyTorchSimFrontend/mlir/mlir_common.py:280-289 | after an even split the shrunken strides are those recomputed from the per-lane sizes |
| `TileLayout.PerLaneLayoutIff` | PyTorchSimFrontend/mlir/mlir_common.py:280-289 | for every split: the shrunken strides are those of the per-lane tile if and only if the split axis is the slowest one or the remainder, times the elements of all faster axes, is smaller than the number of shares |
| `TileLayout.UnevenLanes` | PyTorchSimFrontend/mlir/mlir_codegen_backend.py:761-771 | for the tile (2, 5, 10) split over four lanes the per-lane strides are not those of the per-lane tile |
| `TileDescriptor.MultiDimTile.PadVlaneTile` | PyTorchSimFrontend/mlir/mlir_common.py:458-463 | after the in-place padding the lane split is exact, the axis grew by less than one block of the used lanes, and padding again would change nothing |
| `TileDescriptor.MultiDimTile.GetTileStridePerLane` | PyTorchSimFrontend/mlir/mlir_common.py:263-289 | the per-lane strides form the layout of the per-lane tile if and only if the lanes line up, and so after every exact split |
| `TileDescriptor.MultiDimTile.IsDimDividable` | PyTorchSimFrontend/mlir/mlir_common.py:354-364 | an error exactly for the wrong rank; otherwise true exactly when every dimension is made up of whole tiles, the lane axis up to the next multiple of the lane stride |
| `TileDescriptor.RoundUpIsLeast` | PyTorchSimFrontend/mlir/mlir_common.py:358-362 | the rounded lane dimension is the only multiple of the lane stride less than one stride above the dimension |
| `TileDescriptor.MultiDimTile.AdjustTileToDivisible` | PyTorchSimFrontend/mlir/mlir_common.py:366-387 | every returned size is the largest divisor of its dimension up to the tile size; the lane stride is given up exactly when it no longer divides |
| `TileDescriptor.MultiDimTile.RepairForIndex` | PyTorchSimFrontend/mlir/mlir_codegen_backend.py:760-767 | after installing the adjusted sizes the same check passes, so this recompile cause does not recur |
| `TileDescriptor.AdjustSize` | PyTorchSimFrontend/mlir/mlir_common.py:520-533 | under `must_divide_dim` the largest multiple of `multiple_of` up to the request that divides the dimension, or the error when there is none; the other modes as coded |
| `GemmMapping.SideCovered` | PyTorchSimFrontend/mlir/mlir_template.py:215-227 | every tile size tried for M or N divides the padded size and covers the dimension with the least number of tiles |
| `GemmMapping.KCoveredIff` | PyTorchSimFrontend/mlir/mlir_template.py:217-231 | the same for K holds if and only if K was not raised past a lane count below 8 that does not divide 8 |
| `GemmMapping.PerLaneTestSuffices` | PyTorchSimFrontend/mlir/mlir_template.py:263-269 | the fit test is equivalent to its per-lane half |
| `GemmMapping.SpreadHolds` | PyTorchSimFrontend/mlir/mlir_template.py:1005-1007 | the per-lane size times the lanes holds the whole matrix |
| `GemmMapping.SpreadIsLeast` | PyTorchSimFrontend/mlir/mlir_template.py:1005-1007 | no way to deal out the columns to the lanes needs less per lane, down to the two words a lane gets at least |
| `GemmMapping.FitsIffDealt` | PyTorchSimFrontend/mlir/mlir_template.py:260-269 | a tile passes the fit test if and only if the columns of its three matrices, with their fused copies, can be dealt out to the lanes in some way within half of the scratchpad of a lane |
| `GemmMapping.TileSizeIff` | PyTorchSimFrontend/mlir/mlir_template.py:215-231 | the sizes tried for a side above the lane count are exactly the multiples of the lane count that divide the lane blocks of the padded side; for any other side only the padded side is tried |
| `GemmMapping.UsedCountsCells` | PyTorchSimFrontend/mlir/mlir_template.py:259-259 | the use of a tile is the precision times the number of index tuples of the three matrices, each fused copy counted |
| `GemmSearch.GemmCombinationMapping` | PyTorchSimFrontend/mlir/mlir_template.py:208-279 | the result holds a tile if and only if its sizes lie on the divisor grid and its matrices can be dealt out within half of the scratchpad of each lane; each tile comes once, by decreasing number of bytes |
| `GemmSearch.CandidateIff` | PyTorchSimFrontend/mlir/mlir_template.py:233-269 | the tiles kept by the nested loops are those of the closed form above |
| `GemmSearch.SortIsStable` | PyTorchSimFrontend/mlir/mlir_template.py:277-278 | candidates of equal use keep the order of the loops |
| `GemmSearch.CandidatesCover` | PyTorchSimFrontend/mlir/mlir_template.py:208-269 | every candidate divides and covers the padded problem and fits twice, in total and per lane |
| `TogDump.StackIsAlwaysChain` | AsmParser/tog_generator.py:166-187 | throughout a preorder dump the loop-end stack holds exactly the end nodes of the open loops, if and only if no loop is directly followed by a sibling |
| `TogDump.StackStep` | AsmParser/tog_generator.py:150-187 | one record keeps the stack equal to the chain of open loops exactly when it is not a sibling right after a loop; the stack never underflows from such a state |
| `TogDump.EmptyLoopBreaksTheStack` | AsmParser/tog_generator.py:150-162 | a three-record dump after which the end node of a closed loop is still on the stack |
| `TogDump.StackFits` | AsmParser/tog_generator.py:166-187 | for every preorder dump the stack holds the end nodes of the open loops and, in each body, those of the empty loops that a sibling follows |
| `TogDump.NoPopFails` | AsmParser/tog_generator.py:166-182 | for every preorder dump no pop finds the stack empty |
| `TogGenerator.TogGenerator.CreateNode` | AsmParser/tog_generator.py:135-190 | one record appends the end nodes of the loops it closes and then itself, updates the stack and the id counter, adds exactly the edges of its case, and keeps all edges in insertion order; it fails exactly on an empty stack |
| `TogGenerator.TogGenerator.CloseLoops` | AsmParser/tog_generator.py:166-182 | the popping loop ends, emits the popped end nodes innermost first, links the trailing run of loads to the first of them and each to the next, and stops at the end node of a sibling; it fails when there is none |
| `TogGenerator.TogGenerator.ConnectSibling` | AsmParser/tog_generator.py:150-163 | which edges a sibling gets: runs of loads or waits share a parent, a compute node waits for the whole run, other nodes follow the previous one |
| `TogGenerator.TogGenerator.CloseRest` | AsmParser/tog_generator.py:202-210 | what is left on the stack is emitted innermost first and linked in a chain behind the last node |
| `TogGenerator.TogGenerator.ParseGraph` | AsmParser/tog_generator.py:192-210 | for every preorder dump: nothing fails, each record and one end node per loop is emitted once, the edges lead forward and form no cycle; which nodes each record and each end node follows is read off the dump and the emission order, both ways; the order is the walk over the loop nest exactly when no loop is directly followed by a sibling, and every body leads to the end of its loop exactly when no record in it is stranded |
| `TogPreds.IntoRecord` | AsmParser/tog_generator.py:149-182 | for every preorder dump, node p has an edge to record k if and only if p is among the predecessors read off the dump; a record that closes loops follows the end node of the loop right before it in the same body |
| `TogPreds.RuleOfRecord` | AsmParser/tog_generator.py:149-165 | on the final edges: a load behind a sibling load (or wait behind wait) has the same predecessors as the record before it, a compute node behind one has exactly the loads and waits of its run of siblings, any other sibling and any first child has exactly the record before it |
| `TogPreds.TransferFollowsOne` | AsmParser/tog_generator.py:152-155 | a load or a wait has exactly one predecessor, so "the last parent" of the code is the only one |
| `TogPreds.WaitsFollowLoad` | AsmParser/tog_generator.py:152-155 | for two loads, two waits and a compute node in a loop: both waits follow the second load only, the compute node all four |
| `TogEnds.IntoEnd` | AsmParser/tog_generator.py:166-210 | for every preorder dump the edges into an end node come exactly from the node emitted before it and, when that is the last record of a closed body, from its siblings going back for as long as loads are passed |
| `TogGenerator.TogGenerator.AddRecord` | AsmParser/tog_generator.py:192-200 | one record is added from the state after the records before it; it fails exactly when a pop does |
| `TogWalk.EmittedIsWalk` | AsmParser/tog_generator.py:135-190 | after each record the emitted nodes read as brackets: every node stands directly inside its parent and every end node closes the innermost open loop |
| `TogWalk.AllEmittedIsWalk` | AsmParser/tog_generator.py:202-210 | at the end all loops are closed |
| `TogWalk.WalkIff` | AsmParser/tog_generator.py:135-210 | for every preorder dump the emitted order is the walk over the loop nest if and only if no loop is directly followed by a sibling |
| `TogOrder.AllEmittedIsMade` | AsmParser/tog_generator.py:69-87 | for every preorder dump each record and exactly one end node per loop is emitted, once |
| `TogOrder.MadeIdsDistinct` | AsmParser/tog_generator.py:81-87 | end nodes get fresh ids: no two emitted nodes share an id |
| `TogOrder.NoCycle` | AsmParser/tog_generator.py:149-182 | edges that follow the insertion order of the made nodes form no cycle; parsing gives such edges for every preorder dump |
| `TogEdges.AllEdgesLocal` | AsmParser/tog_generator.py:149-182 | for every preorder dump each edge leads from a loop into its own body, between nodes of one body, or from a body to its own end node; the end node of an empty loop before a sibling counts as a node of the body around it |
| `TogEdges.RecordOut` | AsmParser/tog_generator.py:149-182 | inside a loop a record has an edge out if and only if it is the last record or some later record takes an edge from the run of siblings that holds it |
| `TogReach.BodiesFinishIff` | AsmParser/tog_generator.py:149-210 | for every preorder dump each node inside a loop leads to the end node of that loop if and only if no record inside a loop is stranded |
| `TogReach.OnlyTransfersStrand` | AsmParser/tog_generator.py:151-155 | a stranded record is a load directly followed by a load, or a wait by a wait, with the same parent |
| `TogReach.FirstLoadStrands` | AsmParser/tog_generator.py:150-163 | in a loop of two loads and a store the first load does not lead to the end node of the loop |
| `TileScheduler.Tile.FinishTile` | TOGSim/src/Tile.cc:33-36 | lowers each child's counter by its number of edges; leaves the process exactly when some counter is too small |
| `TileScheduler.Connect` | TOGSim/src/Tile.cc:28-31 | wiring with append_child gives every tile the list of the children of its edges, in order, and makes every counter the number of edges into the tile |
| `TileScheduler.PendingDrops` | TOGSim/src/Tile.cc:33-36 | finishing a tile removes exactly its edges from every count of unfinished parents |
| `TileScheduler.TileSubGraph.AddAll` | TOGSim/src/TileGraph.cc:7-15 | adding the tiles of a wired graph, also one with double edges, establishes the invariant |
| `TileScheduler.TileSubGraph.GetTile` | TOGSim/src/TileGraph.cc:37-46 | hands out a queued tile of least scratchpad need, all of whose parents have finished, or the empty tile exactly when the queue is empty |
| `TileScheduler.TileSubGraph.TopIndex` | TOGSim/include/TileGraph.h:23-27 | the tile on top needs the least scratchpad |
| `TileScheduler.TileSubGraph.FinishTile` | TOGSim/src/TileGraph.cc:17-28 | for every wired graph: each counter stays the number of edges from unfinished parents, no underflow exit is taken, and the queue grows by the children that became free, once per edge; every tile stays in at most one place if and only if no freed child is listed twice |
| `TileScheduler.QueuedPerEdge` | TOGSim/src/TileGraph.cc:17-28 | a child that becomes free is queued once per edge from the finished tile |
| `TileOrders.TwinFreeIffCovered` | TOGSim/src/TileGraph.cc:17-28 | on an acyclic graph no order of finishing ever queues a tile twice if and only if every child that a tile lists more than once has another parent that descends from that tile |
| `TileRuns.ChildQueuedTwice` | TOGSim/src/TileGraph.cc:17-28 | two tiles, the first listing the second twice: after one finish the second one is in the queue twice |
| `TileScheduler.SomeTileIsReady` | TOGSim/src/TileGraph.cc:37-46 | on an acyclic graph, while a tile is unfinished and none is running, the queue is not empty |
| `TileScheduler.FinishedMeansAll` | TOGSim/include/TileGraph.h:15-15 | the reported end means that every tile is finished exactly when no tile is running at that time |
| `TileScheduler.EndMeansHandedOut` | TOGSim/include/TileGraph.h:15-15 | the end is reported exactly when every tile is finished or running |
| `TileRuns.EndBeforeLastTile` | TOGSim/src/TileGraph.cc:37-46 | a subgraph of one tile reports the end as soon as that tile is handed out, before it has run |
| `TileRuns.Build` | TOGSim/src/TileGraph.cc:7-15 | from fresh tiles and any list of edges to a subgraph with the invariant and the child lists of that list |
| `TileRuns.Run` | TOGSim/src/TileGraph.cc:17-46 | on every acyclic graph that never queues a tile twice, in every interleaving of handing out and finishing, every tile finishes exactly once and after all its parents |
| `TileRuns.BuildAndRun` | TOGSim/src/TileGraph.cc:7-46 | from an edge list without double edges to the end of a run: the finishing order holds each tile once and respects every edge |
| `TileRuns.Replay` | TOGSim/src/TileGraph.cc:17-46 | every legal finishing order of any graph can be run up to its first finish that queues a tile twice, and there is one exactly when the order contains it |
| `RangeIterator.Iterator.Advance` | TOGSim/include/TileGraph.h:88-104 | advancing moves to the point of the next mixed-radix number and finishes exactly after the last one |
| `RangeIterator.IterateAll` | TOGSim/include/TileGraph.h:79-131 | the loop from begin to end ends and visits exactly the points whose every index is its start plus a number of steps below its end, each once and in lexicographic order, where an empty range counts as its start alone |
| `RangeIterator.VisitsNestInOrder` | TOGSim/include/TileGraph.h:79-131 | the visited points are the loop nest in order when no range is empty |
| `RangeIterator.VisitsOnce` | TOGSim/include/TileGraph.h:88-104 | no point is visited twice |
| `RangeIterator.VisitsInOrder` | TOGSim/include/TileGraph.h:88-104 | the points come in lexicographic order |
| `RangeIterator.VisitsAll` | TOGSim/include/TileGraph.h:88-104 | every point of the loop nest is visited |
| `RangeIterator.VisitsOnlyTheNest` | TOGSim/include/TileGraph.h:81-86 | only points of the loop nest are visited if and only if no range is empty |
| `MixedRadix.Successor` | TOGSim/include/TileGraph.h:89-100 | counting up one digit while all later digits roll over adds one |
| `SimletLatency.PagesTouchedIsExact` | TOGSim/legosim/ssd_simlet.cpp:31-36 | the count is the size of the set of 4 KB pages touched if and only if the request ends inside the 64-bit address space |
| `SimletLatency.EffectiveBytesIsExact` | TOGSim/legosim/ssd_simlet.cpp:38-39 | for every request the bytes are whole pages exactly when not all pages are touched; then they cover the request and exceed it by less than two pages |
| `SimletLatency.LatencyMonotone` | TOGSim/legosim/ssd_simlet.cpp:38-43 | no part of a request takes longer than the whole, for all lengths and settings, if and only if the request leaves some page of memory untouched |
| `SimletLatency.LatencyOfBytes` | TOGSim/legosim/ssd_simlet.cpp:38-43 | no request takes less than the base latency, and no more effective bytes never take more time |
| `SimletLatency.LatencyPays` | TOGSim/legosim/ssd_simlet.cpp:38-43 | with a positive bandwidth the latency L is the least whole number with (L - base) * bandwidth at least the bytes of the pages of the request (modulo 2^64); otherwise the least whole number not below the base latency |
| `SimletLatency.WholeMemoryIsFast` | TOGSim/legosim/ssd_simlet.cpp:38-39 | a request for all of memory but one byte has no effective bytes |
| `SimletLatency.DramClock` | TOGSim/legosim/dram_simlet.cpp:75-118 | requests are answered up to the first sentinel, which is answered with zero; every other response pays for the pages of its request and no smaller one does; each is written exactly its delay and its latency after the one before, the first one after clock 1, and the clock never runs backwards |
| `LegoSimProtocol.EveryStateIsConsistent` | TOGSim/src/SsdLegoSimLink.cc:33-65 | in every state of every run at most one message exists, and the answers so far are as many as the queries so far, where the k-th one is the least that pays for the pages of the k-th query |
| `LegoSimProtocol.AnswersPay` | TOGSim/legosim/ssd_simlet.cpp:38-43 | the list of latencies holds one answer for each query, in order, and each pays for its query |
| `LegoSimProtocol.OneStep` | TOGSim/legosim/ssd_simlet.cpp:62-89 | in a reachable state exactly one of the two processes can move, in one way, unless a query waits for an exited simlet |
| `LegoSimProtocol.RunsEnd` | TOGSim/src/SsdLegoSimLink.cc:33-65 | every run is at most four steps a call long |
| `LegoSimProtocol.StuckIffAskedLate` | TOGSim/src/SsdLegoSimLink.cc:47-65 | some run gets stuck if and only if a query follows a shutdown of an enabled link |
| `LegoSimProtocol.FinalState` | TOGSim/src/SsdLegoSimLink.cc:58-65 | at the end every query has its answer, and each answer pays for its query; both channels are empty, and the simlet has exited exactly when an enabled link was shut down |
| `LegoSimProtocol.ShutdownTwiceIsOnce` | TOGSim/src/SsdLegoSimLink.cc:58-60 | a repeated shutdown, or one of a disabled link, returns without a message |
| `WeightRanges.MergeRanges` | merge_weight_ranges.py:23-37 | the result is sorted with strictly separated ranges and covers the same addresses and the same neighbouring pairs as the input |
| `WeightRanges.SeparatedIsUnique` | merge_weight_ranges.py:23-37 | there is only one such list, so the result does not depend on the order of the input |
| `WeightRanges.AddrInRanges` | extract_weight_traces.py:27-32 | the lookup tests the last range that starts at or before the address |
| `WeightRanges.LookupExactIff` | extract_weight_traces.py:27-32 | that one lookup answers membership for every address if and only if no earlier range sticks out of a later one |
| `WeightRanges.SortedIsNotEnough` | extract_weight_traces.py:27-32 | a sorted list of two ranges and an address inside the first one that the lookup misses |
| `WeightRanges.LoadRanges` | extract_weight_traces.py:8-24 | the loaded list is sorted; a merged list comes back as it was written |
| `WeightRanges.FilterTrace` | extract_weight_traces.py:35-86 | on every sorted list the rows written are those at the places whose lookup succeeds, in the order of the trace, and nothing is written when there is none; where the lookup is exact these are the rows whose address lies in the ranges |
| `WeightRanges.HitsExactIff` | extract_weight_traces.py:27-86 | the rows kept are those inside the ranges for every trace if and only if the lookup is exact |
| `WeightRanges.ExtractRows` | extract_weight_traces.py:8-86 | parsing, merging, loading and filtering together keep exactly the rows, in the order of the trace, whose address lies between the two numbers of some line |

## Left out

- `SortKernel.Kernel.Run`: tie order for four chunks and more, and the index permutation of a row with equal values in non-stable mode, are not promised because the code does not keep them in general; which rows of several chunks lose an index is not characterised.
- `FlashAttention.RowKernel.Run`: works over the reals with any positive function that turns sums into products; rounding, overflow and NaN are not modelled (a zero row sum ends in `NotFinite`). The words behind the score buffer do not change while a row is processed.
- `TileScheduler.TileSubGraph.FinishTile`: once a tile is in the queue twice it would be handed out twice; a run is followed up to that finish and not beyond.
- `TileRuns.BuildAndRun`: takes edge lists without double edges; for graphs with double edges see `TileRuns.Run` and `TileRuns.Replay`.
- `TogGenerator.TogGenerator.ParseGraph`: needs a preorder dump with dense ids and a plain root; the depth bookkeeping that only feeds the dump of nodes by depth is not modelled.
- `RangeIterator.Iterator.Advance`: indices are unbounded; overflow of `int` is not modelled.
- `SimletLatency.LatencyMonotone`: the double arithmetic is exact here, and the cast of a latency beyond 64 bits is not modelled.
- `GemmSearch.GemmCombinationMapping`: the candidate files and the heuristic `mapping`, which the function computes and does not return, are not modelled.
- `IntervalTrees.IntervalTree.constructor`: child pointers and node contents are constants after construction; moving, copying and cloning of trees are not modelled.
- `IntervalTrees.SortByStart`: `std::sort` is an insertion sort here; only that the result is a sorted permutation is used.
- Vectors of the sort kernel are sequences in registers; the X, YV and XI buffers are arrays that are updated in place. NaN and negative zero are excluded by using reals.
- MLIR text, Jinja rendering, CSE buffers, SSA names, offset maps and DMA: the model is the computation that the emitted code performs.
- Cores, DMA engine, caches, DRAM and interconnect of the simulator, instruction queues, cache statistics and cost heuristics.
- `apply_divisor`, tile growth and the implicit-dimension constraints of the tile descriptor.
- interchiplet's internals: the two channels are FIFO queues, a send never blocks, and addresses, names and logging of requests are dropped. The link is a state machine over its steps together with the simlet, not a class, because its methods block on the other process.
- Files, environment variables, command lines, CSV parsing and rows that are skipped as malformed.
