# SPFresh / SPTAG: verified models of the stateful core

SPFresh serves approximate nearest-neighbour search from an index that is partitioned over ranks, selected from a
balanced k-means tree, stored with per-vector metadata, and queried through an aggregator over sockets. This project
models the parts of that system that carry state and arithmetic of their own, and proves what they keep.

The files follow the components:

| component | files |
|---|---|
| balanced partitioner: one capacity-limited round, rounds over all ranks, shipping the records, centre update, merge of status files | `Sorting`, `ThreadSlices`, `HardAssign`, `NearestCenters`, `RoundLaw`, `PartitionRounds`, `QuotaRounds`, `GroupRounds`, `RecordShipping`, `ParallelAssign`, `AssignMeaning`, `CenterSync` |
| head selection on the BK tree: statistics, coverage, the static selection with its revisit worklist, the dynamic selection and its threshold searches | `BKTree`, `HeadStatistics`, `HeadCoverage`, `HeadChoice`, `HeadStatic`, `HeadDynamic`, `HeadGroups`, `HeadSegments`, `HeadRatio`, `HeadTries`, `HeadBest`, `HeadTurns`, `HeadSearch` |
| metadata store over a blocked vector | `LockFreeVector`, `MetadataView`, `MetadataSet` |
| aggregation: resources with timeouts, the per-request context, all interleavings | `ResourceManager`, `AggregatorContext`, `AggregatorProtocol`, `AggregatorOrigins`, `AggregatorFailures` |
| wire and text formats: binary messages, base64, query printer and parser | `Bytes`, `Serialization`, `RemoteSearchQuery`, `Layouts`, `Base64`, `Base64Text`, `QueryText`, `QueryMeaning`, `QueryParser`, `ClientQuery`, `ClientMeaning` |
| connection pool | `ConnectionPool` |
| replica selection by the RNG rule | `ReplicaSelection`, `ReplicaMeaning` |

Conventions. Distances and weights are `real`. `std::sort` is an insertion sort by the same comparison; its properties
used are those of any sort, and where a result is a function of ties (the dynamic selection) it is this sort's. Threads,
atomics and lock-protected sections are interleaved atomic steps chosen non-deterministically, and results hold for
every choice. `MPI_Allreduce` is a sum over the ranks. Files, sockets and
buffers are byte sequences or arrays. Whoever updates fields in place is a class here; each of its methods is proved
against a function or a predicate on values, and the properties are proved of those. What such a function means is said
a second time without it, by what a caller could observe: which rows a round must take from the labels alone
(`RoundLaw`), which nodes a selection must hold from the tree alone (`HeadChoice`, `HeadSegments`), where an answer came
from in the steps of the run (`AggregatorOrigins`), which bytes stand where (`Layouts`).

Some properties one would expect turn out false of the code. Each is kept as the code has it, with the exact condition
under which it holds:

- the capacity of a cluster without the hard cut (`QuotaRounds.SoftCutCapacity`, counterexample `SoftCutOverfills`);
- the bound of `LockFreeVector`, whose unsigned test wraps (`LockFree.AcceptsKeepsBound`, counterexample `AcceptsTooMuch`), and with it the capacity 0 of the metadata store (`MetadataSet.RoomIff`);
- base64: encode after decode (`Base64.EncodeDecodeIff`, counterexample `StrayBitLost`): the check of a one-`=` tail looks at the padding character itself;
- lengths over 32 bits on the wire (`Serialization.BytesRoundTripIff`, counterexample `LengthCut`);
- parameters that the query parser cannot read back (`ClientQuery.ServerReads`, counterexample `ColonMisread`);
- removal from the pool by slot (`ConnectionPool.RemoveSparesIff`, counterexample `StaleRemoval`: a connection reports its failure twice, and another one has taken its slot in between);
- a callback handed out at most once, on which one answer per request rests: it holds in all that may follow exactly when no send has failed (`AggregatorFailures.HandedOutOnceIff`, and `TimedOutOnceIff` for timeouts alone; `FailedSendAnswersTwice` is a run with two answers);
- a `FileMetadataSet` saved over its own file: new records survive exactly when nothing stands behind the last old one (`MetadataView.SaveLoadIff`, counterexample `TrailingByte`).

## Model

| member | source | states |
|---|---|---|
| `ThreadSlices.SlicesPartition` | AnnService/src/BalancedDataPartition/main.cpp:265-272 | for any row and thread count, every row lies in exactly one thread's slice |
| `Sorting.SortByCorrect` | AnnService/src/BalancedDataPartition/main.cpp:305 | sorting yields an ordered permutation for any total preorder |
| `HardAssign.RankingFacts` | AnnService/src/BalancedDataPartition/main.cpp:276-283 | a row's ranking lists every centre once, nearest first |
| `HardAssign.SegmentRank` | AnnService/src/BalancedDataPartition/main.cpp:313-323 | an item's place in its cluster's segment is the number of rows nearer by (distance, row) |
| `HardAssign.KeptCount` | AnnService/src/BalancedDataPartition/main.cpp:313-323 | exactly min(limit, candidates) rows keep a cluster |
| `HardAssign.RankState.constructor` | AnnService/src/BalancedDataPartition/main.cpp:483-486 | a rank over any rows, distances and labels of the right shape, with nothing counted |
| `HardAssign.RankState.FillItems` | AnnService/src/BalancedDataPartition/main.cpp:267-303 | whatever the interleaving, item i is what row i asks for |
| `HardAssign.RankState.DropOverflow` | AnnService/src/BalancedDataPartition/main.cpp:313-323 | the sign encoding marks exactly the rows past their cluster's limit, and each row stays readable |
| `HardAssign.RankState.WriteBack` | AnnService/src/BalancedDataPartition/main.cpp:325-357 | the encoding is undone, every row of the column is written once, and the counters grow by the rows kept, whatever the interleaving |
| `HardAssign.RankState.HardMultipleClustersAssign` | AnnService/src/BalancedDataPartition/main.cpp:260-369 | the label matrix becomes the one described row by row without sorting or threads: nearest rows by (distance, row) up to the remaining limit, the sentinel elsewhere; counters accumulate by min(limit, candidates); `CandidateIff` says what a row asks for, `RoundFair` what the rows get |
| `NearestCenters.CandidateIff` | AnnService/src/BalancedDataPartition/main.cpp:276-302 | a row asks in column c exactly for the centre with c centres in front of it by (distance, number), if its distance is at most the nearest one times the closure factor |
| `NearestCenters.ClosureTest` | AnnService/src/BalancedDataPartition/main.cpp:285 | for a factor that is not negative that test is against every centre |
| `NearestCenters.NearestAsked` | AnnService/src/BalancedDataPartition/main.cpp:285 | with a factor of at least 1 and distances that are not negative every row asks in the first round for its nearest centre |
| `RoundLaw.RefusedMeansFull` | AnnService/src/BalancedDataPartition/main.cpp:313-323 | a row that asks and is refused leaves exactly the limit of rows that keep the cluster, all of them nearer by (distance, row) |
| `RoundLaw.RoundFair` | AnnService/src/BalancedDataPartition/main.cpp:260-369 | a round whose limit is the largest share of a budget gives the cluster to the nearest rows that ask, never more than the share, and refuses a row only when one more on every rank would exceed the budget |
| `PartitionRounds.NoRepeatedLabel` | AnnService/src/BalancedDataPartition/main.cpp:285-295 | across rounds no row names the same cluster twice |
| `PartitionRounds.CellsGrow` | AnnService/src/BalancedDataPartition/main.cpp:332-341 | a round adds to a cluster's label cells exactly the rows that keep it |
| `PartitionRounds.RankRound` | AnnService/src/BalancedDataPartition/main.cpp:488 | a round keeps the accumulated counters equal to the label cells |
| `PartitionRounds.AssignRank` | AnnService/src/BalancedDataPartition/main.cpp:483-501 | whatever the all-reduces answer, every limit stays non-negative, counters and labels of the rank agree after all rounds, and every column of the labels is what its round must give for the budget the answers leave |
| `PartitionRounds.RecordRound` | AnnService/src/BalancedDataPartition/main.cpp:487-501 | one more round makes its own column fair and leaves the columns of the earlier rounds as they were |
| `QuotaRounds.LaterRound` | AnnService/src/BalancedDataPartition/main.cpp:497-499 | the bounds over all ranks: a round takes a cluster's count from G to at most max(G, total), and never below G |
| `QuotaRounds.RoundUsesShare` | AnnService/src/BalancedDataPartition/main.cpp:497-499 | how much a later round must give: every rank gains all its rows that ask, or so many that one more on every rank would be more than total leaves over, and never more than its part |
| `QuotaRounds.FirstUsesShare` | AnnService/src/BalancedDataPartition/main.cpp:483 | the same of the first round with a hard cut; without one it takes every row that asks |
| `QuotaRounds.CapacityIff` | AnnService/src/BalancedDataPartition/main.cpp:483-501 | over any ranks and rounds a cluster ends within total exactly when its first round does |
| `QuotaRounds.HardCutCapacity` | AnnService/src/BalancedDataPartition/main.cpp:483 | with the hard cut at 1 the count never exceeds total |
| `QuotaRounds.SoftCutCapacity` | AnnService/src/BalancedDataPartition/main.cpp:483 | with hard cut 0 it stays within total exactly when no more than total rows have the cluster nearest |
| `QuotaRounds.SoftCutOverfills` | AnnService/src/BalancedDataPartition/main.cpp:483 | a concrete overfull cluster under hard cut 0 |
| `QuotaRounds.ViewsRunTheRounds` | AnnService/src/BalancedDataPartition/main.cpp:487-501 | ranks that each see only their own rows and the all-reduced counts together run the quota rounds |
| `PartitionRounds.GroupCapacity` | AnnService/src/BalancedDataPartition/main.cpp:487-503 | the capacity condition for the real rows and distances of all ranks |
| `GroupRounds.AnswersExist` | AnnService/src/BalancedDataPartition/main.cpp:490 | summing all-reduces always have consistent answers, round by round |
| `GroupRounds.AllReduce` | AnnService/src/BalancedDataPartition/main.cpp:502-503 | the reduction gives every cluster the sum of the local counts |
| `GroupRounds.AssignGroup` | AnnService/src/BalancedDataPartition/main.cpp:483-503 | all ranks in lock step: each rank counts exactly its label cells; in every column every rank gives each cluster to the nearest rows that ask, as many as its share of what total minus the cells named so far on all ranks leaves; a cluster is within total exactly when its first round is, always under hard cut 1 |
| `GroupRounds.NamedIsGlobal` | AnnService/src/BalancedDataPartition/main.cpp:490 | what an all-reduce answers is how often the labels of the rounds so far name the cluster, over all ranks |
| `GroupRounds.AllFairAtEnd` | AnnService/src/BalancedDataPartition/main.cpp:487-501 | the labels of all ranks at the end, column by column: a label is one the row asks for; a row refused means that its rank has used up its share of the budget with nearer rows |
| `GroupRounds.Process` | AnnService/src/BalancedDataPartition/main.cpp:483-627 | assignment and files end to end: the labels are fair in every column, every header counts the records behind it, and under hard cut 1 no file holds more than total |
| `GroupRounds.PartitionData` | AnnService/src/BalancedDataPartition/main.cpp:483-627 | the same from the distances of every rank's rows: ranks made, rounds run, files written; with `FileMembers` this says which rows stand in which file |
| `GroupRounds.FileMembers` | AnnService/src/BalancedDataPartition/main.cpp:556-627 | a cluster's file holds exactly the (rank, row) pairs whose labels name it |
| `GroupRounds.FileIncreases` | AnnService/src/BalancedDataPartition/main.cpp:556-627 | records come by rank and then by row, none twice |
| `RecordShipping.ShippedRecords` | AnnService/src/BalancedDataPartition/main.cpp:607-625 | the scan finds exactly the labelled rows, in order, as many as the counter announced |
| `RecordShipping.Send` | AnnService/src/BalancedDataPartition/main.cpp:607-625 | a rank sends its count and then that many records |
| `RecordShipping.Receive` | AnnService/src/BalancedDataPartition/main.cpp:556-579 | the owner takes exactly the announced number off the channel |
| `RecordShipping.Collect` | AnnService/src/BalancedDataPartition/main.cpp:556-599 | the owner gets a rank's records, by scan or channel, and the channel is drained |
| `RecordShipping.AllRecordsCount` | AnnService/src/BalancedDataPartition/main.cpp:502-548 | the announced counts add up to the records of all ranks |
| `RecordShipping.WriteCluster` | AnnService/src/BalancedDataPartition/main.cpp:530-606 | the file header equals the number of records written |
| `ParallelAssign.MergeFolds` | AnnService/src/BalancedDataPartition/main.cpp:220-255 | merging two adjacent slices gives the fold over both: first farthest when centres are updated, last nearest otherwise |
| `ParallelAssign.FoldMeaning` | AnnService/src/BalancedDataPartition/main.cpp:184-210 | the one-thread run counts every row naming the cluster and keeps the promised extreme point |
| `ParallelAssign.MergeThreadsIsFold` | AnnService/src/BalancedDataPartition/main.cpp:220-255 | for any thread count the merge is the one-thread run |
| `ParallelAssign.Assignment.constructor` | AnnService/src/BalancedDataPartition/main.cpp:149-171 | a call over any valid inputs, with cleared accumulators |
| `ParallelAssign.Assignment.RunThreads` | AnnService/src/BalancedDataPartition/main.cpp:161-218 | in any interleaving every row is labelled and every thread's accumulators cover its slice |
| `ParallelAssign.Assignment.MultipleClustersAssign` | AnnService/src/BalancedDataPartition/main.cpp:149-257 | labels, counts, weights, centre sums and extreme points are those of a single pass |
| `AssignMeaning.PenaltyLaw` | AnnService/src/BalancedDataPartition/main.cpp:155-176 | what is added to a distance: lambda times the count, or times the whole part of the mean count when the new penalty is on and the count is below it, plus the weight term |
| `AssignMeaning.LabelIff` | AnnService/src/BalancedDataPartition/main.cpp:180-210 | a cell names the centre with so many centres in front of it by penalised distance, if that passes the closure test against the nearest |
| `AssignMeaning.CountMeaning` | AnnService/src/BalancedDataPartition/main.cpp:187 | the count of a cluster is the number of rows that join it |
| `AssignMeaning.WeightMeaning` | AnnService/src/BalancedDataPartition/main.cpp:188 | its weight is the sum of their weights |
| `AssignMeaning.CenterMeaning` | AnnService/src/BalancedDataPartition/main.cpp:193-195 | its centre sum is the sum of their points when centres are updated, and nothing otherwise |
| `AssignMeaning.ExtremeMeaning` | AnnService/src/BalancedDataPartition/main.cpp:196-205 | its extreme point is the first of its farthest rows when centres are updated, the last of its nearest otherwise |
| `CenterSync.MergeCounts` | AnnService/src/BalancedDataPartition/main.cpp:726-735 | the saturating merge gives the sum if it fits 32 bits and no part is negative, else the maximum, with no overflow on the way |
| `CenterSync.MergeAnyOrder` | AnnService/src/BalancedDataPartition/main.cpp:709-735 | the order of the status files does not matter |
| `BKTree.LeavesCount` | AnnService/inc/SSDServing/SelectHead.h:181-200 | the recursive leaf sum is the number of leaves below the node |
| `BKTree.DepthBounds` | AnnService/inc/SSDServing/SelectHead.h:183-204 | minimum and maximum depth bound the distance to every leaf below |
| `BKTree.MinDepthReached` | AnnService/inc/SSDServing/SelectHead.h:183-204 | some leaf below lies exactly at the minimum depth |
| `BKTree.MaxDepthReached` | AnnService/inc/SSDServing/SelectHead.h:183-204 | some leaf below lies exactly at the maximum depth |
| `HeadStatistics.InnerMembers` | AnnService/inc/SSDServing/SelectHead.h:206 | the candidates are exactly the inner nodes, with their true leaf counts and depths |
| `HeadStatistics.DfsSelect` | AnnService/inc/SSDServing/SelectHead.h:164-207 | fills leaf count, depths and parent of the whole subtree, touches nothing else, and lists its inner nodes |
| `HeadCoverage.CoveredCount` | AnnService/inc/SSDServing/SelectHead.h:211-236 | the result is the number of leaves with a selected node at or above them |
| `HeadStatic.Revisit` | AnnService/inc/SSDServing/SelectHead.h:293-317 | the worklist drains; only the first big node of a climb through small unselected nodes is added, and every climb that was pending ends at a selected node or the root |
| `HeadStatic.PendingCovers` | AnnService/inc/SSDServing/SelectHead.h:309-316 | once drained, a node under a big ancestor has a selected node on the way |
| `HeadStatic.PickShallow` | AnnService/inc/SSDServing/SelectHead.h:328-347 | which centres a shallow candidate selects and what it leaves to revisit |
| `HeadStatic.GoDeeper` | AnnService/inc/SSDServing/SelectHead.h:280-326 | moving to the next depth drains the worklist exactly where the shallow candidates end |
| `HeadStatic.TakeCandidate` | AnnService/inc/SSDServing/SelectHead.h:328-367 | one candidate keeps the loop state; stopping at the limit leaves the limited fill |
| `HeadStatic.LimitIsLimit` | AnnService/inc/SSDServing/SelectHead.h:246-251 | the limit is the least of the vector count and one more than the ratio allows |
| `HeadStatic.PicksArePicked` | AnnService/inc/SSDServing/SelectHead.h:328-347 | the shallow candidates select v exactly when some inner node one step above a leaf has at least the threshold of leaves and the centre v, or more than the split threshold and v is the centre of its i-th child for some i from 1 with i times the factor below its leaves |
| `HeadStatic.FillIs` | AnnService/inc/SSDServing/SelectHead.h:362-367 | the limited fill adds the centres of a stretch of the candidates that ends where they end or where the limit is reached, and not before |
| `HeadStatic.DrainedCovers` | AnnService/inc/SSDServing/SelectHead.h:291-317 | every leaf with a big ancestor below the root is covered |
| `HeadStatic.SelectHeadStatically` | AnnService/inc/SSDServing/SelectHead.h:239-417 | in an order by depth and then by size, largest first: the picks of the shallow nodes, what the revisits add when deeper candidates follow, and the deeper candidates one by one up to the limit, without the sentinel, all told from the tree; with the recursive check, every leaf with a non-root ancestor of at least the threshold is covered; the printed coverage is the covered leaves |
| `HeadDynamic.SelectionByGroups` | AnnService/inc/SSDServing/SelectHead.h:443-466 | the appended list is what the groups push, one behind the other in the order in which they are closed |
| `HeadDynamic.Conservation` | AnnService/inc/SSDServing/SelectHead.h:425-469 | subtree size equals residual plus the sizes of the groups closed in it |
| `HeadDynamic.GroupBounds` | AnnService/inc/SSDServing/SelectHead.h:443-468 | the residual stays below a positive threshold, and groups times threshold is at most the subtree size |
| `HeadGroups.GroupMembers` | AnnService/inc/SSDServing/SelectHead.h:443-445 | the groups are exactly those of the nodes below whose group reaches the threshold |
| `HeadGroups.GroupsDiffer` | AnnService/inc/SSDServing/SelectHead.h:432-445 | no node closes two groups |
| `HeadSegments.GroupCount` | AnnService/inc/SSDServing/SelectHead.h:425-440 | the size of a node's group is the number of nodes at or below it that no other closing node in between has cut off |
| `HeadSegments.GroupsInOrder` | AnnService/inc/SSDServing/SelectHead.h:432-448 | groups are closed below before above and earlier branches before later ones |
| `HeadSegments.SortedChildrenLaw` | AnnService/inc/SSDServing/SelectHead.h:434-456 | a split sees every child that leaves something over once, with what it leaves, the largest first |
| `HeadSegments.SplitSizeLaw` | AnnService/inc/SSDServing/SelectHead.h:458-463 | it takes one child for every factor nodes of the group, begun or whole, or all of them |
| `HeadSegments.SelectionIff` | AnnService/inc/SSDServing/SelectHead.h:443-466 | v is selected at or below a node exactly when a closing node there has the centre v below that of the root, or a group over the split threshold and v among the centres of the children it takes |
| `HeadSegments.SelectionPieces` | AnnService/inc/SSDServing/SelectHead.h:443-466 | the appended list is one piece for every closing node, in closing order: its centre once, if below the root's, then the children of its split, largest first |
| `HeadGroups.SelectionBound` | AnnService/inc/SSDServing/SelectHead.h:443-466 | the length of the appended list: without splits, times the threshold at most the subtree size; with splits at most (threshold + 2 factor - 1) / (threshold factor) entries a node |
| `HeadDynamic.SplitTakesLargest` | AnnService/inc/SSDServing/SelectHead.h:450-463 | a split takes at most ceil(size/factor) children and none it leaves out is larger |
| `HeadDynamic.SelectHeadDynamicallyInternal` | AnnService/inc/SSDServing/SelectHead.h:420-469 | returns the residual and appends the selection that `GroupCount`, `SelectionIff` and `SelectionPieces` describe |
| `HeadRatio.HeadsFacts` | AnnService/inc/SSDServing/SelectHead.h:507-509 | the result of a try is strictly increasing, in range, and has the same members as the raw selection |
| `HeadRatio.RoundLaw` | AnnService/inc/SSDServing/SelectHead.h:479 | the target count is the ratio of all vectors rounded to the nearest number, halves away from zero |
| `HeadTurns.DeviationLaw` | AnnService/inc/SSDServing/SelectHead.h:511-535 | a pair is as far off as its share of the vectors is from the ratio, and too large exactly above it |
| `HeadBest.SplitAntitone` | AnnService/inc/SSDServing/SelectHead.h:450-463 | a larger split threshold selects no vector that a smaller one does not |
| `HeadBest.HalvingIsBest` | AnnService/inc/SSDServing/SelectHead.h:499-535 | halving loses nothing: for every split threshold in the interval it meets one that deviates no more |
| `HeadTries.Problem.OldTriedIff` | AnnService/inc/SSDServing/SelectHead.h:494-536 | the old search tries a pair exactly when its select threshold is in 2..n and the halving for that threshold meets its split threshold |
| `HeadTries.Problem.LastIsTried` | AnnService/inc/SSDServing/SelectHead.h:599-632 | the split threshold remembered for a select threshold is one that was tried with it |
| `HeadTries.Problem.PathFacts` | AnnService/inc/SSDServing/SelectHead.h:586-704 | in every run of turns the thresholds used are those visited, and each is in 1..vectorCount |
| `HeadTries.Problem.SearchTries` | AnnService/inc/SSDServing/SelectHead.h:581-588 | a search tries something exactly when it starts from a positive threshold, and then all splits of min(vectorCount, threshold) |
| `HeadTries.Problem.FarOffIff` | AnnService/inc/SSDServing/SelectHead.h:640-672 | the least deviation is too far off exactly when every pair tried is |
| `HeadTurns.UpperSplitLaw` | AnnService/inc/SSDServing/SelectHead.h:597 | the interval ends at 3.2 times the select threshold, rounded down, but never leaves less room than one split threshold |
| `HeadTurns.FirstLaw` | AnnService/inc/SSDServing/SelectHead.h:581-586 | the search starts from the smaller of the given threshold and the vector count, with nothing used |
| `HeadTurns.StepsDouble` | AnnService/inc/SSDServing/SelectHead.h:646-671 | after a change of direction the step is one and doubles turn by turn up to 128 |
| `HeadTurns.GuidedLaw` | AnnService/inc/SSDServing/SelectHead.h:644-682 | down below 1.8, up above 2.2 times the select threshold, within 1 and the vector count; in between done exactly when some pair tried is within two per cent of the target |
| `HeadTurns.RandomLaw` | AnnService/inc/SSDServing/SelectHead.h:684-700 | a random step goes up to eight either way inside the range and counts; without tries left a threshold that stays ends the search |
| `HeadTurns.WhyEnded` | AnnService/inc/SSDServing/SelectHead.h:588-704 | a search ends because a pair is near enough, because the guided phase is stuck at an end of the range, or because the random tries are used up |
| `HeadSearch.TrySplits` | AnnService/inc/SSDServing/SelectHead.h:499-535 | tries exactly the pairs the halving meets, keeps the best of these and all before, and returns the split threshold met last |
| `HeadSearch.SelectHeadDynamicallyOld` | AnnService/inc/SSDServing/SelectHead.h:471-550 | ends with the heads of a pair that deviates least, not only among the pairs it tries but among all select thresholds 2..select and all split thresholds between the factor and the options' own; with the options' own pair if there are none |
| `HeadSearch.SelectHeadDynamically` | AnnService/inc/SSDServing/SelectHead.h:552-718 | terminates for every input and every random choice; the thresholds it visits form a search, turn by turn from min(vectorCount, threshold) to an ending turn, and the result is the heads of a pair that deviates least among all split thresholds of their intervals |
| `LockFree.ShiftMask` | AnnService/inc/Helper/LockFree.h:93 | shift and mask split an offset into whole blocks and a rest |
| `LockFree.SplitIsUnique` | AnnService/inc/Helper/LockFree.h:63-65 | no other block and position belong to an offset |
| `LockFree.LockFreeVector.Get` | AnnService/inc/Helper/LockFree.h:93 | indexing by shift and mask agrees with the sequence |
| `LockFree.LockFreeVector.assign` | AnnService/inc/Helper/LockFree.h:48-70 | appends all, or refuses and leaves the sequence unchanged |
| `LockFree.LockFreeVector.push_back` | AnnService/inc/Helper/LockFree.h:72-87 | appends one, or refuses and leaves the sequence unchanged |
| `LockFree.LockFreeVector.copy` | AnnService/inc/Helper/LockFree.h:95-106 | the exact slice across block boundaries |
| `LockFree.LockFreeVector.save` | AnnService/inc/Helper/LockFree.h:108-117 | the stream grows by exactly the elements |
| `LockFree.LockFreeVector.load` | AnnService/inc/Helper/LockFree.h:119-139 | appends the elements read, or fails with the sequence unchanged; exactly when it does which |
| `LockFree.Reload` | AnnService/inc/Helper/LockFree.h:108-139 | load after save and clear, into stale blocks, always succeeds and restores the elements |
| `LockFree.AcceptsKeepsBound` | AnnService/inc/Helper/LockFree.h:52 | the unsigned capacity test accepts exactly what fits and whatever is longer than the bound; so the bound is passed exactly when one call brings more than it |
| `LockFree.AcceptsTooMuch` | AnnService/inc/Helper/LockFree.h:52 | a concrete call that passes it |
| `MetadataView.AddAppends` | AnnService/src/Core/MetadataSet.cpp:198-203 | across the old/new split, Add appends one record and changes no other |
| `MetadataView.IndexRoundTrip` | AnnService/src/Core/MetadataSet.cpp:423-427 | the index file gives its offsets back |
| `Layouts.IndexLayout` | AnnService/src/Core/MetadataSet.cpp:419-427 | the index file byte by byte: the count in four bytes, then every offset in eight, low bytes first |
| `MetadataView.SaveLoad` | AnnService/src/Core/MetadataSet.cpp:268-289 | save then Init gives the same records where the bytes continue as the offsets do |
| `MetadataView.SaveLoadIff` | AnnService/src/Core/MetadataSet.cpp:206-228 | whatever the new bytes are, they survive saving and loading exactly when nothing stands behind the last held record or there are none |
| `MetadataView.Misplaced` | AnnService/src/Core/MetadataSet.cpp:214-225 | bytes behind the last held record displace the new ones |
| `MetadataView.TrailingByte` | AnnService/src/Core/MetadataSet.cpp:214-225 | a concrete store that loses its new record that way |
| `MetadataView.RefineLoad` | AnnService/src/Core/MetadataSet.cpp:26-44 | streaming refinement then Init gives the selected records in index order |
| `MetadataSet.RoomIff` | AnnService/src/Core/MetadataSet.cpp:412 | there is room for one more exactly below the capacity; capacity 0 bounds nothing |
| `MetadataSet.MemMetadataSet.Init` | AnnService/src/Core/MetadataSet.cpp:268-289 | fails exactly when a file is too short, otherwise holds the records of the files |
| `MetadataSet.MemMetadataSet.GetMetadata` | AnnService/src/Core/MetadataSet.cpp:346-358 | returns the record of the abstract sequence, from whichever buffer |
| `MetadataSet.MemMetadataSet.Add` | AnnService/src/Core/MetadataSet.cpp:406-416 | appends, or at capacity leaves the sequence unchanged |
| `MetadataSet.MemMetadataSet.AddBatch` | AnnService/src/Core/MetadataSet.cpp:67-74 | appends as many records, in order, as the capacity still takes |
| `MetadataSet.MemMetadataSet.RefineMetadata` | AnnService/src/Core/MetadataSet.cpp:14-23 | a new store with the selected records in index order, up to its capacity |
| `MetadataSet.MemMetadataSet.SaveMetadata` | AnnService/src/Core/MetadataSet.cpp:419-436 | the two files are the encoded offsets and all bytes |
| `MetadataSet.MemMetadataSet.RefineToFiles` | AnnService/src/Core/MetadataSet.cpp:25-44 | running offsets from 0 and the selected bytes |
| `MetadataSet.Reopen` | AnnService/src/Core/MetadataSet.cpp:268-289 | saving a store and opening the files restores every record, whatever the capacity |
| `MetadataSet.RefineAndOpen` | AnnService/src/Core/MetadataSet.cpp:25-44 | refining to files and opening them gives the selected records |
| `MetadataSet.FileMetadataSet.Open` | AnnService/src/Core/MetadataSet.cpp:105-128 | fails exactly when the index file is too short; the metadata file may be longer than the offsets say |
| `MetadataSet.FileMetadataSet.GetMetadata` | AnnService/src/Core/MetadataSet.cpp:136-150 | returns the record of the abstract sequence, from file or buffer |
| `MetadataSet.FileMetadataSet.Add` | AnnService/src/Core/MetadataSet.cpp:197-203 | appends one record |
| `MetadataSet.FileMetadataSet.AddBatch` | AnnService/src/Core/MetadataSet.cpp:67-74 | appends all records in order |
| `MetadataSet.FileMetadataSet.SaveMetadata` | AnnService/src/Core/MetadataSet.cpp:206-228 | the two files are the encoded offsets and all bytes, whatever the copy buffer size |
| `MetadataSet.FileMetadataSet.SaveOver` | AnnService/src/Core/MetadataSet.cpp:231-254 | saving over the own file, resetting the count and clearing the new bytes keep every record where the bytes continue as the offsets do; the new state in any case |
| `MetadataSet.FileMetadataSet.RefineToFiles` | AnnService/src/Core/MetadataSet.cpp:25-44 | running offsets from 0 and the selected bytes |
| `MetadataSet.RefineAndReopen` | AnnService/src/Core/MetadataSet.cpp:25-44 | refining a store in files and opening the new files gives the selected records |
| `Resources.DrawIsId` | AnnService/inc/Socket/ResourceManager.h:56-60 | the k-th registration draws the k-th id of the cycle that skips 0 |
| `Resources.SameIdIff` | AnnService/inc/Socket/ResourceManager.h:56-60 | two registrations share an id exactly when they lie a multiple of 2^32 - 1 apart |
| `Resources.FiredLeaves` | AnnService/inc/Socket/ResourceManager.h:137-144 | a timeout round fires each resource it removes exactly once and no other |
| `Resources.ResourceManager.Add` | AnnService/inc/Socket/ResourceManager.h:52-84 | registers under a fresh id while fewer than 2^32 - 1 were drawn before |
| `Resources.ResourceManager.GetAndRemove` | AnnService/inc/Socket/ResourceManager.h:87-99 | hands the resource out and forgets it in one step |
| `Resources.ResourceManager.CheckTimeout` | AnnService/inc/Socket/ResourceManager.h:113-149 | takes exactly the expired front of the list and fires what is still registered |
| `AggregatorContext.AggregatorExecutionContext.IsCompletedAfterFinsh` | AnnService/src/Aggregator/AggregatorExecutionContext.cpp:46-51 | the 32-bit counter goes down, wrapping, and the answer is about its value before |
| `AggregatorContext.AggregatorExecutionContext.AggregateResults` | AnnService/src/Aggregator/AggregatorService.cpp:378-403 | the answer concatenates the index results of the filled slots in server order |
| `AggregatorContext.AggregatorExecutionContext.RunCallback` | AnnService/src/Aggregator/AggregatorService.cpp:280-287 | an uninterrupted callback fills its slot, counts down, and answers exactly when the count was at most 1 |
| `AggregatorProtocol.StepInv` | AnnService/src/Aggregator/AggregatorService.cpp:275-350 | every step other than a failed send keeps the invariant that ties resources, running callbacks, slots, counter and replies |
| `AggregatorProtocol.RunInv` | AnnService/src/Aggregator/AggregatorService.cpp:275-403 | it holds after every such run with fewer than 2^32 registrations |
| `AggregatorProtocol.HandedOutAtMostOnce` | AnnService/src/Aggregator/AggregatorService.cpp:330-336 | in every run each registered callback is handed out at most once, to a response or a timeout |
| `AggregatorProtocol.AnsweredOnce` | AnnService/src/Aggregator/AggregatorService.cpp:280-287 | an answered request has one reply, after all callbacks counted, with the results held by their frames in server order; `AnsweredFromSteps` says where header and answers come from |
| `AggregatorProtocol.AnsweredExactlyOnce` | AnnService/src/Aggregator/AggregatorService.cpp:280-287 | when all callbacks have run there is exactly one reply, or none if no server was asked |
| `AggregatorOrigins.RequestsReceived` | AnnService/src/Aggregator/AggregatorService.cpp:269-276 | the requests of every run are those received, in order: same header, a slot for every server |
| `AggregatorOrigins.TableOrigin` | AnnService/src/Aggregator/AggregatorService.cpp:278-328 | a callback stands in the table under the number of the step that registered it, as the next server of its request |
| `AggregatorOrigins.FrameOrigin` | AnnService/src/Aggregator/AggregatorService.cpp:300-350 | every running callback goes back to the step that handed it out, with exactly the answer of the response to its id, with status 1 and no results for a timeout, or with status 2 for a failed send |
| `AggregatorOrigins.NoEarlyTimeout` | AnnService/inc/Socket/ResourceManager.h:52-149 | a callback times out only when its registration gave a timeout and a check looked at the clock no earlier than that much after it |
| `AggregatorOrigins.AnsweredFromSteps` | AnnService/src/Aggregator/AggregatorService.cpp:269-413 | over all runs without a failed send: the reply to the r-th request received goes where that request said and holds, server by server, what the response to that server's callback brought, or nothing when it timed out |
| `AggregatorFailures.RunKept` | AnnService/src/Aggregator/AggregatorService.cpp:278-336 | in every run, failed sends or not, a registered callback waits in the table or was handed out |
| `AggregatorFailures.FailureStays` | AnnService/src/Aggregator/AggregatorService.cpp:300-309 | once its send has failed, a callback was handed out twice or was handed out and still waits, for good |
| `AggregatorFailures.HandedOutOnceIff` | AnnService/src/Aggregator/AggregatorService.cpp:300-309 | after any run, all continuations without a further failed send hand out each callback at most once exactly when no send has failed |
| `AggregatorFailures.TimedOutOnceIff` | AnnService/inc/Socket/ResourceManager.h:113-149 | where every registration has a timeout, the same for continuations in which nothing but timeouts happens |
| `AggregatorFailures.FailedSendAnswersTwice` | AnnService/src/Aggregator/AggregatorService.cpp:289-309 | a run in which a send fails, then its timeout comes, and the client is answered twice |
| `Serialization.ScalarRead` | AnnService/inc/Socket/SimpleSerialization.h:21-43 | a scalar that fits its width reads back and consumes its width |
| `Serialization.SimpleWriteBuffer` | AnnService/inc/Socket/SimpleSerialization.h:21-31 | writes the little-endian bytes and touches nothing else |
| `Layouts.LittleDigit` | AnnService/inc/Socket/SimpleSerialization.h:21-31 | byte i of a scalar is its i-th digit to the base 256 |
| `Serialization.BytesRead` | AnnService/inc/Socket/SimpleSerialization.h:93-119 | a byte array whose length fits 32 bits reads back |
| `Serialization.BytesRoundTripIff` | AnnService/inc/Socket/SimpleSerialization.h:93-119 | it reads back exactly when its length fits 32 bits |
| `Serialization.LengthCut` | AnnService/inc/Socket/SimpleSerialization.h:93-119 | 2^32 bytes read back as none |
| `Serialization.ManyUnderstood` | AnnService/inc/Socket/SimpleSerialization.h:21-127 | parts that read back one by one read back in sequence, ending where the last ends |
| `Serialization.WriteBytes` | AnnService/inc/Socket/SimpleSerialization.h:56-64 | advances by the estimated size and touches nothing else |
| `Serialization.ReadBytesAt` | AnnService/inc/Socket/SimpleSerialization.h:104-119 | reads what the byte format says and stops behind it |
| `RemoteSearchQuery.EstimateResult` | AnnService/src/Socket/RemoteSearchQuery.cpp:93-125 | the estimate is the exact encoded length |
| `RemoteSearchQuery.WriteResult` | AnnService/src/Socket/RemoteSearchQuery.cpp:128-159 | writes the encoding, advances by the estimate, touches nothing else |
| `RemoteSearchQuery.ReadResult` | AnnService/src/Socket/RemoteSearchQuery.cpp:162-210 | reads what the format says, or refuses another major version |
| `RemoteSearchQuery.ResultRoundTrip` | AnnService/src/Socket/RemoteSearchQuery.cpp:128-210 | for any nesting, reading restores status, names, pairs and flagged metadata and consumes exactly what was written |
| `Layouts.ResultLayout` | AnnService/src/Socket/RemoteSearchQuery.cpp:128-138 | a result message byte by byte: versions 1 and 0, the status, the number of indexes, then the indexes in turn |
| `Layouts.IndexResultLayout` | AnnService/src/Socket/RemoteSearchQuery.cpp:136-156 | one index: its name with its length, the number of results, the metadata flag, eight bytes a result, and the metadata if flagged |
| `Layouts.PairLayout` | AnnService/src/Socket/RemoteSearchQuery.cpp:143-147 | one result: the id in two's complement and the bits of the distance, low bytes first |
| `RemoteSearchQuery.LookRestored` | AnnService/inc/Core/SearchQuery.h:177-185 | the result read looks the same as the one written: status, names, flags, pairs, and the metadata its accessor shows |
| `RemoteSearchQuery.RestoredIff` | AnnService/src/Socket/RemoteSearchQuery.cpp:149-155 | the stored values too are the same exactly when no metadata is hidden for want of its flag |
| `RemoteSearchQuery.SendAndReceive` | AnnService/src/Socket/RemoteSearchQuery.cpp:93-210 | one buffer, sized by the estimate, written and read |
| `RemoteSearchQuery.QueryRoundTripIff` | AnnService/src/Socket/RemoteSearchQuery.cpp:30-60 | a query comes back exactly when its length fits 32 bits |
| `Layouts.QueryLayout` | AnnService/src/Socket/RemoteSearchQuery.cpp:30-40 | a query message byte by byte: versions 1 and 0, the type, the text with its length |
| `RemoteSearchQuery.WriteQuery` | AnnService/src/Socket/RemoteSearchQuery.cpp:30-40 | writes the encoding and touches nothing else |
| `RemoteSearchQuery.ReadQuery` | AnnService/src/Socket/RemoteSearchQuery.cpp:43-60 | reads what the format says, or refuses another major version |
| `Base64.GroupInverse` | AnnService/src/Helper/Base64Encode.cpp:55-58 | three bytes survive the split into four six-bit values |
| `Base64.GroupInverseBack` | AnnService/src/Helper/Base64Encode.cpp:166-168 | four six-bit values survive the packing into three bytes |
| `Base64.DecodeEncode` | AnnService/src/Helper/Base64Encode.cpp:47-225 | decode of encode is the identity on every non-empty byte string (section 4 of RFC 4648) |
| `Base64.Capacities` | AnnService/src/Helper/Base64Encode.cpp:228-239 | the encoded length is the promised one and the room promised for decoding suffices |
| `Base64Text.AlphabetLaw` | AnnService/src/Helper/Base64Encode.cpp:12-17 | the alphabet of RFC 4648: capital letters, small letters, digits, plus and slash, each run in order |
| `Base64Text.TextLaw` | AnnService/src/Helper/Base64Encode.cpp:47-88 | character i of a group is the i-th digit to the base 64 of the group's 24-bit number, or the padding where it holds no bit of the data |
| `Base64Text.TestVectors` | AnnService/src/Helper/Base64Encode.cpp:47-88 | "f", "fo" and "foo" give the texts of section 10 of RFC 4648 |
| `Base64.EncodeDecodeIff` | AnnService/src/Helper/Base64Encode.cpp:208-216 | encode undoes decode on an accepted text exactly when a one-`=` tail has no stray bits |
| `Base64.StrayBitLost` | AnnService/src/Helper/Base64Encode.cpp:208-216 | "AAB=" is accepted and does not come back |
| `Base64.Encode` | AnnService/src/Helper/Base64Encode.cpp:47-88 | writes exactly the promised characters of the encoded text and nothing behind them |
| `Base64.EncodeToStream` | AnnService/src/Helper/Base64Encode.cpp:91-134 | appends the very text the buffer encoder writes |
| `Base64.Decode` | AnnService/src/Helper/Base64Encode.cpp:137-225 | accepts exactly the well padded texts, writes their bytes, stays within the promised capacity |
| `QueryText.AllWordsAreWords` | AnnService/src/Server/QueryParser.cpp:62-79 | the words are exactly the maximal runs of non-blanks, from left to right |
| `QueryMeaning.QueryOptionsLaw` | AnnService/src/Server/QueryParser.cpp:101-123 | the options are those the words say, from left to right, each once: a dollar sign, a name of at least one character, the first colon or equals sign behind it, and a value of at least one |
| `QueryMeaning.OptionLaw` | AnnService/src/Server/QueryParser.cpp:101-123 | name and value of an option: the name is lower-cased but for its first character, the value is the rest of the word |
| `QueryMeaning.LowerLaw` | AnnService/src/Server/QueryParser.cpp:112-116 | a capital letter becomes the small letter at the same place of the alphabet, nothing else changes |
| `QueryMeaning.LastWords` | AnnService/src/Server/QueryParser.cpp:80-97 | the base64 text is in the last word that starts with a hash, the vector in the last that starts with neither mark |
| `QueryMeaning.VectorLaw` | AnnService/src/Server/QueryParser.cpp:125-173 | the components are the maximal runs between separators of the vector word, whose first character never separates, from left to right |
| `QueryParser.RunsArePieces` | AnnService/src/Server/QueryParser.cpp:154-173 | the runs of non-NUL characters left in the buffer spell the components of the vector word |
| `QueryParser.ReadingBlank` | AnnService/src/Server/QueryParser.cpp:62-100 | a blank closes the word and keeps the invariant that ties state, pointers and overwritten buffer to the text read |
| `QueryParser.ReadingChar` | AnnService/src/Server/QueryParser.cpp:62-137 | any other character keeps it too |
| `QueryParser.QueryParser.ReadAll` | AnnService/src/Server/QueryParser.cpp:62-137 | the pass ends at the text's end with the invariant for the whole text |
| `QueryParser.QueryParser.CollectElements` | AnnService/src/Server/QueryParser.cpp:154-173 | the second pass collects the start of every run and no other position |
| `QueryParser.QueryParser.Parse` | AnnService/src/Server/QueryParser.cpp:28-181 | never fails; the pointers into the cut-up buffer spell exactly the options, vector components and base64 text of the words |
| `ClientQuery.QueryRoundTrip` | Wrappers/src/ClientInterface.cpp:229-254 | the printed options are read back in order exactly when every name and value is clean; then the base64 word is the vector |
| `ClientQuery.ClientCleanIff` | Wrappers/src/ClientInterface.cpp:247-250 | all options of a client are clean exactly when its own parameters are printable |
| `ClientQuery.ServerReads` | AnnService/src/Server/SearchExecutionContext.cpp:99-118 | the server sees the client's options exactly when all parameters are printable, and then decodes the client's bytes |
| `ClientMeaning.FixedText` | Wrappers/src/ClientInterface.cpp:235-243 | the text of a query without stored parameters, written out |
| `ClientMeaning.StoredText` | Wrappers/src/ClientInterface.cpp:247-250 | every stored parameter adds a blank, a dollar sign, its name, a colon and its value |
| `ClientMeaning.DecimalLaw` | Wrappers/src/ClientInterface.cpp:242 | a number is printed so that its digits spell it, without a zero in front |
| `ClientQuery.ColonMisread` | AnnService/src/Server/QueryParser.cpp:106-112 | a parameter called "a:b" does not arrive as it was set |
| `ClientQuery.AnnClient.SetSearchParam` | Wrappers/src/ClientInterface.cpp:73-93 | an empty name changes nothing, an empty value drops the lower-cased name, any other replaces it |
| `ClientQuery.AnnClient.ClearSearchParam` | Wrappers/src/ClientInterface.cpp:96-101 | no parameter is left |
| `ClientQuery.AnnClient.CreateSearchQuery` | Wrappers/src/ClientInterface.cpp:229-254 | the text those results are about, for every order of walking the map |
| `ConnectionPool.SomeUsable` | AnnService/src/Socket/ConnectionManager.cpp:27-36 | a free slot is hit by a non-zero id within 512 draws, from anywhere and across the wrap |
| `ConnectionPool.LookupIff` | AnnService/src/Socket/ConnectionManager.cpp:88-105 | a lookup finds the live connection with that id, and never another |
| `ConnectionPool.DistinctIds` | AnnService/src/Socket/ConnectionManager.cpp:129-133 | live ids are pairwise distinct |
| `ConnectionPool.AddKeeps` | AnnService/src/Socket/ConnectionManager.cpp:22-57 | adding keeps the pool well formed, is refused exactly when it is full, and the new connection is found |
| `ConnectionPool.RunKeeps` | AnnService/src/Socket/ConnectionManager.cpp:15-105 | in every run count and occupied slots agree and every live id is non-zero and in its slot |
| `ConnectionPool.StaysUntilRemoved` | AnnService/src/Socket/ConnectionManager.cpp:60-105 | a connection is found for as long as no removal names its slot |
| `ConnectionPool.RemoveSparesIff` | AnnService/src/Socket/ConnectionManager.cpp:60-76 | a removal spares all other ids exactly when its slot is empty or holds the id it names |
| `ConnectionPool.StaleRemoval` | AnnService/src/Socket/Connection.cpp:391-400 | a run from the empty pool in which the second removal of a connection closes the one that has taken its slot |
| `ConnectionPool.ConnectionManager.AddConnection` | AnnService/src/Socket/ConnectionManager.cpp:22-57 | the loop ends and takes the first usable id, or is refused exactly at 256 connections |
| `ConnectionPool.ConnectionManager.RemoveConnection` | AnnService/src/Socket/ConnectionManager.cpp:60-85 | empties the slot and tells whether the event fires |
| `ConnectionPool.ConnectionManager.GetConnection` | AnnService/src/Socket/ConnectionManager.cpp:88-105 | the lookup of the abstract pool |
| `ReplicaSelection.SelectionFacts` | AnnService/src/Core/VectorIndex.cpp:914-945 | a result is kept exactly when no earlier kept one blocks it before the block is full or a result is missing; all kept pairs satisfy the RNG inequality |
| `ReplicaMeaning.SelectionIff` | AnnService/src/Core/VectorIndex.cpp:916-944 | the same written out: no result up to it is missing, fewer than the replica count are kept before it, and its distance is below the factor times its distance to each of these |
| `ReplicaMeaning.FinalLaw` | AnnService/src/Core/VectorIndex.cpp:912-944 | cell f * replicaCount + j holds id and distance of the j-th kept result of vector f, with the other field as it was; all other cells are untouched |
| `ReplicaSelection.CellsApart` | AnnService/src/Core/VectorIndex.cpp:912-942 | the vectors' replica blocks do not overlap |
| `ReplicaSelection.Replicas.RngAccepts` | AnnService/src/Core/VectorIndex.cpp:924-934 | the inner loop answers whether an earlier kept result blocks this one |
| `ReplicaSelection.Replicas.Fetch` | AnnService/src/Core/VectorIndex.cpp:877-886 | fetching the next vector keeps the invariant of all threads |
| `ReplicaSelection.Replicas.Consider` | AnnService/src/Core/VectorIndex.cpp:914-945 | so does considering one result, which makes progress |
| `ReplicaSelection.Replicas.ApproximateRNG` | AnnService/src/Core/VectorIndex.cpp:859-961 | for every thread interleaving the array ends as the sequential selection of each vector, everything else untouched |

## Left out

- Files, sockets, MPI and asynchronous I/O as such: they are byte sequences, channels and sums. Failed reads and writes, temporary files and renames, locks, allocation failures and the aliasing of returned byte views are not modelled.
- Floating-point rounding: distances, weights and ratios are `real`; SIMD distances and normalisation are parameters.
- HardAssign.RankState.HardMultipleClustersAssign: leaves out weights, distance totals and `clusterDist`, which only add up what the labels say, and needs at most 32767 clusters, the label sentinel.
- ParallelAssign.Assignment.MultipleClustersAssign: leaves out the distance totals, and starts from cleared per-thread arrays, as its callers do.
- RecordShipping.WriteCluster: ships row numbers where the code ships vector, metadata length and metadata bytes of the row; the message order is the same.
- GroupRounds.Process: covers the assignment and the files, not the k-means iterations before it; a file that already exists is not skipped; counts are unbounded integers.
- The rounds of `ProcessWithoutMPI` are those of one rank; of its own code the model has the merge of the status files (`CenterSync`), not the float sums beside it.
- HeadStatic.SelectHeadStatically: needs a tree without collapsed clusters, because `DfsSelect` takes only -1 for a leaf, and splits that stay inside the node array; the order of equal candidates is left open.
- HeadStatistics.DfsSelect: needs the same tree, and node statistics that start fresh.
- HeadSearch.SelectHeadDynamically: the random draws are arbitrary non-zero numbers in -8..8; the log output is left out; children of equal size are taken in the order the sort leaves them.
- BK-tree construction, k-means refinement, quantizers, the GPU path and the in-place update engine: BKTree.h supplies only the shape of the tree.
- LockFree.LockFreeVector.load: a short stream leaves the elements unchanged but may already have overwritten cells behind them, as in the code.
- MetadataSet.MemMetadataSet.Init: needs offsets that ascend, which the code takes for granted.
- MetadataSet.MemMetadataSet.AddBatch: the other store enters as its sequence of records; a store added to itself, where the loop chases its own end, is not covered.
- MetadataSet.FileMetadataSet.AddBatch: as for the store in memory.
- MetadataSet.FileMetadataSet.Open: needs offsets that ascend and a metadata file that reaches the last of them, which the code takes for granted.
- `GetMetadataOffsets` and `BufferSize`: would only add easy members.
- AggregatorProtocol.AnsweredExactlyOnce: only runs without a failed send and with fewer than 2^32 registrations; `HandedOutOnceIff` and `FailedSendAnswersTwice` say what a failed send does.
- Resources.ResourceManager.Add: drawing the id, storing the resource and queueing the timeout are one step.
- RemoteSearchQuery.ReadResult: needs a buffer that holds a whole message, as the code trusts it to; the mirror version is read and ignored, as in the code; the copy constructors are left out.
- Base64.Decode: needs a non-empty text; characters outside ASCII are taken as outside the alphabet.
- QueryParser.QueryParser.Parse: blanks and upper-case letters are those of the C locale, and lengths are unbounded integers.
- ClientQuery.AnnClient.CreateSearchQuery: the order of the hash map is a parameter that names every key once.
- ConnectionPool.ConnectionManager.AddConnection: one atomic step each for adding and removing; starting a connection, heartbeats and `StopAll` are left out.
- ReplicaSelection.Replicas.ApproximateRNG: the counter of fetched vectors does not wrap, and the search that produces the candidates is an input.
- `EstimatedVectorCount`, `EstimatedMemoryUsage`, `IniReader`, `ThreadPool`, heartbeat and registration packets, benchmark drivers and wrappers other than the query printer: would only add easy members.
