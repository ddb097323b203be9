# Verification of the AllScale scheduler

AllScale schedules recursively split tasks over a cluster. Every locality hosts a column of
virtual management nodes, which together form a binary tree. A policy says, for every task path,
in which direction the task leaves each virtual node, and a task climbs and descends this tree
until it is handed to local execution. The policy is compiled from a mapping of 2^g tasks to nodes,
packed two bits per task path, interpreted on every hop, read back before each rebalancing, and
replaced by a rebalanced one.

This project models that machinery in Dafny and proves, for all inputs and all runs:

* **Compiler, interpreter, decompiler.** `fillTree` terminates for every mapping and writes only
  inside its buffer; the interpreter reads only entries that were written; the mapping that
  is read back equals the compiled one *exactly* when no slice hides an entry from its two end points,
  which sorted in-network mappings always satisfy and `[1,0]` does not. What is read back always compiles without loss.
* **Routing.** Whatever the data-item manager and the failure detector answer, a task makes at most
  L hops up, then at most L hops down, never climbs after its first descent, always is at a service that
  exists, and ends in local execution after at most 3L + 4 steps. Under a tree policy that is at its target
  when all ranks run, on the chain from the root to the target otherwise; under the random policy it is on a layer
  that only the length of the task path decides.
* **Policy evolution.** Starting from the uniform policy on a prefix mask, every sequence of
  rebalancings leaves a policy that reads back as a sorted mapping of 2^g tasks onto the nodes that were
  active at the last rebalancing by load. From other masks the same holds once a load has been measured; for the
  policies before that, the exact conditions are proved.
* **Load and cost bookkeeping.** The rebalancing sweep and its bound, what every turn of the neighbour exchange does, time accounting,
  sampling, and the greedy distribution of work items with its balance bound and conservation of work.
* **Transfer plans and the tuner.** Ownership is kept by migrations; coordinate descent finds a step
  exactly if there is one, and the exact condition is proved under which it has recorded the best configuration seen.

## Layout

| file | content |
|---|---|
| `Powers.dfy`, `Sums.dfy` | shifts, powers of two, sums |
| `TaskPath.dfy` | task paths, as splits and as (length, bits) |
| `Hierarchy.dfy` | addresses of virtual nodes and the services installed for them |
| `DecisionTree.dfy` | the packed tree |
| `TreeCompiler.dfy`, `TreePolicy.dfy`, `RoundTrip.dfy` | compiler, interpreter, decompiler |
| `Routing.dfy` | the journey of a task, and the service on each virtual node |
| `Distribution.dfy`, `UniformPolicy.dfy`, `Rebalancing.dfy`, `NeighbourExchange.dfy`, `PolicyEvolution.dfy` | mappings over the life of a program |
| `TaskTimes.dfy` | hierarchical time accounting and sampling |
| `NodeOptimizer.dfy` | the inter-node optimizer's schedule |
| `TransferPlan.dfy`, `Tuner.dfy` | data transfers; coordinate descent |

The form follows the source: loops and in-place updates are methods and classes proved against
specification functions; the recursive observers are functions. Where a method takes a `ghost`
mapping `m`, that mapping is only the specification's name for what the policy was compiled from.

## Model

| member | source | states |
|---|---|---|
| `Powers.CeilLog2` | src/schedule_policy.cpp:11-19 | the doubling loop ends with the least exponent whose power of two reaches the size |
| `Powers.CeilLog2Unique` | src/schedule_policy.cpp:11-19 | that exponent is unique, so the loops of the compiler and of the overlay agree |
| `TaskPath.PathUnique` | allscale/task_id.hpp:63-86 | length and bit pattern identify a task path |
| `TaskPath.PathOf` | src/schedule_policy.cpp:21-24 | every bit pattern below 2^length belongs to a path of that length |
| `TaskPath.ExtendsSplit` | allscale/task_id.hpp:63-86 | a strict descendant of a task lies below exactly one of its two halves |
| `TaskPath.TasksBelowInOrder` | allscale/task_id.hpp:63-86 | splitting a task d times yields 2^d tasks whose bits count up from left to right |
| `Hierarchy.ChildOfParent` | allscale/hierarchy.hpp:72-91 | the parent of a valid address is valid, and the address is its left or right child as its own bit says |
| `Hierarchy.ParentOfChildren` | allscale/hierarchy.hpp:88-119 | both children are valid, are told apart by the bit, and lead back to their parent |
| `Hierarchy.CoverSplit` | allscale/hierarchy.hpp:105-119 | the localities r .. r+2^l-1 below a virtual node are partitioned by its children |
| `Hierarchy.CoverUnique` | allscale/hierarchy.hpp:72-119 | a layer and one covered locality determine a valid address |
| `Hierarchy.AboveIsCover` | allscale/hierarchy.hpp:96-99 | among valid addresses, one is an ancestor of another exactly when it covers its rank |
| `Hierarchy.LayersExact` | src/hierarchy.cpp:23-45 | a locality hosts a layer exactly when the address is valid and not above the root |
| `Hierarchy.OverlayExact` | allscale/hierarchy.hpp:177-194 | for every network size the installed services are exactly the ancestors of localities up to the root |
| `Hierarchy.OverlayClosed` | allscale/hierarchy.hpp:177-200 | the installed services are closed under parent, left child and in-network right child, and only the root has top height |
| `Hierarchy.RootCovers` | src/hierarchy.cpp:6-12 | the root of a network is valid, installed and covers every locality |
| `Hierarchy.Check` | src/hierarchy.cpp:14-21 | the digit loop answers yes exactly for ranks that are multiples of 2^layer |
| `Hierarchy.GetLayersOn` | src/hierarchy.cpp:23-45 | the two loops compute height + 1 on the first locality and trailing zeros + 1 elsewhere |
| `Hierarchy.HierarchyService.constructor` | allscale/hierarchy.hpp:177-194 | start-up installs one service per hosted layer, which are exactly the installed addresses of the rank |
| `DecisionTrees.PositionInjective` | src/schedule_policy.cpp:21-24 | different paths, of whatever lengths, have different positions |
| `DecisionTrees.FieldIsolation` | src/schedule_policy.cpp:54-68 | writing a two-bit field of a byte sets that field and no other |
| `DecisionTrees.StoredLookup` | src/schedule_policy.cpp:48-69 | storing a decision changes the answer for its own path and for no other path |
| `DecisionTrees.DecisionTree.constructor` | src/schedule_policy.cpp:41-45 | a fresh tree answers done for every path |
| `DecisionTrees.DecisionTree.Set` | src/schedule_policy.cpp:48-55 | the packed buffer behaves as a map from paths to decisions under update |
| `DecisionTrees.Read` | src/schedule_policy.cpp:58-69 | the read with its bounds check leaves the buffer exactly when the byte index equals the buffer size, and otherwise answers what the map holds |
| `DecisionTrees.DecisionTree.Get` | src/schedule_policy.cpp:58-69 | the same for the buffer in place, for every path |
| `DecisionTrees.FirstBytePastEnd` | src/schedule_policy.cpp:65 | exactly which paths slip through the bounds check in a tree over 4^g nodes: the first four of length 2g + 1, for g = 0 the three shortest |
| `DecisionTrees.GuardMisses` | src/schedule_policy.cpp:65 | for every g there is a path whose read leaves the buffer |
| `DecisionTrees.CapacityOfSquare` | src/schedule_policy.cpp:41-52 | the buffer for 4^g nodes has room for every path shorter than 2g |
| `TreeCompiler.At` | src/schedule_policy.cpp:118-160 | wherever the compiler gets, its slice starts inside the mapping, so its reads are in range |
| `TreeCompiler.SliceShape` | src/schedule_policy.cpp:121-160 | for every mapping, slices halve to single entries in g splits, and from there every split descends one level |
| `TreeCompiler.WrittenDepth` | src/schedule_policy.cpp:118-160 | for every mapping, sorted or not, all writes are at paths shorter than g + L |
| `TreeCompiler.FillCurrent` | src/schedule_policy.cpp:120-148 | one step stores the decision judged by the slice's end points, within the buffer, and uses up a level or has a slice of at least two |
| `TreeCompiler.FillTree` | src/schedule_policy.cpp:118-160 | terminates for every mapping; afterwards exactly the written paths below p hold their decisions and all others are unchanged |
| `TreeCompiler.ToDecisionTree` | src/schedule_policy.cpp:162-177 | the tree holds the compiled decision at every written path and done at every other path |
| `TreePolicy.TargetIsCompiled` | src/schedule_policy.cpp:687-712 | for paths of every length, the interpreter's target is the node range the compiler had in mind |
| `TreePolicy.TargetStep` | src/schedule_policy.cpp:687-712 | each split moves a task from its parent's target by the stored decision, which is never done above the leaves |
| `TreePolicy.InvolvedIffOnChain` | src/schedule_policy.cpp:637-659 | a virtual node is involved exactly when it lies on the chain from the root to the target |
| `TreePolicy.InvolvedMonotone` | src/schedule_policy.cpp:637-659 | involvement survives further splitting of the task |
| `TreePolicy.UninvolvedStays` | src/schedule_policy.cpp:661-685 | off the chain the upward walk finds no decision and answers stay |
| `TreePolicy.DecideDirection` | src/schedule_policy.cpp:661-685 | at an involved node the decision is the chain's next child, or stay at the target itself, and never done |
| `TreePolicy.RightInNetwork` | src/scheduler.cpp:308-315 | for in-network mappings a right decision names an existing locality, so the redirect never diverts a task |
| `TreePolicy.TargetInNetwork` | src/schedule_policy.cpp:687-712 | for in-network mappings all targets are on existing localities |
| `TreePolicy.ReadDecision` | src/schedule_policy.cpp:58-69 | the guarded read, at a path the compiler wrote, stays in the buffer and never answers done |
| `TreePolicy.RunDecide` | src/schedule_policy.cpp:661-685 | the loop computes the decision and every read it makes hits a written, in-range entry |
| `TreePolicy.RunGetTarget` | src/schedule_policy.cpp:687-712 | the mutually recursive interpreter terminates with the target, reading written entries only |
| `TreePolicy.RunIsInvolved` | src/schedule_policy.cpp:637-659 | answers yes exactly on the chain from the root to the target |
| `RoundTrip.TraceTarget` | src/schedule_policy.cpp:601-609 | the walk to the left terminates for every mapping at the landing rank |
| `RoundTrip.LandsIffTraceable` | src/schedule_policy.cpp:118-160 | for every mapping, all tasks land at their entries exactly when every slice agrees with its end points and all entries are below 2^L |
| `RoundTrip.SortedIsTraceable` | src/schedule_policy.cpp:125-148 | sorted in-network mappings meet that condition |
| `RoundTrip.UnsortedIsLost` | src/schedule_policy.cpp:125-148 | the mapping [1,0] on two nodes is not recovered |
| `RoundTrip.DeepTaskTarget` | src/schedule_policy.cpp:687-712 | for every mapping, a task split g + L times or more is sent to the locality that reading the policy back names for its index |
| `RoundTrip.ReadBackIffTraceable` | src/schedule_policy.cpp:601-635 | the read-back mapping equals the compiled one exactly for traceable mappings |
| `RoundTrip.ReadBackStable` | src/schedule_policy.cpp:118-177 | for every mapping, sorted or not, what is read back compiles without loss: reading it back again returns it |
| `RoundTrip.SameCourse` | src/schedule_policy.cpp:118-160 | compiling the landings of a mapping takes, path by path, the course that compiling the mapping took |
| `RoundTrip.SortedSliceLands` | src/schedule_policy.cpp:118-160 | the tasks of a sorted slice land at the nodes of its range nearest to their entries |
| `RoundTrip.PaddedReadBack` | src/schedule_policy.cpp:118-160 | for sorted entries followed by entries for the first node, where every task lands, in closed form |
| `RoundTrip.TaskDistributionMapping` | src/schedule_policy.cpp:611-635 | for every mapping, entry i of the result is the landing of task i; the result equals the compiled mapping if and only if that mapping is traceable |
| `RoundTrip.SortedRoundTrip` | src/schedule_policy.cpp:626-635 | reading back a compiled sorted in-network mapping returns it unchanged |
| `Routing.TreeStep` | src/scheduler.cpp:528-600 | under a tree policy, a task on the chain moves one level down the chain or stops on it, and stops only at the target when the right rank runs |
| `Routing.CoinsInvolve` | src/schedule_policy.cpp:724-731 | under the random policy, an installed node takes part exactly from the stop layer up |
| `Routing.CoinStep` | src/schedule_policy.cpp:733-751 | whichever way the coin falls, the redirect keeps the task inside the network and it goes one level down, or stops on the stop layer when the right rank runs |
| `Routing.CommittedStep` | src/scheduler.cpp:528-600 | under either policy, a task at a node that takes part goes one level down to another such node or stops; it stops only where it belongs when the right rank runs |
| `Routing.SearchingStep` | src/scheduler.cpp:463-563 | under either policy, a task at a node that takes no part climbs one level or turns round where it is; it is never handed to local execution |
| `Routing.StepObeys` | src/scheduler.cpp:463-600 | what one step does, in terms of the target and the chain (or the stop layer) alone: a climbing task turns round exactly at unallocated data, at the root, or on its parent's way with control of the data; a descending task off its way climbs, at its target stays, bound left goes left, bound right goes there exactly if that locality runs and else stays |
| `Routing.TripObeys` | src/scheduler.cpp:463-600 | so does every step of every journey |
| `Routing.HopsToRunning` | src/scheduler.cpp:576-597 | a task is handed to another locality on the way down only if that locality runs |
| `Routing.StrandedOnlyByFailure` | src/scheduler.cpp:568-579 | a task is executed away from where it belongs only in front of a right child that it is bound for and that does not run |
| `Routing.FirstTurn` | src/scheduler.cpp:463-526 | a journey climbs straight up from its origin to the lowest ancestor that turns it round, which is at most the root, and descends from there |
| `Routing.Journey` | src/scheduler.cpp:463-600 | after any number of steps, under either policy: at an installed service, at most L hops up, at most L down, none down before a node that takes part is met |
| `Routing.NoClimbAfterDescent` | src/scheduler.cpp:463-600 | after its first downward hop a task never climbs |
| `Routing.BudgetShrinks` | src/scheduler.cpp:463-600 | a task that is not yet local has a step budget of at most 3L + 3 minus the steps made |
| `Routing.Executed` | src/scheduler.cpp:463-600 | under either policy every journey ends in local execution, at a node that takes part, and where the task belongs when all ranks run |
| `Routing.Delivered` | src/scheduler.cpp:463-600 | under a tree policy that is on the chain always, and exactly at the target when all ranks run, for any other answers |
| `Routing.RandomlyDelivered` | src/schedule_policy.cpp:719-751 | under the random policy, for all coin flips, a task of path length n ends inside the network at or above layer L - min(L, max(0, n - 3)), and exactly there when all ranks run |
| `Routing.LocalWhereArrived` | src/scheduler.cpp:565-600 | with all ranks running, local execution happens nowhere but at the target, or on the stop layer |
| `Routing.DeepTaskDelivered` | src/scheduler.cpp:463-600 | from any origin and for every mapping, a task split far enough runs on the locality that reading the policy back names for its index |
| `Routing.SchedulerService.constructor` | src/scheduler.cpp:293-327 | the service knows its root, parent, left child, and right child or left child where the network ends |
| `Routing.SchedulerService.Schedule` | src/scheduler.cpp:463-526 | the code obeys the rule for climbing tasks, under either policy, and keeps tasks that must not be enqueued remotely; the next service is installed |
| `Routing.AskDecision` | src/scheduler.cpp:538-547 | a node that takes part never decides done, under either policy |
| `Routing.SchedulerService.ScheduleDown` | src/scheduler.cpp:528-600 | the code obeys the rule for descending tasks, under either policy, at installed services only, and its three assertions hold |
| `Distribution.SomeActive` | src/schedule_policy.cpp:256-257 | a search for an active node ends inside the mask exactly when one is counted |
| `Distribution.PrefixIffFull` | src/schedule_policy.cpp:97-103 | the first as many nodes as are active are all active exactly for prefix masks |
| `Distribution.DistributeShares` | src/schedule_policy.cpp:98-113 | the loop writes one block per active node it looks at, in range for every mask, and leaves the rest at node 0 |
| `Distribution.EqualDistribution` | src/schedule_policy.cpp:93-116 | quotient and remainder are handed out in blocks, the first nodes taking the left-over tasks |
| `Distribution.AllPlacedIffPrefix` | src/schedule_policy.cpp:102-113 | for every number of tasks, the final count equals it exactly for prefix masks, or if no more tasks are left than active nodes among those looked at |
| `Distribution.GapLosesTasks` | src/schedule_policy.cpp:102-113 | on the mask [false, true] two tasks are not placed at all, so the assertion on the count fails |
| `Distribution.ExpandCount` | src/schedule_policy.cpp:105-112 | a sequence laid out in blocks gives every node its count |
| `Distribution.EvenShares` | src/schedule_policy.cpp:93-116 | on a prefix mask all tasks are placed, sorted, on active nodes only, with shares that differ by at most one |
| `Distribution.LeftOverToFirst` | src/schedule_policy.cpp:98-113 | the left-over tasks go to the first active nodes, one each |
| `Sums.SpreadFormula` | src/schedule_policy.cpp:393-401 | around the mean the squared distances add up to the squares less the mean times the sum |
| `Rebalancing.CrossedMeansMore` | src/schedule_policy.cpp:266-276 | when a goal line is crossed an active node is left, so the skip never runs past the last active node |
| `Rebalancing.RebalanceTasks` | src/schedule_policy.cpp:243-280 | for every mask: the search for an active node leaves the mask exactly if none is active; otherwise each task stays on the node of the one before exactly as long as the cost up to and including it keeps within that node's goal, and else goes to the next active node; so the mapping is sorted, on active nodes only, and every node carries at most the fair share plus the largest single cost |
| `Rebalancing.SweepDetermined` | src/schedule_policy.cpp:256-280 | that rule fixes the node of every task |
| `Rebalancing.RuleSuffices` | src/schedule_policy.cpp:256-280 | every mapping that keeps to the rule is sorted, active and within the bound |
| `NeighbourExchange.Unload` | src/schedule_policy.cpp:430-479 | keeps the task total, empties no node and opens none, and moves a task only downhill by more than the margin |
| `NeighbourExchange.Load` | src/schedule_policy.cpp:481-531 | the same for a node that takes a task from its heavier neighbour |
| `NeighbourExchange.Exchanged` | src/schedule_policy.cpp:537-556 | over the whole pass the task total is kept, and nodes have tasks afterwards exactly if they had before |
| `NeighbourExchange.ExchangedDownhill` | src/schedule_policy.cpp:430-556 | over the whole pass nodes gain only next to a neighbour heavier by more than the margin and lose only next to a lighter one |
| `NeighbourExchange.TurnedLaw` | src/schedule_policy.cpp:430-556 | exactly what a node's turn does: overloaded, it gives one task to its lighter neighbour (the right one on equal or undefined averages), underloaded it gets one from its heavier neighbour (then the left one), each exactly if the giver does not have exactly one task and the averages differ by more than the margin; else nothing |
| `NeighbourExchange.TurnIdleIff` | src/schedule_policy.cpp:430-556 | exactly when a turn changes nothing |
| `NeighbourExchange.Exchange` | src/schedule_policy.cpp:537-556 | the loop makes one such turn per node, in order, on the averages as measured, and sets the flag exactly if some turn moved a task |
| `NeighbourExchange.Regenerate` | src/schedule_policy.cpp:559-571 | the slots are overwritten in blocks, every slot exactly once and none past the end |
| `NeighbourExchange.RegeneratedCounts` | src/schedule_policy.cpp:559-571 | the regenerated mapping is sorted, has as many slots as tasks and gives every node its count |
| `NeighbourExchange.Contributions` | src/schedule_policy.cpp:415-425 | the loop yields every node's cost sum and task count, which add up to the number of tasks |
| `NeighbourExchange.LoneNodeIsMean` | src/schedule_policy.cpp:410-425 | a single node's average is the mean, so it never looks for neighbours it does not have |
| `NeighbourExchange.BalancedCountsDownhill` | src/schedule_policy.cpp:532-556 | including the early out on small variance, tasks move downhill only, and nodes without tasks stay without |
| `NeighbourExchange.AverageTimesCount` | src/schedule_policy.cpp:415-425 | an average times the number of tasks is the cost |
| `NeighbourExchange.BalanceMapping` | src/schedule_policy.cpp:388-571 | for every mapping, sorted or not: with variance below 0.01 it is returned as it is, otherwise the task counts of the result are those after the pass over all nodes, and it is the old mapping if no turn moved a task |
| `NeighbourExchange.SingleMoveMapped` | src/schedule_policy.cpp:537-571 | if exactly one turn moves a task, the new mapping differs by just that task |
| `PolicyEvolution.FromMapping` | src/schedule_policy.cpp:583-597 | compiling a mapping of any order for an existing root gives a policy that realizes it |
| `PolicyEvolution.ReadBackFacts` | src/schedule_policy.cpp:626-635 | whatever the order of the mapping, a deployed policy sends tasks to nodes of the network only, and a sorted mapping is followed as it is |
| `UniformPolicy.PrefixUniform` | src/schedule_policy.cpp:187-206 | on a prefix mask the first policy sends every task to its own block's node: sorted, active nodes only, even within one |
| `UniformPolicy.Depth` | src/schedule_policy.cpp:192-194 | the splitting depth is the larger of the network's height and the requested granularity |
| `UniformPolicy.GapUniform` | src/schedule_policy.cpp:187-206 | on any other mask, where the first policy sends each task, in closed form |
| `UniformPolicy.UniformActiveIff` | src/schedule_policy.cpp:187-206 | the first policy sends tasks to active nodes only exactly for prefix masks, or if the first node and every node that a task is cut down to are active |
| `UniformPolicy.UniformSortedIff` | src/schedule_policy.cpp:187-206 | it does so in sorted order exactly for prefix masks, or if everything ends on the first node |
| `UniformPolicy.UniformEvenIff` | src/schedule_policy.cpp:187-206 | it does so evenly within one exactly for prefix masks |
| `UniformPolicy.CompiledToInactive` | src/schedule_policy.cpp:93-206 | on the mask [true, false, true, true] with eight tasks the mapping names active nodes only, yet task 3 lands on the inactive node 1 |
| `PolicyEvolution.CreateUniform` | src/schedule_policy.cpp:187-206 | for every mask with an active node the policy is deployed with max(log2, granularity) levels; what it does is active, sorted and even exactly under the conditions above |
| `PolicyEvolution.EstimateCosts` | src/schedule_policy.cpp:322-356 | every task is estimated at its node's load divided by that node's number of tasks |
| `PolicyEvolution.EstimatesAddUp` | src/schedule_policy.cpp:336-356 | the estimates of a node's tasks add up to the node's load |
| `PolicyEvolution.RebalanceByLoad` | src/schedule_policy.cpp:306-359 | from any deployed policy, sorted or not: the new policy does what its mapping says, which keeps to the sweeping rule for the costs estimated from what the old policy did, and so is sorted, on active nodes and within the load bound |
| `PolicyEvolution.RebalancedKeepsNodes` | src/schedule_policy.cpp:427-571 | the exchange leaves tasks on exactly the nodes that had some |
| `PolicyEvolution.RebalancedIsFollowed` | src/schedule_policy.cpp:575-580 | a mapping that is sorted, or was read back from any policy, is exactly what the policy compiled from it does |
| `PolicyEvolution.RebalanceByTimes` | src/schedule_policy.cpp:377-581 | from any deployed policy: the new policy does what its mapping says, with the task counts of the pass over the sampled times, turn by turn, on exactly the nodes the old policy used, so it respects the mask if and only if the old one did; its order is the old one or sorted |
| `PolicyEvolution.DeactivatedNodeKeepsTasks` | src/schedule_policy.cpp:377-581 | two nodes with one task each, the second inactive: whatever the costs, it keeps its task |
| `PolicyEvolution.Evolve` | src/schedule_policy.cpp:187-597 | after any sequence of rebalancings from any mask the policy is deployed; it sends tasks only to the nodes active at the last rebalancing by load, or at the start, exactly if a load was measured or the first policy did; it is sorted once a load was measured, and otherwise sorted or the first policy's mapping |
| `TaskTimes.HalvesAddUp` | src/task_times.cpp:38-54 | a task's time is the sum of its halves' times on every level, also below the tracking level |
| `TaskTimes.DisjointUnchangedIff` | src/task_times.cpp:16-54 | for disjoint tasks of any depth, recording a time for one leaves the other alone if and only if their tracked stand-ins are disjoint or the time is zero; otherwise the other grows by the time over 2^(depth below the tracking level) |
| `TaskTimes.SiblingsShareSlot` | src/task_times.cpp:34-53 | a time recorded for one half of a tracked task shows by half in the other half |
| `TaskTimes.AddedAboveIff` | src/task_times.cpp:16-54 | a task that contains the recorded one, at any depth, grows by exactly the recorded time if and only if it is not below the tracking level or the time is zero; from that level on it grows by the time over 2^(depth below it) |
| `TaskTimes.TotalGrows` | src/task_times.cpp:16-36 | the total grows by exactly the recorded time, for tasks of every depth |
| `TaskTimes.FairPortion` | src/task_times.cpp:26-32 | every slot below the task grows by the exact share, rounded down or up |
| `TaskTimes.OddUnitToTheRight` | src/task_times.cpp:26-32 | of an odd time the left half gets the smaller part and the right half the unit left over |
| `TaskTimes.MergedTime` | src/task_times.cpp:56-64 | the time of a task in merged records is the sum of its times in both |
| `TaskTimes.AddedSplit` | src/task_times.cpp:26-32 | recording both halves, one after the other, is recording the whole |
| `TaskTimes.Times.constructor` | src/task_times.cpp:5-9 | 2^14 slots, all zero |
| `TaskTimes.Times.Add` | src/task_times.cpp:16-36 | the recursive in-place update adds to every slot below the task its portion and to no other |
| `TaskTimes.Times.AddAll` | src/task_times.cpp:56-64 | the loop merges the other record slot by slot, also when a record is merged with itself |
| `TaskTimes.SamplesSum` | src/schedule_policy.cpp:362-374 | for every granularity the samples add up to the recorded time |
| `TaskTimes.RootSample` | src/schedule_policy.cpp:362-374 | slot i holds the time of the task with index i |
| `TaskTimes.SampleMerged` | src/schedule_policy.cpp:362-374 | sampling merged records is adding the samples |
| `TaskTimes.SampledAll` | src/schedule_policy.cpp:381-386 | started at the root, sampling overwrites every slot, whatever was there |
| `TaskTimes.SampleTaskCosts` | src/schedule_policy.cpp:362-374 | the recursion fills the slots of the tasks below the current one and leaves the others |
| `TransferPlan.Strip` | allscale/simple_transfer_plan_generator.hpp:37-46 | the loop leaves what is required and not held by the target |
| `TransferPlan.Plan` | allscale/simple_transfer_plan_generator.hpp:33-72 | transfers are non-empty, disjoint, within a part at their source, never from the target, of the right kind; each takes from its part exactly what is missing and in no earlier part; together they bring exactly what is required, not held and known |
| `TransferPlan.MigrationKeepsOwnership` | allscale/transfer_plan.hpp:17-20 | after a migration every stored point is at exactly one location: the target if moved, its owner otherwise |
| `TransferPlan.MigrationServesTarget` | allscale/simple_transfer_plan_generator.hpp:33-72 | after a migration the target holds everything required that is stored anywhere |
| `Tuner.IncMask` | src/tuner.cpp:33-50 | activates the first inactive node, keeps prefixes, and fails exactly when all are active |
| `Tuner.DecMask` | src/tuner.cpp:51-69 | deactivates the last active node, keeps prefixes, and fails exactly when one is active |
| `Tuner.UpRaisesIffRising` | src/tuner.cpp:70-100 | a step up raises every known frequency exactly if the list of frequencies is rising |
| `Tuner.DownLowersIff` | src/tuner.cpp:102-131 | a step down lowers every known frequency exactly if every frequency that is new in the list is above the one before it |
| `Tuner.FallingListTurnsRound` | src/tuner.cpp:70-131 | on the list [2, 1] a step up from 2 leads to 1, and a step down from 1 to 2 |
| `Tuner.SomeDirectionIsOpen` | src/tuner.cpp:147-187 | one of any four consecutive directions is open if and only if there is a second node or a second frequency |
| `Tuner.NoRoomNoStep` | src/tuner.cpp:167-187 | otherwise every direction is exhausted after any number of turns, so the loop never returns |
| `Tuner.TryStep` | src/tuner.cpp:167-185 | a step changes one coordinate by one, keeps the configuration valid, and fails exactly when the direction is exhausted |
| `Tuner.ObserveSummarizes` | src/tuner.cpp:134-159 | one observation keeps the record the maximum of its base and all scores seen, at the configuration first seen with it or the one held at the start |
| `Tuner.RecordsMaximumIff` | src/tuner.cpp:154-159 | the record is a maximum that was seen if and only if some score beat the base or the configuration held was seen with just that score |
| `Tuner.UnsetScoreMatters` | src/tuner.cpp:26-29 | an unset score of 100 hides a score of 5, an unset score of -7 does no harm |
| `Tuner.RunUnchanged` | src/tuner.cpp:26-29 | over a whole run without objective change, that condition with the unset score as base and all rounds seen |
| `Tuner.RunChanged` | src/tuner.cpp:136-143 | over a whole run with objective changes, that condition with base -1 and exactly the rounds since the last change; a first score above -1 suffices |
| `Tuner.SimpleCoordinateDescent.constructor` | src/tuner.cpp:26-29 | the start configuration is the best; its score is arbitrary, because the original leaves it unset |
| `Tuner.SimpleCoordinateDescent.NextDirection` | src/tuner.cpp:193-206 | up and down alternate, and the dimension changes on every turn to up |
| `Tuner.SimpleCoordinateDescent.Next` | src/tuner.cpp:134-190 | takes in the observation as specified; the search turns exactly on a worse score, ends after at most three more turns at the first open direction, and proposes one step from the best |
| `Tuner.SimpleCoordinateDescent.Search` | src/tuner.cpp:167-187 | the unbounded loop ends within three turns at the first direction that is open |
| `Tuner.Tune` | src/tuner.cpp:134-206 | over a whole run all proposals are valid, prefix masks stay prefixes, the memory is the fold of all rounds, and the record is a seen maximum exactly under the stated condition |
| `NodeOptimizer.PushAdds` | allscale/components/internodeoptimizer.hpp:473 | appending an item to a node adds exactly that item to the schedule |
| `NodeOptimizer.DropEmptyKeepsItems` | allscale/components/internodeoptimizer.hpp:490-494 | erasing empty nodes loses no item |
| `NodeOptimizer.ItemsPermute` | allscale/components/internodeoptimizer.hpp:434-436 | shuffling the costed tasks keeps the multiset of items |
| `NodeOptimizer.Reinsert` | allscale/components/internodeoptimizer.hpp:448-470 | a head that weighs more than the second moves behind exactly those that weigh no more; the tail stays sorted and the new head is least loaded |
| `NodeOptimizer.GreedyPartition` | allscale/components/internodeoptimizer.hpp:441-475 | every task goes to a least loaded eligible node, tracked loads are the cost sums placed there, and items land where their tasks do |
| `NodeOptimizer.GreedyBalance` | allscale/components/internodeoptimizer.hpp:441-475 | greedy placement keeps any two eligible nodes within one maximal task cost |
| `NodeOptimizer.SinglePartition` | allscale/components/internodeoptimizer.hpp:476-488 | with one eligible node all tasks go there |
| `NodeOptimizer.TaskCostsAddUp` | allscale/components/internodeoptimizer.hpp:277-287 | the tasks of a node together cost its load, or the floor for each if that is more |
| `NodeOptimizer.GatherAll` | allscale/components/internodeoptimizer.hpp:277-314 | the tasks are those of the nodes in order, each at the average load of its own node but no less than the floor; no item is lost |
| `NodeOptimizer.EndCostScaled` | allscale/components/internodeoptimizer.hpp:414-421 | a slow node's task costs as many times more as the node is slower than the fastest ones |
| `NodeOptimizer.GatherEnds` | allscale/components/internodeoptimizer.hpp:407-426 | the tasks are those of the slowest and fastest nodes in order, each at the cost of its own node, those of the slowest scaled |
| `NodeOptimizer.Redistribute` | allscale/components/internodeoptimizer.hpp:298-494 | all items go greedily to the first nodes, none lost, loads within one task cost; with no node requested the schedule is empty |
| `NodeOptimizer.ExchangeEnds` | allscale/components/internodeoptimizer.hpp:405-494 | middle nodes keep exactly their items; the end nodes' items go greedily to the end nodes, within one task cost for non-negative times; nothing is lost |
| `NodeOptimizer.SortByTime` | allscale/components/internodeoptimizer.hpp:339-369 | the measured nodes, each once, slowest first |
| `NodeOptimizer.AsDocumentedIff` | allscale/components/internodeoptimizer.hpp:349-405 | for all times and group sizes, exactly when the code decides as documented: the gap must not lie between the two thresholds, and without noticeable spread must be small |
| `NodeOptimizer.TwoNodesExchange` | allscale/components/internodeoptimizer.hpp:349-405 | two nodes exchange exactly when the squared gap passes the floor, and by the documented condition only for equal times |
| `NodeOptimizer.DecidedAnew` | allscale/components/internodeoptimizer.hpp:298-332 | a changed number of nodes, a request for random distribution or too few measurements put all items on all requested nodes, within one task cost of each other |
| `NodeOptimizer.DecidedInPlace` | allscale/components/internodeoptimizer.hpp:398-494 | otherwise the nodes in the middle keep exactly their items, unless the schedule is empty |
| `NodeOptimizer.DecidedExchange` | allscale/components/internodeoptimizer.hpp:349-426 | and then the end nodes exchange exactly for two non-empty groups whose squared gap reaches 1.41421356237 times the variance, if that is above 0.01; else the schedule is empty |
| `NodeOptimizer.DecideSchedule` | allscale/components/internodeoptimizer.hpp:231-528 | which outcome occurs, in terms of the inputs, and what each contains, including the lookups that throw |
| `NodeOptimizer.DecideForSameNodes` | allscale/components/internodeoptimizer.hpp:231-528 | with agreeing node keys and a node requested, the schedule is empty or holds exactly the items that came in |

## Where code and documentation or intent differ

Each of these properties fails for some inputs; the members named give the failing input and the exact condition.

* The guard in `decision_tree::get` (src/schedule_policy.cpp:65) lets the index equal to the buffer
  size through: `GuardMisses`, `FirstBytePastEnd`. `ReadDecision` makes the guarded read, and
  `RunDecide` shows that no interpreter run on a compiled policy leaves the buffer.
* `getEqualDistribution` bounds its loop by the number of active nodes (src/schedule_policy.cpp:102):
  `GapLosesTasks`, `AllPlacedIffPrefix`. The tasks it leaves on the first node also disturb where the placed ones
  land: `CompiledToInactive`, `UniformActiveIff`, `UniformSortedIff`, `UniformEvenIff`.
* `fillTree` takes the ends of a slice for its minimum and maximum (src/schedule_policy.cpp:125-127):
  `UnsortedIsLost`, `LandsIffTraceable`.
* The rebalancing by task times ignores the contents of its mask (src/schedule_policy.cpp:377-581):
  `DeactivatedNodeKeepsTasks`, `RebalanceByTimes`.
* Below the tracking level a recorded time shows only in part in the task itself, and shows in disjoint tasks
  that share its slot (src/task_times.cpp:34-53): `SiblingsShareSlot`, `DisjointUnchangedIff`, `AddedAboveIff`.
* `best_score` has no initial value (src/tuner.cpp:26-29): `UnsetScoreMatters`, `RecordsMaximumIff`,
  `RunUnchanged`, `RunChanged`.
* The search for the next configuration never ends on a single node with a single frequency
  (src/tuner.cpp:167): `NoRoomNoStep`, `SomeDirectionIsOpen`.
* The branch `freqs.begin() > freqs.end()` in `inc` and `dec` (src/tuner.cpp:78, 109) is never taken,
  so "up" is the next list entry, whatever its value: `FallingListTurnsRound`, `UpRaisesIffRising`, `DownLowersIff`.
* The comment in `decide_schedule` speaks of twice the standard deviation; the code compares the squared gap
  with the variance times 1.41421356237 (allscale/components/internodeoptimizer.hpp:349-405):
  `TwoNodesExchange`, `AsDocumentedIff`.
* Without an active node the rebalancing by load searches past the end of the mask
  (src/schedule_policy.cpp:247-257): `RebalanceTasks`, `SomeActive`.

## Left out

- Floating point: costs, times, loads and scores are reals. Rounding could break the argument that
  the last active node is never passed, and that a lone node never looks for a neighbour.
- Integer widths: shifts, ranks, positions and durations are unbounded integers; the claims hold for
  sizes whose powers of two fit the original's 32-bit shifts.
- The square root: the confidence margin of the neighbour exchange is an arbitrary non-negative real.
- Division by zero: an undefined node average is a case of its own; a fastest-nodes average of zero
  gives the parameter `undefined` as cost.
- PolicyEvolution.RebalanceByLoad: needs an active node; without one the original reads past the end of the mask, whose contents there are unknown.
- NodeOptimizer.ExchangeEnds: the balance bound is stated for non-negative times, as durations are.
- Data requirements, allocation and `rank_running`: their answers are arbitrary at every step.
- Locks, remote actions, futures, and policies that arrive at different localities at different times:
  routing is proved for one policy in force.
- The periodic `balance()` call at the root, the local execution that follows, and resilience.
- `balance_ino`, `decide_random_mapping` and `toggle_node`: they produce unsorted mappings or
  non-prefix masks, for which the exact conditions above apply.
- The distribution of the random draws: the random policy is proved for all coin flips.
- The optional shuffle before a full redistribution, which is compiled out in the source; the shuffle of the exchange is modelled.
- The multi-objective choice of the number of nodes and its history of measurements.
- `operator-` and `operator/` on recorded times, which work slot by slot like the modelled addition.
- `location_info` and the region types: parts are a list, regions are finite sets of points.
- Data-item index, monitor, dashboard, power measurement, thread pools and the other tuner: plumbing,
  or only declared in the source.
