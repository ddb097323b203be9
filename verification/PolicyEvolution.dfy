/** Policies over the life of a program: created evenly, then rebalanced again and again. */
module PolicyEvolution {
  import opened Powers
  import opened TaskPath
  import opened Hierarchy
  import opened TreeCompiler
  import opened TreePolicy
  import opened RoundTrip
  import opened Routing
  import opened Sums
  import opened Distribution
  import opened UniformPolicy
  import opened Rebalancing
  import opened NeighbourExchange
  import opened TaskTimes

  lemma NetworkFitsTree(size: nat, m: seq<nat>)
    requires InNetwork(m, size)
    ensures InNetwork(m, Pow2(Height(size)))
  {
  }

  /** Compiles a mapping of any shape for the network of an existing policy. */
  method FromMapping(root: Address, granularity: nat, mapping: seq<nat>) returns (pol: Policy)
    requires |mapping| == Pow2(granularity) && root.rank == 0 && root.layer <= granularity
    ensures pol.root == root && pol.granularity == granularity && Realizes(pol, mapping)
  {
    var tree := ToDecisionTree(Pow2(root.layer), mapping, granularity, root.layer);
    pol := Policy(root, granularity, tree.encoded[..]);
  }

  /** What a policy compiled from `m` does: the node at which each task lands. */
  function Effect(pol: Policy, m: seq<nat>): seq<nat>
    requires |m| == Pow2(pol.granularity)
  {
    ReadBack(m, pol.root.layer, pol.granularity)
  }

  /** Reads the mapping of any deployed policy back. */
  method ReadMapping(size: nat, pol: Policy, ghost m: seq<nat>) returns (mapping: seq<nat>)
    requires Deployed(size, pol, m)
    ensures mapping == Effect(pol, m) && InNetwork(mapping, size)
  {
    mapping := TaskDistributionMapping(pol, m);
    ReadBackFacts(size, pol, m);
  }

  /** A policy names nodes of the network only, whatever the order of its mapping. */
  lemma ReadBackFacts(size: nat, pol: Policy, m: seq<nat>)
    requires Deployed(size, pol, m)
    ensures InNetwork(Effect(pol, m), size)
    ensures Sorted(m) ==> Effect(pol, m) == m
  {
    var levels, g := pol.root.layer, pol.granularity;
    forall i: nat | i < |m| ensures Landing(m, levels, g, PathOf(g, i)) < size {
      LandingInNetwork(pol, m, size, PathOf(g, i));
    }
    if Sorted(m) {
      NetworkFitsTree(size, m);
      SortedIsTraceable(m, levels, g);
      ReadBackIffTraceable(m, levels, g);
    }
  }

  lemma {:induction false} LandingInNetwork(pol: Policy, m: seq<nat>, size: nat, p: Path)
    requires Realizes(pol, m) && InNetwork(m, size)
    ensures Landing(m, pol.root.layer, pol.granularity, p) < size
    decreases Remaining(m, pol.root.layer, pol.granularity, p)
  {
    if After(m, pol.root.layer, p).depth == pol.root.layer {
      TargetInNetwork(pol, m, size, p);
      TargetIsCompiled(pol, m, p);
    } else {
      LeftChildDescends(m, pol.root.layer, pol.granularity, p);
      LandingInNetwork(pol, m, size, Child(p, false));
    }
  }

  /** The first policy, with at least as many tasks as the network has nodes. */
  method CreateUniform(mask: seq<bool>, granularity: int) returns (pol: Policy, ghost m: seq<nat>)
    requires NumActive(mask) > 0
    ensures Deployed(|mask|, pol, m) && pol.granularity == Depth(mask, granularity)
    ensures pol.granularity >= granularity && pol.root == RootOfNetwork(|mask|)
    ensures m == UniformMapping(mask, Pow2(pol.granularity)) && Effect(pol, m) == FirstMapping(mask, granularity)
    ensures AllActive(mask, Effect(pol, m)) <==> PrefixMask(mask) || (mask[0] && CutsActive(mask, pol.granularity))
    ensures Sorted(Effect(pol, m)) <==> PrefixMask(mask) || CutToFirst(mask, pol.granularity)
    ensures EvenlySpread(mask, Effect(pol, m)) <==> PrefixMask(mask)
  {
    var log2 := CeilLog2(|mask|);
    CeilLog2Unique(|mask|, log2, Height(|mask|));
    var levels := if log2 > granularity then log2 else granularity;
    assert levels == Depth(mask, granularity);
    var mapping, placed := EqualDistribution(mask, Pow2(levels));
    DistributionIsUniform(mask, Pow2(levels), mapping, placed);
    UniformInNetwork(mask, Pow2(levels));
    pol := FromMapping(RootOfNetwork(|mask|), levels, mapping);
    m := mapping;
    UniformActiveIff(mask, levels);
    UniformSortedIff(mask, levels);
    UniformEvenIff(mask, levels);
  }

  /** A task's estimated cost: the load of its node split evenly over that node's tasks. */
  function Estimated(load: seq<real>, m: seq<nat>): seq<real>
    requires InNetwork(m, |load|)
  {
    seq(|m|, i requires 0 <= i < |m| => EstimatedAt(load, m, i))
  }

  function EstimatedAt(load: seq<real>, m: seq<nat>, i: nat): real
    requires InNetwork(m, |load|) && i < |m|
  {
    assert m[i] in multiset(m);
    load[m[i]] / multiset(m)[m[i]] as real
  }

  lemma EstimatedNonNegative(load: seq<real>, m: seq<nat>)
    requires InNetwork(m, |load|) && NonNegative(load)
    ensures NonNegative(Estimated(load, m))
  {
  }

  /** `x` added up `n` times. */
  function Multiple(n: nat, x: real): real { if n == 0 then 0.0 else Multiple(n - 1, x) + x }

  lemma {:induction false} MultipleIsProduct(n: nat, x: real)
    ensures Multiple(n, x) == n as real * x
  {
    if n > 0 {
      MultipleIsProduct(n - 1, x);
      assert n as real * x == (n - 1) as real * x + x;
    }
  }

  lemma CountLast(m: seq<nat>, node: nat)
    requires m != []
    ensures multiset(m)[node] == multiset(m[..|m| - 1])[node] + if m[|m| - 1] == node then 1 else 0
  {
    assert m == m[..|m| - 1] + [m[|m| - 1]];
  }

  lemma {:induction false} EqualCosts(costs: seq<real>, m: seq<nat>, node: nat, cost: real)
    requires |m| <= |costs| && forall i :: 0 <= i < |m| && m[i] == node ==> costs[i] == cost
    ensures NodeCost(costs, m, node) == Multiple(multiset(m)[node], cost)
  {
    if m != [] {
      EqualCosts(costs, m[..|m| - 1], node, cost);
      CountLast(m, node);
    }
  }

  /** The estimates of a node's tasks add up to the node's load. */
  lemma EstimatesAddUp(load: seq<real>, m: seq<nat>, node: nat)
    requires InNetwork(m, |load|) && node in m
    ensures NodeCost(Estimated(load, m), m, node) == load[node]
  {
    var count := multiset(m)[node];
    assert node in multiset(m);
    EqualCosts(Estimated(load, m), m, node, load[node] / count as real);
    MultipleIsProduct(count, load[node] / count as real);
  }

  method CountTasks(m: seq<nat>, n: nat) returns (share: seq<nat>)
    requires InNetwork(m, n)
    ensures |share| == n && forall j :: 0 <= j < n ==> share[j] == multiset(m)[j]
  {
    share := Repeat(0, n);
    for i := 0 to |m|
      invariant |share| == n && forall j :: 0 <= j < n ==> share[j] == multiset(m[..i])[j]
    {
      assert m[..i + 1] == m[..i] + [m[i]];
      share := share[m[i] := share[m[i]] + 1];
    }
    assert m[..|m|] == m;
  }

  /** Spreads each node's load over its tasks. */
  method EstimateCosts(load: seq<real>, mapping: seq<nat>) returns (taskCosts: seq<real>)
    requires InNetwork(mapping, |load|) && |mapping| > 0
    ensures taskCosts == Estimated(load, mapping)
  {
    var share := CountTasks(mapping, |load|);
    var sum := 0.0;
    for i := 0 to |load| {
      sum := sum + load[i];
    }
    var avg := sum / |mapping| as real;
    var costs := [];
    for i := 0 to |load|
      invariant |costs| == i
      invariant forall j :: 0 <= j < i ==> costs[j] == if share[j] == 0 then avg else load[j] / share[j] as real
    {
      costs := costs + [if share[i] == 0 then avg else load[i] / share[i] as real];
    }
    taskCosts := [];
    for i := 0 to |mapping|
      invariant |taskCosts| == i
      invariant forall j :: 0 <= j < i ==> taskCosts[j] == EstimatedAt(load, mapping, j)
    {
      assert mapping[i] in multiset(mapping);
      taskCosts := taskCosts + [costs[mapping[i]]];
    }
  }

  /** Rebalances by measured node loads: whatever mapping was in force, tasks move to active nodes
      only, none overloaded by more than one task beyond its fair share. */
  method RebalanceByLoad(prev: Policy, load: seq<real>, mask: seq<bool>, ghost m: seq<nat>)
    returns (pol: Policy, ghost m': seq<nat>)
    requires Deployed(|mask|, prev, m)
    requires |load| == |mask| && NonNegative(load) && NumActive(mask) > 0
    ensures Deployed(|mask|, pol, m') && pol.granularity == prev.granularity && Effect(pol, m') == m'
    ensures Sorted(m') && AllActive(mask, m')
    ensures InNetwork(Effect(prev, m), |load|) && Bounded(Estimated(load, Effect(prev, m)), mask, m')
    ensures Sweeps(Estimated(load, Effect(prev, m)), mask, m')
  {
    var mapping := ReadMapping(|mask|, prev, m);
    var taskCosts := EstimateCosts(load, mapping);
    EstimatedNonNegative(load, mapping);
    var r := RebalanceTasks(taskCosts, mask);
    pol := FromMapping(prev.root, prev.granularity, r.mapping);
    m' := r.mapping;
    ReadBackFacts(|mask|, pol, m');
  }

  /** Equal task counts mean that the same nodes are named. */
  lemma SameNodesByCount(a: seq<nat>, b: seq<nat>, n: nat)
    requires InNetwork(a, n) && InNetwork(b, n)
    requires forall j :: 0 <= j < n ==> (TaskCounts(a, n)[j] == 0 <==> TaskCounts(b, n)[j] == 0)
    ensures forall k :: k in a <==> k in b
  {
    forall k ensures k in a <==> k in b {
      assert k in a <==> k in multiset(a);
      assert k in b <==> k in multiset(b);
      if k in a || k in b {
        assert TaskCounts(a, n)[k] == multiset(a)[k];
        assert TaskCounts(b, n)[k] == multiset(b)[k];
      }
    }
  }

  /** The exchange between neighbours neither empties a node nor opens one. */
  lemma RebalancedKeepsNodes(costs: seq<real>, before: seq<nat>, n: nat, margin: real, after: seq<nat>)
    requires |costs| == |before| > 0 && margin >= 0.0 && InNetwork(before, n) && InNetwork(after, n)
    requires TaskCounts(after, n) == Rebalanced(costs, before, n, margin)
    ensures forall k :: k in after <==> k in before
  {
    LoneNodeIsMean(costs, before, n, margin);
    BalancedCountsDownhill(Averages(costs, before, n), TaskCounts(before, n), Mean(costs), Variance(costs), margin);
    SameNodesByCount(after, before, n);
  }

  lemma SameNodesSameMask(mask: seq<bool>, a: seq<nat>, b: seq<nat>)
    requires forall k :: k in a <==> k in b
    ensures AllActive(mask, a) <==> AllActive(mask, b)
  {
    if AllActive(mask, a) {
      ActiveBySubset(mask, a, b);
    }
    if AllActive(mask, b) {
      ActiveBySubset(mask, b, a);
    }
  }

  lemma ActiveBySubset(mask: seq<bool>, a: seq<nat>, b: seq<nat>)
    requires AllActive(mask, a) && forall k :: k in b ==> k in a
    ensures AllActive(mask, b)
  {
    forall i | 0 <= i < |b| ensures b[i] < |mask| && mask[b[i]] {
      assert b[i] in a;
    }
  }

  /** A rebalanced mapping, sorted or as it was read back, is what the policy compiled from it does. */
  lemma RebalancedIsFollowed(size: nat, prev: Policy, m: seq<nat>, pol: Policy, m': seq<nat>)
    requires Deployed(size, prev, m) && Deployed(size, pol, m') && pol.root == prev.root && pol.granularity == prev.granularity
    requires m' == Effect(prev, m) || Sorted(m')
    ensures Effect(pol, m') == m'
  {
    ReadBackFacts(size, pol, m');
    ReadBackStable(m, prev.root.layer, prev.granularity);
  }

  /** Rebalances by measured task times, by the exchange between neighbours. The same nodes keep
      tasks, so the new policy respects the mask exactly when the one in force did. */
  method RebalanceByTimes(prev: Policy, times: Record, mask: seq<bool>, margin: real, ghost m: seq<nat>)
    returns (pol: Policy, ghost m': seq<nat>, ghost turns: seq<seq<nat>>)
    requires Deployed(|mask|, prev, m) && margin >= 0.0
    ensures Deployed(|mask|, pol, m') && pol.granularity == prev.granularity && Effect(pol, m') == m'
    ensures |Samples(times, Root, prev.granularity)| == |m| > 0
    ensures var before := Effect(prev, m);
            && InNetwork(before, |mask|)
            && TaskCounts(m', |mask|) == Rebalanced(Samples(times, Root, prev.granularity), before, |mask|, margin)
            && Measured(Averages(Samples(times, Root, prev.granularity), before, |mask|), TaskCounts(before, |mask|),
                        Mean(Samples(times, Root, prev.granularity)), Variance(Samples(times, Root, prev.granularity)),
                        margin, before, m', turns)
            && (m' == before || Sorted(m'))
            && (forall k :: k in m' <==> k in before)
            && (AllActive(mask, m') <==> AllActive(mask, before))
  {
    var costs := new real[Pow2(prev.granularity)](_ => 0.0);
    SampledAll(costs[..], times, prev.granularity);
    SampleTaskCosts(times, Root, prev.granularity, costs);
    var mapping := ReadMapping(|mask|, prev, m);
    var newMapping;
    newMapping, turns := BalanceMapping(costs[..], mapping, |mask|, margin);
    RebalancedKeepsNodes(costs[..], mapping, |mask|, margin, newMapping);
    SameNodesSameMask(mask, newMapping, mapping);
    pol := FromMapping(prev.root, prev.granularity, newMapping);
    m' := newMapping;
    RebalancedIsFollowed(|mask|, prev, m, pol, m');
  }

  /** Two nodes with one task each, the second deactivated: whatever the costs, it keeps its task. */
  lemma DeactivatedNodeKeepsTasks(costs: seq<real>, margin: real, m: seq<nat>, m': seq<nat>)
    requires m == [0, 1] && |costs| == 2 && margin >= 0.0 && InNetwork(m, 2) && InNetwork(m', 2)
    requires TaskCounts(m', 2) == Rebalanced(costs, m, 2, margin)
    ensures !AllActive([true, false], m')
  {
    RebalancedKeepsNodes(costs, m, 2, margin, m');
    SameNodesSameMask([true, false], m', m);
    assert m[1] == 1;
  }

  /** One rebalancing request. */
  datatype Event = LoadMeasured(load: seq<real>, mask: seq<bool>)
                 | TimesMeasured(times: Record, mask: seq<bool>, margin: real)

  predicate ValidEvent(e: Event, size: nat) {
    match e
    case LoadMeasured(load, mask) => |load| == |mask| == size && NonNegative(load) && NumActive(mask) > 0
    case TimesMeasured(_, mask, margin) => |mask| == size && margin >= 0.0
  }

  predicate AllValid(events: seq<Event>, size: nat) { forall i :: 0 <= i < |events| ==> ValidEvent(events[i], size) }

  /** The mask of the last rebalancing by load among the first `n` events, or the one at the start. */
  function LastMask(mask: seq<bool>, events: seq<Event>, n: nat): (r: seq<bool>)
    requires n <= |events| && AllValid(events, |mask|)
    ensures |r| == |mask|
  {
    if n == 0 then mask
    else if events[n - 1].LoadMeasured? then assert ValidEvent(events[n - 1], |mask|); events[n - 1].mask
    else LastMask(mask, events, n - 1)
  }

  /** Some rebalancing by load is among the first `n` events. */
  predicate LoadSeen(events: seq<Event>, n: nat)
    requires n <= |events|
  {
    exists i :: 0 <= i < n && events[i].LoadMeasured?
  }

  /** What a policy does after `n` events: once a load was measured, a sorted mapping onto the nodes active at
      the last rebalancing by load; until then what the first policy did, or a sorted mapping onto the same nodes. */
  ghost predicate InShape(mask: seq<bool>, first: seq<nat>, events: seq<Event>, n: nat, r: seq<nat>)
    requires n <= |events| && AllValid(events, |mask|)
  {
    if LoadSeen(events, n) then Sorted(r) && AllActive(LastMask(mask, events, n), r)
    else (r == first || Sorted(r)) && forall k :: k in r <==> k in first
  }

  /** One event, whatever came before. */
  method React(mask: seq<bool>, events: seq<Event>, n: nat, prev: Policy, ghost m: seq<nat>, ghost first: seq<nat>)
    returns (pol: Policy, ghost m': seq<nat>)
    requires n < |events| && AllValid(events, |mask|)
    requires Deployed(|mask|, prev, m) && InShape(mask, first, events, n, Effect(prev, m))
    ensures Deployed(|mask|, pol, m') && pol.granularity == prev.granularity
    ensures InShape(mask, first, events, n + 1, Effect(pol, m'))
  {
    assert LoadSeen(events, n + 1) <==> LoadSeen(events, n) || events[n].LoadMeasured?;
    match events[n] {
      case LoadMeasured(load, mask') =>
        pol, m' := RebalanceByLoad(prev, load, mask', m);
      case TimesMeasured(times, mask', margin) =>
        ghost var turns;
        pol, m', turns := RebalanceByTimes(prev, times, mask', margin, m);
        if LoadSeen(events, n) {
          ActiveBySubset(LastMask(mask, events, n), Effect(prev, m), m');
        }
    }
  }

  /** Whatever the measurements, every policy that is ever in force is deployed for the network and, once
      a load has been measured, does what a sorted mapping onto the nodes active at the last rebalancing by
      load says. Until then it uses the nodes of the first policy, and active nodes only if that one did. */
  method Evolve(mask: seq<bool>, granularity: int, events: seq<Event>)
    returns (pol: Policy, mapping: seq<nat>, ghost m: seq<nat>)
    requires NumActive(mask) > 0
    requires AllValid(events, |mask|)
    ensures Deployed(|mask|, pol, m) && mapping == Effect(pol, m) && pol.granularity == Depth(mask, granularity)
    ensures |mapping| == Pow2(pol.granularity) && InNetwork(mapping, |mask|)
    ensures InShape(mask, FirstMapping(mask, granularity), events, |events|, mapping)
    ensures AllActive(LastMask(mask, events, |events|), mapping) <==>
            LoadSeen(events, |events|) || PrefixMask(mask) || (mask[0] && CutsActive(mask, pol.granularity))
    ensures PrefixMask(mask) || CutToFirst(mask, pol.granularity) || LoadSeen(events, |events|) ==> Sorted(mapping)
  {
    pol, m := CreateUniform(mask, granularity);
    ghost var first := FirstMapping(mask, granularity);
    for i := 0 to |events|
      invariant Deployed(|mask|, pol, m) && pol.granularity == Depth(mask, granularity)
      invariant InShape(mask, first, events, i, Effect(pol, m))
    {
      pol, m := React(mask, events, i, pol, m, first);
    }
    mapping := ReadMapping(|mask|, pol, m);
    if !LoadSeen(events, |events|) {
      NoLoadKeepsMask(mask, events, |events|);
      SameNodesSameMask(mask, mapping, first);
    }
  }

  lemma {:induction false} NoLoadKeepsMask(mask: seq<bool>, events: seq<Event>, n: nat)
    requires n <= |events| && AllValid(events, |mask|)
    requires !LoadSeen(events, n)
    ensures LastMask(mask, events, n) == mask
  {
    if n > 0 {
      NoLoadKeepsMask(mask, events, n - 1);
    }
  }
}
