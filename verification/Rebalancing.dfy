/** Redistribution of tasks according to measured costs. */
module Rebalancing {
  import opened Sums
  import opened Distribution
  import opened RoundTrip

  // --- a sweep over the tasks that fills one node after the other ---

  /** Total cost of the tasks that `mapping` gives to a node. */
  function NodeCost(costs: seq<real>, mapping: seq<nat>, node: nat): real
    requires |mapping| <= |costs|
  {
    if mapping == [] then 0.0
    else
      var n := |mapping| - 1;
      NodeCost(costs, mapping[..n], node) + if mapping[n] == node then costs[n] else 0.0
  }

  lemma NodeCostAppend(costs: seq<real>, mapping: seq<nat>, x: nat, node: nat)
    requires |mapping| < |costs|
    ensures NodeCost(costs, mapping + [x], node) ==
            NodeCost(costs, mapping, node) + if x == node then costs[|mapping|] else 0.0
  {
    assert (mapping + [x])[..|mapping|] == mapping;
  }

  predicate NonNegative(s: seq<real>) { forall i :: 0 <= i < |s| ==> s[i] >= 0.0 }

  /** Cost of the first `i` tasks. */
  function Upto(costs: seq<real>, i: nat): real
    requires i <= |costs|
  {
    Sum(costs[..i])
  }

  lemma UptoNext(costs: seq<real>, i: nat)
    requires i < |costs|
    ensures Upto(costs, i + 1) == Upto(costs, i) + costs[i]
  {
    assert costs[..i + 1][..i] == costs[..i];
  }

  lemma UptoBounds(costs: seq<real>, i: nat)
    requires i <= |costs| && NonNegative(costs)
    ensures 0.0 <= Upto(costs, i) <= Sum(costs)
  {
    SumPrefixMono(costs, 0, i);
    SumPrefixMono(costs, i, |costs|);
    assert costs[..|costs|] == costs && costs[..0] == [];
  }

  /** The cost each active node should carry. */
  function FairShare(costs: seq<real>, mask: seq<bool>): real
    requires NumActive(mask) > 0
  {
    Sum(costs) / NumActive(mask) as real
  }

  /** The accumulated cost at which node `node` is full. */
  function Goal(costs: seq<real>, mask: seq<bool>, node: nat): real
    requires NumActive(mask) > 0 && node < |mask|
  {
    FairShare(costs, mask) * Active(mask, node + 1) as real
  }

  /** No active node follows `node` exactly when all cost fits below its goal line. */
  lemma LastGoal(costs: seq<real>, mask: seq<bool>, node: nat)
    requires NumActive(mask) > 0 && node < |mask| && Active(mask, node + 1) == NumActive(mask)
    ensures Goal(costs, mask, node) == Sum(costs)
  {
  }

  /** The sweep's state before task `i`: the current node took its first task at `first`. */
  ghost predicate SweepInvariant(costs: seq<real>, mask: seq<bool>, i: nat, node: nat, first: nat)
    requires i <= |costs| && NumActive(mask) > 0
  {
    && node < |mask| && mask[node] && first <= i
    && ((Active(mask, node) == 0 && first == 0 && Upto(costs, i) <= Goal(costs, mask, node))
        || (first < i
            && Goal(costs, mask, node) - FairShare(costs, mask) < Upto(costs, first + 1)
            && (i == first + 1 || Upto(costs, i) <= Goal(costs, mask, node))))
  }

  /** No task costs more than `c`. */
  ghost predicate Within(costs: seq<real>, c: real) {
    c >= 0.0 && forall k :: 0 <= k < |costs| ==> costs[k] <= c
  }

  lemma BlockWithinBound(costs: seq<real>, mask: seq<bool>, i: nat, node: nat, first: nat, c: real)
    requires i <= |costs| && NumActive(mask) > 0 && NonNegative(costs) && Within(costs, c)
    requires SweepInvariant(costs, mask, i, node, first)
    ensures Upto(costs, i) - Upto(costs, first) <= FairShare(costs, mask) + c
  {
    UptoBounds(costs, i);
    ShareNonNegative(costs, mask);
    if first < i {
      UptoNext(costs, first);
    }
    if Active(mask, node) == 0 {
      assert Active(mask, node + 1) == 1;
      UptoBounds(costs, first);
    }
  }

  lemma ShareNonNegative(costs: seq<real>, mask: seq<bool>)
    requires NumActive(mask) > 0 && NonNegative(costs)
    ensures FairShare(costs, mask) >= 0.0
  {
    UptoBounds(costs, |costs|);
  }

  /** Every node carries at most its share plus one task. */
  ghost predicate Bounded(costs: seq<real>, mask: seq<bool>, mapping: seq<nat>)
    requires NumActive(mask) > 0 && |mapping| <= |costs|
  {
    forall node: nat, c: real {:trigger NodeCost(costs, mapping, node), Within(costs, c)} ::
      Within(costs, c) ==> NodeCost(costs, mapping, node) <= FairShare(costs, mask) + c
  }

  /** The mapping built so far: sorted, on active nodes, the current node's tasks from `first` on. */
  ghost predicate Swept(costs: seq<real>, mask: seq<bool>, mapping: seq<nat>, node: nat, first: nat)
    requires NumActive(mask) > 0
  {
    && |mapping| <= |costs|
    && SweepInvariant(costs, mask, |mapping|, node, first)
    && Sorted(mapping)
    && (forall k :: 0 <= k < |mapping| ==> mapping[k] <= node && mask[mapping[k]])
    && NodeCost(costs, mapping, node) == Upto(costs, |mapping|) - Upto(costs, first)
    && Bounded(costs, mask, mapping)
  }

  lemma {:induction false} NodeCostNone(costs: seq<real>, mapping: seq<nat>, node: nat)
    requires |mapping| <= |costs| && forall k :: 0 <= k < |mapping| ==> mapping[k] < node
    ensures NodeCost(costs, mapping, node) == 0.0
  {
    if mapping != [] {
      NodeCostNone(costs, mapping[..|mapping| - 1], node);
    }
  }

  /** Appending a task keeps the picture, on the same node or on a later one. */
  lemma SweptAppend(costs: seq<real>, mask: seq<bool>, mapping: seq<nat>, node: nat, first: nat, node': nat, first': nat)
    requires NumActive(mask) > 0 && NonNegative(costs) && |mapping| < |costs|
    requires Swept(costs, mask, mapping, node, first)
    requires (node' == node && first' == first) || (node' > node && first' == |mapping|)
    requires SweepInvariant(costs, mask, |mapping| + 1, node', first')
    ensures Swept(costs, mask, mapping + [node'], node', first')
  {
    var i := |mapping|;
    UptoNext(costs, i);
    NodeCostAppend(costs, mapping, node', node');
    if node' > node {
      NodeCostNone(costs, mapping, node');
    }
    forall j: nat, c: real | Within(costs, c)
      ensures NodeCost(costs, mapping + [node'], j) <= FairShare(costs, mask) + c
    {
      NodeCostAppend(costs, mapping, node', j);
      if j == node' {
        BlockWithinBound(costs, mask, i + 1, node', first', c);
      }
    }
  }

  /** A crossed goal line means that an active node is left to move to. */
  lemma CrossedMeansMore(costs: seq<real>, mask: seq<bool>, i: nat, node: nat)
    requires NumActive(mask) > 0 && NonNegative(costs) && i <= |costs| && node < |mask|
    requires Upto(costs, i) > Goal(costs, mask, node)
    ensures Active(mask, node + 1) < NumActive(mask)
  {
    ActiveMono(mask, node + 1, |mask|);
    UptoBounds(costs, i);
    if Active(mask, node + 1) == NumActive(mask) {
      LastGoal(costs, mask, node);
    }
  }

  lemma NextGoal(costs: seq<real>, mask: seq<bool>, node: nat, node': nat)
    requires NumActive(mask) > 0 && node < node' < |mask| && mask[node'] && Active(mask, node') == Active(mask, node + 1)
    ensures Goal(costs, mask, node') == Goal(costs, mask, node) + FairShare(costs, mask)
  {
    assert Active(mask, node' + 1) == Active(mask, node + 1) + 1;
  }

  /** The first active node from `start` on; the end of the mask if there is none. */
  method NextActive(mask: seq<bool>, start: nat) returns (node: nat)
    requires start <= |mask|
    ensures start <= node <= |mask| && (node < |mask| ==> mask[node]) && Active(mask, node) == Active(mask, start)
    ensures node < |mask| <==> Active(mask, start) < NumActive(mask)
    ensures forall k :: start <= k < node ==> !mask[k]
  {
    node := start;
    while node < |mask| && !mask[node]
      invariant start <= node <= |mask| && Active(mask, node) == Active(mask, start)
      invariant forall k :: start <= k < node ==> !mask[k]
    {
      node := node + 1;
    }
    if node < |mask| {
      ActiveMono(mask, node + 1, |mask|);
    }
  }

  // --- when the sweep moves on ---

  /** `node` is the first active node from `start` on. */
  predicate FirstActiveFrom(mask: seq<bool>, start: nat, node: nat) {
    start <= node < |mask| && mask[node] && forall k :: start <= k < node ==> !mask[k]
  }

  /** The node of task `i`, given that of the task before: the same as long as the accumulated cost, this task's
      included, stays within the node's goal, and the next active one otherwise. */
  ghost predicate Advances(costs: seq<real>, mask: seq<bool>, i: nat, prev: nat, node: nat)
    requires NumActive(mask) > 0 && i < |costs|
  {
    && prev < |mask|
    && if Upto(costs, i + 1) <= Goal(costs, mask, prev) then node == prev else FirstActiveFrom(mask, prev + 1, node)
  }

  /** The node of the task before task `i`, or where the sweep starts. */
  function Before(start: nat, mapping: seq<nat>, i: nat): nat
    requires i <= |mapping|
  {
    if i == 0 then start else mapping[i - 1]
  }

  ghost predicate KeepsRule(costs: seq<real>, mask: seq<bool>, start: nat, mapping: seq<nat>, i: nat)
    requires NumActive(mask) > 0 && i < |mapping| <= |costs|
  {
    Advances(costs, mask, i, Before(start, mapping, i), mapping[i])
  }

  /** Every task of the mapping keeps to the rule. */
  ghost predicate SweepRule(costs: seq<real>, mask: seq<bool>, start: nat, mapping: seq<nat>)
    requires NumActive(mask) > 0 && |mapping| <= |costs|
  {
    forall i {:trigger KeepsRule(costs, mask, start, mapping, i)} :: 0 <= i < |mapping| ==>
      KeepsRule(costs, mask, start, mapping, i)
  }

  /** The rule, starting from the first active node. */
  ghost predicate Sweeps(costs: seq<real>, mask: seq<bool>, mapping: seq<nat>)
    requires NumActive(mask) > 0 && |mapping| <= |costs|
  {
    forall start: nat :: FirstActiveFrom(mask, 0, start) ==> SweepRule(costs, mask, start, mapping)
  }

  lemma SweepRuleNext(costs: seq<real>, mask: seq<bool>, start: nat, mapping: seq<nat>, node: nat)
    requires NumActive(mask) > 0 && |mapping| < |costs| && SweepRule(costs, mask, start, mapping)
    requires Advances(costs, mask, |mapping|, Before(start, mapping, |mapping|), node)
    ensures SweepRule(costs, mask, start, mapping + [node])
  {
    var all := mapping + [node];
    forall i | 0 <= i < |all| ensures KeepsRule(costs, mask, start, all, i) {
      assert Before(start, all, i) == Before(start, mapping, i);
      if i < |mapping| {
        assert KeepsRule(costs, mask, start, mapping, i);
      }
    }
  }

  lemma FirstActiveUnique(mask: seq<bool>, start: nat, a: nat, b: nat)
    requires FirstActiveFrom(mask, start, a) && FirstActiveFrom(mask, start, b)
    ensures a == b
  {
  }

  lemma AdvanceUnique(costs: seq<real>, mask: seq<bool>, i: nat, prev: nat, a: nat, b: nat)
    requires NumActive(mask) > 0 && i < |costs| && Advances(costs, mask, i, prev, a) && Advances(costs, mask, i, prev, b)
    ensures a == b
  {
    if Upto(costs, i + 1) > Goal(costs, mask, prev) {
      FirstActiveUnique(mask, prev + 1, a, b);
    }
  }

  /** The rule leaves no choice: it fixes the node of every task. */
  lemma {:induction false} SweepDetermined(costs: seq<real>, mask: seq<bool>, start: nat, a: seq<nat>, b: seq<nat>, i: nat)
    requires NumActive(mask) > 0 && i < |a| == |b| <= |costs|
    requires SweepRule(costs, mask, start, a) && SweepRule(costs, mask, start, b)
    ensures a[i] == b[i]
  {
    if i > 0 {
      SweepDetermined(costs, mask, start, a, b, i - 1);
    }
    RuleAt(costs, mask, start, a, i);
    RuleAt(costs, mask, start, b, i);
    AdvanceUnique(costs, mask, i, Before(start, a, i), a[i], b[i]);
  }

  lemma StartIsFirst(costs: seq<real>, mask: seq<bool>, start: nat, mapping: seq<nat>)
    requires NumActive(mask) > 0 && |mapping| <= |costs|
    requires FirstActiveFrom(mask, 0, start) && SweepRule(costs, mask, start, mapping)
    ensures Sweeps(costs, mask, mapping)
  {
    forall s: nat | FirstActiveFrom(mask, 0, s) ensures s == start {
      FirstActiveUnique(mask, 0, s, start);
    }
  }

  // --- the sweep ---

  /** A new mapping, or a search for an active node that has left the mask. */
  datatype Assignment = Assigned(mapping: seq<nat>) | PastMask

  /** Hands out tasks in order, moving to the next active node when the goal line is crossed. */
  method RebalanceTasks(costs: seq<real>, mask: seq<bool>) returns (r: Assignment)
    requires NonNegative(costs)
    ensures r.PastMask? <==> NumActive(mask) == 0
    ensures r.Assigned? ==> |r.mapping| == |costs| && Sorted(r.mapping)
    ensures r.Assigned? ==> forall i :: 0 <= i < |r.mapping| ==> r.mapping[i] < |mask| && mask[r.mapping[i]]
    ensures r.Assigned? ==> NumActive(mask) > 0 && Bounded(costs, mask, r.mapping) && Sweeps(costs, mask, r.mapping)
  {
    var node := NextActive(mask, 0);
    if node == |mask| {
      return PastMask;
    }
    var mapping := SweepTasks(costs, mask, node);
    RuleSuffices(costs, mask, node, mapping);
    StartIsFirst(costs, mask, node, mapping);
    return Assigned(mapping);
  }

  /** The sweep over all tasks, from the first active node on. */
  method SweepTasks(costs: seq<real>, mask: seq<bool>, start: nat) returns (mapping: seq<nat>)
    requires NonNegative(costs) && NumActive(mask) > 0 && FirstActiveFrom(mask, 0, start) && Active(mask, start) == 0
    ensures |mapping| == |costs| && SweepRule(costs, mask, start, mapping)
  {
    var share := FairShare(costs, mask);
    var curCosts := 0.0;
    var nextGoal := share;
    var node: nat := start;
    mapping := [];
    SweepStart(costs, mask, node);
    for i := 0 to |costs|
      invariant |mapping| == i && SweepRule(costs, mask, start, mapping)
      invariant node < |mask| && node == Before(start, mapping, i)
      invariant curCosts == Upto(costs, i) && nextGoal == Goal(costs, mask, node)
    {
      var nextCosts := curCosts + costs[i];
      UptoNext(costs, i);
      node, nextGoal := Advance(costs, mask, i, node, nextCosts, nextGoal, share);
      SweepRuleNext(costs, mask, start, mapping, node);
      mapping := mapping + [node];
      curCosts := nextCosts;
    }
  }

  lemma RuleAt(costs: seq<real>, mask: seq<bool>, start: nat, mapping: seq<nat>, i: nat)
    requires NumActive(mask) > 0 && i < |mapping| <= |costs| && SweepRule(costs, mask, start, mapping)
    ensures Before(start, mapping, i) < |mask|
    ensures Advances(costs, mask, i, Before(start, mapping, i), mapping[i]) && mapping[i] < |mask|
  {
    assert KeepsRule(costs, mask, start, mapping, i);
  }

  /** A mapping that keeps to the rule has the picture of a sweep. */
  lemma {:induction false} RuleSwept(costs: seq<real>, mask: seq<bool>, start: nat, mapping: seq<nat>, n: nat) returns (first: nat)
    requires NonNegative(costs) && NumActive(mask) > 0 && n <= |mapping| <= |costs| && SweepRule(costs, mask, start, mapping)
    requires start < |mask| && mask[start] && Active(mask, start) == 0
    ensures Swept(costs, mask, mapping[..n], Before(start, mapping, n), first)
  {
    if n == 0 {
      SweepStart(costs, mask, start);
      first := 0;
    } else {
      var f := RuleSwept(costs, mask, start, mapping, n - 1);
      RuleAt(costs, mask, start, mapping, n - 1);
      first := SweptStep(costs, mask, mapping[..n - 1], Before(start, mapping, n - 1), f, mapping[n - 1]);
      assert mapping[..n] == mapping[..n - 1] + [mapping[n - 1]];
    }
  }

  /** The rule makes the mapping sorted, active and bounded. */
  lemma RuleSuffices(costs: seq<real>, mask: seq<bool>, start: nat, mapping: seq<nat>)
    requires NonNegative(costs) && NumActive(mask) > 0 && |mapping| <= |costs| && SweepRule(costs, mask, start, mapping)
    requires start < |mask| && mask[start] && Active(mask, start) == 0
    ensures Sorted(mapping) && Bounded(costs, mask, mapping)
    ensures forall i :: 0 <= i < |mapping| ==> mapping[i] < |mask| && mask[mapping[i]]
  {
    var first := RuleSwept(costs, mask, start, mapping, |mapping|);
    assert mapping[..|mapping|] == mapping;
  }

  /** Moves to the next active node if task `i` crosses the goal line. */
  method Advance(costs: seq<real>, mask: seq<bool>, i: nat, node: nat, nextCosts: real, nextGoal: real, share: real)
    returns (next: nat, goal: real)
    requires NonNegative(costs) && NumActive(mask) > 0 && i < |costs| && node < |mask|
    requires nextCosts == Upto(costs, i + 1) && nextGoal == Goal(costs, mask, node) && share == FairShare(costs, mask)
    ensures Advances(costs, mask, i, node, next) && next < |mask| && goal == Goal(costs, mask, next)
  {
    next, goal := node, nextGoal;
    LastNodeFits(costs, mask, i + 1, node);
    if node < |mask| - 1 && nextCosts > nextGoal {
      CrossedMeansMore(costs, mask, i + 1, node);
      next := NextActive(mask, node + 1);
      NextGoal(costs, mask, node, next);
      goal := nextGoal + share;
    }
  }

  lemma {:induction false} NoneActiveBetween(mask: seq<bool>, i: nat, j: nat)
    requires i <= j <= |mask| && forall k :: i <= k < j ==> !mask[k]
    ensures Active(mask, j) == Active(mask, i)
  {
    if i < j {
      NoneActiveBetween(mask, i, j - 1);
    }
  }

  /** One task further, the picture is kept, and the tasks of the current node start where they did or anew. */
  lemma SweptStep(costs: seq<real>, mask: seq<bool>, mapping: seq<nat>, node: nat, first: nat, next: nat) returns (first': nat)
    requires NumActive(mask) > 0 && NonNegative(costs) && |mapping| < |costs| && node < |mask| && next < |mask|
    requires Swept(costs, mask, mapping, node, first) && Advances(costs, mask, |mapping|, node, next)
    ensures Swept(costs, mask, mapping + [next], next, first')
  {
    UptoNext(costs, |mapping|);
    if Upto(costs, |mapping| + 1) <= Goal(costs, mask, node) {
      first' := first;
    } else {
      first' := |mapping|;
      NoneActiveBetween(mask, node + 1, next);
      NextGoal(costs, mask, node, next);
    }
    SweptAppend(costs, mask, mapping, node, first, next, first');
  }

  lemma SweepStart(costs: seq<real>, mask: seq<bool>, node: nat)
    requires NonNegative(costs) && NumActive(mask) > 0
    requires node < |mask| && mask[node] && Active(mask, node) == 0
    ensures Upto(costs, 0) == 0.0
    ensures Goal(costs, mask, node) == FairShare(costs, mask)
    ensures Swept(costs, mask, [], node, 0)
  {
    assert costs[..0] == [];
    assert Active(mask, node + 1) == 1;
    ShareNonNegative(costs, mask);
  }

  /** On the last node everything fits below the goal line. */
  lemma LastNodeFits(costs: seq<real>, mask: seq<bool>, i: nat, node: nat)
    requires NumActive(mask) > 0 && NonNegative(costs) && i <= |costs| && node < |mask|
    ensures node == |mask| - 1 ==> Upto(costs, i) <= Goal(costs, mask, node)
  {
    UptoBounds(costs, i);
    if node == |mask| - 1 {
      LastGoal(costs, mask, node);
    }
  }
}
