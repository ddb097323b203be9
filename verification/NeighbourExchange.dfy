/** Rebalancing by passing single tasks between neighbouring nodes. */
module NeighbourExchange {
  import opened Sums
  import opened RoundTrip
  import opened TreePolicy
  import opened Distribution
  import opened Rebalancing

  /** A node's average task cost; undefined, and smaller or larger than nothing, without tasks. */
  datatype Average = Undefined | Known(value: real)

  predicate Less(a: Average, b: Average) { a.Known? && b.Known? && a.value < b.value }

  function Shifted(a: Average, delta: real): Average {
    match a
    case Undefined => Undefined
    case Known(v) => Known(v + delta)
  }

  /** Exactly the nodes with tasks have a defined average. */
  predicate Consistent(avg: seq<Average>, tasks: seq<nat>) {
    |avg| == |tasks| && forall j :: 0 <= j < |avg| ==> (avg[j].Known? <==> tasks[j] >= 1)
  }

  /** Moves one task from one node to another. */
  function Give(tasks: seq<nat>, from: nat, to: nat): (r: seq<nat>)
    requires from < |tasks| && to < |tasks| && from != to && tasks[from] >= 1
    ensures SumNat(r) == SumNat(tasks)
  {
    SumNatUpdate(tasks, from, tasks[from] - 1);
    SumNatUpdate(tasks[from := tasks[from] - 1], to, tasks[to] + 1);
    tasks[from := tasks[from] - 1][to := tasks[to] + 1]
  }

  /** The neighbour that a node compares itself with; in the middle, the one preferred. */
  function Neighbour(n: nat, node: nat, preferLeft: bool): (r: nat)
    requires node < n && n >= 2
    ensures r < n && (r == node + 1 || r + 1 == node)
  {
    if node == 0 then 1 else if node == n - 1 then node - 1 else if preferLeft then node - 1 else node + 1
  }

  function LeftIsLighter(avg: seq<Average>, node: nat): bool
    requires node < |avg|
  {
    0 < node < |avg| - 1 && Less(avg[node - 1], avg[node + 1])
  }

  /** Some neighbour's average lies above the node's by more than the margin. */
  predicate HasHeavier(avg: seq<Average>, margin: real, j: nat)
    requires j < |avg|
  {
    || (j > 0 && Less(Shifted(avg[j], margin), avg[j - 1]))
    || (j + 1 < |avg| && Less(Shifted(avg[j], margin), avg[j + 1]))
  }

  /** Some neighbour's average lies below the node's by more than the margin. */
  predicate HasLighter(avg: seq<Average>, margin: real, j: nat)
    requires j < |avg|
  {
    || (j > 0 && Less(Shifted(avg[j - 1], margin), avg[j]))
    || (j + 1 < |avg| && Less(Shifted(avg[j + 1], margin), avg[j]))
  }

  /** Nodes gain tasks only from much heavier neighbours and lose them only to much lighter ones. */
  predicate Downhill(avg: seq<Average>, margin: real, before: seq<nat>, after: seq<nat>)
    requires |avg| == |before| == |after|
  {
    forall j {:trigger DownhillAt(avg, margin, before, after, j)} :: 0 <= j < |avg| ==>
      DownhillAt(avg, margin, before, after, j)
  }

  predicate DownhillAt(avg: seq<Average>, margin: real, before: seq<nat>, after: seq<nat>, j: nat)
    requires j < |avg| == |before| == |after|
  {
    && (after[j] > before[j] ==> HasHeavier(avg, margin, j))
    && (after[j] < before[j] ==> HasLighter(avg, margin, j))
  }

  lemma DownhillTwice(avg: seq<Average>, margin: real, a: seq<nat>, b: seq<nat>, c: seq<nat>)
    requires |avg| == |a| == |b| == |c| && Downhill(avg, margin, a, b) && Downhill(avg, margin, b, c)
    ensures Downhill(avg, margin, a, c)
  {
    forall j: nat | j < |avg| ensures DownhillAt(avg, margin, a, c, j) {
      assert DownhillAt(avg, margin, a, b, j) && DownhillAt(avg, margin, b, c, j);
    }
  }

  /** An overloaded node hands a task to its lighter neighbour, but keeps its last task. */
  function Unload(avg: seq<Average>, tasks: seq<nat>, margin: real, node: nat): (r: seq<nat>)
    requires Consistent(avg, tasks) && node < |avg| && |avg| >= 2 && margin >= 0.0
    ensures SumNat(r) == SumNat(tasks) && Consistent(avg, r)
    ensures r[node] <= tasks[node] && Downhill(avg, margin, tasks, r)
  {
    if tasks[node] == 1 then tasks
    else
      var target := Neighbour(|avg|, node, LeftIsLighter(avg, node));
      if Less(avg[target], Shifted(avg[node], -margin)) then Give(tasks, node, target) else tasks
  }

  /** An underloaded node takes a task from its heavier neighbour, unless it is that one's last. */
  function Load(avg: seq<Average>, tasks: seq<nat>, margin: real, node: nat): (r: seq<nat>)
    requires Consistent(avg, tasks) && node < |avg| && |avg| >= 2 && margin >= 0.0
    ensures SumNat(r) == SumNat(tasks) && Consistent(avg, r)
    ensures r[node] >= tasks[node] && Downhill(avg, margin, tasks, r)
  {
    var target := Neighbour(|avg|, node, !LeftIsLighter(avg, node));
    if tasks[target] == 1 then tasks
    else if Less(Shifted(avg[node], margin), avg[target]) then Give(tasks, target, node) else tasks
  }

  /** A lone node is never outside the confidence interval. */
  predicate LoneNodeFits(avg: seq<Average>, lower: real, upper: real) {
    |avg| == 1 ==> !Less(Known(upper), avg[0]) && !Less(avg[0], Known(lower))
  }

  /** Contributions after the pass over the first `n` nodes; the averages stay as measured. */
  function Exchanged(avg: seq<Average>, tasks: seq<nat>, lower: real, upper: real, margin: real, n: nat): (r: seq<nat>)
    requires Consistent(avg, tasks) && margin >= 0.0 && n <= |avg| && LoneNodeFits(avg, lower, upper)
    ensures Consistent(avg, r) && SumNat(r) == SumNat(tasks)
  {
    if n == 0 then tasks else Turned(avg, Exchanged(avg, tasks, lower, upper, margin, n - 1), lower, upper, margin, n - 1)
  }

  /** Contributions after one node's turn. */
  function Turned(avg: seq<Average>, tasks: seq<nat>, lower: real, upper: real, margin: real, node: nat): (r: seq<nat>)
    requires Consistent(avg, tasks) && margin >= 0.0 && node < |avg| && LoneNodeFits(avg, lower, upper)
    ensures Consistent(avg, r) && SumNat(r) == SumNat(tasks)
  {
    var r := if Less(Known(upper), avg[node]) then Unload(avg, tasks, margin, node) else tasks;
    if Less(avg[node], Known(lower)) then Load(avg, r, margin, node) else r
  }

  lemma TurnedDownhill(avg: seq<Average>, tasks: seq<nat>, lower: real, upper: real, margin: real, node: nat)
    requires Consistent(avg, tasks) && margin >= 0.0 && node < |avg| && LoneNodeFits(avg, lower, upper)
    ensures Downhill(avg, margin, tasks, Turned(avg, tasks, lower, upper, margin, node))
  {
    StandingStill(avg, margin, tasks);
    if Less(Known(upper), avg[node]) && Less(avg[node], Known(lower)) {
      var r := Unload(avg, tasks, margin, node);
      DownhillTwice(avg, margin, tasks, r, Load(avg, r, margin, node));
    }
  }

  lemma {:induction false} ExchangedDownhill(avg: seq<Average>, tasks: seq<nat>, lower: real, upper: real, margin: real, n: nat)
    requires Consistent(avg, tasks) && margin >= 0.0 && n <= |avg| && LoneNodeFits(avg, lower, upper)
    ensures Downhill(avg, margin, tasks, Exchanged(avg, tasks, lower, upper, margin, n))
  {
    if n > 0 {
      var r := Exchanged(avg, tasks, lower, upper, margin, n - 1);
      ExchangedDownhill(avg, tasks, lower, upper, margin, n - 1);
      TurnedDownhill(avg, r, lower, upper, margin, n - 1);
      DownhillTwice(avg, margin, tasks, r, Turned(avg, r, lower, upper, margin, n - 1));
    } else {
      StandingStill(avg, margin, tasks);
    }
  }

  // --- what each node's turn does ---

  /** The neighbour an overloaded node compares itself with: the one with the smaller average; the right one if
      the averages are equal or one is undefined. */
  predicate LighterPeer(avg: seq<Average>, node: nat, peer: nat) {
    && node < |avg| && peer < |avg|
    && (peer + 1 == node || peer == node + 1)
    && (0 < node < |avg| - 1 ==> (peer + 1 == node <==> Less(avg[node - 1], avg[node + 1])))
  }

  /** The neighbour an underloaded node compares itself with: the one with the larger average; the left one if
      the averages are equal or one is undefined. */
  predicate HeavierPeer(avg: seq<Average>, node: nat, peer: nat) {
    && node < |avg| && peer < |avg|
    && (peer + 1 == node || peer == node + 1)
    && (0 < node < |avg| - 1 ==> (peer == node + 1 <==> Less(avg[node - 1], avg[node + 1])))
  }

  /** Exactly one task passes from one node to another. */
  predicate OneTask(before: seq<nat>, after: seq<nat>, giver: nat, taker: nat) {
    && |after| == |before| && giver < |before| && taker < |before| && giver != taker
    && after[giver] + 1 == before[giver] && after[taker] == before[taker] + 1
    && forall j :: 0 <= j < |before| && j != giver && j != taker ==> after[j] == before[j]
  }

  predicate Overloaded(avg: seq<Average>, upper: real, node: nat) {
    node < |avg| && avg[node].Known? && avg[node].value > upper
  }

  predicate Underloaded(avg: seq<Average>, lower: real, node: nat) {
    node < |avg| && avg[node].Known? && avg[node].value < lower
  }

  /** One average lies below another by more than the margin. */
  predicate Beyond(low: Average, high: Average, margin: real) {
    low.Known? && high.Known? && low.value + margin < high.value
  }

  /** An overloaded node gives a task to its lighter neighbour, if that one's average is beyond the margin,
      unless it is its only one. */
  ghost predicate Gives(avg: seq<Average>, before: seq<nat>, after: seq<nat>, margin: real, node: nat)
    requires |before| == |avg|
  {
    forall peer: nat :: LighterPeer(avg, node, peer) ==>
      if before[node] != 1 && Beyond(avg[peer], avg[node], margin) then OneTask(before, after, node, peer)
      else after == before
  }

  /** An underloaded node gets a task from its heavier neighbour, if that one's average is beyond the margin,
      unless it is that one's only one. */
  ghost predicate Gets(avg: seq<Average>, before: seq<nat>, after: seq<nat>, margin: real, node: nat)
    requires |before| == |avg|
  {
    forall peer: nat :: HeavierPeer(avg, node, peer) ==>
      if before[peer] != 1 && Beyond(avg[node], avg[peer], margin) then OneTask(before, after, peer, node)
      else after == before
  }

  /** The whole of a node's turn; a node inside the interval or without tasks does nothing. */
  ghost predicate TurnLaw(avg: seq<Average>, before: seq<nat>, after: seq<nat>, lower: real, upper: real, margin: real, node: nat) {
    && |before| == |after| == |avg|
    && (Overloaded(avg, upper, node) ==> Gives(avg, before, after, margin, node))
    && (Underloaded(avg, lower, node) ==> Gets(avg, before, after, margin, node))
    && (!Overloaded(avg, upper, node) && !Underloaded(avg, lower, node) ==> after == before)
  }

  /** Every node has exactly one neighbour to compare itself with, except a lone node. */
  lemma PeerExists(avg: seq<Average>, node: nat) returns (lighter: nat, heavier: nat)
    requires node < |avg| && |avg| >= 2
    ensures LighterPeer(avg, node, lighter) && forall p: nat :: LighterPeer(avg, node, p) ==> p == lighter
    ensures HeavierPeer(avg, node, heavier) && forall p: nat :: HeavierPeer(avg, node, p) ==> p == heavier
  {
    lighter := if node == 0 then 1 else if node == |avg| - 1 then node - 1
               else if Less(avg[node - 1], avg[node + 1]) then node - 1 else node + 1;
    heavier := if node == 0 then 1 else if node == |avg| - 1 then node - 1
               else if Less(avg[node - 1], avg[node + 1]) then node + 1 else node - 1;
  }

  lemma GivesOne(tasks: seq<nat>, from: nat, to: nat)
    requires from < |tasks| && to < |tasks| && from != to && tasks[from] >= 1
    ensures OneTask(tasks, Give(tasks, from, to), from, to)
  {
  }

  lemma UnloadLaw(avg: seq<Average>, tasks: seq<nat>, margin: real, node: nat, peer: nat)
    requires Consistent(avg, tasks) && node < |avg| && |avg| >= 2 && margin >= 0.0 && LighterPeer(avg, node, peer)
    ensures if tasks[node] != 1 && Beyond(avg[peer], avg[node], margin) then OneTask(tasks, Unload(avg, tasks, margin, node), node, peer)
            else Unload(avg, tasks, margin, node) == tasks
  {
    if tasks[node] != 1 && Beyond(avg[peer], avg[node], margin) {
      GivesOne(tasks, node, peer);
    }
  }

  lemma LoadLaw(avg: seq<Average>, tasks: seq<nat>, margin: real, node: nat, peer: nat)
    requires Consistent(avg, tasks) && node < |avg| && |avg| >= 2 && margin >= 0.0 && HeavierPeer(avg, node, peer)
    ensures if tasks[peer] != 1 && Beyond(avg[node], avg[peer], margin) then OneTask(tasks, Load(avg, tasks, margin, node), peer, node)
            else Load(avg, tasks, margin, node) == tasks
  {
    if tasks[peer] != 1 && Beyond(avg[node], avg[peer], margin) {
      GivesOne(tasks, peer, node);
    }
  }

  lemma UnloadGives(avg: seq<Average>, tasks: seq<nat>, margin: real, node: nat)
    requires Consistent(avg, tasks) && node < |avg| && |avg| >= 2 && margin >= 0.0
    ensures Gives(avg, tasks, Unload(avg, tasks, margin, node), margin, node)
  {
    forall peer: nat | LighterPeer(avg, node, peer)
      ensures if tasks[node] != 1 && Beyond(avg[peer], avg[node], margin) then OneTask(tasks, Unload(avg, tasks, margin, node), node, peer)
              else Unload(avg, tasks, margin, node) == tasks
    {
      UnloadLaw(avg, tasks, margin, node, peer);
    }
  }

  lemma LoadGets(avg: seq<Average>, tasks: seq<nat>, margin: real, node: nat)
    requires Consistent(avg, tasks) && node < |avg| && |avg| >= 2 && margin >= 0.0
    ensures Gets(avg, tasks, Load(avg, tasks, margin, node), margin, node)
  {
    forall peer: nat | HeavierPeer(avg, node, peer)
      ensures if tasks[peer] != 1 && Beyond(avg[node], avg[peer], margin) then OneTask(tasks, Load(avg, tasks, margin, node), peer, node)
              else Load(avg, tasks, margin, node) == tasks
    {
      LoadLaw(avg, tasks, margin, node, peer);
    }
  }

  /** Every turn obeys the law. */
  lemma TurnedLaw(avg: seq<Average>, tasks: seq<nat>, lower: real, upper: real, margin: real, node: nat)
    requires Consistent(avg, tasks) && margin >= 0.0 && node < |avg| && LoneNodeFits(avg, lower, upper) && lower <= upper
    ensures TurnLaw(avg, tasks, Turned(avg, tasks, lower, upper, margin, node), lower, upper, margin, node)
  {
    if Overloaded(avg, upper, node) {
      UnloadGives(avg, tasks, margin, node);
    } else if Underloaded(avg, lower, node) {
      LoadGets(avg, tasks, margin, node);
    }
  }

  /** So does every turn of the pass. */
  lemma ExchangedPass(avg: seq<Average>, tasks: seq<nat>, lower: real, upper: real, margin: real) returns (turns: seq<seq<nat>>)
    requires Consistent(avg, tasks) && margin >= 0.0 && LoneNodeFits(avg, lower, upper) && lower <= upper
    ensures Pass(avg, tasks, lower, upper, margin, turns)
    ensures forall i :: 0 <= i <= |avg| ==> turns[i] == Exchanged(avg, tasks, lower, upper, margin, i)
  {
    turns := seq(|avg| + 1, i requires 0 <= i <= |avg| => Exchanged(avg, tasks, lower, upper, margin, i));
    forall i | 0 <= i < |avg| ensures TurnAt(avg, lower, upper, margin, turns, i) {
      TurnedLaw(avg, Exchanged(avg, tasks, lower, upper, margin, i), lower, upper, margin, i);
    }
  }

  /** A turn changes nothing exactly for a node inside the interval or without tasks, for a giver with a single
      task, or for a neighbour within the margin. */
  lemma TurnIdleIff(avg: seq<Average>, before: seq<nat>, after: seq<nat>, lower: real, upper: real, margin: real,
                    node: nat, lighter: nat, heavier: nat)
    requires TurnLaw(avg, before, after, lower, upper, margin, node) && lower <= upper
    requires LighterPeer(avg, node, lighter) && HeavierPeer(avg, node, heavier)
    ensures after == before <==>
            && (Overloaded(avg, upper, node) ==> before[node] == 1 || !Beyond(avg[lighter], avg[node], margin))
            && (Underloaded(avg, lower, node) ==> before[heavier] == 1 || !Beyond(avg[node], avg[heavier], margin))
  {
  }

  /** Turn `i` changes the counts. */
  predicate Moves(turns: seq<seq<nat>>, i: nat)
    requires i + 1 < |turns|
  {
    turns[i + 1] != turns[i]
  }

  ghost predicate TurnAt(avg: seq<Average>, lower: real, upper: real, margin: real, turns: seq<seq<nat>>, i: nat)
    requires i + 1 < |turns|
  {
    TurnLaw(avg, turns[i], turns[i + 1], lower, upper, margin, i)
  }

  /** The counts before the pass and after each turn. */
  ghost predicate Pass(avg: seq<Average>, tasks: seq<nat>, lower: real, upper: real, margin: real, turns: seq<seq<nat>>) {
    && |turns| == |avg| + 1 && turns[0] == tasks
    && forall i {:trigger TurnAt(avg, lower, upper, margin, turns, i)} :: 0 <= i < |avg| ==>
         TurnAt(avg, lower, upper, margin, turns, i)
  }

  lemma {:induction false} IdleTurns(turns: seq<seq<nat>>, i: nat, j: nat)
    requires i <= j < |turns| && forall k :: i <= k < j ==> !Moves(turns, k)
    ensures turns[i] == turns[j]
  {
    if i < j {
      IdleTurns(turns, i, j - 1);
      assert !Moves(turns, j - 1);
    }
  }

  /** If only one turn of a pass moves a task, the pass moves just that task. */
  lemma SingleMove(avg: seq<Average>, tasks: seq<nat>, lower: real, upper: real, margin: real, turns: seq<seq<nat>>, i: nat)
    requires Pass(avg, tasks, lower, upper, margin, turns) && i < |avg|
    requires forall k :: 0 <= k < |avg| && k != i ==> !Moves(turns, k)
    ensures turns[i] == tasks && turns[i + 1] == turns[|avg|]
    ensures forall giver: nat, taker: nat :: OneTask(turns[i], turns[i + 1], giver, taker) ==> OneTask(tasks, turns[|avg|], giver, taker)
  {
    IdleTurns(turns, 0, i);
    IdleTurns(turns, i + 1, |avg|);
  }

  method Exchange(avg: seq<Average>, tasks: seq<nat>, lower: real, upper: real, margin: real)
    returns (res: seq<nat>, updated: bool, ghost turns: seq<seq<nat>>)
    requires Consistent(avg, tasks) && margin >= 0.0 && LoneNodeFits(avg, lower, upper) && lower <= upper
    ensures res == Exchanged(avg, tasks, lower, upper, margin, |avg|)
    ensures Pass(avg, tasks, lower, upper, margin, turns) && turns[|avg|] == res
    ensures updated <==> MovedBefore(turns, |avg|)
  {
    res := tasks;
    updated := false;
    turns := ExchangedPass(avg, tasks, lower, upper, margin);
    for i := 0 to |avg|
      invariant res == Exchanged(avg, tasks, lower, upper, margin, i)
      invariant updated <==> MovedBefore(turns, i)
    {
      var next := TakeTurn(avg, res, lower, upper, margin, i);
      MovedNext(turns, i, res, next);
      updated := updated || next != res;
      res := next;
    }
  }

  /** Some turn before `n` changes the counts. */
  ghost predicate MovedBefore(turns: seq<seq<nat>>, n: nat)
    requires n < |turns|
  {
    exists i :: 0 <= i < n && Moves(turns, i)
  }

  lemma MovedNext(turns: seq<seq<nat>>, i: nat, a: seq<nat>, b: seq<nat>)
    requires i + 1 < |turns| && turns[i] == a && turns[i + 1] == b
    ensures MovedBefore(turns, i + 1) <==> MovedBefore(turns, i) || b != a
  {
    assert Moves(turns, i) <==> b != a;
  }

  method TakeTurn(avg: seq<Average>, tasks: seq<nat>, lower: real, upper: real, margin: real, node: nat) returns (res: seq<nat>)
    requires Consistent(avg, tasks) && margin >= 0.0 && node < |avg| && LoneNodeFits(avg, lower, upper)
    ensures res == Turned(avg, tasks, lower, upper, margin, node)
  {
    res := tasks;
    if Less(Known(upper), avg[node]) {
      res := Unload(avg, res, margin, node);
    }
    if Less(avg[node], Known(lower)) {
      res := Load(avg, res, margin, node);
    }
  }

  // --- mappings and contributions ---

  /** Overwrites the mapping slot by slot from the contributions. */
  method Regenerate(mapping: seq<nat>, tasks: seq<nat>) returns (res: seq<nat>)
    requires SumNat(tasks) == |mapping|
    ensures res == Expand(tasks, |tasks|)
  {
    res := mapping;
    var jt := 0;
    assert tasks[..0] == [];
    for i := 0 to |tasks|
      invariant |res| == |mapping| && jt <= |res|
      invariant res[..jt] == Expand(tasks, i)
    {
      ghost var start := jt;
      ExpandFacts(tasks, i);
      ExpandFacts(tasks, i + 1);
      SumNatPrefix(tasks, i + 1);
      for j := 0 to tasks[i]
        invariant jt == start + j && |res| == |mapping|
        invariant res[..jt] == Expand(tasks, i) + Repeat(i, j)
      {
        res := res[jt := i];
        jt := jt + 1;
      }
    }
    ExpandFacts(tasks, |tasks|);
    assert tasks[..|tasks|] == tasks;
  }

  lemma {:induction false} SumNatPrefix(s: seq<nat>, n: nat)
    requires n <= |s|
    ensures SumNat(s[..n]) <= SumNat(s)
  {
    if n == |s| {
      assert s[..n] == s;
    } else {
      SumNatPrefix(s[..|s| - 1], n);
      assert s[..|s| - 1][..n] == s[..n];
    }
  }

  /** Cost sums and task counts of every node, accumulated over the mapping. */
  method Contributions(costs: seq<real>, mapping: seq<nat>, n: nat) returns (sums: seq<real>, tasks: seq<nat>)
    requires |costs| == |mapping| && InNetwork(mapping, n)
    ensures |sums| == |tasks| == n && SumNat(tasks) == |mapping|
    ensures forall j :: 0 <= j < n ==> tasks[j] == multiset(mapping)[j] && sums[j] == NodeCost(costs, mapping, j)
  {
    sums, tasks := seq(n, _ => 0.0), Repeat(0, n);
    SumOfZeros(n);
    for i := 0 to |mapping|
      invariant |sums| == |tasks| == n && SumNat(tasks) == i
      invariant forall j :: 0 <= j < n ==> tasks[j] == multiset(mapping[..i])[j]
      invariant forall j :: 0 <= j < n ==> sums[j] == NodeCost(costs, mapping[..i], j)
    {
      var node := mapping[i];
      assert mapping[..i + 1] == mapping[..i] + [node];
      forall j: nat | j < n ensures NodeCost(costs, mapping[..i + 1], j) ==
                                    NodeCost(costs, mapping[..i], j) + if j == node then costs[i] else 0.0 {
        NodeCostAppend(costs, mapping[..i], node, j);
      }
      SumNatUpdate(tasks, node, tasks[node] + 1);
      sums := sums[node := sums[node] + costs[i]];
      tasks := tasks[node := tasks[node] + 1];
    }
    assert mapping[..|mapping|] == mapping;
  }

  lemma {:induction false} SumOfZeros(n: nat)
    ensures SumNat(Repeat(0, n)) == 0
  {
    if n > 0 {
      assert Repeat(0, n)[..n - 1] == Repeat(0, n - 1);
      SumOfZeros(n - 1);
    }
  }

  function TaskCounts(mapping: seq<nat>, n: nat): seq<nat> { seq(n, j => multiset(mapping)[j]) }

  function AverageOf(cost: real, count: nat): (a: Average)
    ensures a.Known? <==> count > 0
  {
    if count == 0 then Undefined else Known(cost / count as real)
  }

  /** An average times the number of tasks is the cost. */
  lemma AverageTimesCount(cost: real, count: nat)
    requires count > 0
    ensures AverageOf(cost, count).value * count as real == cost
  {
  }

  /** Average task cost of every node under a mapping. */
  function Averages(costs: seq<real>, mapping: seq<nat>, n: nat): (avg: seq<Average>)
    requires |mapping| <= |costs|
    ensures Consistent(avg, TaskCounts(mapping, n))
  {
    seq(n, j requires 0 <= j < n => AverageOf(NodeCost(costs, mapping, j), multiset(mapping)[j]))
  }

  function Mean(costs: seq<real>): real
    requires |costs| > 0
  {
    Sum(costs) / |costs| as real
  }

  lemma LoneNodeIsMean(costs: seq<real>, mapping: seq<nat>, n: nat, margin: real)
    requires |costs| == |mapping| > 0 && InNetwork(mapping, n) && margin >= 0.0
    ensures LoneNodeFits(Averages(costs, mapping, n), Mean(costs) - margin, Mean(costs) + margin)
  {
    if n == 1 {
      LoneNodeCost(costs, mapping);
      LoneNodeCount(mapping);
    }
  }

  lemma {:induction false} LoneNodeCount(mapping: seq<nat>)
    requires InNetwork(mapping, 1)
    ensures multiset(mapping)[0] == |mapping|
  {
    if mapping != [] {
      assert mapping == mapping[..|mapping| - 1] + [0];
      LoneNodeCount(mapping[..|mapping| - 1]);
    }
  }

  lemma {:induction false} LoneNodeCost(costs: seq<real>, mapping: seq<nat>)
    requires |costs| == |mapping| && InNetwork(mapping, 1)
    ensures NodeCost(costs, mapping, 0) == Sum(costs)
    decreases |mapping|
  {
    var n := |mapping| - 1;
    if mapping != [] {
      LoneNodeCost(costs[..n], mapping[..n]);
      NodeCostPrefix(costs, mapping[..n], 0, n);
    }
  }

  lemma {:induction false} NodeCostPrefix(costs: seq<real>, mapping: seq<nat>, node: nat, n: nat)
    requires |mapping| <= n <= |costs|
    ensures NodeCost(costs[..n], mapping, node) == NodeCost(costs, mapping, node)
  {
    if mapping != [] {
      NodeCostPrefix(costs, mapping[..|mapping| - 1], node, n);
    }
  }

  function Variance(costs: seq<real>): real
    requires |costs| > 0
  {
    SumSquares(costs, Mean(costs)) / |costs| as real
  }

  /** Task counts after rebalancing; nothing moves when the costs hardly vary. */
  function BalancedCounts(avg: seq<Average>, tasks: seq<nat>, mean: real, variance: real, margin: real): (r: seq<nat>)
    requires Consistent(avg, tasks) && margin >= 0.0 && LoneNodeFits(avg, mean - margin, mean + margin)
    ensures Consistent(avg, r) && SumNat(r) == SumNat(tasks)
  {
    if variance < 0.01 then tasks else Exchanged(avg, tasks, mean - margin, mean + margin, margin, |avg|)
  }

  /** Rebalancing moves tasks downhill only and neither empties nor opens a node. */
  lemma BalancedCountsDownhill(avg: seq<Average>, tasks: seq<nat>, mean: real, variance: real, margin: real)
    requires Consistent(avg, tasks) && margin >= 0.0 && LoneNodeFits(avg, mean - margin, mean + margin)
    ensures var r := BalancedCounts(avg, tasks, mean, variance, margin);
            Downhill(avg, margin, tasks, r) && forall j :: 0 <= j < |r| ==> (r[j] == 0 <==> tasks[j] == 0)
  {
    BalancedDownhill(avg, tasks, mean, variance, margin);
    SameSupport(avg, tasks, BalancedCounts(avg, tasks, mean, variance, margin));
  }

  lemma BalancedDownhill(avg: seq<Average>, tasks: seq<nat>, mean: real, variance: real, margin: real)
    requires Consistent(avg, tasks) && margin >= 0.0 && LoneNodeFits(avg, mean - margin, mean + margin)
    ensures Downhill(avg, margin, tasks, BalancedCounts(avg, tasks, mean, variance, margin))
  {
    if variance < 0.01 {
      StandingStill(avg, margin, tasks);
    } else {
      ExchangedDownhill(avg, tasks, mean - margin, mean + margin, margin, |avg|);
    }
  }

  /** The measured costs of a mapping's tasks, summed up per node and rebalanced. */
  function Rebalanced(costs: seq<real>, mapping: seq<nat>, n: nat, margin: real): seq<nat>
    requires |costs| == |mapping| > 0 && margin >= 0.0 && InNetwork(mapping, n)
  {
    LoneNodeIsMean(costs, mapping, n, margin);
    BalancedCounts(Averages(costs, mapping, n), TaskCounts(mapping, n), Mean(costs), Variance(costs), margin)
  }

  lemma SameSupport(avg: seq<Average>, a: seq<nat>, b: seq<nat>)
    requires Consistent(avg, a) && Consistent(avg, b)
    ensures forall j :: 0 <= j < |a| ==> (b[j] == 0 <==> a[j] == 0)
  {
  }

  lemma StandingStill(avg: seq<Average>, margin: real, a: seq<nat>)
    requires |avg| == |a|
    ensures Downhill(avg, margin, a, a)
  {
  }

  method ComputeVariance(costs: seq<real>) returns (v: real)
    requires |costs| > 0
    ensures v == Variance(costs)
  {
    var avg := Mean(costs);
    var deviation := 0.0;
    for i := 0 to |costs|
      invariant deviation == SumSquares(costs[..i], avg)
    {
      assert costs[..i + 1][..i] == costs[..i];
      deviation := deviation + (costs[i] - avg) * (costs[i] - avg);
    }
    assert costs[..|costs|] == costs;
    v := deviation / |costs| as real;
  }

  /** The pass that led from `mapping` to `res`, turn by turn. */
  ghost predicate PassTo(avg: seq<Average>, tasks: seq<nat>, mean: real, margin: real,
                         mapping: seq<nat>, res: seq<nat>, turns: seq<seq<nat>>) {
    && Pass(avg, tasks, mean - margin, mean + margin, margin, turns)
    && turns[|avg|] == TaskCounts(res, |avg|)
    && (!MovedBefore(turns, |avg|) ==> res == mapping)
  }

  /** What rebalancing did; with hardly varying costs, nothing. */
  ghost predicate Measured(avg: seq<Average>, tasks: seq<nat>, mean: real, variance: real, margin: real,
                           mapping: seq<nat>, res: seq<nat>, turns: seq<seq<nat>>) {
    if variance < 0.01 then res == mapping else PassTo(avg, tasks, mean, margin, mapping, res, turns)
  }

  /** Decides on the new task counts and rewrites the mapping if any changed. */
  method ApplyBalance(avg: seq<Average>, tasks: seq<nat>, mean: real, variance: real, margin: real, mapping: seq<nat>)
    returns (res: seq<nat>, ghost turns: seq<seq<nat>>)
    requires Consistent(avg, tasks) && margin >= 0.0 && LoneNodeFits(avg, mean - margin, mean + margin)
    requires SumNat(tasks) == |mapping| && TaskCounts(mapping, |avg|) == tasks && InNetwork(mapping, |avg|)
    ensures |res| == |mapping| && InNetwork(res, |avg|) && (res == mapping || Sorted(res))
    ensures TaskCounts(res, |avg|) == BalancedCounts(avg, tasks, mean, variance, margin)
    ensures Measured(avg, tasks, mean, variance, margin, mapping, res, turns)
  {
    if variance < 0.01 {
      res, turns := mapping, [];
    } else {
      res, turns := MoveTasks(avg, tasks, mean, margin, mapping);
    }
  }

  /** The pass over all nodes, and the new mapping if any task moved. */
  method MoveTasks(avg: seq<Average>, tasks: seq<nat>, mean: real, margin: real, mapping: seq<nat>)
    returns (res: seq<nat>, ghost turns: seq<seq<nat>>)
    requires Consistent(avg, tasks) && margin >= 0.0 && LoneNodeFits(avg, mean - margin, mean + margin)
    requires SumNat(tasks) == |mapping| && TaskCounts(mapping, |avg|) == tasks && InNetwork(mapping, |avg|)
    ensures |res| == |mapping| && InNetwork(res, |avg|) && (res == mapping || Sorted(res))
    ensures TaskCounts(res, |avg|) == Exchanged(avg, tasks, mean - margin, mean + margin, margin, |avg|)
    ensures PassTo(avg, tasks, mean, margin, mapping, res, turns)
  {
    var newTasks, updated;
    newTasks, updated, turns := Exchange(avg, tasks, mean - margin, mean + margin, margin);
    res := Rewrite(mapping, newTasks, updated);
    PassRewritten(avg, tasks, mean, margin, mapping, newTasks, updated, res, turns);
  }

  /** Regenerates the mapping if the counts were updated. */
  method Rewrite(mapping: seq<nat>, tasks: seq<nat>, updated: bool) returns (res: seq<nat>)
    requires SumNat(tasks) == |mapping|
    ensures updated ==> |res| == |mapping| && InNetwork(res, |tasks|) && Sorted(res) && TaskCounts(res, |tasks|) == tasks
    ensures !updated ==> res == mapping
  {
    res := mapping;
    if updated {
      res := Regenerate(mapping, tasks);
      RegeneratedCounts(tasks);
    }
  }

  lemma PassRewritten(avg: seq<Average>, tasks: seq<nat>, mean: real, margin: real,
                      mapping: seq<nat>, newTasks: seq<nat>, updated: bool, res: seq<nat>, turns: seq<seq<nat>>)
    requires Pass(avg, tasks, mean - margin, mean + margin, margin, turns) && turns[|avg|] == newTasks
    requires updated <==> MovedBefore(turns, |avg|)
    requires TaskCounts(mapping, |avg|) == tasks
    requires if updated then TaskCounts(res, |avg|) == newTasks else res == mapping
    ensures TaskCounts(res, |avg|) == newTasks && PassTo(avg, tasks, mean, margin, mapping, res, turns)
  {
    if !updated {
      IdleTurns(turns, 0, |avg|);
    }
  }

  /** The whole rebalancing step on a mapping; `margin` stands for the confidence margin. */
  method BalanceMapping(costs: seq<real>, mapping: seq<nat>, n: nat, margin: real)
    returns (res: seq<nat>, ghost turns: seq<seq<nat>>)
    requires |costs| == |mapping| > 0 && margin >= 0.0 && InNetwork(mapping, n)
    ensures |res| == |mapping| && InNetwork(res, n) && (res == mapping || Sorted(res))
    ensures TaskCounts(res, n) == Rebalanced(costs, mapping, n, margin)
    ensures Measured(Averages(costs, mapping, n), TaskCounts(mapping, n), Mean(costs), Variance(costs), margin, mapping, res, turns)
  {
    var sums, tasks := Contributions(costs, mapping, n);
    var mean := Mean(costs);
    var variance := ComputeVariance(costs);
    var nodeAvg := DivideAll(sums, tasks);
    AveragesComputed(costs, mapping, n, sums, tasks);
    LoneNodeIsMean(costs, mapping, n, margin);
    assert tasks == TaskCounts(mapping, n);
    res, turns := ApplyBalance(nodeAvg, tasks, mean, variance, margin, mapping);
  }

  /** If exactly one node's turn moves a task, the new mapping differs by just that task. */
  lemma SingleMoveMapped(avg: seq<Average>, tasks: seq<nat>, mean: real, variance: real, margin: real,
                         mapping: seq<nat>, res: seq<nat>, turns: seq<seq<nat>>, i: nat, giver: nat, taker: nat)
    requires Measured(avg, tasks, mean, variance, margin, mapping, res, turns) && variance >= 0.01
    requires i < |avg| && OneTask(turns[i], turns[i + 1], giver, taker)
    requires forall k :: 0 <= k < |avg| && k != i ==> !Moves(turns, k)
    ensures OneTask(tasks, TaskCounts(res, |avg|), giver, taker)
  {
    SingleMove(avg, tasks, mean - margin, mean + margin, margin, turns, i);
  }

  function DivideAll(sums: seq<real>, tasks: seq<nat>): seq<Average>
    requires |sums| == |tasks|
  {
    seq(|sums|, j requires 0 <= j < |sums| => AverageOf(sums[j], tasks[j]))
  }

  lemma AveragesComputed(costs: seq<real>, mapping: seq<nat>, n: nat, sums: seq<real>, tasks: seq<nat>)
    requires |mapping| <= |costs| && |sums| == |tasks| == n
    requires forall j :: 0 <= j < n ==> tasks[j] == multiset(mapping)[j] && sums[j] == NodeCost(costs, mapping, j)
    ensures DivideAll(sums, tasks) == Averages(costs, mapping, n)
  {
  }

  lemma RegeneratedCounts(tasks: seq<nat>)
    ensures |Expand(tasks, |tasks|)| == SumNat(tasks) && Sorted(Expand(tasks, |tasks|))
    ensures InNetwork(Expand(tasks, |tasks|), |tasks|)
    ensures TaskCounts(Expand(tasks, |tasks|), |tasks|) == tasks
  {
    ExpandFacts(tasks, |tasks|);
    assert tasks[..|tasks|] == tasks;
    forall node: nat | node < |tasks| ensures multiset(Expand(tasks, |tasks|))[node] == tasks[node] {
      ExpandCount(tasks, |tasks|, node);
    }
  }
}
