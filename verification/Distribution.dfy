/** The initial, even distribution of tasks over the active nodes. */
module Distribution {
  import opened Sums
  import opened TreePolicy
  import opened RoundTrip

  /** Number of active nodes among the first `n`. */
  function Active(mask: seq<bool>, n: nat): nat
    requires n <= |mask|
  {
    if n == 0 then 0 else Active(mask, n - 1) + if mask[n - 1] then 1 else 0
  }

  function NumActive(mask: seq<bool>): (n: nat)
    ensures n <= |mask|
  {
    ActiveMono(mask, 0, |mask|);
    Active(mask, |mask|)
  }

  /** A search for an active node stays inside the mask exactly when one is counted. */
  lemma {:induction false} SomeActive(mask: seq<bool>, n: nat)
    requires n <= |mask|
    ensures Active(mask, n) > 0 <==> exists i :: 0 <= i < n && mask[i]
  {
    if n > 0 {
      SomeActive(mask, n - 1);
    }
  }

  /** The active nodes come before all others. */
  predicate PrefixMask(mask: seq<bool>) {
    forall i, j :: 0 <= i < j < |mask| && mask[j] ==> mask[i]
  }

  lemma {:induction false} ActiveMono(mask: seq<bool>, i: nat, j: nat)
    requires i <= j <= |mask|
    ensures Active(mask, i) <= Active(mask, j) <= Active(mask, i) + (j - i)
    ensures forall k :: i <= k < j && mask[k] ==> Active(mask, i) < Active(mask, j)
    ensures Active(mask, j) == Active(mask, i) + (j - i) ==> forall k :: i <= k < j ==> mask[k]
    decreases j
  {
    if i < j {
      ActiveMono(mask, i, j - 1);
    }
  }

  /** The first NumActive nodes are all active exactly when the mask is a prefix. */
  lemma PrefixIffFull(mask: seq<bool>)
    ensures NumActive(mask) <= |mask|
    ensures Active(mask, NumActive(mask)) == NumActive(mask) <==> PrefixMask(mask)
  {
    var n := NumActive(mask);
    ActiveMono(mask, 0, |mask|);
    ActiveMono(mask, 0, n);
    ActiveMono(mask, n, |mask|);
    if Active(mask, n) == n {
      assert forall k :: 0 <= k < n ==> mask[k];
      assert forall k :: n <= k < |mask| ==> !mask[k];
    }
    if PrefixMask(mask) && Active(mask, n) < n {
      PrefixGapFree(mask, n);
    }
  }

  lemma {:induction false} PrefixGapFree(mask: seq<bool>, n: nat)
    requires n <= |mask| && PrefixMask(mask) && Active(mask, n) < n
    ensures Active(mask, n) == NumActive(mask)
  {
    ActiveMono(mask, 0, n);
    ActiveMono(mask, n, |mask|);
    var k := FirstInactive(mask, n);
    var m := |mask|;
    while m > n
      invariant n <= m <= |mask|
      invariant Active(mask, m) == NumActive(mask)
    {
      assert !mask[m - 1];
      m := m - 1;
    }
  }

  lemma {:induction false} FirstInactive(mask: seq<bool>, n: nat) returns (k: nat)
    requires n <= |mask| && Active(mask, n) < n
    ensures k < n && !mask[k]
  {
    if mask[n - 1] {
      k := FirstInactive(mask, n - 1);
    } else {
      k := n - 1;
    }
  }

  lemma {:induction false} LaterActive(mask: seq<bool>, i: nat, j: nat) returns (k: nat)
    requires i <= j <= |mask| && Active(mask, i) < Active(mask, j)
    ensures i <= k < j && mask[k]
  {
    if mask[j - 1] {
      k := j - 1;
    } else {
      k := LaterActive(mask, i, j - 1);
    }
  }

  // --- blocks of equal nodes ---

  /** The sorted sequence with given numbers of entries for the first `n` nodes. */
  function Expand(counts: seq<nat>, n: nat): seq<nat>
    requires n <= |counts|
  {
    if n == 0 then [] else Expand(counts, n - 1) + Repeat(n - 1, counts[n - 1])
  }

  lemma {:induction false} ExpandFacts(counts: seq<nat>, n: nat)
    requires n <= |counts|
    ensures |Expand(counts, n)| == SumNat(counts[..n])
    ensures Sorted(Expand(counts, n)) && InNetwork(Expand(counts, n), n)
  {
    if n > 0 {
      ExpandFacts(counts, n - 1);
      assert counts[..n][..n - 1] == counts[..n - 1];
    }
  }

  lemma {:induction false} ExpandCount(counts: seq<nat>, n: nat, node: nat)
    requires n <= |counts|
    ensures multiset(Expand(counts, n))[node] == if node < n then counts[node] else 0
  {
    if n > 0 {
      ExpandCount(counts, n - 1, node);
      RepeatCount(n - 1, counts[n - 1], node);
    }
  }

  /** Tasks of node `i`: its share, and one of the left-over tasks for the first nodes. */
  function Quota(mask: seq<bool>, i: nat, share: nat, remainder: nat): nat
    requires i < |mask|
  {
    if mask[i] then share + (if Active(mask, i) < remainder then 1 else 0) else 0
  }

  function Quotas(mask: seq<bool>, share: nat, remainder: nat): seq<nat> {
    seq(|mask|, i requires 0 <= i < |mask| => Quota(mask, i, share, remainder))
  }

  /** The assignment of the first `n` nodes, each node's tasks in one block. */
  function Blocks(mask: seq<bool>, n: nat, share: nat, remainder: nat): seq<nat>
    requires n <= |mask|
  {
    Expand(Quotas(mask, share, remainder), n)
  }

  function Placed(active: nat, share: nat, remainder: nat): nat {
    active * share + if active < remainder then active else remainder
  }

  lemma {:induction false} BlocksLength(mask: seq<bool>, n: nat, share: nat, remainder: nat)
    requires n <= |mask|
    ensures |Blocks(mask, n, share, remainder)| == Placed(Active(mask, n), share, remainder)
  {
    if n > 0 {
      BlocksLength(mask, n - 1, share, remainder);
      PlacedNext(Active(mask, n - 1), share, remainder);
    }
  }

  /** Blocks are sorted and name active nodes only. */
  lemma BlocksSorted(mask: seq<bool>, n: nat, share: nat, remainder: nat)
    requires n <= |mask|
    ensures Sorted(Blocks(mask, n, share, remainder))
    ensures forall i :: 0 <= i < |Blocks(mask, n, share, remainder)| ==>
              Blocks(mask, n, share, remainder)[i] < n && mask[Blocks(mask, n, share, remainder)[i]]
  {
    var blocks := Blocks(mask, n, share, remainder);
    ExpandFacts(Quotas(mask, share, remainder), n);
    forall i | 0 <= i < |blocks| ensures mask[blocks[i]] {
      assert blocks[i] in multiset(blocks);
      ExpandCount(Quotas(mask, share, remainder), n, blocks[i]);
    }
  }

  lemma BlocksCount(mask: seq<bool>, n: nat, share: nat, remainder: nat, node: nat)
    requires n <= |mask| && node < |mask|
    ensures multiset(Blocks(mask, n, share, remainder))[node] == if node < n then Quota(mask, node, share, remainder) else 0
  {
    ExpandCount(Quotas(mask, share, remainder), n, node);
  }

  lemma PlacedNext(a: nat, share: nat, remainder: nat)
    ensures Placed(a + 1, share, remainder) == Placed(a, share, remainder) + share + if a < remainder then 1 else 0
  {
    assert (a + 1) * share == a * share + share;
  }

  lemma {:induction false} PlacedMono(a: nat, b: nat, share: nat, remainder: nat)
    requires a <= b
    ensures Placed(a, share, remainder) <= Placed(b, share, remainder)
    ensures a < b ==> Placed(a, share, remainder) + share <= Placed(b, share, remainder)
    decreases b
  {
    if a < b {
      PlacedMono(a, b - 1, share, remainder);
      PlacedNext(b - 1, share, remainder);
    }
  }

  /** Quotient and remainder account for all tasks. */
  lemma SharesAddUp(numTasks: nat, numNodes: nat)
    requires numNodes > 0
    ensures Placed(numNodes, numTasks / numNodes, numTasks % numNodes) == numTasks
    ensures numTasks >= numNodes ==> numTasks / numNodes >= 1
  {
    assert numTasks == numNodes * (numTasks / numNodes) + numTasks % numNodes;
  }

  /** Writes node `i` into the next `count` slots. */
  method FillBlock(res: seq<nat>, placed: nat, i: nat, count: nat) returns (out: seq<nat>)
    requires placed + count <= |res|
    ensures |out| == |res| && out[..placed + count] == res[..placed] + Repeat(i, count)
    ensures out[placed + count..] == res[placed + count..]
  {
    out := res;
    for j := 0 to count
      invariant |out| == |res| && out[..placed + j] == res[..placed] + Repeat(i, j)
      invariant out[placed + count..] == res[placed + count..]
      invariant forall k :: placed + j <= k < |res| ==> out[k] == res[k]
    {
      out := out[placed + j := i];
    }
  }

  /** The block of one more node fits. */
  lemma BlockFits(mask: seq<bool>, i: nat, share: nat, remainder: nat)
    requires i < NumActive(mask) <= |mask|
    ensures |Blocks(mask, i, share, remainder)| + Quota(mask, i, share, remainder)
         == |Blocks(mask, i + 1, share, remainder)| <= Placed(NumActive(mask), share, remainder)
  {
    BlocksLength(mask, i, share, remainder);
    BlocksLength(mask, i + 1, share, remainder);
    ActiveMono(mask, 0, i + 1);
    PlacedMono(Active(mask, i + 1), NumActive(mask), share, remainder);
  }

  /** The loop as written: it looks at as many nodes as are active, whichever those are. */
  method DistributeShares(mask: seq<bool>, numTasks: nat, share: nat, remainder: nat) returns (res: seq<nat>, placed: nat)
    requires NumActive(mask) <= |mask| && Placed(NumActive(mask), share, remainder) == numTasks
    ensures |res| == numTasks && placed <= numTasks
    ensures res[..placed] == Blocks(mask, NumActive(mask), share, remainder)
    ensures forall k :: placed <= k < numTasks ==> res[k] == 0
  {
    res := seq(numTasks, _ => 0);
    placed := 0;
    var extra := 0;
    for i := 0 to NumActive(mask)
      invariant |res| == numTasks && placed <= numTasks
      invariant res[..placed] == Blocks(mask, i, share, remainder)
      invariant forall k :: placed <= k < numTasks ==> res[k] == 0
      invariant extra == if Active(mask, i) < remainder then Active(mask, i) else remainder
    {
      if !mask[i] {
        assert Repeat(i, 0) == [];
        continue;
      }
      BlockFits(mask, i, share, remainder);
      var count := share;
      if extra < remainder {
        count := count + 1;
        extra := extra + 1;
      }
      var next := FillBlock(res, placed, i, count);
      assert forall k :: placed + count <= k < numTasks ==> next[k] == next[placed + count..][k - placed - count];
      res, placed := next, placed + count;
    }
  }

  method EqualDistribution(mask: seq<bool>, numTasks: nat) returns (res: seq<nat>, placed: nat)
    requires NumActive(mask) > 0
    ensures |res| == numTasks && placed <= numTasks && NumActive(mask) <= |mask|
    ensures res[..placed] == Blocks(mask, NumActive(mask), numTasks / NumActive(mask), numTasks % NumActive(mask))
    ensures forall k :: placed <= k < numTasks ==> res[k] == 0
  {
    ActiveMono(mask, 0, |mask|);
    SharesAddUp(numTasks, NumActive(mask));
    res, placed := DistributeShares(mask, numTasks, numTasks / NumActive(mask), numTasks % NumActive(mask));
  }

  lemma FullIffPrefix(mask: seq<bool>, share: nat, remainder: nat)
    requires NumActive(mask) <= |mask| && share >= 1
    ensures |Blocks(mask, NumActive(mask), share, remainder)| == Placed(NumActive(mask), share, remainder) <==> PrefixMask(mask)
  {
    var n := NumActive(mask);
    ActiveMono(mask, 0, n);
    PrefixIffFull(mask);
    BlocksLength(mask, n, share, remainder);
    PlacedMono(Active(mask, n), n, share, remainder);
  }

  lemma FewTasksPlaced(mask: seq<bool>, numTasks: nat)
    requires numTasks < NumActive(mask) <= |mask|
    ensures |Blocks(mask, NumActive(mask), 0, numTasks)| == numTasks <==> numTasks <= Active(mask, NumActive(mask))
  {
    BlocksLength(mask, NumActive(mask), 0, numTasks);
  }

  lemma FewTasksShare(numTasks: nat, n: nat)
    requires numTasks < n
    ensures numTasks / n == 0 && numTasks % n == numTasks
  {
  }

  /** Every task gets a node exactly for prefix masks, and otherwise only if there are no more tasks
      than active nodes among those the loop looks at. */
  lemma AllPlacedIffPrefix(mask: seq<bool>, numTasks: nat)
    requires NumActive(mask) > 0
    ensures NumActive(mask) <= |mask|
    ensures |Blocks(mask, NumActive(mask), numTasks / NumActive(mask), numTasks % NumActive(mask))| == numTasks
            <==> PrefixMask(mask) || numTasks <= Active(mask, NumActive(mask))
  {
    var n := NumActive(mask);
    ActiveMono(mask, 0, |mask|);
    ActiveMono(mask, 0, n);
    PrefixIffFull(mask);
    if numTasks < n {
      FewTasksShare(numTasks, n);
      FewTasksPlaced(mask, numTasks);
    } else {
      SharesAddUp(numTasks, n);
      FullIffPrefix(mask, numTasks / n, numTasks % n);
    }
  }

  /** With the second of two nodes active the loop looks at the first only and places neither of two tasks. */
  lemma GapLosesTasks(mask: seq<bool>)
    requires mask == [false, true]
    ensures NumActive(mask) == 1 && !PrefixMask(mask)
    ensures Blocks(mask, NumActive(mask), 2 / NumActive(mask), 2 % NumActive(mask)) == []
  {
    assert Active(mask, 0) == 0 && Active(mask, 1) == 0 && Active(mask, 2) == 1;
    assert mask[1] && !mask[0];
    BlocksLength(mask, 1, 2, 0);
  }

  /** The even distribution over a prefix mask: sorted, on active nodes only, shares within one. */
  lemma EvenShares(mask: seq<bool>, numTasks: nat, res: seq<nat>, node: nat)
    requires NumActive(mask) > 0 && PrefixMask(mask) && NumActive(mask) <= |mask|
    requires res == Blocks(mask, NumActive(mask), numTasks / NumActive(mask), numTasks % NumActive(mask))
    requires node < |mask|
    ensures |res| == numTasks && Sorted(res)
    ensures forall i :: 0 <= i < |res| ==> res[i] < |mask| && mask[res[i]]
    ensures mask[node] ==> numTasks / NumActive(mask) <= multiset(res)[node] <= numTasks / NumActive(mask) + 1
    ensures !mask[node] ==> multiset(res)[node] == 0
  {
    var n := NumActive(mask);
    var share, remainder := numTasks / n, numTasks % n;
    PrefixIffFull(mask);
    BlocksLength(mask, n, share, remainder);
    SharesAddUp(numTasks, n);
    BlocksSorted(mask, n, share, remainder);
    BlocksCount(mask, n, share, remainder, node);
    ActiveMono(mask, 0, n);
    ActiveMono(mask, n, |mask|);
  }

  /** The left-over tasks go to the first active nodes, one each. */
  lemma LeftOverToFirst(mask: seq<bool>, numTasks: nat, share: nat, remainder: nat, res: seq<nat>, node: nat)
    requires NumActive(mask) > 0 && PrefixMask(mask) && node < |mask| && mask[node]
    requires share == numTasks / NumActive(mask) && remainder == numTasks % NumActive(mask)
    requires res == Blocks(mask, NumActive(mask), share, remainder)
    ensures multiset(res)[node] == if node < remainder then share + 1 else share
  {
    var n := NumActive(mask);
    PrefixIffFull(mask);
    ActiveMono(mask, n, |mask|);
    assert node < n;
    ActiveMono(mask, 0, node);
    ActiveMono(mask, node, n);
    BlocksCount(mask, n, share, remainder, node);
  }
}
