/** Where the first policy, created from a mask of active nodes, sends the tasks. */
module UniformPolicy {
  import opened Powers
  import opened TaskPath
  import opened Hierarchy
  import opened TreePolicy
  import opened RoundTrip
  import opened Distribution

  /** The mapping names active nodes only. */
  predicate AllActive(mask: seq<bool>, m: seq<nat>) { forall i :: 0 <= i < |m| ==> m[i] < |mask| && mask[m[i]] }

  /** Every active node has its share of tasks or one more. */
  predicate Even(mask: seq<bool>, m: seq<nat>, share: nat) {
    forall node: nat :: node < |mask| && mask[node] ==> share <= multiset(m)[node] <= share + 1
  }

  predicate EvenlySpread(mask: seq<bool>, m: seq<nat>)
    requires NumActive(mask) > 0
  {
    Even(mask, m, |m| / NumActive(mask))
  }

  /** The blocks that the distribution loop places. */
  function UniformBlocks(mask: seq<bool>, numTasks: nat): seq<nat>
    requires NumActive(mask) > 0
  {
    Blocks(mask, NumActive(mask), numTasks / NumActive(mask), numTasks % NumActive(mask))
  }

  /** The blocks, and the first node for every task that the loop does not place. */
  function UniformMapping(mask: seq<bool>, numTasks: nat): seq<nat>
    requires NumActive(mask) > 0
  {
    var blocks := UniformBlocks(mask, numTasks);
    seq(numTasks, i requires 0 <= i < numTasks => if i < |blocks| then blocks[i] else 0)
  }

  lemma DistributionIsUniform(mask: seq<bool>, numTasks: nat, res: seq<nat>, placed: nat)
    requires NumActive(mask) > 0 && |res| == numTasks && placed <= numTasks
    requires res[..placed] == UniformBlocks(mask, numTasks)
    requires forall k :: placed <= k < numTasks ==> res[k] == 0
    ensures res == UniformMapping(mask, numTasks)
  {
    forall i | 0 <= i < numTasks ensures res[i] == UniformMapping(mask, numTasks)[i] {
      if i < placed {
        assert res[i] == res[..placed][i];
      }
    }
  }

  /** Splitting depth of the first policy. */
  function Depth(mask: seq<bool>, granularity: int): (g: nat)
    ensures Height(|mask|) <= g && granularity <= g && (g == Height(|mask|) || g == granularity)
    ensures Pow2(g) >= |mask|
  {
    var g := if Height(|mask|) > granularity then Height(|mask|) else granularity;
    Pow2Mono(Height(|mask|), g);
    g
  }

  /** The nodes at which the tasks of the first policy land. */
  function FirstMapping(mask: seq<bool>, granularity: int): (r: seq<nat>)
    requires NumActive(mask) > 0
    ensures |r| == Pow2(Depth(mask, granularity))
  {
    var g := Depth(mask, granularity);
    ReadBack(UniformMapping(mask, Pow2(g)), Height(|mask|), g)
  }

  /** Number of nodes left for a placed task. */
  function WidthFor(mask: seq<bool>, g: nat, i: nat): (w: nat)
    requires NumActive(mask) > 0 && |UniformBlocks(mask, Pow2(g))| < Pow2(g) && i < Pow2(g)
    ensures w >= 1
  {
    WidthAt(Height(|mask|), g, |UniformBlocks(mask, Pow2(g))|, i)
  }

  /** The loop places only some of the tasks, and every placed task that is cut down to the last node left
      for it finds that node active. */
  predicate CutsActive(mask: seq<bool>, g: nat)
    requires NumActive(mask) > 0
  {
    var blocks := UniformBlocks(mask, Pow2(g));
    && |blocks| < Pow2(g)
    && forall i :: 0 <= i < |blocks| && WidthFor(mask, g, i) <= blocks[i] ==>
         WidthFor(mask, g, i) <= |mask| && mask[WidthFor(mask, g, i) - 1]
  }

  /** The loop places only some of the tasks, and all of those are for the first node or cut down to it. */
  predicate CutToFirst(mask: seq<bool>, g: nat)
    requires NumActive(mask) > 0
  {
    var blocks := UniformBlocks(mask, Pow2(g));
    |blocks| < Pow2(g) && forall i :: 0 <= i < |blocks| ==> blocks[i] == 0 || WidthFor(mask, g, i) == 1
  }

  lemma BlocksFacts(mask: seq<bool>, numTasks: nat)
    requires 0 < NumActive(mask) <= numTasks
    ensures Sorted(UniformBlocks(mask, numTasks)) && AllActive(mask, UniformBlocks(mask, numTasks))
    ensures InNetwork(UniformBlocks(mask, numTasks), NumActive(mask))
    ensures |UniformBlocks(mask, numTasks)| <= numTasks
    ensures |UniformBlocks(mask, numTasks)| == numTasks <==> PrefixMask(mask)
  {
    var n := NumActive(mask);
    BlocksSorted(mask, n, numTasks / n, numTasks % n);
    AllPlacedIffPrefix(mask, numTasks);
    PrefixIffFull(mask);
    ActiveMono(mask, 0, n);
    BlocksLength(mask, n, numTasks / n, numTasks % n);
    PlacedMono(Active(mask, n), n, numTasks / n, numTasks % n);
    SharesAddUp(numTasks, n);
  }

  lemma UniformInNetwork(mask: seq<bool>, numTasks: nat)
    requires 0 < NumActive(mask) <= numTasks
    ensures InNetwork(UniformMapping(mask, numTasks), |mask|)
  {
    BlocksFacts(mask, numTasks);
  }

  /** On a prefix mask every task goes to its own node: sorted, active, even. */
  lemma PrefixUniform(mask: seq<bool>, g: nat)
    requires NumActive(mask) > 0 && Pow2(g) >= |mask| && PrefixMask(mask)
    ensures var r := ReadBack(UniformMapping(mask, Pow2(g)), Height(|mask|), g);
            r == UniformBlocks(mask, Pow2(g)) && Sorted(r) && AllActive(mask, r) && EvenlySpread(mask, r)
  {
    var m: seq<nat> := UniformMapping(mask, Pow2(g));
    BlocksFacts(mask, Pow2(g));
    assert m == UniformBlocks(mask, Pow2(g));
    assert InNetwork(m, Pow2(Height(|mask|)));
    SortedIsTraceable(m, Height(|mask|), g);
    ReadBackIffTraceable(m, Height(|mask|), g);
    forall node: nat | node < |mask| && mask[node]
      ensures |m| / NumActive(mask) <= multiset(m)[node] <= |m| / NumActive(mask) + 1
    {
      EvenShares(mask, Pow2(g), m, node);
    }
  }

  /** The landings for a mask with a gap, in closed form: a placed task ends at its own node or at the last one
      left for it, every other task on the first node. */
  ghost predicate GapLandings(mask: seq<bool>, g: nat, r: seq<nat>)
    requires NumActive(mask) > 0
  {
    var blocks := UniformBlocks(mask, Pow2(g));
    && |blocks| < Pow2(g) == |r|
    && (forall i :: 0 <= i < |blocks| ==>
          r[i] == if blocks[i] < WidthFor(mask, g, i) then blocks[i] else WidthFor(mask, g, i) - 1)
    && forall i :: |blocks| <= i < |r| ==> r[i] == 0
  }

  /** On any other mask the tasks land as stated. */
  lemma GapUniform(mask: seq<bool>, g: nat)
    requires NumActive(mask) > 0 && Pow2(g) >= |mask| && !PrefixMask(mask)
    ensures GapLandings(mask, g, ReadBack(UniformMapping(mask, Pow2(g)), Height(|mask|), g))
  {
    var m := UniformMapping(mask, Pow2(g));
    BlocksFacts(mask, Pow2(g));
    assert Padded(m, |UniformBlocks(mask, Pow2(g))|);
    PaddedReadBack(m, Height(|mask|), g, |UniformBlocks(mask, Pow2(g))|);
  }

  /** The first policy sends tasks to active nodes only exactly if the mask is a prefix, or the first node is
      active and so is every node that a task is cut down to. */
  lemma UniformActiveIff(mask: seq<bool>, g: nat)
    requires NumActive(mask) > 0 && Pow2(g) >= |mask|
    ensures AllActive(mask, ReadBack(UniformMapping(mask, Pow2(g)), Height(|mask|), g)) <==>
            PrefixMask(mask) || (mask[0] && CutsActive(mask, g))
  {
    var r := ReadBack(UniformMapping(mask, Pow2(g)), Height(|mask|), g);
    if PrefixMask(mask) {
      PrefixUniform(mask, g);
    } else {
      BlocksFacts(mask, Pow2(g));
      GapUniform(mask, g);
      GapActiveIff(mask, g, r);
    }
  }

  lemma GapActiveIff(mask: seq<bool>, g: nat, r: seq<nat>)
    requires NumActive(mask) > 0 && GapLandings(mask, g, r) && AllActive(mask, UniformBlocks(mask, Pow2(g)))
    ensures AllActive(mask, r) <==> mask[0] && CutsActive(mask, g)
  {
    var blocks := UniformBlocks(mask, Pow2(g));
    if AllActive(mask, r) {
      assert r[|blocks|] == 0;
      forall i | 0 <= i < |blocks| && WidthFor(mask, g, i) <= blocks[i]
        ensures WidthFor(mask, g, i) <= |mask| && mask[WidthFor(mask, g, i) - 1]
      {
        assert mask[r[i]];
      }
    }
  }

  /** It is sorted exactly if the mask is a prefix or everything ends on the first node. */
  lemma UniformSortedIff(mask: seq<bool>, g: nat)
    requires NumActive(mask) > 0 && Pow2(g) >= |mask|
    ensures Sorted(ReadBack(UniformMapping(mask, Pow2(g)), Height(|mask|), g)) <==> PrefixMask(mask) || CutToFirst(mask, g)
  {
    var r := ReadBack(UniformMapping(mask, Pow2(g)), Height(|mask|), g);
    if PrefixMask(mask) {
      PrefixUniform(mask, g);
    } else {
      GapUniform(mask, g);
      GapSortedIff(mask, g, r);
    }
  }

  lemma GapSortedIff(mask: seq<bool>, g: nat, r: seq<nat>)
    requires NumActive(mask) > 0 && GapLandings(mask, g, r)
    ensures Sorted(r) <==> CutToFirst(mask, g)
  {
    var blocks := UniformBlocks(mask, Pow2(g));
    if Sorted(r) {
      forall i | 0 <= i < |blocks| ensures blocks[i] == 0 || WidthFor(mask, g, i) == 1 {
        assert r[i] <= r[|blocks|];
      }
    }
    if CutToFirst(mask, g) {
      assert forall i :: 0 <= i < |r| ==> r[i] == 0;
    }
  }

  /** It is even exactly if the mask is a prefix. */
  lemma UniformEvenIff(mask: seq<bool>, g: nat)
    requires NumActive(mask) > 0 && Pow2(g) >= |mask|
    ensures EvenlySpread(mask, ReadBack(UniformMapping(mask, Pow2(g)), Height(|mask|), g)) <==> PrefixMask(mask)
  {
    var r := ReadBack(UniformMapping(mask, Pow2(g)), Height(|mask|), g);
    if PrefixMask(mask) {
      PrefixUniform(mask, g);
    } else {
      BlocksFacts(mask, Pow2(g));
      GapUniform(mask, g);
      GapIsUneven(mask, g, r);
    }
  }

  /** An active node behind those the loop looks at gets nothing. */
  lemma GapIsUneven(mask: seq<bool>, g: nat, r: seq<nat>)
    requires 0 < NumActive(mask) <= Pow2(g) && !PrefixMask(mask) && GapLandings(mask, g, r)
    requires InNetwork(UniformBlocks(mask, Pow2(g)), NumActive(mask))
    ensures !EvenlySpread(mask, r)
  {
    var n := NumActive(mask);
    PrefixIffFull(mask);
    ActiveMono(mask, 0, n);
    var k := LaterActive(mask, n, |mask|);
    SharesAddUp(|r|, n);
    assert forall i :: 0 <= i < |r| ==> r[i] < n;
    assert k !in multiset(r);
  }

  /** Four nodes, the second inactive: the mapping names active nodes only, yet a task lands on the second. */
  lemma CompiledToInactive(mask: seq<bool>, g: nat, m: seq<nat>)
    requires mask == [true, false, true, true] && g == 3 && m == [0, 0, 0, 2, 2, 2, 0, 0]
    ensures NumActive(mask) > 0 && |m| == Pow2(g) && m == UniformMapping(mask, Pow2(g))
    ensures AllActive(mask, m) && ReadBack(m, Height(|mask|), g)[3] == 1 && !mask[1]
  {
    FourNodeMapping(mask, g, m);
    FourNodeLanding(Height(|mask|), g, m);
  }

  lemma FourNodeMapping(mask: seq<bool>, g: nat, m: seq<nat>)
    requires mask == [true, false, true, true] && g == 3 && m == [0, 0, 0, 2, 2, 2, 0, 0]
    ensures NumActive(mask) > 0 && |m| == Pow2(g) && m == UniformMapping(mask, Pow2(g))
    ensures AllActive(mask, m) && Height(|mask|) == 2
  {
    FourNodeBlocks(mask);
  }

  lemma FourNodeLanding(levels: nat, g: nat, m: seq<nat>)
    requires levels == 2 && g == 3 && m == [0, 0, 0, 2, 2, 2, 0, 0] && |m| == Pow2(g)
    ensures ReadBack(m, levels, g)[3] == 1
  {
    FourNodePadded(m);
    FourNodeWidth(levels, g);
    LandsAtCut(m, levels, g, 6, 3, 2);
  }

  lemma FourNodePadded(m: seq<nat>)
    requires m == [0, 0, 0, 2, 2, 2, 0, 0]
    ensures Padded(m, 6)
  {
  }

  lemma LandsAtCut(m: seq<nat>, levels: nat, g: nat, placed: nat, i: nat, w: nat)
    requires |m| == Pow2(g) && Padded(m, placed) && i < placed && w == WidthAt(levels, g, placed, i) <= m[i]
    ensures ReadBack(m, levels, g)[i] == w - 1
  {
    PlacedLands(m, levels, g, placed, i);
  }

  lemma FourNodeBlocks(mask: seq<bool>)
    requires mask == [true, false, true, true]
    ensures NumActive(mask) == 3 && Height(|mask|) == 2 && Pow2(3) == 8
    ensures UniformBlocks(mask, 8) == [0, 0, 0, 2, 2, 2]
  {
    FourNodeActive(mask);
    FourNodeHeight(|mask|);
    var q := Quotas(mask, 2, 2);
    assert q[0] == 3 && q[1] == 0 && q[2] == 3;
    FourNodeExpand(q);
  }

  lemma FourNodeActive(mask: seq<bool>)
    requires mask == [true, false, true, true]
    ensures Active(mask, 0) == 0 && Active(mask, 1) == 1 && Active(mask, 2) == 1 && NumActive(mask) == 3
  {
    assert Active(mask, 1) == Active(mask, 0) + 1;
    assert Active(mask, 2) == Active(mask, 1);
    assert Active(mask, 3) == Active(mask, 2) + 1;
    assert Active(mask, 4) == Active(mask, 3) + 1;
  }

  lemma FourNodeHeight(size: nat)
    requires size == 4
    ensures Height(size) == 2
  {
    assert Height(4) == Height(2) + 1 && Height(2) == Height(1) + 1;
  }

  lemma FourNodeExpand(q: seq<nat>)
    requires |q| >= 3 && q[0] == 3 && q[1] == 0 && q[2] == 3
    ensures Expand(q, 3) == [0, 0, 0, 2, 2, 2]
  {
    assert Expand(q, 1) == [0, 0, 0];
    assert Expand(q, 2) == [0, 0, 0];
    assert Expand(q, 3) == [0, 0, 0] + [2, 2, 2];
  }

  lemma FourNodeWidth(levels: nat, g: nat)
    requires levels == 2 && g == 3
    ensures Pow2(g) == 8 && WidthAt(levels, g, 6, 3) == 2
  {
    var a := Fork(PathOf(3, 3), PathOf(3, 6));
    assert PathOf(3, 3).parent == PathOf(2, 1) && PathOf(2, 1).parent == PathOf(1, 0);
    assert PathOf(3, 6).parent == PathOf(2, 3) && PathOf(2, 3).parent == PathOf(1, 1);
  }
}
