/** The inter-node optimizer's distribution of work items over nodes. */
module NodeOptimizer {
  import opened Sums

  datatype Outcome<T> = Ok(value: T) | OutOfRange

  datatype NodeLoad = NodeLoad(node: nat, load: real)

  /** A work item with its estimated cost. */
  type Costed<W> = (real, W)

  /** The work items of every node. */
  type Schedule<W> = map<nat, seq<W>>

  // --- all items of a schedule ---

  ghost function AllItems<W>(s: Schedule<W>): multiset<W>
    decreases |s|
  {
    if s == map[] then multiset{}
    else
      var k :| k in s;
      multiset(s[k]) + AllItems(s - {k})
  }

  lemma {:induction false} AllItemsSplit<W>(s: Schedule<W>, k: nat)
    requires k in s
    ensures AllItems(s) == multiset(s[k]) + AllItems(s - {k})
    decreases |s|
  {
    var c :| c in s && AllItems(s) == multiset(s[c]) + AllItems(s - {c});
    if c != k {
      AllItemsSplit(s - {c}, k);
      AllItemsSplit(s - {k}, c);
      assert s - {c} - {k} == s - {k} - {c};
    }
  }

  lemma AllItemsUpdate<W>(s: Schedule<W>, k: nat, items: seq<W>)
    ensures AllItems(s[k := items]) == multiset(items) + AllItems(s - {k})
  {
    AllItemsSplit(s[k := items], k);
    assert s[k := items] - {k} == s - {k};
  }

  /** Appends an item to a node, which is added if it has none yet. */
  function Push<W>(s: Schedule<W>, node: nat, item: W): Schedule<W> {
    s[node := (if node in s then s[node] else []) + [item]]
  }

  lemma PushAdds<W>(s: Schedule<W>, node: nat, item: W)
    ensures AllItems(Push(s, node, item)) == AllItems(s) + multiset{item}
  {
    var before := if node in s then s[node] else [];
    AllItemsUpdate(s, node, before + [item]);
    AllItemsAt(s, node);
    assert multiset(before + [item]) == multiset(before) + multiset{item};
  }

  lemma AllItemsAt<W>(s: Schedule<W>, node: nat)
    ensures AllItems(s) == multiset(if node in s then s[node] else []) + AllItems(s - {node})
  {
    if node in s {
      AllItemsSplit(s, node);
    } else {
      assert s - {node} == s;
    }
  }

  function DropEmpty<W(==)>(s: Schedule<W>): Schedule<W> {
    map k | k in s && s[k] != [] :: s[k]
  }

  lemma {:induction false} DropEmptyKeepsItems<W>(s: Schedule<W>)
    ensures AllItems(DropEmpty(s)) == AllItems(s)
    decreases |s|
  {
    if s == map[] {
      assert DropEmpty(s) == map[];
    } else {
      var k :| k in s;
      AllItemsSplit(s, k);
      DropEmptyKeepsItems(s - {k});
      DropEmptyAt(s, k);
      AllItemsAt(DropEmpty(s), k);
    }
  }

  lemma DropEmptyAt<W>(s: Schedule<W>, k: nat)
    requires k in s
    ensures DropEmpty(s) - {k} == DropEmpty(s - {k})
    ensures (if k in DropEmpty(s) then DropEmpty(s)[k] else []) == s[k]
  {
  }

  function Items<W>(tasks: seq<Costed<W>>): seq<W> {
    seq(|tasks|, i requires 0 <= i < |tasks| => tasks[i].1)
  }

  lemma RemoveAt<X>(s: seq<X>, j: nat)
    requires j < |s|
    ensures multiset(s) == multiset(s[..j] + s[j + 1..]) + multiset{s[j]}
  {
    assert s == s[..j] + ([s[j]] + s[j + 1..]);
    assert multiset(s) == multiset(s[..j]) + multiset([s[j]] + s[j + 1..]);
  }

  /** The last element of a reordered sequence can be found and taken out of the other. */
  lemma TakeOutLast<X>(a: seq<X>, b: seq<X>) returns (j: nat)
    requires |a| > 0 && multiset(a) == multiset(b)
    ensures j < |b| && b[j] == a[|a| - 1] && multiset(b[..j] + b[j + 1..]) == multiset(a[..|a| - 1])
  {
    var n := |a| - 1;
    assert a[n] in multiset(b);
    j :| 0 <= j < |b| && b[j] == a[n];
    RemoveAt(a, n);
    assert a[..n] + a[n + 1..] == a[..n];
    RemoveAt(b, j);
    assert multiset(b[..j] + b[j + 1..]) == multiset(b) - multiset{b[j]};
    assert multiset(a[..n]) == multiset(a) - multiset{a[n]};
  }

  lemma ItemsRemove<W>(a: seq<Costed<W>>, j: nat)
    requires j < |a|
    ensures multiset(Items(a)) == multiset(Items(a[..j] + a[j + 1..])) + multiset{a[j].1}
  {
    RemoveAt(Items(a), j);
    assert Items(a[..j] + a[j + 1..]) == Items(a)[..j] + Items(a)[j + 1..];
  }

  /** Reordering tasks reorders their items. */
  lemma {:induction false} ItemsPermute<W>(a: seq<Costed<W>>, b: seq<Costed<W>>)
    requires multiset(a) == multiset(b)
    ensures multiset(Items(a)) == multiset(Items(b))
    decreases |a|
  {
    if a == [] {
      assert |multiset(b)| == 0;
      assert b == [];
    } else {
      var n := |a| - 1;
      var j := TakeOutLast(a, b);
      ItemsPermute(a[..n], b[..j] + b[j + 1..]);
      ItemsRemove(a, n);
      assert a[..n] + a[n + 1..] == a[..n];
      ItemsRemove(b, j);
    }
  }

  // --- greedy placement ---

  /** Cost of the tasks placed on a node. */
  function PlacedCost<W>(tasks: seq<Costed<W>>, place: seq<nat>, node: nat): real
    requires |place| <= |tasks|
  {
    if place == [] then 0.0
    else
      var n := |place| - 1;
      PlacedCost(tasks, place[..n], node) + if place[n] == node then tasks[n].0 else 0.0
  }

  /** Items of the tasks placed on a node, in order. */
  function PlacedItems<W>(tasks: seq<Costed<W>>, place: seq<nat>, node: nat): seq<W>
    requires |place| <= |tasks|
  {
    if place == [] then []
    else
      var n := |place| - 1;
      PlacedItems(tasks, place[..n], node) + if place[n] == node then [tasks[n].1] else []
  }

  /** Every task went to an eligible node that carried the least at that time. */
  ghost predicate Greedy<W>(tasks: seq<Costed<W>>, place: seq<nat>, eligible: set<nat>)
    requires |place| <= |tasks|
  {
    forall i :: 0 <= i < |place| ==>
      && place[i] in eligible
      && forall node :: node in eligible ==> PlacedCost(tasks, place[..i], place[i]) <= PlacedCost(tasks, place[..i], node)
  }

  lemma PlaceNext<W>(tasks: seq<Costed<W>>, place: seq<nat>, x: nat, node: nat)
    requires |place| < |tasks|
    ensures PlacedCost(tasks, place + [x], node) ==
            PlacedCost(tasks, place, node) + if x == node then tasks[|place|].0 else 0.0
    ensures PlacedItems(tasks, place + [x], node) ==
            PlacedItems(tasks, place, node) + if x == node then [tasks[|place|].1] else []
  {
    assert (place + [x])[..|place|] == place;
  }

  lemma GreedyNext<W>(tasks: seq<Costed<W>>, place: seq<nat>, x: nat, eligible: set<nat>)
    requires |place| < |tasks| && Greedy(tasks, place, eligible) && x in eligible
    requires forall node :: node in eligible ==> PlacedCost(tasks, place, x) <= PlacedCost(tasks, place, node)
    ensures Greedy(tasks, place + [x], eligible)
  {
    forall i | 0 <= i < |place + [x]| ensures (place + [x])[..i] == place[..i] {
    }
    assert place[..|place|] == place;
  }

  /** Greedy placement keeps all nodes within one task of each other. */
  lemma {:induction false} GreedyBalance<W>(tasks: seq<Costed<W>>, place: seq<nat>, eligible: set<nat>, maxCost: real, a: nat, b: nat)
    requires |place| <= |tasks| && Greedy(tasks, place, eligible) && a in eligible && b in eligible
    requires maxCost >= 0.0 && forall i :: 0 <= i < |tasks| ==> 0.0 <= tasks[i].0 <= maxCost
    ensures PlacedCost(tasks, place, a) - PlacedCost(tasks, place, b) <= maxCost
    decreases |place|
  {
    if place != [] {
      var n := |place| - 1;
      var before := place[..n];
      assert Greedy(tasks, before, eligible) by {
        assert forall i :: 0 <= i < n ==> before[..i] == place[..i];
      }
      GreedyBalance(tasks, before, eligible, maxCost, a, b);
      assert PlacedCost(tasks, before, place[n]) <= PlacedCost(tasks, before, b);
    }
  }

  /** No two eligible nodes carry loads further apart than the largest single cost. */
  ghost predicate Balanced<W>(tasks: seq<Costed<W>>, place: seq<nat>, eligible: set<nat>)
    requires |place| <= |tasks|
  {
    forall a, b, largest: real {:trigger PlacedCost(tasks, place, a), PlacedCost(tasks, place, b), CostsWithin(tasks, largest)} ::
      a in eligible && b in eligible && CostsWithin(tasks, largest) ==>
      PlacedCost(tasks, place, a) - PlacedCost(tasks, place, b) <= largest
  }

  predicate CostsWithin<W>(tasks: seq<Costed<W>>, largest: real) {
    0.0 <= largest && forall i :: 0 <= i < |tasks| ==> tasks[i].0 <= largest
  }

  predicate NonNegative<W>(tasks: seq<Costed<W>>) { forall i :: 0 <= i < |tasks| ==> 0.0 <= tasks[i].0 }

  lemma GreedyIsBalanced<W>(tasks: seq<Costed<W>>, place: seq<nat>, eligible: set<nat>)
    requires |place| <= |tasks| && Greedy(tasks, place, eligible) && NonNegative(tasks)
    ensures Balanced(tasks, place, eligible)
  {
    forall a, b, largest: real | a in eligible && b in eligible && CostsWithin(tasks, largest)
      ensures PlacedCost(tasks, place, a) - PlacedCost(tasks, place, b) <= largest
    {
      GreedyBalance(tasks, place, eligible, largest, a, b);
    }
  }

  // --- the list of eligible nodes ---

  predicate TailSorted(e: seq<NodeLoad>) { forall i, j :: 1 <= i <= j < |e| ==> e[i].load <= e[j].load }

  predicate DistinctNodes(e: seq<NodeLoad>) { forall i, j :: 0 <= i < j < |e| ==> e[i].node != e[j].node }

  function Nodes(e: seq<NodeLoad>): set<nat> { set i | 0 <= i < |e| :: e[i].node }

  /** The list with its head moved behind position `j`. */
  function Rotated(e: seq<NodeLoad>, j: nat): seq<NodeLoad>
    requires j < |e|
  {
    e[1..j + 1] + [e[0]] + e[j + 1..]
  }

  lemma RotatedAt(e: seq<NodeLoad>, j: nat, i: nat)
    requires j < |e| && i < |e|
    ensures Rotated(e, j)[i] == e[Source(j, i)]
  {
  }

  /** Where the entry at position `i` comes from. */
  function Source(j: nat, i: nat): nat { if i < j then i + 1 else if i == j then 0 else i }

  lemma RotatedDistinct(e: seq<NodeLoad>, j: nat)
    requires j < |e| && DistinctNodes(e)
    ensures DistinctNodes(Rotated(e, j))
  {
    var r := Rotated(e, j);
    forall a, b | 0 <= a < b < |r| ensures r[a].node != r[b].node {
      RotatedAt(e, j, a);
      RotatedAt(e, j, b);
    }
  }

  lemma RotatedNodes(e: seq<NodeLoad>, j: nat)
    requires j < |e|
    ensures Nodes(Rotated(e, j)) == Nodes(e)
  {
    var r := Rotated(e, j);
    forall i: nat | i < |e| ensures e[i].node in Nodes(r) && r[i].node in Nodes(e) {
      RotatedAt(e, j, i);
      var k := if i == 0 then j else if i <= j then i - 1 else i;
      RotatedAt(e, j, k);
      assert r[k] == e[i];
    }
  }

  lemma RotatedSorted(e: seq<NodeLoad>, j: nat)
    requires 1 <= j < |e| && TailSorted(e) && e[1].load < e[0].load
    requires e[j].load <= e[0].load && (j + 1 < |e| ==> e[0].load < e[j + 1].load)
    ensures TailSorted(Rotated(e, j))
    ensures forall i :: 0 <= i < |e| ==> Rotated(e, j)[0].load <= Rotated(e, j)[i].load
  {
    var r := Rotated(e, j);
    forall a, b | 1 <= a <= b < |r| ensures r[a].load <= r[b].load {
      RotatedAt(e, j, a);
      RotatedAt(e, j, b);
    }
    forall i | 0 <= i < |e| ensures r[0].load <= r[i].load {
      RotatedAt(e, j, 0);
      RotatedAt(e, j, i);
    }
  }

  /** Moves a head that is no longer the least loaded to its place in the sorted tail. */
  method Reinsert(e: seq<NodeLoad>) returns (r: seq<NodeLoad>, ghost behind: nat)
    requires |e| >= 2 && TailSorted(e)
    ensures behind < |e| && r == Rotated(e, behind)
    ensures if e[0].load <= e[1].load then behind == 0 else behind >= 1
    ensures forall j :: 1 <= j <= behind ==> e[j].load <= e[0].load
    ensures behind >= 1 && behind + 1 < |e| ==> e[behind + 1].load > e[0].load
    ensures TailSorted(r) && forall i :: 0 <= i < |r| ==> r[0].load <= r[i].load
  {
    if e[0].load > e[1].load {
      var j := 1;
      while j < |e| && e[j].load <= e[0].load
        invariant 1 <= j <= |e|
        invariant j > 1 ==> e[j - 1].load <= e[0].load
      {
        j := j + 1;
      }
      r, behind := Rotated(e, j - 1), j - 1;
      RotatedSorted(e, j - 1);
    } else {
      r, behind := e, 0;
      RotatedZero(e);
    }
  }

  lemma RotatedZero(e: seq<NodeLoad>)
    requires |e| > 0
    ensures Rotated(e, 0) == e
  {
  }

  /** The entry of a node carries the cost placed there. */
  ghost predicate Tracks<W>(e: seq<NodeLoad>, tasks: seq<Costed<W>>, place: seq<nat>)
    requires |place| <= |tasks|
  {
    forall i :: 0 <= i < |e| ==> e[i].load == PlacedCost(tasks, place, e[i].node)
  }

  /** Each eligible node's items are its former ones followed by those placed on it; others are untouched. */
  ghost predicate Extended<W>(s0: Schedule<W>, s: Schedule<W>, tasks: seq<Costed<W>>, place: seq<nat>)
    requires |place| <= |tasks|
  {
    forall n :: ItemsOn(s, n) == ItemsOn(s0, n) + PlacedItems(tasks, place, n)
  }

  function ItemsOn<W>(s: Schedule<W>, n: nat): seq<W> { if n in s then s[n] else [] }

  lemma ExtendedNext<W>(s0: Schedule<W>, s: Schedule<W>, tasks: seq<Costed<W>>, place: seq<nat>, x: nat)
    requires |place| < |tasks| && Extended(s0, s, tasks, place)
    ensures Extended(s0, Push(s, x, tasks[|place|].1), tasks, place + [x])
  {
    forall n ensures ItemsOn(Push(s, x, tasks[|place|].1), n) == ItemsOn(s0, n) + PlacedItems(tasks, place + [x], n) {
      PlaceNext(tasks, place, x, n);
    }
  }

  lemma LeastByTracking<W>(e: seq<NodeLoad>, tasks: seq<Costed<W>>, place: seq<nat>)
    requires |place| <= |tasks| && Tracks(e, tasks, place) && |e| > 0
    requires forall i :: 0 <= i < |e| ==> e[0].load <= e[i].load
    ensures forall node :: node in Nodes(e) ==> PlacedCost(tasks, place, e[0].node) <= PlacedCost(tasks, place, node)
  {
    forall node | node in Nodes(e) ensures PlacedCost(tasks, place, e[0].node) <= PlacedCost(tasks, place, node) {
      var i :| 0 <= i < |e| && e[i].node == node;
    }
  }

  /** Charging the head of the list for the next task keeps the list in order. */
  lemma ChargeHead<W>(e: seq<NodeLoad>, tasks: seq<Costed<W>>, place: seq<nat>, e': seq<NodeLoad>)
    requires |e| > 0 && |place| < |tasks| && Tracks(e, tasks, place) && TailSorted(e) && DistinctNodes(e)
    requires e' == e[0 := NodeLoad(e[0].node, e[0].load + tasks[|place|].0)]
    ensures Tracks(e', tasks, place + [e[0].node]) && TailSorted(e') && DistinctNodes(e') && Nodes(e') == Nodes(e)
  {
    forall i | 0 <= i < |e'| ensures e'[i].load == PlacedCost(tasks, place + [e[0].node], e'[i].node) {
      PlaceNext(tasks, place, e[0].node, e'[i].node);
    }
    assert forall i :: 0 <= i < |e| ==> e'[i].node == e[i].node;
  }

  /** The list of eligible nodes after |place| tasks. */
  ghost predicate ListInOrder<W>(tasks: seq<Costed<W>>, eligible: set<nat>, e: seq<NodeLoad>, place: seq<nat>) {
    && |place| <= |tasks|
    && Nodes(e) == eligible && DistinctNodes(e) && TailSorted(e)
    && Tracks(e, tasks, place)
    && Greedy(tasks, place, eligible)
  }

  /** The schedule after |place| tasks. */
  ghost predicate ScheduleInOrder<W>(tasks: seq<Costed<W>>, s0: Schedule<W>, s: Schedule<W>, place: seq<nat>) {
    && |place| <= |tasks|
    && Extended(s0, s, tasks, place)
    && AllItems(s) == AllItems(s0) + multiset(Items(tasks[..|place|]))
  }

  lemma StartInOrder<W>(tasks: seq<Costed<W>>, e: seq<NodeLoad>, s: Schedule<W>)
    requires DistinctNodes(e) && forall i :: 0 <= i < |e| ==> e[i].load == 0.0
    ensures ListInOrder(tasks, Nodes(e), e, []) && ScheduleInOrder(tasks, s, s, [])
  {
    assert Items(tasks[..0]) == [];
  }

  lemma ReinsertedInOrder<W>(tasks: seq<Costed<W>>, eligible: set<nat>, e: seq<NodeLoad>, r: seq<NodeLoad>, behind: nat,
                             place: seq<nat>)
    requires ListInOrder(tasks, eligible, e, place) && behind < |e| && r == Rotated(e, behind) && TailSorted(r)
    ensures |r| == |e| && ListInOrder(tasks, eligible, r, place)
  {
    RotatedNodes(e, behind);
    RotatedDistinct(e, behind);
    forall i: nat | i < |e| ensures r[i].load == PlacedCost(tasks, place, r[i].node) {
      RotatedAt(e, behind, i);
    }
  }

  lemma PlaceOnHead<W>(tasks: seq<Costed<W>>, eligible: set<nat>, e: seq<NodeLoad>, place: seq<nat>)
    requires ListInOrder(tasks, eligible, e, place) && |place| < |tasks| && |e| > 0
    requires forall i :: 0 <= i < |e| ==> e[0].load <= e[i].load
    ensures ListInOrder(tasks, eligible, e[0 := NodeLoad(e[0].node, e[0].load + tasks[|place|].0)], place + [e[0].node])
  {
    LeastByTracking(e, tasks, place);
    assert e[0].node in Nodes(e);
    GreedyNext(tasks, place, e[0].node, eligible);
    ChargeHead(e, tasks, place, e[0 := NodeLoad(e[0].node, e[0].load + tasks[|place|].0)]);
  }

  lemma PushCounted<W>(tasks: seq<Costed<W>>, s0: Schedule<W>, s: Schedule<W>, t: nat, x: nat)
    requires t < |tasks| && AllItems(s) == AllItems(s0) + multiset(Items(tasks[..t]))
    ensures AllItems(Push(s, x, tasks[t].1)) == AllItems(s0) + multiset(Items(tasks[..t + 1]))
  {
    PushAdds(s, x, tasks[t].1);
    assert Items(tasks[..t + 1]) == Items(tasks[..t]) + [tasks[t].1];
  }

  lemma PushInOrder<W>(tasks: seq<Costed<W>>, s0: Schedule<W>, s: Schedule<W>, place: seq<nat>, x: nat)
    requires ScheduleInOrder(tasks, s0, s, place) && |place| < |tasks|
    ensures ScheduleInOrder(tasks, s0, Push(s, x, tasks[|place|].1), place + [x])
  {
    ExtendedNext(s0, s, tasks, place, x);
    PushCounted(tasks, s0, s, |place|, x);
  }

  /** Restores the order of the list and charges its head for the next task. */
  method NextNode<W>(tasks: seq<Costed<W>>, e: seq<NodeLoad>, t: nat, ghost eligible: set<nat>, ghost place: seq<nat>)
    returns (e': seq<NodeLoad>, node: nat)
    requires t == |place| < |tasks| && |e| >= 2 && ListInOrder(tasks, eligible, e, place)
    ensures |e'| == |e| && ListInOrder(tasks, eligible, e', place + [node])
  {
    var r, behind := Reinsert(e);
    ChosenInOrder(tasks, eligible, e, r, behind, place);
    node := r[0].node;
    e' := r[0 := NodeLoad(r[0].node, r[0].load + tasks[t].0)];
  }

  lemma ChosenInOrder<W>(tasks: seq<Costed<W>>, eligible: set<nat>, e: seq<NodeLoad>, r: seq<NodeLoad>, behind: nat,
                         place: seq<nat>)
    requires |place| < |tasks| && ListInOrder(tasks, eligible, e, place)
    requires behind < |e| && r == Rotated(e, behind) && TailSorted(r)
    requires forall i :: 0 <= i < |r| ==> r[0].load <= r[i].load
    ensures |r| == |e|
    ensures ListInOrder(tasks, eligible, r[0 := NodeLoad(r[0].node, r[0].load + tasks[|place|].0)], place + [r[0].node])
  {
    ReinsertedInOrder(tasks, eligible, e, r, behind, place);
    PlaceOnHead(tasks, eligible, r, place);
  }

  /** Gives every task, in turn, to a least loaded node of the list. */
  method GreedyPartition<W>(tasks: seq<Costed<W>>, e0: seq<NodeLoad>, s0: Schedule<W>)
    returns (e: seq<NodeLoad>, s: Schedule<W>, ghost place: seq<nat>)
    requires |e0| >= 2 && DistinctNodes(e0) && forall i :: 0 <= i < |e0| ==> e0[i].load == 0.0
    ensures |place| == |tasks| && ListInOrder(tasks, Nodes(e0), e, place)
    ensures ScheduleInOrder(tasks, s0, s, place)
    ensures Nodes(e) == Nodes(e0) && AllItems(s) == AllItems(s0) + multiset(Items(tasks))
  {
    e, s, place := e0, s0, [];
    StartInOrder(tasks, e0, s0);
    for t := 0 to |tasks|
      invariant |place| == t && |e| == |e0|
      invariant ListInOrder(tasks, Nodes(e0), e, place)
      invariant ScheduleInOrder(tasks, s0, s, place)
    {
      var node;
      e, node := NextNode(tasks, e, t, Nodes(e0), place);
      PushInOrder(tasks, s0, s, place, node);
      s := Push(s, node, tasks[t].1);
      place := place + [node];
    }
    assert tasks[..|tasks|] == tasks;
  }

  // --- the decision ---

  lemma {:induction false} MinExists(s: set<nat>) returns (k: nat)
    requires s != {}
    ensures k in s && forall x :: x in s ==> k <= x
    decreases |s|
  {
    var c :| c in s;
    if s == {c} {
      k := c;
    } else {
      assert s - {c} != {} by {
        assert s == (s - {c}) + {c};
      }
      var m := MinExists(s - {c});
      k := if c < m then c else m;
    }
  }

  predicate Ascending(ks: seq<nat>) { forall i, j :: 0 <= i < j < |ks| ==> ks[i] < ks[j] }

  predicate Distinct(ks: seq<nat>) { forall i, j :: 0 <= i < j < |ks| ==> ks[i] != ks[j] }

  function KeySet(ks: seq<nat>): set<nat> { set k | k in ks }

  lemma PrependSmallest(k: nat, ks: seq<nat>, s: set<nat>)
    requires Ascending(ks) && KeySet(ks) == s && forall x :: x in s ==> k < x
    ensures Ascending([k] + ks) && KeySet([k] + ks) == s + {k}
  {
    forall i | 0 <= i < |ks| ensures k < ks[i] {
      assert ks[i] in KeySet(ks);
    }
  }

  /** The keys in the order in which a map is traversed. */
  method AscendingKeys(s: set<nat>) returns (ks: seq<nat>)
    ensures Ascending(ks) && KeySet(ks) == s
    decreases |s|
  {
    if s == {} {
      return [];
    }
    ghost var m := MinExists(s);
    var k :| k in s && forall x :: x in s ==> k <= x;
    var rest := AscendingKeys(s - {k});
    PrependSmallest(k, rest, s - {k});
    assert s == (s - {k}) + {k};
    ks := [k] + rest;
  }

  /** Average load of a node's tasks, never less than the floor; zero for nodes without a load. */
  function TaskCost<W>(nodeMap: Schedule<W>, nodeLoads: map<nat, real>, k: nat): real
    requires k in nodeMap
  {
    if k !in nodeLoads then 0.0
    else if nodeMap[k] == [] then 0.001
    else
      var avg := nodeLoads[k] / |nodeMap[k]| as real;
      if 0.001 < avg then avg else 0.001
  }

  /** The tasks of a node together cost its load, but no task costs less than the floor. */
  lemma TaskCostsAddUp<W>(nodeMap: Schedule<W>, nodeLoads: map<nat, real>, k: nat, count: nat, total: real)
    requires k in nodeMap && k in nodeLoads && count == |nodeMap[k]| > 0
    requires total == TaskCost(nodeMap, nodeLoads, k) * count as real
    ensures total == if nodeLoads[k] > 0.001 * count as real then nodeLoads[k] else 0.001 * count as real
  {
    var load, c := nodeLoads[k], count as real;
    AverageAbove(load, c, load / c);
  }

  lemma AverageAbove(load: real, count: real, average: real)
    requires count > 0.0 && average == load / count
    ensures average * count == load && (0.001 < average <==> 0.001 * count < load)
  {
    var spare := average - 0.001;
    assert spare * count == load - 0.001 * count;
    if spare > 0.0 {
      ProductPositive(spare, count, spare * count);
    } else if spare < 0.0 {
      ProductPositive(-spare, count, (-spare) * count);
      assert (-spare) * count == -(spare * count);
    }
  }

  function WithCost<W>(cost: real, items: seq<W>): seq<Costed<W>> {
    seq(|items|, i requires 0 <= i < |items| => (cost, items[i]))
  }

  lemma WithCostItems<W>(tasks: seq<Costed<W>>, cost: real, items: seq<W>)
    ensures Items(tasks + WithCost(cost, items)) == Items(tasks) + items
  {
  }

  /** Taking one more node out of what is left. */
  lemma LeftOver<W>(nodeMap: Schedule<W>, ks: seq<nat>, i: nat)
    requires Distinct(ks) && i < |ks| && ks[i] in nodeMap
    ensures AllItems(nodeMap - KeySet(ks[..i])) == multiset(nodeMap[ks[i]]) + AllItems(nodeMap - KeySet(ks[..i + 1]))
  {
    var rest := nodeMap - KeySet(ks[..i]);
    assert ks[i] !in ks[..i];
    AllItemsSplit(rest, ks[i]);
    assert ks[..i + 1] == ks[..i] + [ks[i]];
    assert rest - {ks[i]} == nodeMap - KeySet(ks[..i + 1]);
  }

  predicate Listed<W>(nodeMap: Schedule<W>, ks: seq<nat>) { forall i :: 0 <= i < |ks| ==> ks[i] in nodeMap }

  /** The items of the listed nodes, one node after the other. */
  function ItemsOfNodes<W>(nodeMap: Schedule<W>, ks: seq<nat>): seq<W>
    requires Listed(nodeMap, ks)
  {
    if ks == [] then [] else ItemsOfNodes(nodeMap, ks[..|ks| - 1]) + nodeMap[ks[|ks| - 1]]
  }

  lemma ItemsOfNodesNext<W>(nodeMap: Schedule<W>, ks: seq<nat>, k: nat)
    requires Listed(nodeMap, ks) && k in nodeMap
    ensures Listed(nodeMap, ks + [k]) && ItemsOfNodes(nodeMap, ks + [k]) == ItemsOfNodes(nodeMap, ks) + nodeMap[k]
  {
    assert (ks + [k])[..|ks|] == ks;
  }

  /** The items of distinct nodes and those of all other nodes are all items. */
  lemma {:induction false} ListedAndRest<W>(nodeMap: Schedule<W>, ks: seq<nat>, n: nat)
    requires Listed(nodeMap, ks) && Distinct(ks) && n <= |ks|
    ensures multiset(ItemsOfNodes(nodeMap, ks[..n])) + AllItems(nodeMap - KeySet(ks[..n])) == AllItems(nodeMap)
  {
    if n == 0 {
      assert nodeMap - KeySet(ks[..0]) == nodeMap;
    } else {
      var k := ks[n - 1];
      ListedAndRest(nodeMap, ks, n - 1);
      LeftOver(nodeMap, ks, n - 1);
      ItemsOfNodesNext(nodeMap, ks[..n - 1], k);
      assert ks[..n] == ks[..n - 1] + [k];
      TakeFromRest(ItemsOfNodes(nodeMap, ks[..n - 1]), nodeMap[k], AllItems(nodeMap - KeySet(ks[..n])),
                   AllItems(nodeMap - KeySet(ks[..n - 1])));
    }
  }

  lemma TakeFromRest<W>(a: seq<W>, x: seq<W>, less: multiset<W>, more: multiset<W>)
    requires more == multiset(x) + less
    ensures multiset(a + x) + less == multiset(a) + more
  {
    assert multiset(a + x) == multiset(a) + multiset(x);
  }

  /** The schedule in which the listed nodes keep what they have. */
  function Kept<W(==)>(nodeMap: Schedule<W>, ks: seq<nat>): Schedule<W> {
    map k | k in ks && k in nodeMap && nodeMap[k] != [] :: nodeMap[k]
  }

  lemma KeptNext<W>(nodeMap: Schedule<W>, ks: seq<nat>, k: nat)
    requires k in nodeMap
    ensures Kept(nodeMap, ks + [k]) == if nodeMap[k] == [] then Kept(nodeMap, ks) else Kept(nodeMap, ks)[k := nodeMap[k]]
  {
  }

  lemma KeptAdds<W>(nodeMap: Schedule<W>, ks: seq<nat>, k: nat)
    requires k in nodeMap && k !in ks
    ensures AllItems(Kept(nodeMap, ks + [k])) == AllItems(Kept(nodeMap, ks)) + multiset(nodeMap[k])
  {
    var kept := Kept(nodeMap, ks);
    KeptNext(nodeMap, ks, k);
    if nodeMap[k] != [] {
      AllItemsUpdate(kept, k, nodeMap[k]);
      assert kept - {k} == kept;
    }
  }

  lemma {:induction false} KeptItems<W>(nodeMap: Schedule<W>, ks: seq<nat>)
    requires Listed(nodeMap, ks) && Distinct(ks)
    ensures AllItems(Kept(nodeMap, ks)) == multiset(ItemsOfNodes(nodeMap, ks))
  {
    if ks == [] {
      assert Kept(nodeMap, ks) == map[];
    } else {
      var init, k := ks[..|ks| - 1], ks[|ks| - 1];
      assert ks == init + [k];
      KeptItems(nodeMap, init);
      KeptAdds(nodeMap, init, k);
      ItemsOfNodesNext(nodeMap, init, k);
    }
  }

  /** The tasks of the listed nodes, one node after the other, each at the cost of its own node. */
  function TasksOfNodes<W>(nodeMap: Schedule<W>, nodeLoads: map<nat, real>, ks: seq<nat>): seq<Costed<W>>
    requires Listed(nodeMap, ks)
  {
    if ks == [] then []
    else
      var n := |ks| - 1;
      TasksOfNodes(nodeMap, nodeLoads, ks[..n]) + WithCost(TaskCost(nodeMap, nodeLoads, ks[n]), nodeMap[ks[n]])
  }

  /** Every task of every node, at the cost of its own node, in the order of the nodes. */
  ghost predicate AtOwnCost<W>(nodeMap: Schedule<W>, nodeLoads: map<nat, real>, tasks: seq<Costed<W>>) {
    exists ks: seq<nat> :: && Ascending(ks) && KeySet(ks) == nodeMap.Keys && Listed(nodeMap, ks)
                           && tasks == TasksOfNodes(nodeMap, nodeLoads, ks)
  }

  lemma {:induction false} TasksNonNegative<W>(nodeMap: Schedule<W>, nodeLoads: map<nat, real>, ks: seq<nat>)
    requires Listed(nodeMap, ks)
    ensures NonNegative(TasksOfNodes(nodeMap, nodeLoads, ks))
  {
    if ks != [] {
      TasksNonNegative(nodeMap, nodeLoads, ks[..|ks| - 1]);
    }
  }

  lemma OwnCostNonNegative<W>(nodeMap: Schedule<W>, nodeLoads: map<nat, real>, tasks: seq<Costed<W>>)
    requires AtOwnCost(nodeMap, nodeLoads, tasks)
    ensures NonNegative(tasks)
  {
    var ks: seq<nat> :| Listed(nodeMap, ks) && tasks == TasksOfNodes(nodeMap, nodeLoads, ks);
    TasksNonNegative(nodeMap, nodeLoads, ks);
  }

  /** All tasks of all nodes, with their costs. */
  method GatherAll<W(==)>(nodeMap: Schedule<W>, nodeLoads: map<nat, real>) returns (tasks: seq<Costed<W>>)
    ensures multiset(Items(tasks)) == AllItems(nodeMap)
    ensures AtOwnCost(nodeMap, nodeLoads, tasks)
  {
    var ks := AscendingKeys(nodeMap.Keys);
    tasks := [];
    forall i | 0 <= i < |ks| ensures ks[i] in nodeMap {
      assert ks[i] in KeySet(ks);
    }
    for i := 0 to |ks|
      invariant Items(tasks) == ItemsOfNodes(nodeMap, ks[..i])
      invariant tasks == TasksOfNodes(nodeMap, nodeLoads, ks[..i])
    {
      assert ks[..i + 1][..i] == ks[..i];
      var cost := TaskCost(nodeMap, nodeLoads, ks[i]);
      WithCostItems(tasks, cost, nodeMap[ks[i]]);
      tasks := tasks + WithCost(cost, nodeMap[ks[i]]);
    }
    assert ks[..|ks|] == ks;
    ListedAndRest(nodeMap, ks, |ks|);
    assert nodeMap - nodeMap.Keys == map[];
  }

  /** The entries, all at load zero, for a list of nodes. */
  function ZeroLoads(ks: seq<nat>): (e: seq<NodeLoad>)
    ensures Distinct(ks) ==> DistinctNodes(e)
  {
    seq(|ks|, i requires 0 <= i < |ks| => NodeLoad(ks[i], 0.0))
  }

  lemma ZeroLoadNodes(ks: seq<nat>)
    ensures Nodes(ZeroLoads(ks)) == KeySet(ks)
  {
    var e := ZeroLoads(ks);
    forall k | k in ks ensures k in Nodes(e) {
      var i :| 0 <= i < |ks| && ks[i] == k;
      assert e[i].node == k;
    }
  }

  /** The schedule that a greedy placement of all tasks makes of `s0`. */
  ghost predicate PlacedGreedily<W>(tasks: seq<Costed<W>>, place: seq<nat>, eligible: set<nat>, s0: Schedule<W>, s: Schedule<W>) {
    |place| == |tasks| && Greedy(tasks, place, eligible) && Extended(s0, s, tasks, place)
  }

  lemma OnlyNode<W>(tasks: seq<Costed<W>>, place: seq<nat>, node: nat)
    requires |place| < |tasks| && Greedy(tasks, place, {node})
    ensures Greedy(tasks, place + [node], {node})
  {
    GreedyNext(tasks, place, node, {node});
  }

  /** Everything to the only node. */
  method SinglePartition<W>(tasks: seq<Costed<W>>, node: nat, s0: Schedule<W>) returns (s: Schedule<W>, ghost place: seq<nat>)
    ensures PlacedGreedily(tasks, place, {node}, s0, s)
    ensures AllItems(s) == AllItems(s0) + multiset(Items(tasks))
  {
    s, place := s0, [];
    assert Items(tasks[..0]) == [];
    for t := 0 to |tasks|
      invariant |place| == t && Greedy(tasks, place, {node})
      invariant ScheduleInOrder(tasks, s0, s, place)
    {
      PushInOrder(tasks, s0, s, place, node);
      OnlyNode(tasks, place, node);
      s := Push(s, node, tasks[t].1);
      place := place + [node];
    }
    assert tasks[..|tasks|] == tasks;
  }

  /** Spreads the tasks over the eligible nodes; without any, they are dropped. */
  method Partition<W>(tasks: seq<Costed<W>>, eligible: seq<nat>, s0: Schedule<W>) returns (s: Schedule<W>, ghost place: seq<nat>)
    requires Distinct(eligible)
    ensures eligible != [] ==> PlacedGreedily(tasks, place, KeySet(eligible), s0, s)
    ensures eligible != [] ==> AllItems(s) == AllItems(s0) + multiset(Items(tasks))
    ensures eligible == [] ==> s == s0
  {
    s, place := s0, [];
    if |eligible| > 1 {
      var e;
      e, s, place := GreedyPartition(tasks, ZeroLoads(eligible), s0);
      ZeroLoadNodes(eligible);
      assert tasks[..|tasks|] == tasks;
    } else if |eligible| == 1 {
      s, place := SinglePartition(tasks, eligible[0], s0);
      assert KeySet(eligible) == {eligible[0]};
    }
  }

  lemma OthersUntouched<W>(tasks: seq<Costed<W>>, place: seq<nat>, eligible: set<nat>, s0: Schedule<W>, s: Schedule<W>, k: nat)
    requires PlacedGreedily(tasks, place, eligible, s0, s) && k !in eligible
    ensures ItemsOn(s, k) == ItemsOn(s0, k)
  {
    NeverPlaced(tasks, place, eligible, k);
  }

  lemma DropEmptyPlaced<W>(tasks: seq<Costed<W>>, place: seq<nat>, eligible: set<nat>, s0: Schedule<W>, s: Schedule<W>)
    requires PlacedGreedily(tasks, place, eligible, s0, s)
    ensures PlacedGreedily(tasks, place, eligible, s0, DropEmpty(s))
  {
    forall n: nat ensures ItemsOn(DropEmpty(s), n) == ItemsOn(s, n) {
    }
  }

  lemma {:induction false} NeverPlaced<W>(tasks: seq<Costed<W>>, place: seq<nat>, eligible: set<nat>, k: nat)
    requires |place| <= |tasks| && k !in eligible && forall i :: 0 <= i < |place| ==> place[i] in eligible
    ensures PlacedItems(tasks, place, k) == []
  {
    if place != [] {
      NeverPlaced(tasks, place[..|place| - 1], eligible, k);
    }
  }

  predicate Timed(order: seq<nat>, nodeTimes: map<nat, real>) { forall i :: 0 <= i < |order| ==> order[i] in nodeTimes }

  /** The nodes with a measured time, slowest first, as sorting by time leaves them. */
  predicate SlowestFirst(order: seq<nat>, nodeTimes: map<nat, real>) {
    && Distinct(order) && KeySet(order) == nodeTimes.Keys && Timed(order, nodeTimes)
    && forall i, j :: 0 <= i < j < |order| ==> nodeTimes[order[i]] >= nodeTimes[order[j]]
  }

  lemma {:induction false} SlowestExists(s: set<nat>, times: map<nat, real>) returns (k: nat)
    requires s != {} && s <= times.Keys
    ensures k in s && forall x :: x in s ==> times[x] <= times[k]
    decreases |s|
  {
    k :| k in s;
    if s != {k} {
      assert s - {k} != {} by {
        assert s == (s - {k}) + {k};
      }
      var m := SlowestExists(s - {k}, times);
      if times[k] < times[m] {
        k := m;
      }
    }
  }

  lemma PrependSlowest(k: nat, order: seq<nat>, s: set<nat>, times: map<nat, real>)
    requires s <= times.Keys && k in times && k !in s && KeySet(order) == s && Distinct(order)
    requires forall i :: 0 <= i < |order| ==> order[i] in times
    requires forall i, j :: 0 <= i < j < |order| ==> times[order[i]] >= times[order[j]]
    requires forall x :: x in s ==> times[x] <= times[k]
    ensures KeySet([k] + order) == s + {k} && Distinct([k] + order)
    ensures forall i :: 0 <= i < |order| + 1 ==> ([k] + order)[i] in times
    ensures forall i, j :: 0 <= i < j < |order| + 1 ==> times[([k] + order)[i]] >= times[([k] + order)[j]]
  {
    forall i | 0 <= i < |order| ensures order[i] in s {
      assert order[i] in KeySet(order);
    }
  }

  /** Sorts nodes by time, slowest first; nodes with equal times come in any order. */
  method SortNodes(s: set<nat>, times: map<nat, real>) returns (order: seq<nat>)
    requires s <= times.Keys
    ensures Distinct(order) && KeySet(order) == s
    ensures forall i :: 0 <= i < |order| ==> order[i] in times
    ensures forall i, j :: 0 <= i < j < |order| ==> times[order[i]] >= times[order[j]]
    decreases |s|
  {
    if s == {} {
      return [];
    }
    ghost var m := SlowestExists(s, times);
    var k :| k in s && forall x :: x in s ==> times[x] <= times[k];
    var rest := SortNodes(s - {k}, times);
    PrependSlowest(k, rest, s - {k}, times);
    assert s == (s - {k}) + {k};
    order := [k] + rest;
  }

  method SortByTime(nodeTimes: map<nat, real>) returns (order: seq<nat>)
    ensures SlowestFirst(order, nodeTimes)
  {
    order := SortNodes(nodeTimes.Keys, nodeTimes);
  }

  lemma SwapKeepsItems<X>(s: seq<X>, i: nat, j: nat)
    requires i < |s| && j < |s|
    ensures multiset(s[i := s[j]][j := s[i]]) == multiset(s)
  {
  }

  /** Any reordering: each position in turn takes an arbitrary one of the remaining tasks. */
  method Shuffle<X>(s: seq<X>) returns (r: seq<X>)
    ensures multiset(r) == multiset(s)
  {
    r := s;
    for i := 0 to |s|
      invariant |r| == |s| && multiset(r) == multiset(s)
    {
      var j :| i <= j < |r|;
      SwapKeepsItems(r, i, j);
      r := r[i := r[j]][j := r[i]];
    }
  }

  function TimesOf(order: seq<nat>, nodeTimes: map<nat, real>): seq<real>
    requires KeySet(order) <= nodeTimes.Keys
  {
    seq(|order|, i requires 0 <= i < |order| => assert order[i] in KeySet(order); nodeTimes[order[i]])
  }

  function Average(times: seq<real>): real
    requires |times| > 0
  {
    Sum(times) / |times| as real
  }

  function Deviation(times: seq<real>): real
    requires |times| > 1
  {
    SumSquares(times, Average(times)) / (|times| - 1) as real
  }

  /** Squared distance between the average times of the slowest and of the fastest nodes. */
  function SquaredGap(times: seq<real>, topN: nat, bottomK: nat): real
    requires |times| >= topN + bottomK && topN >= 1 && bottomK >= 1
  {
    var gap := Average(times[..topN]) - Average(times[|times| - bottomK..]);
    gap * gap
  }

  /** The slowest nodes lag far enough behind the fastest. With an empty group the averages are
      undefined and the comparison fails. */
  predicate Worthwhile(times: seq<real>, topN: nat, bottomK: nat)
    requires |times| >= topN + bottomK
  {
    topN >= 1 && bottomK >= 1 &&
    var threshold := Deviation(times) * 1.41421356237;
    SquaredGap(times, topN, bottomK) >= threshold && threshold > 0.01
  }

  /** The condition as documented: the averages lie two standard deviations apart. */
  predicate FarApart(times: seq<real>, topN: nat, bottomK: nat)
    requires |times| >= topN + bottomK && topN >= 1 && bottomK >= 1
  {
    SquaredGap(times, topN, bottomK) >= 4.0 * Deviation(times)
  }

  /** Exactly when the code decides as documented: with a noticeable spread, unless the gap lies between the two
      thresholds; without one, if the gap is small as well. */
  lemma AsDocumentedIff(times: seq<real>, topN: nat, bottomK: nat)
    requires |times| >= topN + bottomK && topN >= 1 && bottomK >= 1
    ensures var v, square := Deviation(times), SquaredGap(times, topN, bottomK);
            (Worthwhile(times, topN, bottomK) <==> FarApart(times, topN, bottomK)) <==>
            if v * 1.41421356237 > 0.01 then square < v * 1.41421356237 || 4.0 * v <= square else square < 4.0 * v
  {
  }

  lemma SumOfOne(x: real)
    ensures Sum([x]) == x
  {
    assert [x][..0] == [];
  }

  lemma SumOfTwo(x: real, y: real)
    ensures Sum([x, y]) == x + y
  {
    assert [x, y][..1] == [x];
    SumOfOne(x);
  }

  lemma TwoNodeDeviation(a: real, b: real)
    ensures Deviation([a, b]) == (a - b) * (a - b) / 2.0
  {
    SumOfTwo(a, b);
    var avg := (a + b) / 2.0;
    assert Average([a, b]) == avg;
    assert [a, b][..1] == [a] && [a][..0] == [];
    assert SumSquares([a], avg) == (a - avg) * (a - avg);
    assert SumSquares([a, b], avg) == SumSquares([a], avg) + (b - avg) * (b - avg);
    HalfGaps(a, b, avg);
  }

  lemma HalfGaps(a: real, b: real, avg: real)
    requires avg == (a + b) / 2.0
    ensures (a - avg) * (a - avg) + (b - avg) * (b - avg) == (a - b) * (a - b) / 2.0
  {
    var h := (a - b) / 2.0;
    assert a - avg == h && b - avg == -h;
    assert (a - b) * (a - b) == 4.0 * (h * h);
  }

  /** Two nodes exchange as soon as their times differ noticeably, although by the documented
      condition they never would. */
  lemma TwoNodesExchange(a: real, b: real, square: real)
    requires square == (a - b) * (a - b)
    ensures Worthwhile([a, b], 1, 1) <==> square / 2.0 * 1.41421356237 > 0.01
    ensures FarApart([a, b], 1, 1) <==> a == b
  {
    TwoNodeDeviation(a, b);
    assert [a, b][..1] == [a] && [a, b][1..] == [b];
    SumOfOne(a);
    SumOfOne(b);
    SquareSign(a - b, square);
  }

  lemma SquareSign(x: real, square: real)
    requires square == x * x
    ensures square >= 0.0 && (square == 0.0 <==> x == 0.0)
  {
    if x != 0.0 {
      ProductPositive(x, x, square);
    }
  }

  /** Factors of the same sign have a positive product. */
  lemma ProductPositive(x: real, y: real, product: real)
    requires product == x * y && ((x < 0.0 && y < 0.0) || (x > 0.0 && y > 0.0))
    ensures product > 0.0
  {
  }

  /** Position `i` belongs to the slowest or to the fastest nodes. */
  predicate AtEnd(order: seq<nat>, i: nat, topN: nat, bottomK: nat)
    requires topN + bottomK <= |order|
  {
    i < topN || i >= |order| - bottomK
  }

  /** The nodes among the first `i` that are at the ends, or those that are not. */
  function Pick(order: seq<nat>, i: nat, topN: nat, bottomK: nat, ends: bool): seq<nat>
    requires i <= |order| && topN + bottomK <= |order|
  {
    if i == 0 then []
    else Pick(order, i - 1, topN, bottomK, ends) + if AtEnd(order, i - 1, topN, bottomK) == ends then [order[i - 1]] else []
  }

  lemma DistinctAppend(ks: seq<nat>, k: nat)
    requires Distinct(ks) && k !in ks
    ensures Distinct(ks + [k])
  {
  }

  lemma {:induction false} PickMembers(order: seq<nat>, i: nat, topN: nat, bottomK: nat, ends: bool)
    requires i <= |order| && topN + bottomK <= |order| && Distinct(order)
    ensures Distinct(Pick(order, i, topN, bottomK, ends))
    ensures forall k :: k in Pick(order, i, topN, bottomK, ends) <==>
                        exists j :: 0 <= j < i && order[j] == k && AtEnd(order, j, topN, bottomK) == ends
  {
    if i > 0 {
      PickMembers(order, i - 1, topN, bottomK, ends);
      DistinctAppend(Pick(order, i - 1, topN, bottomK, ends), order[i - 1]);
    }
  }

  /** The items of the picked nodes. */
  function Picked<W>(nodeMap: Schedule<W>, order: seq<nat>, i: nat, topN: nat, bottomK: nat, ends: bool): seq<W>
    requires i <= |order| && topN + bottomK <= |order| && Listed(nodeMap, order)
  {
    if i == 0 then []
    else
      Picked(nodeMap, order, i - 1, topN, bottomK, ends) +
      if AtEnd(order, i - 1, topN, bottomK) == ends then nodeMap[order[i - 1]] else []
  }

  lemma {:induction false} PickedIsItems<W>(nodeMap: Schedule<W>, order: seq<nat>, i: nat, topN: nat, bottomK: nat, ends: bool)
    requires i <= |order| && topN + bottomK <= |order| && Listed(nodeMap, order)
    ensures Listed(nodeMap, Pick(order, i, topN, bottomK, ends))
    ensures Picked(nodeMap, order, i, topN, bottomK, ends) == ItemsOfNodes(nodeMap, Pick(order, i, topN, bottomK, ends))
  {
    if i > 0 {
      PickedIsItems(nodeMap, order, i - 1, topN, bottomK, ends);
      var before := Pick(order, i - 1, topN, bottomK, ends);
      if AtEnd(order, i - 1, topN, bottomK) == ends {
        ItemsOfNodesNext(nodeMap, before, order[i - 1]);
      } else {
        assert Pick(order, i, topN, bottomK, ends) == before;
      }
    }
  }

  lemma AddToOne<W>(a: seq<W>, b: seq<W>, c: seq<W>, x: seq<W>, first: bool, a': seq<W>, b': seq<W>, c': seq<W>)
    requires multiset(a) + multiset(b) == multiset(c)
    requires a' == a + (if first then x else []) && b' == b + (if first then [] else x) && c' == c + x
    ensures multiset(a') + multiset(b') == multiset(c')
  {
    assert a + [] == a && b + [] == b;
  }

  lemma {:induction false} PickedBoth<W>(nodeMap: Schedule<W>, order: seq<nat>, i: nat, topN: nat, bottomK: nat)
    requires i <= |order| && topN + bottomK <= |order| && Listed(nodeMap, order)
    ensures multiset(Picked(nodeMap, order, i, topN, bottomK, true)) + multiset(Picked(nodeMap, order, i, topN, bottomK, false))
         == multiset(ItemsOfNodes(nodeMap, order[..i]))
  {
    if i > 0 {
      PickedBoth(nodeMap, order, i - 1, topN, bottomK);
      ItemsOfNodesNext(nodeMap, order[..i - 1], order[i - 1]);
      assert order[..i] == order[..i - 1] + [order[i - 1]];
      AddToOne(Picked(nodeMap, order, i - 1, topN, bottomK, true), Picked(nodeMap, order, i - 1, topN, bottomK, false),
               ItemsOfNodes(nodeMap, order[..i - 1]), nodeMap[order[i - 1]], AtEnd(order, i - 1, topN, bottomK),
               Picked(nodeMap, order, i, topN, bottomK, true), Picked(nodeMap, order, i, topN, bottomK, false),
               ItemsOfNodes(nodeMap, order[..i]));
    }
  }

  /** What a task of the node at position `i` costs; those of the slowest nodes are scaled up to their slowness. */
  function EndCost<W>(nodeMap: Schedule<W>, nodeLoads: map<nat, real>, time: real, k: nat, slow: bool, fastest: real, undefined: real): real
    requires k in nodeMap
  {
    if !slow then TaskCost(nodeMap, nodeLoads, k)
    else if fastest == 0.0 then undefined
    else TaskCost(nodeMap, nodeLoads, k) * (time / fastest)
  }

  /** A slow node's task costs as many times more as the node is slower than the fastest ones. */
  lemma EndCostScaled<W>(nodeMap: Schedule<W>, nodeLoads: map<nat, real>, time: real, k: nat, fastest: real, undefined: real)
    requires k in nodeMap && fastest != 0.0
    ensures EndCost(nodeMap, nodeLoads, time, k, true, fastest, undefined) * fastest == TaskCost(nodeMap, nodeLoads, k) * time
    ensures EndCost(nodeMap, nodeLoads, time, k, false, fastest, undefined) == TaskCost(nodeMap, nodeLoads, k)
  {
    var cost, ratio := TaskCost(nodeMap, nodeLoads, k), time / fastest;
    assert ratio * fastest == time;
    assert cost * ratio * fastest == cost * (ratio * fastest);
  }

  /** The cost of a task of each node of the order. */
  function EndCosts<W>(nodeMap: Schedule<W>, nodeLoads: map<nat, real>, nodeTimes: map<nat, real>, order: seq<nat>, topN: nat,
                       fastest: real, undefined: real): (costs: seq<real>)
    requires Listed(nodeMap, order) && Timed(order, nodeTimes)
    ensures |costs| == |order|
  {
    seq(|order|, i requires 0 <= i < |order| =>
      EndCost(nodeMap, nodeLoads, nodeTimes[order[i]], order[i], i < topN, fastest, undefined))
  }

  /** The items of the nodes at the ends, each at the cost of its own node. */
  function EndTasks<W>(nodeMap: Schedule<W>, order: seq<nat>, costs: seq<real>, i: nat, topN: nat, bottomK: nat): seq<Costed<W>>
    requires i <= |order| == |costs| && topN + bottomK <= |order| && Listed(nodeMap, order)
  {
    if i == 0 then []
    else
      EndTasks(nodeMap, order, costs, i - 1, topN, bottomK) +
      if AtEnd(order, i - 1, topN, bottomK) then WithCost(costs[i - 1], nodeMap[order[i - 1]]) else []
  }

  lemma {:induction false} EndTasksItems<W>(nodeMap: Schedule<W>, order: seq<nat>, costs: seq<real>, i: nat, topN: nat, bottomK: nat)
    requires i <= |order| == |costs| && topN + bottomK <= |order| && Listed(nodeMap, order)
    ensures Items(EndTasks(nodeMap, order, costs, i, topN, bottomK)) == Picked(nodeMap, order, i, topN, bottomK, true)
  {
    if i > 0 {
      EndTasksItems(nodeMap, order, costs, i - 1, topN, bottomK);
      var before := EndTasks(nodeMap, order, costs, i - 1, topN, bottomK);
      WithCostItems(before, costs[i - 1], nodeMap[order[i - 1]]);
      assert before + [] == before;
    }
  }

  lemma {:induction false} EndTasksNonNegative<W>(nodeMap: Schedule<W>, order: seq<nat>, costs: seq<real>, i: nat, topN: nat,
                                                  bottomK: nat)
    requires i <= |order| == |costs| && topN + bottomK <= |order| && Listed(nodeMap, order)
    requires forall j :: 0 <= j < |costs| ==> costs[j] >= 0.0
    ensures NonNegative(EndTasks(nodeMap, order, costs, i, topN, bottomK))
  {
    if i > 0 {
      EndTasksNonNegative(nodeMap, order, costs, i - 1, topN, bottomK);
    }
  }

  lemma ReorderedNonNegative<W>(a: seq<Costed<W>>, b: seq<Costed<W>>)
    requires multiset(a) == multiset(b) && NonNegative(a)
    ensures NonNegative(b)
  {
    forall i | 0 <= i < |b| ensures 0.0 <= b[i].0 {
      assert b[i] in multiset(a);
    }
  }

  lemma ScaledNonNegative(cost: real, time: real, fastest: real)
    requires cost >= 0.0 && time >= 0.0 && fastest > 0.0
    ensures cost * (time / fastest) >= 0.0
  {
  }

  /** With no negative times, no cost is negative. */
  lemma EndCostsNonNegative<W>(nodeMap: Schedule<W>, nodeLoads: map<nat, real>, nodeTimes: map<nat, real>, order: seq<nat>,
                               topN: nat, fastest: real, undefined: real)
    requires Listed(nodeMap, order) && Timed(order, nodeTimes) && fastest >= 0.0 && undefined >= 0.0
    requires forall k :: k in nodeTimes ==> nodeTimes[k] >= 0.0
    ensures forall i :: 0 <= i < |order| ==> EndCosts(nodeMap, nodeLoads, nodeTimes, order, topN, fastest, undefined)[i] >= 0.0
  {
    forall i | 0 <= i < |order|
      ensures EndCost(nodeMap, nodeLoads, nodeTimes[order[i]], order[i], i < topN, fastest, undefined) >= 0.0
    {
      if i < topN && fastest > 0.0 {
        ScaledNonNegative(TaskCost(nodeMap, nodeLoads, order[i]), nodeTimes[order[i]], fastest);
      }
    }
  }

  lemma {:induction false} SumNonNegative(times: seq<real>)
    requires forall i :: 0 <= i < |times| ==> times[i] >= 0.0
    ensures Sum(times) >= 0.0
  {
    if times != [] {
      SumNonNegative(times[..|times| - 1]);
    }
  }

  /** Average time of the fastest nodes. */
  function FastestAverage(order: seq<nat>, nodeTimes: map<nat, real>, bottomK: nat): real
    requires KeySet(order) <= nodeTimes.Keys && 1 <= bottomK <= |order|
  {
    Average(TimesOf(order, nodeTimes)[|order| - bottomK..])
  }

  lemma FastestNonNegative(order: seq<nat>, nodeTimes: map<nat, real>, bottomK: nat)
    requires KeySet(order) <= nodeTimes.Keys && 1 <= bottomK <= |order|
    requires forall k :: k in nodeTimes ==> nodeTimes[k] >= 0.0
    ensures FastestAverage(order, nodeTimes, bottomK) >= 0.0
  {
    SumNonNegative(TimesOf(order, nodeTimes)[|order| - bottomK..]);
  }

  /** The tasks to redistribute: the items of the nodes at the ends. */
  method GatherEnds<W>(nodeMap: Schedule<W>, nodeLoads: map<nat, real>, nodeTimes: map<nat, real>, order: seq<nat>,
                       topN: nat, bottomK: nat, fastest: real, undefined: real)
    returns (eligible: seq<nat>, tasks: seq<Costed<W>>)
    requires Listed(nodeMap, order) && topN + bottomK <= |order| && Timed(order, nodeTimes)
    ensures eligible == Pick(order, |order|, topN, bottomK, true)
    ensures tasks == EndTasks(nodeMap, order, EndCosts(nodeMap, nodeLoads, nodeTimes, order, topN, fastest, undefined),
                              |order|, topN, bottomK)
  {
    ghost var costs := EndCosts(nodeMap, nodeLoads, nodeTimes, order, topN, fastest, undefined);
    eligible, tasks := [], [];
    for i := 0 to |order|
      invariant eligible == Pick(order, i, topN, bottomK, true)
      invariant tasks == EndTasks(nodeMap, order, costs, i, topN, bottomK)
    {
      var k := order[i];
      if i < topN || i >= |order| - bottomK {
        var cost := TaskCost(nodeMap, nodeLoads, k);
        if i < topN {
          cost := if fastest == 0.0 then undefined else cost * (nodeTimes[k] / fastest);
        }
        assert cost == costs[i];
        eligible := eligible + [k];
        tasks := tasks + WithCost(cost, nodeMap[k]);
      }
    }
  }

  /** The nodes in between keep their items. */
  method KeepMiddle<W>(nodeMap: Schedule<W>, order: seq<nat>, topN: nat, bottomK: nat) returns (s: Schedule<W>)
    requires Listed(nodeMap, order) && topN + bottomK <= |order|
    ensures s == Kept(nodeMap, Pick(order, |order|, topN, bottomK, false))
  {
    s := map[];
    for i := 0 to |order|
      invariant s == Kept(nodeMap, Pick(order, i, topN, bottomK, false))
    {
      var k := order[i];
      KeptNext(nodeMap, Pick(order, i, topN, bottomK, false), k);
      if !(i < topN || i >= |order| - bottomK) {
        if nodeMap[k] != [] {
          s := s[k := nodeMap[k]];
        }
      }
    }
  }

  lemma ExchangeConserves<W>(nodeMap: Schedule<W>, order: seq<nat>, topN: nat, bottomK: nat)
    requires Listed(nodeMap, order) && Distinct(order) && topN + bottomK <= |order|
    ensures multiset(Picked(nodeMap, order, |order|, topN, bottomK, true))
          + AllItems(Kept(nodeMap, Pick(order, |order|, topN, bottomK, false)))
          + AllItems(nodeMap - KeySet(order)) == AllItems(nodeMap)
  {
    PickMembers(order, |order|, topN, bottomK, false);
    PickedIsItems(nodeMap, order, |order|, topN, bottomK, false);
    KeptItems(nodeMap, Pick(order, |order|, topN, bottomK, false));
    PickedBoth(nodeMap, order, |order|, topN, bottomK);
    ListedAndRest(nodeMap, order, |order|);
    assert order[..|order|] == order;
  }

  function FirstNodes(nodes: nat): (ks: seq<nat>)
    ensures Distinct(ks) && forall k :: k in ks ==> k < nodes
  {
    seq(nodes, i => i)
  }

  /** All nodes below `nodes`, none with items yet. */
  function FreshNodes<W>(nodes: nat): Schedule<W> { map k | k in FirstNodes(nodes) :: [] }

  lemma FreshNodesEmpty<W>(nodes: nat)
    ensures AllItems(FreshNodes<W>(nodes)) == multiset{}
  {
    DropEmptyKeepsItems(FreshNodes<W>(nodes));
    assert DropEmpty(FreshNodes<W>(nodes)) == map[];
  }

  /** All items went, at their own nodes' costs, greedily to the first `nodes` nodes, within one task of each other. */
  ghost predicate Redistributed<W>(nodeMap: Schedule<W>, nodeLoads: map<nat, real>, nodes: nat, s: Schedule<W>,
                                       tasks: seq<Costed<W>>, place: seq<nat>) {
    var eligible := KeySet(FirstNodes(nodes));
    && multiset(Items(tasks)) == AllItems(nodeMap) == AllItems(s)
    && AtOwnCost(nodeMap, nodeLoads, tasks)
    && PlacedGreedily(tasks, place, eligible, map[], s)
    && Balanced(tasks, place, eligible)
  }

  lemma FromNothing<W>(tasks: seq<Costed<W>>, place: seq<nat>, eligible: set<nat>, nodes: nat, s: Schedule<W>)
    requires PlacedGreedily(tasks, place, eligible, FreshNodes<W>(nodes), s)
    ensures PlacedGreedily(tasks, place, eligible, map[], s)
  {
    forall n: nat ensures ItemsOn(FreshNodes<W>(nodes), n) == ItemsOn<W>(map[], n) {
    }
  }

  /** All tasks are redistributed over the first `nodes` nodes. */
  method Redistribute<W(==)>(nodeMap: Schedule<W>, nodeLoads: map<nat, real>, nodes: nat)
    returns (s: Schedule<W>, ghost tasks: seq<Costed<W>>, ghost place: seq<nat>)
    ensures nodes > 0 ==> Redistributed(nodeMap, nodeLoads, nodes, s, tasks, place)
    ensures nodes == 0 ==> s == map[]
    ensures forall k :: k in s ==> k < nodes && s[k] != []
  {
    var all := GatherAll(nodeMap, nodeLoads);
    var eligible := FirstNodes(nodes);
    var placed;
    placed, place := Partition(all, eligible, FreshNodes<W>(nodes));
    tasks := all;
    FreshNodesEmpty<W>(nodes);
    DropEmptyKeepsItems(placed);
    s := DropEmpty(placed);
    if nodes > 0 {
      FromNothing(all, place, KeySet(eligible), nodes, placed);
      DropEmptyPlaced(all, place, KeySet(eligible), map[], placed);
      OwnCostNonNegative(nodeMap, nodeLoads, all);
      GreedyIsBalanced(all, place, KeySet(eligible));
      FirstNodesOnly(all, place, nodes, s);
    }
  }

  lemma FirstNodesOnly<W>(tasks: seq<Costed<W>>, place: seq<nat>, nodes: nat, s: Schedule<W>)
    requires PlacedGreedily(tasks, place, KeySet(FirstNodes(nodes)), map[], s)
    ensures forall k :: k in s && s[k] != [] ==> k < nodes
  {
    forall k | k in s && s[k] != [] ensures k in FirstNodes(nodes) {
      if k !in FirstNodes(nodes) {
        OthersUntouched(tasks, place, KeySet(FirstNodes(nodes)), map[], s, k);
      }
    }
  }

  /** The tasks of the end nodes, those of the slowest scaled by how much slower than the fastest they are. */
  function ScaledTasks<W>(nodeMap: Schedule<W>, nodeLoads: map<nat, real>, nodeTimes: map<nat, real>, order: seq<nat>,
                          topN: nat, bottomK: nat, undefined: real): seq<Costed<W>>
    requires SlowestFirst(order, nodeTimes) && Listed(nodeMap, order) && topN + bottomK <= |order| && bottomK >= 1
  {
    var fastest := FastestAverage(order, nodeTimes, bottomK);
    EndTasks(nodeMap, order, EndCosts(nodeMap, nodeLoads, nodeTimes, order, topN, fastest, undefined), |order|, topN, bottomK)
  }

  /** The nodes in between kept their items; those of the end nodes went greedily to the end nodes. */
  ghost predicate Exchanged<W>(nodeMap: Schedule<W>, nodeLoads: map<nat, real>, nodeTimes: map<nat, real>, order: seq<nat>,
                                   topN: nat, bottomK: nat, undefined: real, s: Schedule<W>, tasks: seq<Costed<W>>, place: seq<nat>)
    requires SlowestFirst(order, nodeTimes) && Listed(nodeMap, order) && topN + bottomK <= |order| && bottomK >= 1
  {
    var ends := KeySet(Pick(order, |order|, topN, bottomK, true));
    && AllItems(s) + AllItems(nodeMap - nodeTimes.Keys) == AllItems(nodeMap)
    && multiset(tasks) == multiset(ScaledTasks(nodeMap, nodeLoads, nodeTimes, order, topN, bottomK, undefined))
    && PlacedGreedily(tasks, place, ends, Kept(nodeMap, Pick(order, |order|, topN, bottomK, false)), s)
    && ((forall k :: k in nodeTimes ==> nodeTimes[k] >= 0.0) && undefined >= 0.0 ==> Balanced(tasks, place, ends))
    && forall i :: 0 <= i < |order| && !AtEnd(order, i, topN, bottomK) ==> ItemsOn(s, order[i]) == nodeMap[order[i]]
  }

  lemma ExchangeBalanced<W>(nodeMap: Schedule<W>, nodeLoads: map<nat, real>, nodeTimes: map<nat, real>, order: seq<nat>,
                            topN: nat, bottomK: nat, undefined: real, tasks: seq<Costed<W>>, place: seq<nat>, ends: set<nat>)
    requires SlowestFirst(order, nodeTimes) && Listed(nodeMap, order) && topN + bottomK <= |order| && bottomK >= 1
    requires multiset(tasks) == multiset(ScaledTasks(nodeMap, nodeLoads, nodeTimes, order, topN, bottomK, undefined))
    requires |place| <= |tasks| && Greedy(tasks, place, ends)
    ensures (forall k :: k in nodeTimes ==> nodeTimes[k] >= 0.0) && undefined >= 0.0 ==> Balanced(tasks, place, ends)
  {
    if (forall k :: k in nodeTimes ==> nodeTimes[k] >= 0.0) && undefined >= 0.0 {
      var fastest := FastestAverage(order, nodeTimes, bottomK);
      FastestNonNegative(order, nodeTimes, bottomK);
      EndCostsNonNegative(nodeMap, nodeLoads, nodeTimes, order, topN, fastest, undefined);
      EndTasksNonNegative(nodeMap, order, EndCosts(nodeMap, nodeLoads, nodeTimes, order, topN, fastest, undefined),
                          |order|, topN, bottomK);
      ReorderedNonNegative(ScaledTasks(nodeMap, nodeLoads, nodeTimes, order, topN, bottomK, undefined), tasks);
      GreedyIsBalanced(tasks, place, ends);
    }
  }

  /** The tasks of the slowest and the fastest nodes, in arbitrary order. */
  method GatherShuffled<W(==)>(nodeMap: Schedule<W>, nodeLoads: map<nat, real>, nodeTimes: map<nat, real>, order: seq<nat>,
                               topN: nat, bottomK: nat, undefined: real)
    returns (eligible: seq<nat>, tasks: seq<Costed<W>>)
    requires SlowestFirst(order, nodeTimes) && Listed(nodeMap, order) && topN + bottomK <= |order| && bottomK >= 1
    ensures eligible == Pick(order, |order|, topN, bottomK, true)
    ensures multiset(Items(tasks)) == multiset(Picked(nodeMap, order, |order|, topN, bottomK, true))
    ensures multiset(tasks) == multiset(ScaledTasks(nodeMap, nodeLoads, nodeTimes, order, topN, bottomK, undefined))
  {
    var fastest := FastestAverage(order, nodeTimes, bottomK);
    var gathered;
    eligible, gathered := GatherEnds(nodeMap, nodeLoads, nodeTimes, order, topN, bottomK, fastest, undefined);
    tasks := Shuffle(gathered);
    ItemsPermute(tasks, gathered);
    EndTasksItems(nodeMap, order, EndCosts(nodeMap, nodeLoads, nodeTimes, order, topN, fastest, undefined),
                  |order|, topN, bottomK);
  }

  lemma FirstIsEligible(order: seq<nat>, topN: nat, bottomK: nat)
    requires Distinct(order) && topN + bottomK <= |order| && topN >= 1
    ensures Distinct(Pick(order, |order|, topN, bottomK, true)) && Pick(order, |order|, topN, bottomK, true) != []
  {
    PickMembers(order, |order|, topN, bottomK, true);
    assert AtEnd(order, 0, topN, bottomK);
    assert order[0] in Pick(order, |order|, topN, bottomK, true);
  }

  /** Only the slowest and the fastest nodes exchange tasks. */
  method ExchangeEnds<W(==)>(nodeMap: Schedule<W>, nodeLoads: map<nat, real>, nodeTimes: map<nat, real>, order: seq<nat>,
                             topN: nat, bottomK: nat, undefined: real)
    returns (s: Schedule<W>, ghost tasks: seq<Costed<W>>, ghost place: seq<nat>)
    requires SlowestFirst(order, nodeTimes) && Listed(nodeMap, order)
    requires topN + bottomK <= |order| && topN >= 1 && bottomK >= 1
    ensures Exchanged(nodeMap, nodeLoads, nodeTimes, order, topN, bottomK, undefined, s, tasks, place)
    ensures forall k :: k in s ==> k in nodeTimes && s[k] != []
  {
    var eligible, shuffled := GatherShuffled(nodeMap, nodeLoads, nodeTimes, order, topN, bottomK, undefined);
    tasks := shuffled;
    var kept := KeepMiddle(nodeMap, order, topN, bottomK);
    FirstIsEligible(order, topN, bottomK);
    var placed;
    placed, place := Partition(shuffled, eligible, kept);
    ExchangeConserves(nodeMap, order, topN, bottomK);
    DropEmptyKeepsItems(placed);
    s := DropEmpty(placed);
    DropEmptyPlaced(shuffled, place, KeySet(eligible), kept, placed);
    ExchangeBalanced(nodeMap, nodeLoads, nodeTimes, order, topN, bottomK, undefined, shuffled, place, KeySet(eligible));
    EndsOnly(nodeMap, order, topN, bottomK, tasks, place, s);
  }

  lemma EndsOnly<W>(nodeMap: Schedule<W>, order: seq<nat>, topN: nat, bottomK: nat, tasks: seq<Costed<W>>, place: seq<nat>,
                    s: Schedule<W>)
    requires Distinct(order) && Listed(nodeMap, order) && topN + bottomK <= |order|
    requires PlacedGreedily(tasks, place, KeySet(Pick(order, |order|, topN, bottomK, true)),
                            Kept(nodeMap, Pick(order, |order|, topN, bottomK, false)), s)
    ensures forall i :: 0 <= i < |order| && !AtEnd(order, i, topN, bottomK) ==> ItemsOn(s, order[i]) == nodeMap[order[i]]
    ensures forall k :: k in s && s[k] != [] ==> k in KeySet(order)
  {
    var ends, middle := Pick(order, |order|, topN, bottomK, true), Pick(order, |order|, topN, bottomK, false);
    PickMembers(order, |order|, topN, bottomK, true);
    PickMembers(order, |order|, topN, bottomK, false);
    forall i | 0 <= i < |order| && !AtEnd(order, i, topN, bottomK) ensures ItemsOn(s, order[i]) == nodeMap[order[i]] {
      assert order[i] !in ends && order[i] in middle;
      OthersUntouched(tasks, place, KeySet(ends), Kept(nodeMap, middle), s, order[i]);
    }
    EndsAndMiddle(order, topN, bottomK);
    forall k | k in s && s[k] != [] ensures k in KeySet(order) {
      if k !in ends {
        OthersUntouched(tasks, place, KeySet(ends), Kept(nodeMap, middle), s, k);
      }
    }
  }

  lemma EndsAndMiddle(order: seq<nat>, topN: nat, bottomK: nat)
    requires Distinct(order) && topN + bottomK <= |order|
    ensures forall k, b :: k in Pick(order, |order|, topN, bottomK, b) ==> k in KeySet(order)
  {
    PickMembers(order, |order|, topN, bottomK, true);
    PickMembers(order, |order|, topN, bottomK, false);
  }

  lemma {:induction false} DistinctSize(ks: seq<nat>)
    requires Distinct(ks)
    ensures |KeySet(ks)| == |ks|
  {
    if ks != [] {
      var init, k := ks[..|ks| - 1], ks[|ks| - 1];
      DistinctSize(init);
      assert ks == init + [k];
      assert KeySet(ks) == KeySet(init) + {k};
    }
  }

  lemma OrderSize(order: seq<nat>, nodeTimes: map<nat, real>)
    requires SlowestFirst(order, nodeTimes)
    ensures |order| == |nodeTimes|
  {
    DistinctSize(order);
    assert |nodeTimes| == |nodeTimes.Keys|;
  }

  /** Which outcome occurs when all loads are of known nodes, and what it contains. */
  ghost predicate Decided<W>(nodeMap: Schedule<W>, nodeLoads: map<nat, real>, nodeTimes: map<nat, real>, nodes: nat,
                             randomly: bool, topN: nat, bottomK: nat, undefined: real,
                             r: Outcome<Schedule<W>>, order: seq<nat>, tasks: seq<Costed<W>>, place: seq<nat>)
    requires SlowestFirst(order, nodeTimes) && |order| == |nodeTimes|
  {
    if |nodeLoads| != nodes || randomly || |nodeTimes| < topN + bottomK then
      && r.Ok?
      && (forall k :: k in r.value ==> k < nodes && r.value[k] != [])
      && (nodes > 0 ==> Redistributed(nodeMap, nodeLoads, nodes, r.value, tasks, place))
    else if !Worthwhile(TimesOf(order, nodeTimes), topN, bottomK) then r == Ok(map[])
    else if !(nodeTimes.Keys <= nodeMap.Keys) then r == OutOfRange
    else
      && r.Ok? && Listed(nodeMap, order)
      && (forall k :: k in r.value ==> k in nodeTimes && r.value[k] != [])
      && Exchanged(nodeMap, nodeLoads, nodeTimes, order, topN, bottomK, undefined, r.value, tasks, place)
  }

  lemma ExchangedConserves<W>(nodeMap: Schedule<W>, nodeLoads: map<nat, real>, nodeTimes: map<nat, real>, order: seq<nat>,
                              topN: nat, bottomK: nat, undefined: real, s: Schedule<W>, tasks: seq<Costed<W>>, place: seq<nat>)
    requires SlowestFirst(order, nodeTimes) && Listed(nodeMap, order) && topN + bottomK <= |order| && bottomK >= 1
    requires Exchanged(nodeMap, nodeLoads, nodeTimes, order, topN, bottomK, undefined, s, tasks, place)
    requires nodeMap.Keys == nodeTimes.Keys
    ensures AllItems(s) == AllItems(nodeMap)
  {
    assert nodeMap - nodeTimes.Keys == map[];
  }

  /** With the same nodes in all inputs and a node requested, whatever is decided keeps all items. */
  lemma DecidedConserves<W>(nodeMap: Schedule<W>, nodeLoads: map<nat, real>, nodeTimes: map<nat, real>, nodes: nat,
                            randomly: bool, topN: nat, bottomK: nat, undefined: real,
                            r: Outcome<Schedule<W>>, order: seq<nat>, tasks: seq<Costed<W>>, place: seq<nat>)
    requires SlowestFirst(order, nodeTimes) && |order| == |nodeTimes|
    requires Decided(nodeMap, nodeLoads, nodeTimes, nodes, randomly, topN, bottomK, undefined, r, order, tasks, place)
    requires nodeMap.Keys == nodeTimes.Keys && nodes > 0
    ensures r.Ok? && (r.value == map[] || AllItems(r.value) == AllItems(nodeMap))
  {
    if |nodeLoads| != nodes || randomly || |nodeTimes| < topN + bottomK {
      assert Redistributed(nodeMap, nodeLoads, nodes, r.value, tasks, place);
    } else if Worthwhile(TimesOf(order, nodeTimes), topN, bottomK) {
      ExchangedConserves(nodeMap, nodeLoads, nodeTimes, order, topN, bottomK, undefined, r.value, tasks, place);
    }
  }

  /** A change of the number of nodes, a request for random distribution or too few measurements put all
      items on the requested nodes, evenly. */
  lemma DecidedAnew<W>(nodeMap: Schedule<W>, nodeLoads: map<nat, real>, nodeTimes: map<nat, real>, nodes: nat,
                       randomly: bool, topN: nat, bottomK: nat, undefined: real,
                       r: Outcome<Schedule<W>>, order: seq<nat>, tasks: seq<Costed<W>>, place: seq<nat>)
    requires SlowestFirst(order, nodeTimes) && |order| == |nodeTimes| && nodes > 0
    requires Decided(nodeMap, nodeLoads, nodeTimes, nodes, randomly, topN, bottomK, undefined, r, order, tasks, place)
    requires |nodeLoads| != nodes || randomly || |nodeTimes| < topN + bottomK
    ensures r.Ok? && EvenOnFirst(nodeMap, nodes, r.value, tasks, place)
  {
    EvenByRedistribution(nodeMap, nodeLoads, nodes, r.value, tasks, place);
  }

  lemma EvenByRedistribution<W>(nodeMap: Schedule<W>, nodeLoads: map<nat, real>, nodes: nat, s: Schedule<W>,
                                tasks: seq<Costed<W>>, place: seq<nat>)
    requires Redistributed(nodeMap, nodeLoads, nodes, s, tasks, place) && forall k :: k in s ==> k < nodes
    ensures EvenOnFirst(nodeMap, nodes, s, tasks, place)
  {
    PlacedFromNothing(tasks, place, KeySet(FirstNodes(nodes)), s);
    forall k: nat | k < nodes ensures k in KeySet(FirstNodes(nodes)) {
      assert FirstNodes(nodes)[k] == k;
    }
  }

  lemma PlacedFromNothing<W>(tasks: seq<Costed<W>>, place: seq<nat>, eligible: set<nat>, s: Schedule<W>)
    requires PlacedGreedily(tasks, place, eligible, map[], s)
    ensures forall n: nat :: ItemsOn(s, n) == PlacedItems(tasks, place, n)
  {
    forall n: nat ensures ItemsOn(s, n) == PlacedItems(tasks, place, n) {
      assert ItemsOn<W>(map[], n) + PlacedItems(tasks, place, n) == PlacedItems(tasks, place, n);
    }
  }

  /** All items are on the first `nodes` nodes, where the tasks were placed within one cost of each other. */
  ghost predicate EvenOnFirst<W>(nodeMap: Schedule<W>, nodes: nat, s: Schedule<W>, tasks: seq<Costed<W>>, place: seq<nat>) {
    && (forall k :: k in s ==> k < nodes)
    && AllItems(s) == AllItems(nodeMap)
    && |place| == |tasks| && (forall n: nat :: ItemsOn(s, n) == PlacedItems(tasks, place, n))
    && forall a: nat, b: nat, largest: real {:trigger PlacedCost(tasks, place, a), PlacedCost(tasks, place, b), CostsWithin(tasks, largest)} ::
         a < nodes && b < nodes && CostsWithin(tasks, largest) ==> PlacedCost(tasks, place, a) - PlacedCost(tasks, place, b) <= largest
  }

  /** Otherwise the nodes in the middle keep what they have, unless the schedule is empty. */
  lemma DecidedInPlace<W>(nodeMap: Schedule<W>, nodeLoads: map<nat, real>, nodeTimes: map<nat, real>, nodes: nat,
                          randomly: bool, topN: nat, bottomK: nat, undefined: real,
                          r: Outcome<Schedule<W>>, order: seq<nat>, tasks: seq<Costed<W>>, place: seq<nat>)
    requires SlowestFirst(order, nodeTimes) && |order| == |nodeTimes|
    requires Decided(nodeMap, nodeLoads, nodeTimes, nodes, randomly, topN, bottomK, undefined, r, order, tasks, place)
    requires |nodeLoads| == nodes && !randomly && |nodeTimes| >= topN + bottomK
    ensures r.Ok? && r.value != map[] ==> MiddleKept(nodeMap, order, topN, bottomK, r.value)
  {
  }

  /** An exchange takes place exactly for two non-empty groups and a noticeable gap above the threshold. */
  lemma DecidedExchange<W>(nodeMap: Schedule<W>, nodeLoads: map<nat, real>, nodeTimes: map<nat, real>, nodes: nat,
                           randomly: bool, topN: nat, bottomK: nat, undefined: real,
                           r: Outcome<Schedule<W>>, order: seq<nat>, tasks: seq<Costed<W>>, place: seq<nat>)
    requires SlowestFirst(order, nodeTimes) && |order| == |nodeTimes|
    requires Decided(nodeMap, nodeLoads, nodeTimes, nodes, randomly, topN, bottomK, undefined, r, order, tasks, place)
    requires |nodeLoads| == nodes && !randomly && |nodeTimes| >= topN + bottomK
    ensures
      if !(topN >= 1 && bottomK >= 1 &&
           SquaredGap(TimesOf(order, nodeTimes), topN, bottomK) >= Deviation(TimesOf(order, nodeTimes)) * 1.41421356237 > 0.01)
      then r == Ok(map[])
      else if nodeTimes.Keys <= nodeMap.Keys then
        && r.Ok? && Listed(nodeMap, order)
        && Exchanged(nodeMap, nodeLoads, nodeTimes, order, topN, bottomK, undefined, r.value, tasks, place)
      else r == OutOfRange
  {
  }

  ghost predicate MiddleKept<W>(nodeMap: Schedule<W>, order: seq<nat>, topN: nat, bottomK: nat, s: Schedule<W>) {
    forall i: nat :: topN <= i && i + bottomK < |order| ==> order[i] in nodeMap && ItemsOn(s, order[i]) == nodeMap[order[i]]
  }

  /** Decides which node gets which work items; `undefined` is the value of a division by zero. */
  method DecideSchedule<W(==)>(nodeMap: Schedule<W>, nodeLoads: map<nat, real>, nodeTimes: map<nat, real>, nodes: nat,
                               randomly: bool, topN: nat, bottomK: nat, undefined: real)
    returns (r: Outcome<Schedule<W>>, ghost order: seq<nat>, ghost tasks: seq<Costed<W>>, ghost place: seq<nat>)
    ensures SlowestFirst(order, nodeTimes) && |order| == |nodeTimes|
    ensures !(nodeLoads.Keys <= nodeMap.Keys) ==> r == OutOfRange
    ensures nodeLoads.Keys <= nodeMap.Keys ==>
      Decided(nodeMap, nodeLoads, nodeTimes, nodes, randomly, topN, bottomK, undefined, r, order, tasks, place)
    ensures nodeLoads.Keys <= nodeMap.Keys && nodes > 0 && (|nodeLoads| != nodes || randomly || |nodeTimes| < topN + bottomK) ==>
      r.Ok? && EvenOnFirst(nodeMap, nodes, r.value, tasks, place)
    ensures nodeLoads.Keys <= nodeMap.Keys && |nodeLoads| == nodes && !randomly && |nodeTimes| >= topN + bottomK ==>
      r.Ok? && r.value != map[] ==> MiddleKept(nodeMap, order, topN, bottomK, r.value)
    ensures nodeLoads.Keys <= nodeMap.Keys && |nodeLoads| == nodes && !randomly && |nodeTimes| >= topN + bottomK ==>
      if !(topN >= 1 && bottomK >= 1 &&
           SquaredGap(TimesOf(order, nodeTimes), topN, bottomK) >= Deviation(TimesOf(order, nodeTimes)) * 1.41421356237 > 0.01)
      then r == Ok(map[])
      else if nodeTimes.Keys <= nodeMap.Keys then
        && r.Ok? && Listed(nodeMap, order)
        && Exchanged(nodeMap, nodeLoads, nodeTimes, order, topN, bottomK, undefined, r.value, tasks, place)
      else r == OutOfRange
  {
    r, order, tasks, place := Decide(nodeMap, nodeLoads, nodeTimes, nodes, randomly, topN, bottomK, undefined);
    if nodeLoads.Keys <= nodeMap.Keys {
      if |nodeLoads| == nodes && !randomly && |nodeTimes| >= topN + bottomK {
        DecidedExchange(nodeMap, nodeLoads, nodeTimes, nodes, randomly, topN, bottomK, undefined, r, order, tasks, place);
        DecidedInPlace(nodeMap, nodeLoads, nodeTimes, nodes, randomly, topN, bottomK, undefined, r, order, tasks, place);
      } else if nodes > 0 {
        DecidedAnew(nodeMap, nodeLoads, nodeTimes, nodes, randomly, topN, bottomK, undefined, r, order, tasks, place);
      }
    }
  }

  method Decide<W(==)>(nodeMap: Schedule<W>, nodeLoads: map<nat, real>, nodeTimes: map<nat, real>, nodes: nat,
                       randomly: bool, topN: nat, bottomK: nat, undefined: real)
    returns (r: Outcome<Schedule<W>>, ghost order: seq<nat>, ghost tasks: seq<Costed<W>>, ghost place: seq<nat>)
    ensures SlowestFirst(order, nodeTimes) && |order| == |nodeTimes|
    ensures !(nodeLoads.Keys <= nodeMap.Keys) ==> r == OutOfRange
    ensures nodeLoads.Keys <= nodeMap.Keys ==>
      Decided(nodeMap, nodeLoads, nodeTimes, nodes, randomly, topN, bottomK, undefined, r, order, tasks, place)
  {
    var sorted := SortByTime(nodeTimes);
    order, tasks, place := sorted, [], [];
    OrderSize(sorted, nodeTimes);
    if !(nodeLoads.Keys <= nodeMap.Keys) {
      r := OutOfRange;
    } else if |nodeLoads| != nodes || randomly || |nodeTimes| < topN + bottomK {
      var s;
      s, tasks, place := Redistribute(nodeMap, nodeLoads, nodes);
      r := Ok(s);
    } else if !Worthwhile(TimesOf(sorted, nodeTimes), topN, bottomK) {
      r := Ok(map[]);
    } else if !(nodeTimes.Keys <= nodeMap.Keys) {
      r := OutOfRange;
    } else {
      forall i | 0 <= i < |sorted| ensures sorted[i] in nodeMap {
        assert sorted[i] in KeySet(sorted);
      }
      var s;
      s, tasks, place := ExchangeEnds(nodeMap, nodeLoads, nodeTimes, sorted, topN, bottomK, undefined);
      r := Ok(s);
    }
  }

  /** With the same nodes in all three inputs and at least one node requested, the result is empty
      or holds exactly the items that came in. */
  method DecideForSameNodes<W(==)>(nodeMap: Schedule<W>, nodeLoads: map<nat, real>, nodeTimes: map<nat, real>, nodes: nat,
                                   randomly: bool, topN: nat, bottomK: nat, undefined: real)
    returns (s: Schedule<W>)
    requires nodeMap.Keys == nodeLoads.Keys == nodeTimes.Keys && nodes > 0
    ensures s == map[] || AllItems(s) == AllItems(nodeMap)
  {
    var r, order, tasks, place := DecideSchedule(nodeMap, nodeLoads, nodeTimes, nodes, randomly, topN, bottomK, undefined);
    DecidedConserves(nodeMap, nodeLoads, nodeTimes, nodes, randomly, topN, bottomK, undefined, r, order, tasks, place);
    s := r.value;
  }
}
