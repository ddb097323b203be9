/** Hierarchical accounting of task execution times. */
module TaskTimes {
  import opened Powers
  import opened TaskPath
  import opened Sums

  const TRACKING_LEVEL: nat := 14

  /** The times kept for the tasks at the tracking level, one slot each. */
  datatype Slots = Slots(level: nat, times: seq<real>)

  type Record = r: Slots | |r.times| == Pow2(r.level) witness Slots(0, [0.0])

  /** Distance from the level at which times are kept. */
  function Distance(level: nat, p: Path): nat {
    if Length(p) <= level then level - Length(p) else Length(p) - level
  }

  /** Half of a duration, rounded toward zero as durations are. */
  function HalfTime(t: int): (h: int)
    ensures t >= 0 ==> h <= t - h <= h + 1
    ensures t <= 0 ==> t - h <= h <= t - h + 1
  {
    if t >= 0 then t / 2 else -(-t / 2)
  }

  function GetTime(rec: Record, p: Path): real
    decreases Distance(rec.level, p)
  {
    if Length(p) == rec.level then
      BitsBound(p);
      rec.times[Bits(p)]
    else if Length(p) < rec.level then
      GetTime(rec, Child(p, false)) + GetTime(rec, Child(p, true))
    else GetTime(rec, p.parent) / 2.0
  }

  /** The tracked task that stands for `p`: `p` itself or its ancestor at the tracking level. */
  function Tracked(level: nat, p: Path): (q: Path)
    ensures Length(q) <= level
  {
    if Length(p) <= level then p else Ancestor(p, level)
  }

  /** What one task at the tracking level receives of a time spread over `p`. */
  function Portion(level: nat, p: Path, t: int, q: Path): int
    requires Length(p) <= level
    decreases level - Length(p)
  {
    if Length(p) == level then t
    else if Extends(q, Child(p, false)) then Portion(level, Child(p, false), HalfTime(t), q)
    else Portion(level, Child(p, true), t - HalfTime(t), q)
  }

  /** The record after a task at `p` took time `t`: every slot below `p` receives its portion. */
  function Added(rec: Record, p: Path, t: int): (r: Record)
    ensures r.level == rec.level
  {
    Slots(rec.level, seq(|rec.times|, i requires 0 <= i < |rec.times| => AddedSlot(rec, Tracked(rec.level, p), t, i)))
  }

  function AddedSlot(rec: Record, p: Path, t: int, i: nat): real
    requires i < |rec.times| && Length(p) <= rec.level
  {
    var q := PathOf(rec.level, i);
    rec.times[i] + if Extends(q, p) then Portion(rec.level, p, t, q) as real else 0.0
  }

  predicate Disjoint(p: Path, q: Path) { !Extends(p, q) && !Extends(q, p) }

  /** The time of a task is the sum of the times of its halves, on every level. */
  lemma HalvesAddUp(rec: Record, p: Path)
    ensures GetTime(rec, p) == GetTime(rec, Child(p, false)) + GetTime(rec, Child(p, true))
  {
  }

  /** Below the tracking level both halves get the same estimate. */
  lemma EqualEstimates(rec: Record, p: Path)
    requires Length(p) >= rec.level
    ensures GetTime(rec, Child(p, false)) == GetTime(rec, Child(p, true)) == GetTime(rec, p) / 2.0
  {
  }

  lemma LeafAdded(rec: Record, p: Path, t: int, q: Path)
    requires Length(p) <= rec.level == Length(q)
    ensures GetTime(Added(rec, p, t), q) ==
            GetTime(rec, q) + if Extends(q, p) then Portion(rec.level, p, t, q) as real else 0.0
  {
    BitsBound(q);
    PathUnique(PathOf(rec.level, Bits(q)), q);
  }

  /** Records that agree on all slots below a task agree on its time. */
  lemma {:induction false} SameBelow(a: Record, b: Record, q: Path)
    requires a.level == b.level && Length(q) <= a.level
    requires forall x :: Length(x) == a.level && Extends(x, q) ==> GetTime(a, x) == GetTime(b, x)
    ensures GetTime(a, q) == GetTime(b, q)
    decreases a.level - Length(q)
  {
    if Length(q) < a.level {
      forall x, side | Extends(x, Child(q, side)) ensures Extends(x, q) {
        ExtendsSplit(x, q);
      }
      SameBelow(a, b, Child(q, false));
      SameBelow(a, b, Child(q, true));
    }
  }

  /** Two tasks that contain a third are comparable. */
  lemma {:induction false} Comparable(x: Path, p: Path, q: Path)
    requires Extends(x, p) && Extends(x, q)
    ensures Extends(p, q) || Extends(q, p)
  {
    if x != p && x != q {
      Comparable(x.parent, p, q);
    }
  }

  lemma SiblingsDisjoint(p: Path, q: Path, b: bool)
    requires Extends(p, Child(q, b))
    ensures Disjoint(p, Child(q, !b))
  {
    ExtendsLonger(p, Child(q, b));
    ExtendsSplit(p, q);
    if Extends(Child(q, !b), p) {
      ExtendsLonger(Child(q, !b), p);
    }
  }

  /** Recording a time leaves every disjoint task alone. */
  lemma AddedDisjoint(rec: Record, p: Path, t: int, q: Path)
    requires Length(p) <= rec.level && Length(q) <= rec.level && Disjoint(p, q)
    ensures GetTime(Added(rec, p, t), q) == GetTime(rec, q)
  {
    forall x | Length(x) == rec.level && Extends(x, q) ensures GetTime(Added(rec, p, t), x) == GetTime(rec, x) {
      LeafAdded(rec, p, t, x);
      if Extends(x, p) {
        Comparable(x, p, q);
      }
    }
    SameBelow(Added(rec, p, t), rec, q);
  }

  /** On one half of a task, spreading a time over the task is spreading half of it over the half. */
  lemma AddedOnHalf(rec: Record, p: Path, t: int, b: bool)
    requires Length(p) < rec.level
    ensures var h := if b then t - HalfTime(t) else HalfTime(t);
            GetTime(Added(rec, p, t), Child(p, b)) == GetTime(Added(rec, Child(p, b), h), Child(p, b))
  {
    var h := if b then t - HalfTime(t) else HalfTime(t);
    forall x | Length(x) == rec.level && Extends(x, Child(p, b))
      ensures GetTime(Added(rec, p, t), x) == GetTime(Added(rec, Child(p, b), h), x)
    {
      ExtendsSplit(x, p);
      LeafAdded(rec, p, t, x);
      LeafAdded(rec, Child(p, b), h, x);
    }
    SameBelow(Added(rec, p, t), Added(rec, Child(p, b), h), Child(p, b));
  }

  lemma {:induction false} AddedSelf(rec: Record, p: Path, t: int)
    requires Length(p) <= rec.level
    ensures GetTime(Added(rec, p, t), p) == GetTime(rec, p) + t as real
    decreases rec.level - Length(p), 1
  {
    if Length(p) == rec.level {
      LeafAdded(rec, p, t, p);
    } else {
      AddedSelfHalf(rec, p, t, false);
      AddedSelfHalf(rec, p, t, true);
      GrownHalves(rec, Added(rec, p, t), p, HalfTime(t) as real, (t - HalfTime(t)) as real);
    }
  }

  lemma {:induction false} AddedSelfHalf(rec: Record, p: Path, t: int, b: bool)
    requires Length(p) < rec.level
    ensures GetTime(Added(rec, p, t), Child(p, b)) ==
            GetTime(rec, Child(p, b)) + (if b then t - HalfTime(t) else HalfTime(t)) as real
    decreases rec.level - Length(p), 0
  {
    AddedSelf(rec, Child(p, b), if b then t - HalfTime(t) else HalfTime(t));
    AddedOnHalf(rec, p, t, b);
  }

  lemma GrownHalves(before: Record, after: Record, p: Path, x: real, y: real)
    requires GetTime(after, Child(p, false)) == GetTime(before, Child(p, false)) + x
    requires GetTime(after, Child(p, true)) == GetTime(before, Child(p, true)) + y
    ensures GetTime(after, p) == GetTime(before, p) + (x + y)
  {
    HalvesAddUp(before, p);
    HalvesAddUp(after, p);
  }

  /** Of an odd time the second half of the task gets the unit that is left over. */
  lemma OddUnitToTheRight(rec: Record, p: Path, t: int)
    requires Length(p) < rec.level && t > 0
    ensures exists h: int ::
              && t - 1 <= 2 * h <= t
              && GetTime(Added(rec, p, t), Child(p, false)) == GetTime(rec, Child(p, false)) + h as real
              && GetTime(Added(rec, p, t), Child(p, true)) == GetTime(rec, Child(p, true)) + (t - h) as real
  {
    AddedSelfHalf(rec, p, t, false);
    AddedSelfHalf(rec, p, t, true);
    assert t - 1 <= 2 * HalfTime(t) <= t;
  }

  /** Recording a time raises every task that contains it by exactly that time. */
  lemma {:induction false} AddedAbove(rec: Record, p: Path, t: int, q: Path)
    requires Length(p) <= rec.level && Extends(p, q)
    ensures GetTime(Added(rec, p, t), q) == GetTime(rec, q) + t as real
    decreases Length(p) - Length(q)
  {
    ExtendsLonger(p, q);
    if p == q {
      AddedSelf(rec, p, t);
    } else {
      ExtendsSplit(p, q);
      var b := Extends(p, Child(q, true));
      ExtendsLonger(p, Child(q, b));
      AddedAbove(rec, p, t, Child(q, b));
      SiblingsDisjoint(p, q, b);
      AddedDisjoint(rec, p, t, Child(q, !b));
      HalvesAddUp(rec, q);
      HalvesAddUp(Added(rec, p, t), q);
    }
  }

  lemma AddedParent(rec: Record, p: Path, t: int)
    requires Length(p) > rec.level
    ensures Added(rec, p, t) == Added(rec, p.parent, t)
  {
    assert Ancestor(p, rec.level) == Ancestor(p.parent, rec.level);
  }

  lemma AddedTracked(rec: Record, p: Path, t: int)
    ensures Added(rec, p, t) == Added(rec, Tracked(rec.level, p), t)
  {
  }

  /** The total record grows by exactly the recorded time, for tasks of any depth. */
  lemma TotalGrows(rec: Record, p: Path, t: int)
    ensures GetTime(Added(rec, p, t), Root) == GetTime(rec, Root) + t as real
  {
    AddedTracked(rec, p, t);
    ExtendsRoot(Tracked(rec.level, p));
    AddedAbove(rec, Tracked(rec.level, p), t, Root);
  }

  lemma {:induction false} DeepTime(rec: Record, p: Path, before: Record)
    requires rec.level == before.level
    requires GetTime(rec, Tracked(rec.level, p)) == GetTime(before, Tracked(rec.level, p))
    ensures GetTime(rec, p) == GetTime(before, p)
    decreases p
  {
    if Length(p) > rec.level {
      assert Ancestor(p, rec.level) == Ancestor(p.parent, rec.level);
      DeepTime(rec, p.parent, before);
    }
  }

  /** Tasks whose tracked stand-ins are disjoint do not disturb each other, on any level. */
  lemma DisjointUnchanged(rec: Record, p: Path, t: int, q: Path)
    requires Disjoint(Tracked(rec.level, p), Tracked(rec.level, q))
    ensures GetTime(Added(rec, p, t), q) == GetTime(rec, q)
  {
    AddedTracked(rec, p, t);
    AddedDisjoint(rec, Tracked(rec.level, p), t, Tracked(rec.level, q));
    DeepTime(Added(rec, p, t), q, rec);
  }

  /** A time halved `n` times. */
  function Halved(x: real, n: nat): real { if n == 0 then x else Halved(x, n - 1) / 2.0 }

  lemma {:induction false} HalvedIsQuotient(x: real, n: nat)
    ensures Halved(x, n) == x / Pow2(n) as real
  {
    if n > 0 {
      HalvedIsQuotient(x, n - 1);
      QuotientHalves(x, Pow2(n - 1) as real);
    }
  }

  lemma QuotientHalves(x: real, w: real)
    requires w > 0.0
    ensures x / w / 2.0 == x / (2.0 * w)
  {
    var z := x / w / 2.0;
    assert z * (2.0 * w) == x;
  }

  lemma {:induction false} HalvedAdd(x: real, y: real, n: nat)
    ensures Halved(x + y, n) == Halved(x, n) + Halved(y, n)
  {
    if n > 0 {
      HalvedAdd(x, y, n - 1);
    }
  }

  lemma HalfOfParent(rec: Record, q: Path)
    requires Length(q) > rec.level
    ensures GetTime(rec, q) == GetTime(rec, q.parent) / 2.0
    ensures Tracked(rec.level, q) == Tracked(rec.level, q.parent)
  {
    assert Ancestor(q, rec.level) == Ancestor(q.parent, rec.level);
  }

  /** Below the tracking level a task's time is that of its stand-in, halved once per level. */
  lemma {:induction false} DeepTimeHalves(rec: Record, q: Path, n: nat)
    requires Length(q) == rec.level + n
    ensures GetTime(rec, q) == Halved(GetTime(rec, Tracked(rec.level, q)), n)
    decreases n
  {
    if n > 0 {
      HalfOfParent(rec, q);
      DeepTimeHalves(rec, q.parent, n - 1);
    }
  }

  /** Disjoint tasks have comparable stand-ins only where both are below the tracking level, in one slot. */
  lemma ComparableShareSlot(level: nat, p: Path, q: Path)
    requires Disjoint(p, q) && !Disjoint(Tracked(level, p), Tracked(level, q))
    ensures Length(p) > level && Length(q) > level && Tracked(level, p) == Tracked(level, q)
  {
    if Extends(Tracked(level, p), Tracked(level, q)) {
      SharedByExtension(level, p, q);
    } else {
      SharedByExtension(level, q, p);
    }
  }

  lemma SharedByExtension(level: nat, p: Path, q: Path)
    requires Disjoint(p, q) && Extends(Tracked(level, p), Tracked(level, q))
    ensures Length(p) > level && Length(q) > level && Tracked(level, p) == Tracked(level, q)
  {
    var a, b := Tracked(level, p), Tracked(level, q);
    ExtendsLonger(a, b);
    ExtendsTrans(p, a, b);
    assert b != q;
  }

  /** A time recorded for one task of a slot shows in every other task of the slot, halved per level. */
  lemma SharedSlotGrows(rec: Record, p: Path, t: int, q: Path)
    requires Length(q) >= rec.level && Tracked(rec.level, p) == Tracked(rec.level, q)
    ensures GetTime(Added(rec, p, t), q) == GetTime(rec, q) + t as real / Pow2(Length(q) - rec.level) as real
  {
    var s, n := Tracked(rec.level, q), Length(q) - rec.level;
    assert GetTime(Added(rec, p, t), s) == GetTime(rec, s) + t as real by {
      AddedTracked(rec, p, t);
      AddedSelf(rec, s, t);
    }
    DeepGrowth(rec, Added(rec, p, t), q, s, n, t as real);
    HalvedIsQuotient(t as real, n);
  }

  lemma DeepGrowth(before: Record, after: Record, q: Path, s: Path, n: nat, t: real)
    requires after.level == before.level && Length(q) == before.level + n && s == Tracked(before.level, q)
    requires GetTime(after, s) == GetTime(before, s) + t
    ensures GetTime(after, q) == GetTime(before, q) + Halved(t, n)
  {
    DeepTimeHalves(before, q, n);
    DeepTimeHalves(after, q, n);
    HalvedAdd(GetTime(before, s), t, n);
  }

  lemma AncestorBelow(p: Path, q: Path, level: nat)
    requires Extends(p, q) && level <= Length(p)
    ensures Length(q) <= level ==> Extends(Ancestor(p, level), q)
    ensures Length(q) >= level ==> Ancestor(p, level) == Ancestor(q, level)
  {
    var a := Ancestor(p, level);
    Comparable(p, a, q);
    if Extends(a, q) {
      ExtendsLonger(a, q);
    } else {
      ExtendsLonger(q, a);
    }
    if Length(q) >= level {
      AncestorUnique(q, a);
    }
  }

  lemma QuotientWhole(t: int, w: nat)
    requires w > 1
    ensures t as real / w as real == t as real <==> t == 0
  {
    if t as real / w as real == t as real {
      assert t as real * w as real == t as real;
      assert t * (w - 1) == 0;
    }
  }

  lemma TrackedAbove(rec: Record, p: Path, t: int, q: Path)
    requires Extends(p, q) && Length(q) <= rec.level
    ensures GetTime(Added(rec, p, t), q) == GetTime(rec, q) + t as real
  {
    if Length(p) > rec.level {
      AncestorBelow(p, q, rec.level);
    }
    AddedTracked(rec, p, t);
    AddedAbove(rec, Tracked(rec.level, p), t, q);
  }

  lemma DeepAbove(rec: Record, p: Path, t: int, q: Path)
    requires Extends(p, q) && Length(q) >= rec.level
    ensures GetTime(Added(rec, p, t), q) == GetTime(rec, q) + t as real / Pow2(Length(q) - rec.level) as real
  {
    ExtendsLonger(p, q);
    AncestorBelow(p, q, rec.level);
    SharedSlotGrows(rec, p, t, q);
  }

  /** Exactly when a task that contains the recorded one grows by just that time, for tasks of any depth,
      and what it grows by otherwise. */
  lemma AddedAboveIff(rec: Record, p: Path, t: int, q: Path)
    requires Extends(p, q)
    ensures GetTime(Added(rec, p, t), q) == GetTime(rec, q) + t as real <==> Length(q) <= rec.level || t == 0
    ensures Length(q) >= rec.level ==>
            GetTime(Added(rec, p, t), q) == GetTime(rec, q) + t as real / Pow2(Length(q) - rec.level) as real
  {
    if Length(q) >= rec.level {
      DeepAbove(rec, p, t, q);
    }
    if Length(q) <= rec.level {
      TrackedAbove(rec, p, t, q);
    } else {
      Pow2Mono(1, Length(q) - rec.level);
      QuotientWhole(t, Pow2(Length(q) - rec.level));
    }
  }

  lemma QuotientZero(t: int, w: nat)
    requires w > 0
    ensures t as real / w as real == 0.0 <==> t == 0
  {
    assert t as real / w as real * w as real == t as real;
  }

  /** Exactly when a recorded time leaves a disjoint task alone, for tasks of any depth, and what
      shows in it otherwise. */
  lemma DisjointUnchangedIff(rec: Record, p: Path, t: int, q: Path)
    requires Disjoint(p, q)
    ensures GetTime(Added(rec, p, t), q) == GetTime(rec, q) <==>
            Disjoint(Tracked(rec.level, p), Tracked(rec.level, q)) || t == 0
    ensures !Disjoint(Tracked(rec.level, p), Tracked(rec.level, q)) ==>
            Length(q) > rec.level &&
            GetTime(Added(rec, p, t), q) == GetTime(rec, q) + t as real / Pow2(Length(q) - rec.level) as real
  {
    if Disjoint(Tracked(rec.level, p), Tracked(rec.level, q)) {
      DisjointUnchanged(rec, p, t, q);
    } else {
      ComparableShareSlot(rec.level, p, q);
      SharedSlotGrows(rec, p, t, q);
      QuotientZero(t, Pow2(Length(q) - rec.level));
    }
  }

  /** Two halves of a tracked task are disjoint, and yet a time recorded for one shows by half in the other. */
  lemma SiblingsShareSlot(rec: Record, p: Path, t: int)
    requires Length(p) == rec.level
    ensures Disjoint(Child(p, false), Child(p, true))
    ensures GetTime(Added(rec, Child(p, false), t), Child(p, true)) == GetTime(rec, Child(p, true)) + t as real / 2.0
  {
    SiblingsDisjoint(Child(p, false), p, false);
    AddedParent(rec, Child(p, false), t);
    AddedSelf(rec, p, t);
    EqualEstimates(rec, p);
    EqualEstimates(Added(rec, p, t), p);
  }

  // --- fairness of the split ---

  /** A portion deviates from the exact share by less than one time unit. */
  lemma {:induction false} PortionNear(level: nat, p: Path, t: int, q: Path)
    requires Length(p) <= level
    ensures t < Portion(level, p, t, q) * Pow2(level - Length(p)) + Pow2(level - Length(p))
    ensures Portion(level, p, t, q) * Pow2(level - Length(p)) < t + Pow2(level - Length(p))
    decreases level - Length(p)
  {
    if Length(p) < level {
      var b := !Extends(q, Child(p, false));
      var h := if b then t - HalfTime(t) else HalfTime(t);
      PortionNear(level, Child(p, b), h, q);
      DoubledShare(Portion(level, p, t, q), Pow2(level - Length(p) - 1), h, t);
    }
  }

  lemma DoubledShare(x: int, w: int, h: int, t: int)
    requires h < x * w + w && x * w < h + w && 2 * h - 1 <= t <= 2 * h + 1
    ensures t < x * (2 * w) + 2 * w && x * (2 * w) < t + 2 * w
  {
    assert x * (2 * w) == 2 * (x * w);
  }

  lemma NearIsRounded(x: int, t: int, d: int)
    requires d > 0 && t < x * d + d && x * d < t + d
    ensures t / d <= x <= -(-t / d)
  {
    RoundDown(x, t, d);
    assert (-x) * d == -(x * d);
    RoundDown(-x, -t, d);
  }

  lemma RoundDown(x: int, t: int, d: int)
    requires d > 0 && t < x * d + d
    ensures t / d <= x
  {
    var q := t / d;
    assert q * d <= t;
    assert (q - x - 1) * d == q * d - x * d - d < 0;
  }

  /** `x` is the exact share of `t` at the tracking level, rounded down or up. */
  predicate Rounded(level: nat, p: Path, t: int, x: int)
    requires Length(p) <= level
  {
    var width := Pow2(level - Length(p));
    t / width <= x <= -(-t / width)
  }

  lemma PortionRounded(level: nat, p: Path, t: int, q: Path)
    requires Length(p) <= level
    ensures Rounded(level, p, t, Portion(level, p, t, q))
  {
    PortionNear(level, p, t, q);
    NearIsRounded(Portion(level, p, t, q), t, Pow2(level - Length(p)));
  }

  /** Every tracked task below `p` receives the exact share, rounded down or up. */
  lemma FairPortion(rec: Record, p: Path, t: int, q: Path)
    requires Length(p) <= rec.level && Length(q) == rec.level && Extends(q, p)
    ensures exists x :: && Rounded(rec.level, p, t, x)
                        && GetTime(Added(rec, p, t), q) == GetTime(rec, q) + x as real
  {
    LeafAdded(rec, p, t, q);
    PortionRounded(rec.level, p, t, q);
  }

  // --- merging records ---

  function Merged(a: Record, b: Record): (r: Record)
    requires a.level == b.level
    ensures r.level == a.level
  {
    Slots(a.level, seq(|a.times|, i requires 0 <= i < |a.times| => a.times[i] + b.times[i]))
  }

  lemma {:induction false} MergedTime(a: Record, b: Record, p: Path)
    requires a.level == b.level
    ensures GetTime(Merged(a, b), p) == GetTime(a, p) + GetTime(b, p)
    decreases Distance(a.level, p)
  {
    if Length(p) == a.level {
      BitsBound(p);
    } else if Length(p) < a.level {
      MergedTime(a, b, Child(p, false));
      MergedTime(a, b, Child(p, true));
    } else {
      MergedTime(a, b, p.parent);
    }
  }

  // --- the recursive update ---

  /** Recording the two halves is recording the whole. */
  lemma AddedSplit(rec: Record, p: Path, t: int)
    requires Length(p) < rec.level
    ensures Added(Added(rec, Child(p, false), HalfTime(t)), Child(p, true), t - HalfTime(t)) == Added(rec, p, t)
  {
    var mid := Added(rec, Child(p, false), HalfTime(t));
    forall i | 0 <= i < |rec.times| ensures AddedSlot(mid, Child(p, true), t - HalfTime(t), i) == AddedSlot(rec, p, t, i) {
      assert mid.times[i] == AddedSlot(rec, Child(p, false), HalfTime(t), i);
      SlotSplit(rec, mid, p, t, i);
    }
  }

  lemma SlotSplit(rec: Record, mid: Record, p: Path, t: int, i: nat)
    requires Length(p) < rec.level == mid.level && i < |rec.times|
    requires mid.times[i] == AddedSlot(rec, Child(p, false), HalfTime(t), i)
    ensures AddedSlot(mid, Child(p, true), t - HalfTime(t), i) == AddedSlot(rec, p, t, i)
  {
    ExtendsSplit(PathOf(rec.level, i), p);
  }

  lemma OnlyOwnSlot(level: nat, p: Path, i: nat)
    requires Length(p) == level && i < Pow2(level)
    ensures Extends(PathOf(level, i), p) <==> i == Bits(p)
  {
    BitsBound(p);
    PathUnique(PathOf(level, Bits(p)), p);
    if Extends(PathOf(level, i), p) {
      ExtendsLonger(PathOf(level, i), p);
    }
  }

  lemma AddedAtLevel(rec: Record, p: Path, t: int)
    requires Length(p) == rec.level
    ensures Bits(p) < |rec.times|
    ensures Added(rec, p, t) == Slots(rec.level, rec.times[Bits(p) := rec.times[Bits(p)] + t as real])
  {
    BitsBound(p);
    forall i: nat | i < |rec.times|
      ensures AddedSlot(rec, p, t, i) == if i == Bits(p) then rec.times[i] + t as real else rec.times[i]
    {
      OnlyOwnSlot(rec.level, p, i);
    }
  }

  class Times {
    const level: nat
    const times: array<real>

    ghost predicate Valid() { times.Length == Pow2(level) }

    ghost function Contents(): Record
      requires Valid()
      reads this, times
    {
      Slots(level, times[..])
    }

    constructor ()
      ensures Valid() && fresh(times) && level == TRACKING_LEVEL
      ensures forall i :: 0 <= i < times.Length ==> times[i] == 0.0
    {
      level := TRACKING_LEVEL;
      times := new real[Pow2(TRACKING_LEVEL)](_ => 0.0);
    }

    method Add(path: Path, t: int)
      requires Valid()
      modifies times
      ensures Contents() == Added(old(Contents()), path, t)
      decreases Distance(level, path)
    {
      ghost var before := Contents();
      if Length(path) == level {
        AddedAtLevel(before, path, t);
        times[Bits(path)] := times[Bits(path)] + t as real;
        assert times[..] == before.times[Bits(path) := before.times[Bits(path)] + t as real];
      } else if Length(path) < level {
        AddedSplit(before, path, t);
        Add(Child(path, false), HalfTime(t));
        Add(Child(path, true), t - HalfTime(t));
      } else {
        AddedParent(before, path, t);
        Add(path.parent, t);
      }
    }

    method AddAll(other: Times)
      requires Valid() && other.Valid() && level == other.level
      modifies times
      ensures Contents() == Merged(old(Contents()), old(other.Contents()))
    {
      for i := 0 to times.Length
        invariant forall k :: 0 <= k < i ==> times[k] == old(times[k]) + old(other.times[k])
        invariant forall k :: i <= k < times.Length ==> times[k] == old(times[k]) && other.times[k] == old(other.times[k])
      {
        times[i] := times[i] + other.times[i];
      }
    }
  }

  // --- sampling ---

  function TimesOf(rec: Record, paths: seq<Path>): seq<real> {
    seq(|paths|, i requires 0 <= i < |paths| => GetTime(rec, paths[i]))
  }

  lemma TimesOfAppend(rec: Record, a: seq<Path>, b: seq<Path>)
    ensures TimesOf(rec, a + b) == TimesOf(rec, a) + TimesOf(rec, b)
  {
  }

  /** The times of the tasks `d` splits below `cur`, from left to right. */
  function Samples(rec: Record, cur: Path, d: nat): seq<real> { TimesOf(rec, TasksBelow(cur, d)) }

  lemma SamplesLength(rec: Record, cur: Path, d: nat)
    ensures |Samples(rec, cur, d)| == Pow2(d)
  {
    TasksBelowInOrder(cur, d);
  }

  lemma SamplesSplit(rec: Record, cur: Path, d: nat)
    ensures Sum(Samples(rec, cur, d + 1)) == Sum(Samples(rec, Child(cur, false), d)) + Sum(Samples(rec, Child(cur, true), d))
  {
    var l, r := TasksBelow(Child(cur, false), d), TasksBelow(Child(cur, true), d);
    assert TasksBelow(cur, d + 1) == l + r;
    TimesOfAppend(rec, l, r);
    SumAppend(TimesOf(rec, l), TimesOf(rec, r));
  }

  lemma SampleOne(rec: Record, cur: Path)
    ensures Sum(Samples(rec, cur, 0)) == GetTime(rec, cur)
  {
    assert Samples(rec, cur, 0) == [GetTime(rec, cur)];
    assert [GetTime(rec, cur)][..0] == [];
  }

  /** The samples add up to the time of the task they split, whatever the granularity. */
  lemma {:induction false} SamplesSum(rec: Record, cur: Path, d: nat)
    ensures Sum(Samples(rec, cur, d)) == GetTime(rec, cur)
    decreases d
  {
    if d == 0 {
      SampleOne(rec, cur);
    } else {
      calc {
        Sum(Samples(rec, cur, d));
        { SamplesSplit(rec, cur, d - 1); }
        Sum(Samples(rec, Child(cur, false), d - 1)) + Sum(Samples(rec, Child(cur, true), d - 1));
        { SamplesSum(rec, Child(cur, false), d - 1); SamplesSum(rec, Child(cur, true), d - 1); }
        GetTime(rec, Child(cur, false)) + GetTime(rec, Child(cur, true));
        { HalvesAddUp(rec, cur); }
        GetTime(rec, cur);
      }
    }
  }

  /** Sample i is the time of the task with index i. */
  lemma RootSample(rec: Record, g: nat, i: nat)
    requires i < Pow2(g)
    ensures |Samples(rec, Root, g)| == Pow2(g)
    ensures Samples(rec, Root, g)[i] == GetTime(rec, PathOf(g, i))
  {
    RootTasks(g, i);
  }

  /** Sampling a merged record is merging the samples. */
  lemma SampleMerged(a: Record, b: Record, g: nat, i: nat)
    requires a.level == b.level && i < Pow2(g)
    ensures |Samples(a, Root, g)| == |Samples(b, Root, g)| == |Samples(Merged(a, b), Root, g)| == Pow2(g)
    ensures Samples(Merged(a, b), Root, g)[i] == Samples(a, Root, g)[i] + Samples(b, Root, g)[i]
  {
    RootSample(a, g, i);
    RootSample(b, g, i);
    RootSample(Merged(a, b), g, i);
    MergedTime(a, b, PathOf(g, i));
  }

  /** The slots with those of the tasks below `cur` overwritten by their times. */
  function Sampled(r: seq<real>, rec: Record, cur: Path, depth: nat): seq<real>
    requires |r| == Pow2(depth)
  {
    seq(|r|, i requires 0 <= i < |r| => SampledSlot(r, rec, cur, depth, i))
  }

  function SampledSlot(r: seq<real>, rec: Record, cur: Path, depth: nat, i: nat): real
    requires i < |r| == Pow2(depth)
  {
    if Extends(PathOf(depth, i), cur) then GetTime(rec, PathOf(depth, i)) else r[i]
  }

  lemma SampledSplit(r: seq<real>, rec: Record, cur: Path, depth: nat)
    requires Length(cur) < depth && |r| == Pow2(depth)
    ensures Sampled(Sampled(r, rec, Child(cur, false), depth), rec, Child(cur, true), depth) == Sampled(r, rec, cur, depth)
  {
    forall i | 0 <= i < |r|
      ensures Sampled(Sampled(r, rec, Child(cur, false), depth), rec, Child(cur, true), depth)[i] ==
              SampledSlot(r, rec, cur, depth, i)
    {
      ExtendsSplit(PathOf(depth, i), cur);
    }
  }

  lemma SampledLeaf(r: seq<real>, rec: Record, cur: Path)
    requires |r| == Pow2(Length(cur))
    ensures Bits(cur) < |r| && Sampled(r, rec, cur, Length(cur)) == r[Bits(cur) := GetTime(rec, cur)]
  {
    BitsBound(cur);
    PathUnique(PathOf(Length(cur), Bits(cur)), cur);
    forall i: nat | i < |r| ensures Extends(PathOf(Length(cur), i), cur) <==> i == Bits(cur) {
      OnlyOwnSlot(Length(cur), cur, i);
    }
  }

  /** Started at the root, sampling overwrites every slot with the time of its own task. */
  lemma SampledAll(r: seq<real>, rec: Record, g: nat)
    requires |r| == Pow2(g)
    ensures Sampled(r, rec, Root, g) == Samples(rec, Root, g)
  {
    SamplesLength(rec, Root, g);
    forall i | 0 <= i < |r| ensures SampledSlot(r, rec, Root, g, i) == Samples(rec, Root, g)[i] {
      ExtendsRoot(PathOf(g, i));
      RootSample(rec, g, i);
    }
  }

  /** Fills the slots of the tasks below `cur` and no others. */
  method SampleTaskCosts(rec: Record, cur: Path, depth: nat, res: array<real>)
    requires Length(cur) <= depth && res.Length == Pow2(depth)
    modifies res
    ensures res[..] == Sampled(old(res[..]), rec, cur, depth)
    decreases depth - Length(cur)
  {
    if Length(cur) == depth {
      SampledLeaf(res[..], rec, cur);
      res[Bits(cur)] := GetTime(rec, cur);
      return;
    }
    SampledSplit(res[..], rec, cur, depth);
    SampleTaskCosts(rec, Child(cur, false), depth, res);
    SampleTaskCosts(rec, Child(cur, true), depth, res);
  }
}
