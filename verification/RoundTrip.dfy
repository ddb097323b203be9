/** Decompilation: reading the task-to-node mapping back out of a policy. */
module RoundTrip {
  import opened Powers
  import opened TaskPath
  import opened Hierarchy
  import opened DecisionTrees
  import opened TreeCompiler
  import opened TreePolicy

  predicate Sorted(m: seq<nat>) { forall i, j :: 0 <= i <= j < |m| ==> m[i] <= m[j] }

  // --- where a task ends up once it has been split far enough to the left ---

  /** Splits left before the slice is a single entry, plus levels not yet descended. */
  function Remaining(m: seq<nat>, levels: nat, g: nat, p: Path): nat
    requires |m| > 0
  {
    (if Length(p) < g then g - Length(p) else 0) + (levels - After(m, levels, p).depth)
  }

  /** A slice of one entry leaves no reason to stay. */
  lemma SingleEntryMoves(m: seq<nat>, levels: nat, c: Cursor)
    requires InMapping(m, levels, c) && c.hi - c.lo <= 1 && c.depth < levels
    ensures Move(levels, c, Choose(m, levels, c)).depth == c.depth + 1
  {
  }

  lemma MoveDepth(m: seq<nat>, levels: nat, c: Cursor)
    requires InMapping(m, levels, c)
    ensures c.depth <= Move(levels, c, Choose(m, levels, c)).depth <= levels
  {
  }

  lemma ChildDepth(m: seq<nat>, levels: nat, p: Path, b: bool)
    requires |m| > 0
    ensures After(m, levels, p).depth <= After(m, levels, Child(p, b)).depth
  {
    MoveDepth(m, levels, At(m, levels, Child(p, b)));
  }

  /** Once a slice is a single entry, every further split descends one level. */
  lemma SingleEntryChildDepth(m: seq<nat>, levels: nat, g: nat, p: Path, b: bool)
    requires |m| == Pow2(g) && Length(p) >= g && After(m, levels, p).depth < levels
    ensures After(m, levels, Child(p, b)).depth == After(m, levels, p).depth + 1
  {
    SliceShape(m, levels, g, Child(p, b));
    SingleEntryMoves(m, levels, At(m, levels, Child(p, b)));
  }

  lemma LeftChildDescends(m: seq<nat>, levels: nat, g: nat, p: Path)
    requires |m| == Pow2(g) && After(m, levels, p).depth < levels
    ensures Remaining(m, levels, g, Child(p, false)) < Remaining(m, levels, g, p)
  {
    if Length(p) >= g {
      SingleEntryChildDepth(m, levels, g, p, false);
    } else {
      ChildDepth(m, levels, p, false);
    }
  }

  /** The rank at which the walk to the left reaches a locality. */
  function Landing(m: seq<nat>, levels: nat, g: nat, p: Path): nat
    requires |m| == Pow2(g)
    decreases Remaining(m, levels, g, p)
  {
    var c := After(m, levels, p);
    if c.depth == levels then c.base
    else
      LeftChildDescends(m, levels, g, p);
      Landing(m, levels, g, Child(p, false))
  }

  method TraceTarget(pol: Policy, path: Path, ghost m: seq<nat>) returns (rank: nat)
    requires Realizes(pol, m)
    ensures rank == Landing(m, pol.root.layer, pol.granularity, path)
  {
    var p := path;
    var res := RunGetTarget(pol, p, m);
    TargetIsCompiled(pol, m, p);
    while !res.IsLeaf()
      invariant res == Location(pol.root.layer, After(m, pol.root.layer, p))
      invariant Landing(m, pol.root.layer, pol.granularity, p) == Landing(m, pol.root.layer, pol.granularity, path)
      decreases Remaining(m, pol.root.layer, pol.granularity, p)
    {
      LeftChildDescends(m, pol.root.layer, pol.granularity, p);
      p := Child(p, false);
      res := RunGetTarget(pol, p, m);
      TargetIsCompiled(pol, m, p);
    }
    return res.rank;
  }

  // --- slices and indices ---

  lemma SliceStep(m: seq<nat>, levels: nat, p: Path, start: nat, half: nat)
    requires |m| > 0 && p.Child?
    requires At(m, levels, p.parent).lo == start && At(m, levels, p.parent).hi == start + 2 * half
    ensures At(m, levels, p).lo == (if p.right then start + half else start)
    ensures At(m, levels, p).hi == At(m, levels, p).lo + half
  {
    StepShape(m, levels, At(m, levels, p.parent), p.right, half);
  }

  /** The slice of a path starts at its own bits. */
  lemma {:induction false} SliceStart(m: seq<nat>, levels: nat, g: nat, p: Path)
    requires |m| == Pow2(g) && Length(p) <= g
    ensures At(m, levels, p).lo == Shl(Bits(p), g - Length(p))
    ensures At(m, levels, p).hi == Shl(Bits(p), g - Length(p)) + Pow2(g - Length(p))
  {
    if p.Child? {
      SliceStart(m, levels, g, p.parent);
      ShlDouble(Bits(p.parent), g - Length(p));
      SliceStep(m, levels, p, Shl(Bits(p.parent), g - Length(p.parent)), Pow2(g - Length(p)));
    } else {
      ShlOne(g);
    }
  }

  lemma {:induction false} AncestorBits(p: Path, k: nat)
    requires k <= Length(p)
    ensures Bits(Ancestor(p, k)) == Shr(Bits(p), Length(p) - k)
  {
    if k < Length(p) {
      AncestorBits(p.parent, k);
      ShrInner(Bits(p), Length(p) - k);
    }
  }

  /** The task of an index lies below every path whose slice holds the index. */
  lemma IndexBelow(m: seq<nat>, levels: nat, g: nat, p: Path, i: nat)
    requires |m| == Pow2(g) && Length(p) <= g
    requires At(m, levels, p).lo <= i < At(m, levels, p).hi
    ensures i < Pow2(g) && Extends(PathOf(g, i), p)
  {
    SliceStart(m, levels, g, p);
    WithinBits(PathOf(g, i), p, g - Length(p));
  }

  lemma WithinBits(q: Path, p: Path, k: nat)
    requires Length(q) == Length(p) + k && Shl(Bits(p), k) <= Bits(q) < Shl(Bits(p), k) + Pow2(k)
    ensures Extends(q, p)
  {
    AncestorBits(q, Length(p));
    ShrUnique(Bits(q), k, Bits(p));
    PathUnique(Ancestor(q, Length(p)), p);
  }

  // --- node ranges ---

  predicate InRange(levels: nat, c: Cursor, node: nat)
    requires c.depth <= levels
  {
    c.base <= node < c.base + Pow2(levels - c.depth)
  }

  /** A node stays in range exactly when it lies on the side the decision names. */
  lemma MoveRange(m: seq<nat>, levels: nat, c: Cursor, node: nat)
    requires InMapping(m, levels, c)
    ensures var d := Choose(m, levels, c);
            InRange(levels, Move(levels, c, d), node) <==>
            InRange(levels, c, node) && (d == Left ==> node < Center(levels, c)) && (d == Right ==> Center(levels, c) <= node)
  {
  }

  lemma {:induction false} RangeShrinks(m: seq<nat>, levels: nat, q: Path, p: Path, node: nat)
    requires |m| > 0 && Extends(q, p) && InRange(levels, After(m, levels, q), node)
    ensures InRange(levels, After(m, levels, p), node)
    decreases q
  {
    if q != p {
      MoveRange(m, levels, At(m, levels, q), node);
      assert InRange(levels, After(m, levels, q.parent), node);
      RangeShrinks(m, levels, q.parent, p, node);
    }
  }

  lemma {:induction false} LandingInRange(m: seq<nat>, levels: nat, g: nat, p: Path)
    requires |m| == Pow2(g)
    ensures InRange(levels, After(m, levels, p), Landing(m, levels, g, p))
    decreases Remaining(m, levels, g, p)
  {
    if After(m, levels, p).depth < levels {
      LeftChildDescends(m, levels, g, p);
      LandingInRange(m, levels, g, Child(p, false));
      RangeShrinks(m, levels, Child(p, false), p, Landing(m, levels, g, p));
    }
  }

  lemma SingleEntryChoice(m: seq<nat>, levels: nat, c: Cursor)
    requires InMapping(m, levels, c) && c.hi - c.lo <= 1
    ensures Choose(m, levels, c) == Left ==> m[c.lo] < Center(levels, c)
    ensures Choose(m, levels, c) == Right ==> Center(levels, c) <= m[c.lo]
    ensures Move(levels, c, Choose(m, levels, c)).lo == c.lo
  {
  }

  // --- which mappings survive the round trip ---

  /** A node lies on the side that the decision at a path names. */
  predicate OnSide(m: seq<nat>, levels: nat, p: Path, node: nat)
    requires |m| > 0
  {
    var c := At(m, levels, p);
    && (Choose(m, levels, c) == Left ==> node < Center(levels, c))
    && (Choose(m, levels, c) == Right ==> Center(levels, c) <= node)
  }

  /** Every entry of the slice lies on the side that its two end points chose. */
  predicate EndsSpeakForSlice(m: seq<nat>, levels: nat, p: Path)
    requires |m| > 0
  {
    forall i :: At(m, levels, p).lo <= i < At(m, levels, p).hi ==> OnSide(m, levels, p, m[i])
  }

  /** Every entry names a node of the 2^levels, and no slice hides an entry from its end points. */
  ghost predicate Traceable(m: seq<nat>, levels: nat, g: nat)
    requires |m| > 0
  {
    && InNetwork(m, Pow2(levels))
    && forall p {:trigger EndsSpeakForSlice(m, levels, p)} :: Length(p) < g ==> EndsSpeakForSlice(m, levels, p)
  }

  ghost predicate AllLand(m: seq<nat>, levels: nat, g: nat)
    requires |m| == Pow2(g)
  {
    forall i: nat :: i < |m| ==> Landing(m, levels, g, PathOf(g, i)) == m[i]
  }

  lemma InsideHalf(m: seq<nat>, levels: nat, c: Cursor, right: bool, i: nat)
    requires InMapping(m, levels, c)
    requires var h := Halve(Move(levels, c, Choose(m, levels, c)), right); h.lo <= i < h.hi
    ensures c.lo <= i < c.hi
  {
  }

  lemma SpokenForStays(m: seq<nat>, levels: nat, p: Path, i: nat)
    requires |m| > 0 && EndsSpeakForSlice(m, levels, p)
    requires At(m, levels, p).lo <= i < At(m, levels, p).hi
    requires InRange(levels, At(m, levels, p), m[i])
    ensures InRange(levels, After(m, levels, p), m[i])
  {
    MoveRange(m, levels, At(m, levels, p), m[i]);
  }

  lemma {:induction false} TraceableInRange(m: seq<nat>, levels: nat, g: nat, p: Path, i: nat)
    requires |m| == Pow2(g) && Length(p) <= g && Traceable(m, levels, g)
    requires At(m, levels, p).lo <= i < At(m, levels, p).hi
    ensures InRange(levels, At(m, levels, p), m[i])
    decreases p
  {
    if p.Child? {
      InsideHalf(m, levels, At(m, levels, p.parent), p.right, i);
      TraceableInRange(m, levels, g, p.parent, i);
      SpokenForStays(m, levels, p.parent, i);
    }
  }

  lemma TraceableLands(m: seq<nat>, levels: nat, g: nat, i: nat)
    requires |m| == Pow2(g) && Traceable(m, levels, g) && i < |m|
    ensures Landing(m, levels, g, PathOf(g, i)) == m[i]
  {
    var p := PathOf(g, i);
    SliceStart(m, levels, g, p);
    TraceableInRange(m, levels, g, p, i);
    SingleEntryClamps(m, levels, g, p);
  }

  lemma AllLandInNetwork(m: seq<nat>, levels: nat, g: nat, i: nat)
    requires |m| == Pow2(g) && AllLand(m, levels, g) && i < |m|
    ensures m[i] < Pow2(levels)
  {
    LandsInRange(m, levels, g, Root, i);
    MoveRange(m, levels, At(m, levels, Root), m[i]);
  }

  lemma AllLandIsTraceable(m: seq<nat>, levels: nat, g: nat)
    requires |m| == Pow2(g) && AllLand(m, levels, g)
    ensures Traceable(m, levels, g)
  {
    forall i | 0 <= i < |m| ensures m[i] < Pow2(levels) {
      AllLandInNetwork(m, levels, g, i);
    }
    forall p | Length(p) < g ensures EndsSpeakForSlice(m, levels, p) {
      AllLandSpeaks(m, levels, g, p);
    }
  }

  /** The exact condition for the round trip, for every mapping, sorted or not. */
  lemma LandsIffTraceable(m: seq<nat>, levels: nat, g: nat)
    requires |m| == Pow2(g)
    ensures AllLand(m, levels, g) <==> Traceable(m, levels, g)
  {
    if AllLand(m, levels, g) {
      AllLandIsTraceable(m, levels, g);
    }
    if Traceable(m, levels, g) {
      forall i: nat | i < |m| ensures Landing(m, levels, g, PathOf(g, i)) == m[i] {
        TraceableLands(m, levels, g, i);
      }
    }
  }

  lemma AllLandSpeaks(m: seq<nat>, levels: nat, g: nat, p: Path)
    requires |m| == Pow2(g) && Length(p) <= g && AllLand(m, levels, g)
    ensures EndsSpeakForSlice(m, levels, p)
  {
    var c := At(m, levels, p);
    forall i | c.lo <= i < c.hi ensures OnSide(m, levels, p, m[i]) {
      LandsOnSide(m, levels, g, p, i);
    }
  }

  /** Sorted mappings of in-network nodes always survive. */
  lemma SortedIsTraceable(m: seq<nat>, levels: nat, g: nat)
    requires |m| == Pow2(g) && Sorted(m) && InNetwork(m, Pow2(levels))
    ensures Traceable(m, levels, g)
  {
  }

  lemma SwappedPairMisjudged(m: seq<nat>)
    requires m == [1, 0]
    ensures !EndsSpeakForSlice(m, 1, Root)
  {
    assert m[0] == 1;
  }

  /** An unsorted mapping of two tasks on two nodes is lost. */
  lemma UnsortedIsLost(m: seq<nat>)
    requires m == [1, 0]
    ensures |m| == Pow2(1) && !AllLand(m, 1, 1)
  {
    SwappedPairMisjudged(m);
    LandsIffTraceable(m, 1, 1);
  }

  // --- tasks split further than the mapping ---

  /** `x`, or the end of the cursor's node range that is nearest to it. */
  function Clamped(levels: nat, c: Cursor, x: nat): nat
    requires c.depth <= levels
  {
    if x < c.base then c.base
    else if x < c.base + Pow2(levels - c.depth) then x
    else c.base + Pow2(levels - c.depth) - 1
  }

  /** A move toward the side of `x` leaves the nearest node the same. */
  lemma ClampedMove(m: seq<nat>, levels: nat, c: Cursor, x: nat)
    requires InMapping(m, levels, c)
    requires Choose(m, levels, c) == Left ==> x < Center(levels, c)
    requires Choose(m, levels, c) == Right ==> Center(levels, c) <= x
    ensures Clamped(levels, Move(levels, c, Choose(m, levels, c)), x) == Clamped(levels, c, x)
  {
  }

  lemma ClampedAtLeaf(levels: nat, c: Cursor, x: nat)
    requires c.depth == levels
    ensures Clamped(levels, c, x) == c.base
  {
  }

  lemma SingleEntryStep(m: seq<nat>, levels: nat, c: Cursor, right: bool)
    requires InMapping(m, levels, c) && c.hi - c.lo <= 1
    ensures var n := Halve(Move(levels, c, Choose(m, levels, c)), right);
            n.lo == c.lo && n.depth <= levels && Clamped(levels, n, m[c.lo]) == Clamped(levels, c, m[c.lo])
  {
    SingleEntryChoice(m, levels, c);
    ClampedMove(m, levels, c, m[c.lo]);
  }

  /** Once the slice is a single entry, a task ends at the node of its range nearest to the entry. */
  lemma {:induction false} SingleEntryClamps(m: seq<nat>, levels: nat, g: nat, p: Path)
    requires |m| == Pow2(g) && Length(p) >= g
    ensures Landing(m, levels, g, p) == Clamped(levels, At(m, levels, p), m[At(m, levels, p).lo])
    decreases Remaining(m, levels, g, p)
  {
    SliceShape(m, levels, g, p);
    SingleEntryStep(m, levels, At(m, levels, p), false);
    if After(m, levels, p).depth < levels {
      LeftChildDescends(m, levels, g, p);
      SingleEntryClamps(m, levels, g, Child(p, false));
    } else {
      ClampedAtLeaf(levels, At(m, levels, Child(p, false)), m[At(m, levels, p).lo]);
    }
  }

  /** Further splits change neither the entry nor where it ends. */
  lemma {:induction false} DeepTasksTogether(m: seq<nat>, levels: nat, g: nat, p: Path)
    requires |m| == Pow2(g) && Length(p) >= g
    ensures At(m, levels, p).lo == Bits(Ancestor(p, g)) < |m|
    ensures Clamped(levels, At(m, levels, p), m[Bits(Ancestor(p, g))]) ==
            Clamped(levels, At(m, levels, Ancestor(p, g)), m[Bits(Ancestor(p, g))])
    decreases p
  {
    if Length(p) == g {
      SliceStart(m, levels, g, p);
    } else {
      DeepTasksTogether(m, levels, g, p.parent);
      assert Ancestor(p, g) == Ancestor(p.parent, g);
      SliceShape(m, levels, g, p.parent);
      SingleEntryStep(m, levels, At(m, levels, p.parent), p.right);
    }
  }

  lemma UnwrittenStops(m: seq<nat>, levels: nat, p: Path)
    requires |m| > 0 && !Written(m, levels, p)
    ensures At(m, levels, p).depth == levels && After(m, levels, p) == At(m, levels, p)
  {
  }

  /** A task split far enough is sent to the locality at which the task of its index lands. */
  lemma DeepTaskTarget(pol: Policy, m: seq<nat>, p: Path)
    requires Realizes(pol, m) && Length(p) >= pol.granularity + pol.root.layer
    ensures Bits(Ancestor(p, pol.granularity)) < |m|
    ensures GetTarget(pol, p) == Address(ReadBack(m, pol.root.layer, pol.granularity)[Bits(Ancestor(p, pol.granularity))], 0)
  {
    var levels, g := pol.root.layer, pol.granularity;
    var a := Ancestor(p, g);
    DeepTasksTogether(m, levels, g, p);
    DeepTasksTogether(m, levels, g, a);
    SingleEntryClamps(m, levels, g, a);
    PathUnique(a, PathOf(g, Bits(a)));
    if Written(m, levels, p) {
      WrittenDepth(m, levels, g, p);
    }
    UnwrittenStops(m, levels, p);
    TargetIsCompiled(pol, m, p);
  }

  // --- reading back twice ---

  /** Every task below a path lands in the node range chosen there. */
  lemma LandsInRange(m: seq<nat>, levels: nat, g: nat, p: Path, i: nat)
    requires |m| == Pow2(g) && Length(p) <= g
    requires At(m, levels, p).lo <= i < At(m, levels, p).hi
    ensures InRange(levels, After(m, levels, p), ReadBack(m, levels, g)[i])
  {
    IndexBelow(m, levels, g, p, i);
    LandingInRange(m, levels, g, PathOf(g, i));
    RangeShrinks(m, levels, PathOf(g, i), p, ReadBack(m, levels, g)[i]);
  }

  /** Every task of a slice lands on the side that the decision names. */
  lemma LandsOnSide(m: seq<nat>, levels: nat, g: nat, p: Path, i: nat)
    requires |m| == Pow2(g) && Length(p) <= g
    requires At(m, levels, p).lo <= i < At(m, levels, p).hi
    ensures OnSide(m, levels, p, ReadBack(m, levels, g)[i])
  {
    LandsInRange(m, levels, g, p, i);
    MoveRange(m, levels, At(m, levels, p), ReadBack(m, levels, g)[i]);
  }

  /** The nodes `r` of all tasks keep to the sides that compiling `m` chose. */
  ghost predicate KeepsSides(m: seq<nat>, levels: nat, g: nat, r: seq<nat>)
    requires |m| > 0
  {
    && |r| == |m|
    && forall p, i {:trigger OnSide(m, levels, p, r[i])} ::
         Length(p) <= g && At(m, levels, p).lo <= i < At(m, levels, p).hi ==> OnSide(m, levels, p, r[i])
  }

  lemma LandingsKeepSides(m: seq<nat>, levels: nat, g: nat)
    requires |m| == Pow2(g)
    ensures KeepsSides(m, levels, g, ReadBack(m, levels, g))
  {
    forall p, i | Length(p) <= g && At(m, levels, p).lo <= i < At(m, levels, p).hi
      ensures OnSide(m, levels, p, ReadBack(m, levels, g)[i])
    {
      LandsOnSide(m, levels, g, p, i);
    }
  }

  /** The slice of a path is split at `center`, and its first or last entry has index `i`. */
  predicate SplitAt(m: seq<nat>, levels: nat, p: Path, center: nat, i: nat, high: bool)
    requires |m| > 0
  {
    var c := At(m, levels, p);
    && c.depth < levels && Center(levels, c) == center
    && c.lo <= i < c.hi && i == if high then c.hi - 1 else c.lo
  }

  /** A slice whose first entry is low or last entry is high, but which moves to neither of these sides, stays. */
  lemma StaysForEnds(m: seq<nat>, levels: nat, c: Cursor)
    requires InMapping(m, levels, c) && c.depth < levels && c.lo < c.hi
    requires || (m[c.lo] < Center(levels, c) && Choose(m, levels, c) != Left)
             || (Center(levels, c) <= m[c.hi - 1] && Choose(m, levels, c) != Right)
    ensures c.lo < Middle(c) < c.hi
    ensures Halve(Move(levels, c, Choose(m, levels, c)), false) == c.(hi := Middle(c))
    ensures Halve(Move(levels, c, Choose(m, levels, c)), true) == c.(lo := Middle(c))
  {
  }

  /** Unless it goes left at once, a slice with a low first entry keeps that entry first on the left. */
  lemma LowEndStep(m: seq<nat>, levels: nat, g: nat, p: Path, center: nat, i: nat)
    requires |m| == Pow2(g) && Length(p) <= g && SplitAt(m, levels, p, center, i, false) && m[i] < center
    requires Choose(m, levels, At(m, levels, p)) != Left
    ensures Length(p) < g && SplitAt(m, levels, Child(p, false), center, i, false)
  {
    WideSlice(m, levels, g, p);
    StaysForEnds(m, levels, At(m, levels, p));
  }

  /** Unless it goes right at once, a slice with a high last entry keeps that entry last on the right. */
  lemma HighEndStep(m: seq<nat>, levels: nat, g: nat, p: Path, center: nat, i: nat)
    requires |m| == Pow2(g) && Length(p) <= g && SplitAt(m, levels, p, center, i, true) && center <= m[i]
    requires Choose(m, levels, At(m, levels, p)) != Right
    ensures Length(p) < g && SplitAt(m, levels, Child(p, true), center, i, true)
  {
    WideSlice(m, levels, g, p);
    StaysForEnds(m, levels, At(m, levels, p));
  }

  lemma WideSlice(m: seq<nat>, levels: nat, g: nat, p: Path)
    requires |m| == Pow2(g) && Length(p) <= g
    ensures At(m, levels, p).lo < At(m, levels, p).hi
    ensures Length(p) == g ==> At(m, levels, p).hi == At(m, levels, p).lo + 1
  {
    SliceShape(m, levels, g, p);
  }

  lemma EndOnSide(m: seq<nat>, levels: nat, g: nat, r: seq<nat>, p: Path, center: nat, i: nat, high: bool)
    requires |m| > 0 && KeepsSides(m, levels, g, r) && Length(p) <= g && SplitAt(m, levels, p, center, i, high)
    ensures Choose(m, levels, At(m, levels, p)) == Left ==> r[i] < center
    ensures Choose(m, levels, At(m, levels, p)) == Right ==> center <= r[i]
  {
    assert OnSide(m, levels, p, r[i]);
  }

  /** Below the centre at the low end of a slice means landing below it. */
  lemma {:induction false} LowEndLands(m: seq<nat>, levels: nat, g: nat, r: seq<nat>, p: Path, center: nat, i: nat)
    requires |m| == Pow2(g) && KeepsSides(m, levels, g, r) && Length(p) <= g
    requires SplitAt(m, levels, p, center, i, false) && m[i] < center
    ensures r[i] < center
    decreases g - Length(p)
  {
    if Choose(m, levels, At(m, levels, p)) == Left {
      EndOnSide(m, levels, g, r, p, center, i, false);
    } else {
      LowEndStep(m, levels, g, p, center, i);
      LowEndLands(m, levels, g, r, Child(p, false), center, i);
    }
  }

  /** At or above the centre at the high end means landing there. */
  lemma {:induction false} HighEndLands(m: seq<nat>, levels: nat, g: nat, r: seq<nat>, p: Path, center: nat, i: nat)
    requires |m| == Pow2(g) && KeepsSides(m, levels, g, r) && Length(p) <= g
    requires SplitAt(m, levels, p, center, i, true) && center <= m[i]
    ensures center <= r[i]
    decreases g - Length(p)
  {
    if Choose(m, levels, At(m, levels, p)) == Right {
      EndOnSide(m, levels, g, r, p, center, i, true);
    } else {
      HighEndStep(m, levels, g, p, center, i);
      HighEndLands(m, levels, g, r, Child(p, true), center, i);
    }
  }

  /** The end points of a slice lead to a given decision. */
  predicate EndsLeadTo(levels: nat, c: Cursor, d: Decision, low: nat, high: nat) {
    && c.depth < levels
    && (d == Left ==> high < Center(levels, c))
    && (d == Right ==> Center(levels, c) <= low && Center(levels, c) <= high)
    && (d == Stay ==> low < Center(levels, c) <= high)
  }

  lemma ChoiceByEnds(m: seq<nat>, levels: nat, c: Cursor, d: Decision)
    requires InMapping(m, levels, c) && c.lo < c.hi && d != Done && EndsLeadTo(levels, c, d, m[c.lo], m[c.hi - 1])
    ensures Choose(m, levels, c) == d
  {
  }

  lemma StayedEnds(m: seq<nat>, levels: nat, c: Cursor)
    requires InMapping(m, levels, c) && c.depth < levels && c.lo < c.hi && Choose(m, levels, c) == Stay
    ensures m[c.lo] < Center(levels, c) <= m[c.hi - 1]
  {
  }

  /** The landings at the ends of a slice lead to the decision that its entries led to. */
  lemma EndsLand(m: seq<nat>, levels: nat, g: nat, r: seq<nat>, p: Path, c: Cursor)
    requires |m| == Pow2(g) && KeepsSides(m, levels, g, r) && Length(p) <= g && c == At(m, levels, p)
    requires c.lo < c.hi && c.depth < levels
    ensures EndsLeadTo(levels, c, Choose(m, levels, c), r[c.lo], r[c.hi - 1])
  {
    var center := Center(levels, c);
    if Choose(m, levels, c) == Stay {
      StayedEnds(m, levels, c);
      LowEndLands(m, levels, g, r, p, center, c.lo);
      HighEndLands(m, levels, g, r, p, center, c.hi - 1);
    } else {
      EndOnSide(m, levels, g, r, p, center, c.lo, false);
      EndOnSide(m, levels, g, r, p, center, c.hi - 1, true);
    }
  }

  lemma SameChoice(m: seq<nat>, levels: nat, g: nat, r: seq<nat>, p: Path, c: Cursor)
    requires |m| == Pow2(g) && KeepsSides(m, levels, g, r) && Length(p) <= g && c == At(m, levels, p)
    ensures Choose(r, levels, c) == Choose(m, levels, c)
  {
    if c.depth < levels {
      WideSlice(m, levels, g, p);
      EndsLand(m, levels, g, r, p, c);
      ChoiceByEnds(r, levels, c, Choose(m, levels, c));
    }
  }

  /** Compiling the landings takes the same course as compiling the mapping. */
  lemma {:induction false} SameCourse(m: seq<nat>, levels: nat, g: nat, r: seq<nat>, p: Path)
    requires |m| == Pow2(g) && KeepsSides(m, levels, g, r) && Length(p) <= g
    ensures At(r, levels, p) == At(m, levels, p)
    decreases p
  {
    if p.Child? {
      SameCourse(m, levels, g, r, p.parent);
      SameChoice(m, levels, g, r, p.parent, At(m, levels, p.parent));
    }
  }

  lemma LandingsSpeak(m: seq<nat>, levels: nat, g: nat, r: seq<nat>, p: Path)
    requires |m| == Pow2(g) && KeepsSides(m, levels, g, r) && Length(p) <= g
    ensures EndsSpeakForSlice(r, levels, p)
  {
    SameCourse(m, levels, g, r, p);
    SameChoice(m, levels, g, r, p, At(m, levels, p));
    forall i | At(m, levels, p).lo <= i < At(m, levels, p).hi ensures OnSide(r, levels, p, r[i]) {
      assert OnSide(m, levels, p, r[i]);
    }
  }

  /** Whatever mapping was compiled, what is read back can itself be compiled without loss. */
  lemma ReadBackStable(m: seq<nat>, levels: nat, g: nat)
    requires |m| == Pow2(g)
    ensures Traceable(ReadBack(m, levels, g), levels, g)
    ensures ReadBack(ReadBack(m, levels, g), levels, g) == ReadBack(m, levels, g)
  {
    var r := ReadBack(m, levels, g);
    LandingsKeepSides(m, levels, g);
    forall i | 0 <= i < |r| ensures r[i] < Pow2(levels) {
      LandsInRange(m, levels, g, Root, i);
      MoveRange(m, levels, At(m, levels, Root), r[i]);
    }
    forall p | Length(p) < g ensures EndsSpeakForSlice(r, levels, p) {
      LandingsSpeak(m, levels, g, r, p);
    }
    ReadBackIffTraceable(r, levels, g);
  }

  // --- sorted slices ---

  predicate SortedSlice(m: seq<nat>, lo: nat, hi: nat)
    requires hi <= |m|
  {
    forall i, j :: lo <= i <= j < hi ==> m[i] <= m[j]
  }

  /** The tasks of a sorted slice land at the nodes of the range nearest to their entries. */
  lemma {:induction false} SortedSliceLands(m: seq<nat>, levels: nat, g: nat, p: Path, i: nat)
    requires |m| == Pow2(g) && Length(p) <= g && At(m, levels, p).lo <= i < At(m, levels, p).hi
    requires SortedSlice(m, At(m, levels, p).lo, At(m, levels, p).hi)
    ensures ReadBack(m, levels, g)[i] == Clamped(levels, At(m, levels, p), m[i])
    decreases g - Length(p)
  {
    if Length(p) == g {
      LeafSliceLands(m, levels, g, p, i);
    } else {
      var c := At(m, levels, p);
      SortedSliceStep(m, levels, c, i);
      SortedSliceLands(m, levels, g, Child(p, i >= Middle(c)), i);
    }
  }

  lemma LeafSliceLands(m: seq<nat>, levels: nat, g: nat, p: Path, i: nat)
    requires |m| == Pow2(g) && Length(p) == g && At(m, levels, p).lo <= i < At(m, levels, p).hi
    ensures ReadBack(m, levels, g)[i] == Clamped(levels, At(m, levels, p), m[i])
  {
    SliceStart(m, levels, g, p);
    PathUnique(p, PathOf(g, i));
    SingleEntryClamps(m, levels, g, p);
  }

  lemma SortedSliceStep(m: seq<nat>, levels: nat, c: Cursor, i: nat)
    requires InMapping(m, levels, c) && c.lo <= i < c.hi && SortedSlice(m, c.lo, c.hi)
    ensures var n := Halve(Move(levels, c, Choose(m, levels, c)), i >= Middle(c));
            && n.lo <= i < n.hi <= |m| && n.depth <= levels && SortedSlice(m, n.lo, n.hi)
            && Clamped(levels, n, m[i]) == Clamped(levels, c, m[i])
  {
    ClampedMove(m, levels, c, m[i]);
  }

  // --- sorted entries followed by entries for the first node ---

  /** Number of splits that two tasks of the same depth have in common. */
  function Common(p: Path, q: Path): (k: nat)
    requires Length(p) == Length(q)
    ensures k <= Length(p)
  {
    if p == q then Length(p) else Common(p.parent, q.parent)
  }

  /** The same for two indices. */
  function Shared(g: nat, i: nat, j: nat): nat
    requires i < Pow2(g) && j < Pow2(g)
  {
    Common(PathOf(g, i), PathOf(g, j))
  }

  /** The task at which the ways to two tasks part. */
  lemma {:induction false} Fork(p: Path, q: Path) returns (a: Path)
    requires Length(p) == Length(q) && Bits(p) < Bits(q)
    ensures Length(a) == Common(p, q) < Length(p)
    ensures Extends(p, Child(a, false)) && Extends(q, Child(a, true))
  {
    if p.parent == q.parent {
      a := p.parent;
    } else {
      if Bits(p.parent) == Bits(q.parent) {
        PathUnique(p.parent, q.parent);
      }
      a := Fork(p.parent, q.parent);
    }
  }

  /** The slice of a path holds the indices of all tasks below it. */
  lemma BelowInSlice(m: seq<nat>, levels: nat, g: nat, p: Path, i: nat)
    requires |m| == Pow2(g) && i < Pow2(g) && Extends(PathOf(g, i), p)
    ensures Length(p) <= g && At(m, levels, p).lo <= i < At(m, levels, p).hi
  {
    BelowBounds(g, p, i);
    SliceStart(m, levels, g, p);
  }

  lemma BelowBounds(g: nat, p: Path, i: nat)
    requires i < Pow2(g) && Extends(PathOf(g, i), p)
    ensures Length(p) <= g
    ensures Shl(Bits(p), g - Length(p)) <= i < Shl(Bits(p), g - Length(p)) + Pow2(g - Length(p))
  {
    AncestorUnique(PathOf(g, i), p);
    AncestorBits(PathOf(g, i), Length(p));
    ShrBounds(i, g - Length(p));
  }

  /** Sorted entries for the first `placed` tasks, and the first node for all others. */
  ghost predicate Padded(m: seq<nat>, placed: nat) {
    placed < |m| && SortedSlice(m, 0, placed) && forall k :: placed <= k < |m| ==> m[k] == 0
  }

  lemma PaddedStep(m: seq<nat>, levels: nat, c: Cursor, placed: nat)
    requires Padded(m, placed) && InMapping(m, levels, c) && c.lo <= placed < c.hi && c.base == 0
    ensures var n := Move(levels, c, Choose(m, levels, c));
            n.base == 0 && n.depth == if c.depth < levels then c.depth + 1 else c.depth
  {
  }

  /** On the way to the first padded task every decision goes left. */
  lemma {:induction false} PaddedSpine(m: seq<nat>, levels: nat, g: nat, placed: nat, p: Path)
    requires |m| == Pow2(g) && Padded(m, placed) && Extends(PathOf(g, placed), p)
    ensures At(m, levels, p).base == 0
    ensures At(m, levels, p).depth == if Length(p) < levels then Length(p) else levels
    decreases p
  {
    if p.Child? {
      ExtendsTrans(PathOf(g, placed), p, p.parent);
      PaddedSpine(m, levels, g, placed, p.parent);
      BelowInSlice(m, levels, g, p.parent, placed);
      PaddedStep(m, levels, At(m, levels, p.parent), placed);
    }
  }

  /** Number of nodes left for task `i` where its way parts from that to the first padded task. */
  function WidthAt(levels: nat, g: nat, placed: nat, i: nat): (w: nat)
    requires i < Pow2(g) && placed < Pow2(g)
    ensures w >= 1
  {
    var k := Shared(g, i, placed) + 1;
    if k < levels then Pow2(levels - k) else 1
  }

  lemma Siblings(m: seq<nat>, levels: nat, a: Path)
    requires |m| > 0
    ensures At(m, levels, Child(a, false)).base == At(m, levels, Child(a, true)).base
    ensures At(m, levels, Child(a, false)).depth == At(m, levels, Child(a, true)).depth
    ensures At(m, levels, Child(a, false)).hi == At(m, levels, Child(a, true)).lo
  {
  }

  /** Where the way of a placed task parts from that to the padding, its slice has only placed tasks. */
  lemma PlacedFork(m: seq<nat>, levels: nat, g: nat, placed: nat, i: nat) returns (p: Path)
    requires |m| == Pow2(g) && Padded(m, placed) && i < placed
    ensures Length(p) == Shared(g, i, placed) + 1 <= g
    ensures At(m, levels, p).lo <= i < At(m, levels, p).hi <= placed && At(m, levels, p).base == 0
    ensures At(m, levels, p).depth == if Length(p) < levels then Length(p) else levels
  {
    var a := Fork(PathOf(g, i), PathOf(g, placed));
    p := Child(a, false);
    PaddedSpine(m, levels, g, placed, Child(a, true));
    Siblings(m, levels, a);
    BelowInSlice(m, levels, g, p, i);
    BelowInSlice(m, levels, g, Child(a, true), placed);
  }

  lemma ClampedFromZero(levels: nat, c: Cursor, x: nat, k: nat)
    requires c.base == 0 && c.depth == if k < levels then k else levels
    ensures var w := if k < levels then Pow2(levels - k) else 1;
            Clamped(levels, c, x) == if x < w then x else w - 1
  {
  }

  /** A task before the padding ends at its own node, or at the last of those left for it. */
  lemma PlacedLands(m: seq<nat>, levels: nat, g: nat, placed: nat, i: nat)
    requires |m| == Pow2(g) && Padded(m, placed) && i < placed
    ensures var w := WidthAt(levels, g, placed, i);
            ReadBack(m, levels, g)[i] == if m[i] < w then m[i] else w - 1
  {
    var p := PlacedFork(m, levels, g, placed, i);
    SortedSliceLands(m, levels, g, p, i);
    ClampedFromZero(levels, At(m, levels, p), m[i], Length(p));
  }

  lemma PaddingLands(m: seq<nat>, levels: nat, g: nat, placed: nat, i: nat)
    requires |m| == Pow2(g) && Padded(m, placed) && placed <= i < |m|
    ensures ReadBack(m, levels, g)[i] == 0
  {
    if i == placed {
      PaddedSpine(m, levels, g, placed, PathOf(g, i));
      BelowInSlice(m, levels, g, PathOf(g, i), i);
      LeafSliceLands(m, levels, g, PathOf(g, i), i);
    } else {
      var a := Fork(PathOf(g, placed), PathOf(g, i));
      PaddedSpine(m, levels, g, placed, Child(a, false));
      Siblings(m, levels, a);
      BelowInSlice(m, levels, g, Child(a, false), placed);
      BelowInSlice(m, levels, g, Child(a, true), i);
      SortedSliceLands(m, levels, g, Child(a, true), i);
    }
  }

  /** What reading back a padded mapping yields, in closed form. */
  lemma PaddedReadBack(m: seq<nat>, levels: nat, g: nat, placed: nat)
    requires |m| == Pow2(g) && Padded(m, placed)
    ensures forall i :: 0 <= i < placed ==>
              ReadBack(m, levels, g)[i] ==
              if m[i] < WidthAt(levels, g, placed, i) then m[i] else WidthAt(levels, g, placed, i) - 1
    ensures forall i :: placed <= i < |m| ==> ReadBack(m, levels, g)[i] == 0
  {
    forall i: nat | i < placed
      ensures var w := WidthAt(levels, g, placed, i); ReadBack(m, levels, g)[i] == if m[i] < w then m[i] else w - 1
    {
      PlacedLands(m, levels, g, placed, i);
    }
    forall i: nat | placed <= i < |m| ensures ReadBack(m, levels, g)[i] == 0 {
      PaddingLands(m, levels, g, placed, i);
    }
  }

  // --- reading back the whole mapping ---

  /** All paths down to a depth, each before its extensions. */
  function CollectPaths(cur: Path, depth: int): seq<Path>
    decreases depth + 1
  {
    if depth < 0 then []
    else [cur] + CollectPaths(Child(cur, false), depth - 1) + CollectPaths(Child(cur, true), depth - 1)
  }

  function AtDepth(paths: seq<Path>, depth: nat): seq<Path> {
    if paths == [] then []
    else
      var rest := AtDepth(paths[..|paths| - 1], depth);
      var last := paths[|paths| - 1];
      if Length(last) == depth then rest + [last] else rest
  }

  lemma {:induction false} AtDepthAppend(a: seq<Path>, b: seq<Path>, depth: nat)
    ensures AtDepth(a + b, depth) == AtDepth(a, depth) + AtDepth(b, depth)
  {
    if b == [] {
      assert a + b == a;
    } else {
      assert (a + b)[..|a + b| - 1] == a + b[..|b| - 1];
      AtDepthAppend(a, b[..|b| - 1], depth);
    }
  }

  function FullDepth(cur: Path, d: nat): seq<Path> { AtDepth(CollectPaths(cur, d), Length(cur) + d) }

  lemma FullDepthSplit(cur: Path, d: nat)
    requires d > 0
    ensures FullDepth(cur, d) == FullDepth(Child(cur, false), d - 1) + FullDepth(Child(cur, true), d - 1)
  {
    var depth := Length(cur) + d;
    var l, r := CollectPaths(Child(cur, false), d - 1), CollectPaths(Child(cur, true), d - 1);
    calc {
      FullDepth(cur, d);
      AtDepth([cur] + l + r, depth);
      { AtDepthAppend([cur] + l, r, depth); }
      AtDepth([cur] + l, depth) + AtDepth(r, depth);
      { AtDepthAppend([cur], l, depth); SinglePath(cur, depth); }
      [] + AtDepth(l, depth) + AtDepth(r, depth);
    }
  }

  lemma {:induction false} FullDepthIsTasksBelow(cur: Path, d: nat)
    ensures FullDepth(cur, d) == TasksBelow(cur, d)
    decreases d
  {
    if d == 0 {
      FullDepthZero(cur);
    } else {
      calc {
        FullDepth(cur, d);
        { FullDepthSplit(cur, d); }
        FullDepth(Child(cur, false), d - 1) + FullDepth(Child(cur, true), d - 1);
        { FullDepthIsTasksBelow(Child(cur, false), d - 1); FullDepthIsTasksBelow(Child(cur, true), d - 1); }
        TasksBelow(Child(cur, false), d - 1) + TasksBelow(Child(cur, true), d - 1);
        TasksBelow(cur, d);
      }
    }
  }

  lemma FullDepthZero(cur: Path)
    ensures FullDepth(cur, 0) == [cur]
  {
    assert CollectPaths(cur, 0) == [cur];
    SinglePath(cur, Length(cur));
  }

  lemma SinglePath(cur: Path, depth: nat)
    ensures AtDepth([cur], depth) == if Length(cur) == depth then [cur] else []
  {
    assert [cur][..0] == [];
  }

  /** The landings of the tasks of full depth, in the order of their indices. */
  function Landings(m: seq<nat>, levels: nat, g: nat, paths: seq<Path>): seq<nat>
    requires |m| == Pow2(g)
  {
    seq(|paths|, i requires 0 <= i < |paths| => Landing(m, levels, g, paths[i]))
  }

  /** What reading a policy back yields: entry i is the landing of the task with index i. */
  function ReadBack(m: seq<nat>, levels: nat, g: nat): (r: seq<nat>)
    requires |m| == Pow2(g)
    ensures |r| == |m|
  {
    seq(|m|, i requires 0 <= i < |m| => Landing(m, levels, g, PathOf(g, i)))
  }

  /** The round trip is exact for traceable mappings and for no others. */
  lemma ReadBackIffTraceable(m: seq<nat>, levels: nat, g: nat)
    requires |m| == Pow2(g)
    ensures ReadBack(m, levels, g) == m <==> Traceable(m, levels, g)
  {
    LandsIffTraceable(m, levels, g);
    if ReadBack(m, levels, g) == m {
      forall i: nat | i < |m| ensures Landing(m, levels, g, PathOf(g, i)) == m[i] {
        assert ReadBack(m, levels, g)[i] == m[i];
      }
    }
  }

  method TaskDistributionMapping(pol: Policy, ghost m: seq<nat>) returns (res: seq<nat>)
    requires Realizes(pol, m)
    ensures res == ReadBack(m, pol.root.layer, pol.granularity)
    ensures res == m <==> Traceable(m, pol.root.layer, pol.granularity)
  {
    ghost var levels, g := pol.root.layer, pol.granularity;
    var paths := CollectPaths(Root, pol.granularity);
    res := [];
    for i := 0 to |paths|
      invariant res == Landings(m, levels, g, AtDepth(paths[..i], g))
    {
      var cur := paths[i];
      assert paths[..i + 1][..i] == paths[..i];
      if Length(cur) != pol.granularity {
        continue;
      }
      var rank := TraceTarget(pol, cur, m);
      res := res + [rank];
    }
    assert paths[..|paths|] == paths;
    LandingsAreIndexed(m, levels, g, paths);
    ReadBackIffTraceable(m, levels, g);
  }

  lemma LandingsAreIndexed(m: seq<nat>, levels: nat, g: nat, paths: seq<Path>)
    requires |m| == Pow2(g) && paths == CollectPaths(Root, g)
    ensures Landings(m, levels, g, AtDepth(paths, g)) == ReadBack(m, levels, g)
  {
    FullDepthIsTasksBelow(Root, g);
    TasksBelowInOrder(Root, g);
    forall i: nat | i < |m| ensures AtDepth(paths, g)[i] == PathOf(g, i) {
      RootTasks(g, i);
    }
  }

  /** The round trip: a sorted in-network mapping is read back unchanged. */
  method SortedRoundTrip(pol: Policy, ghost m: seq<nat>) returns (res: seq<nat>)
    requires Realizes(pol, m) && Sorted(m) && InNetwork(m, Pow2(pol.root.layer))
    ensures res == m
  {
    SortedIsTraceable(m, pol.root.layer, pol.granularity);
    res := TaskDistributionMapping(pol, m);
  }
}
