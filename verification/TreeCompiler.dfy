/** Compilation of a task-to-node mapping into a decision tree. */
module TreeCompiler {
  import opened Powers
  import opened TaskPath
  import opened DecisionTrees

  /** What the compiler knows when it reaches a path: how many levels of the network have been
      descended, the first node of the remaining node range, and the slice of the mapping. */
  datatype Cursor = Cursor(depth: nat, base: nat, lo: nat, hi: nat)

  predicate InMapping(m: seq<nat>, levels: nat, c: Cursor) {
    c.lo < |m| && c.lo <= c.hi <= |m| && c.depth <= levels
  }

  function LowEnd(m: seq<nat>, levels: nat, c: Cursor): nat
    requires InMapping(m, levels, c)
  {
    m[c.lo]
  }

  function HighEnd(m: seq<nat>, levels: nat, c: Cursor): nat
    requires InMapping(m, levels, c)
  {
    if c.lo == c.hi then m[c.lo] else m[c.hi - 1]
  }

  /** First node of the upper half of the remaining node range. */
  function Center(levels: nat, c: Cursor): nat
    requires c.depth < levels
  {
    c.base + Pow2(levels - c.depth - 1)
  }

  /** The decision for a slice, judged by its two end points alone. */
  function Choose(m: seq<nat>, levels: nat, c: Cursor): Decision
    requires InMapping(m, levels, c)
  {
    if c.depth == levels then Done
    else if HighEnd(m, levels, c) < Center(levels, c) then Left
    else if Center(levels, c) <= LowEnd(m, levels, c) then Right
    else Stay
  }

  function Move(levels: nat, c: Cursor, d: Decision): Cursor {
    if c.depth >= levels then c
    else match d
      case Left => c.(depth := c.depth + 1)
      case Right => c.(depth := c.depth + 1, base := Center(levels, c))
      case _ => c
  }

  function Middle(c: Cursor): nat
    requires c.lo <= c.hi
  {
    c.lo + (c.hi - c.lo) / 2
  }

  function Halve(c: Cursor, right: bool): Cursor
    requires c.lo <= c.hi
  {
    if right then c.(lo := Middle(c)) else c.(hi := Middle(c))
  }

  /** The compiler's knowledge at a path, by following the path from the root. */
  function At(m: seq<nat>, levels: nat, p: Path): (c: Cursor)
    requires |m| > 0
    ensures InMapping(m, levels, c)
    decreases p, 0
  {
    match p
    case Root => Cursor(0, 0, 0, |m|)
    case Child(q, b) => Halve(After(m, levels, q), b)
  }

  /** The knowledge once the decision at the path has been taken. */
  function After(m: seq<nat>, levels: nat, p: Path): (c: Cursor)
    requires |m| > 0
    ensures InMapping(m, levels, c)
    decreases p, 1
  {
    var c := At(m, levels, p);
    Move(levels, c, Choose(m, levels, c))
  }

  predicate Written(m: seq<nat>, levels: nat, p: Path)
    requires |m| > 0
  {
    At(m, levels, p).depth < levels
  }

  function DecisionAt(m: seq<nat>, levels: nat, p: Path): (d: Decision)
    requires |m| > 0
    ensures d == Done <==> !Written(m, levels, p)
  {
    Choose(m, levels, At(m, levels, p))
  }

  lemma {:induction false} DepthMonotone(m: seq<nat>, levels: nat, q: Path, p: Path)
    requires |m| > 0 && Extends(q, p)
    ensures At(m, levels, p).depth <= At(m, levels, q).depth
    ensures q != p ==> After(m, levels, p).depth <= At(m, levels, q).depth
  {
    if q != p {
      DepthMonotone(m, levels, q.parent, p);
    }
  }

  /** One step: a wide slice halves, a single entry stays and forces a move. */
  lemma StepShape(m: seq<nat>, levels: nat, c: Cursor, right: bool, half: nat)
    requires InMapping(m, levels, c)
    ensures var n := Halve(Move(levels, c, Choose(m, levels, c)), right);
            && (c.hi == c.lo + 2 * half ==> n.lo == (if right then c.lo + half else c.lo) && n.hi == n.lo + half)
            && (c.hi - c.lo <= 1 ==> n.hi - n.lo <= 1 && n.lo == c.lo)
            && (c.hi - c.lo <= 1 ==> n.depth == if c.depth < levels then c.depth + 1 else levels)
  {
  }

  /** Slices halve down to single entries; from there every decision moves one level down. */
  lemma {:induction false} SliceShape(m: seq<nat>, levels: nat, g: nat, p: Path)
    requires |m| == Pow2(g)
    ensures var c := At(m, levels, p);
            if Length(p) <= g then c.hi - c.lo == Pow2(g - Length(p))
            else c.hi - c.lo <= 1 && (c.depth == levels || c.depth >= Length(p) - g)
  {
    if p.Child? {
      SliceShape(m, levels, g, p.parent);
      var half := if Length(p) <= g then Pow2(g - Length(p)) else 0;
      StepShape(m, levels, At(m, levels, p.parent), p.right, half);
    }
  }

  /** Writes stay in the first g + levels levels of the tree, for every mapping. */
  lemma WrittenDepth(m: seq<nat>, levels: nat, g: nat, p: Path)
    requires |m| == Pow2(g) && Written(m, levels, p)
    ensures Length(p) < g + levels
  {
    SliceShape(m, levels, g, p);
  }

  /** The tree holds exactly the compiled decisions, and done everywhere else. */
  ghost predicate Compiled(encoded: seq<bv8>, m: seq<nat>, levels: nat) {
    && |m| > 0
    && forall q :: Lookup(encoded, q) == DecisionAt(m, levels, q)
  }

  /** `after` differs from `before` by the compiled decisions at and below `p`. */
  ghost predicate Filled(before: seq<bv8>, after: seq<bv8>, m: seq<nat>, levels: nat, p: Path)
    requires |m| > 0
  {
    forall q :: Lookup(after, q) ==
                if Extends(q, p) && Written(m, levels, q) then DecisionAt(m, levels, q) else Lookup(before, q)
  }

  lemma FilledNothing(e: seq<bv8>, m: seq<nat>, levels: nat, p: Path)
    requires |m| > 0 && !Written(m, levels, p)
    ensures Filled(e, e, m, levels, p)
  {
    forall q | Extends(q, p) ensures !Written(m, levels, q) {
      DepthMonotone(m, levels, q, p);
    }
  }

  lemma FilledBoth(e0: seq<bv8>, e1: seq<bv8>, e2: seq<bv8>, e3: seq<bv8>, m: seq<nat>, levels: nat, p: Path)
    requires |m| > 0 && Written(m, levels, p)
    requires forall q :: Lookup(e1, q) == if q == p then DecisionAt(m, levels, p) else Lookup(e0, q)
    requires Filled(e1, e2, m, levels, Child(p, false))
    requires Filled(e2, e3, m, levels, Child(p, true))
    ensures Filled(e0, e3, m, levels, p)
  {
    forall q ensures Lookup(e3, q) == if Extends(q, p) && Written(m, levels, q) then DecisionAt(m, levels, q)
                                      else Lookup(e0, q) {
      ExtendsSplit(q, p);
    }
  }

  /** Takes and stores the decision for one path. */
  method FillCurrent(tree: DecisionTree, p: Path, depth: nat, maxDepth: nat, rangeMin: nat, rangeMax: nat,
                     m: seq<nat>, min: nat, max: nat, ghost g: nat)
    returns (nestedDepth: nat, nestedMin: nat, nestedMax: nat)
    requires |m| == Pow2(g) && depth < maxDepth <= g
    requires tree.encoded.Length == ByteCount(Pow2(2 * g))
    requires At(m, maxDepth, p) == Cursor(depth, rangeMin, min, max)
    requires rangeMax == rangeMin + Pow2(maxDepth - depth)
    modifies tree.encoded
    ensures forall q :: Lookup(tree.encoded[..], q) ==
                        if q == p then DecisionAt(m, maxDepth, p) else Lookup(old(tree.encoded[..]), q)
    ensures After(m, maxDepth, p) == Cursor(nestedDepth, nestedMin, min, max)
    ensures nestedMax == nestedMin + Pow2(maxDepth - nestedDepth)
    ensures nestedDepth > depth || max - min >= 2
  {
    var center := rangeMin + (rangeMax - rangeMin) / 2;
    var curMin := m[min];
    var curMax := if min == max then curMin else m[max - 1];
    nestedDepth, nestedMin, nestedMax := depth, rangeMin, rangeMax;

    var decision: Decision;
    if curMax < center {
      nestedDepth := depth + 1;
      decision := Left;
      nestedMax := center;
    } else if center <= curMin {
      nestedDepth := depth + 1;
      decision := Right;
      nestedMin := center;
    } else {
      decision := Stay;
    }
    assert decision == DecisionAt(m, maxDepth, p);
    assert BytePos(p) < tree.encoded.Length by {
      WrittenDepth(m, maxDepth, g, p);
      CapacityOfSquare(g, p);
    }
    tree.Set(p, decision);
  }

  /** The recursive compiler. It terminates because a stay needs a slice of two different
      end points, which then halves, and any other decision uses up one level. */
  method FillTree(tree: DecisionTree, p: Path, depth: nat, maxDepth: nat, rangeMin: nat, rangeMax: nat,
                  m: seq<nat>, min: nat, max: nat, ghost g: nat)
    requires |m| == Pow2(g) && maxDepth <= g
    requires tree.encoded.Length == ByteCount(Pow2(2 * g))
    requires At(m, maxDepth, p) == Cursor(depth, rangeMin, min, max)
    requires rangeMax == rangeMin + Pow2(maxDepth - depth)
    modifies tree.encoded
    ensures Filled(old(tree.encoded[..]), tree.encoded[..], m, maxDepth, p)
    decreases (maxDepth - depth) + (max - min)
  {
    if depth >= maxDepth {
      FilledNothing(tree.encoded[..], m, maxDepth, p);
      return;
    }
    ghost var e0 := tree.encoded[..];
    var nestedDepth, nestedMin, nestedMax := FillCurrent(tree, p, depth, maxDepth, rangeMin, rangeMax, m, min, max, g);
    ghost var e1 := tree.encoded[..];

    if nestedDepth >= maxDepth && min + 1 >= max {
      FilledNothing(e1, m, maxDepth, Child(p, false));
      FilledNothing(e1, m, maxDepth, Child(p, true));
      FilledBoth(e0, e1, e1, e1, m, maxDepth, p);
      return;
    }
    var mid := min + (max - min) / 2;
    FillTree(tree, Child(p, false), nestedDepth, maxDepth, nestedMin, nestedMax, m, min, mid, g);
    ghost var e2 := tree.encoded[..];
    FillTree(tree, Child(p, true), nestedDepth, maxDepth, nestedMin, nestedMax, m, mid, max, g);
    FilledBoth(e0, e1, e2, tree.encoded[..], m, maxDepth, p);
  }

  /** Compiles a mapping of power-of-two size for a network of 2^levels nodes. */
  method ToDecisionTree(numNodes: nat, m: seq<nat>, ghost g: nat, ghost levels: nat) returns (tree: DecisionTree)
    requires |m| == Pow2(g) && numNodes == Pow2(levels) && levels <= g
    ensures fresh(tree) && fresh(tree.encoded)
    ensures tree.encoded.Length == ByteCount(Pow2(2 * g))
    ensures Compiled(tree.encoded[..], m, levels)
  {
    var log2 := CeilLog2(|m|);
    ExactLog(g, log2);
    tree := new DecisionTree(Pow2(2 * log2));
    var maxDepth := CeilLog2(numNodes);
    ExactLog(levels, maxDepth);
    FillTree(tree, Root, 0, maxDepth, 0, numNodes, m, 0, |m|, g);
    forall q ensures Extends(q, Root) {
      ExtendsRoot(q);
    }
  }

  lemma ExactLog(exponent: nat, height: nat)
    requires IsCeilLog2(Pow2(exponent), height)
    ensures height == exponent
  {
    if exponent > 0 {
      Pow2Mono(exponent - 1, exponent);
    }
    CeilLog2Unique(Pow2(exponent), height, exponent);
  }
}
