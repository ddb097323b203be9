/** Interpretation of a decision tree: where tasks go and which virtual nodes take part. */
module TreePolicy {
  import opened Powers
  import opened TaskPath
  import opened Hierarchy
  import opened DecisionTrees
  import opened TreeCompiler

  /** The root of the network, the splitting depth of the mapping, and the packed tree. */
  datatype Policy = Policy(root: Address, granularity: nat, encoded: seq<bv8>)

  /** The virtual node a decision leads to. */
  function Follow(a: Address, d: Decision): Address
    requires a.IsLeaf() ==> d == Stay
  {
    match d
    case Left => a.LeftChild()
    case Right => a.RightChild()
    case _ => a
  }

  function Decide(pol: Policy, addr: Address, path: Path): (d: Decision)
    ensures addr.IsLeaf() ==> d == Stay
    decreases path, 1
  {
    if addr.IsLeaf() then Stay else DecideFrom(pol, addr, path)
  }

  /** The upward walk of `Decide`: the deepest ancestor whose parent was sent to `addr` rules. */
  function DecideFrom(pol: Policy, addr: Address, cur: Path): Decision
    decreases cur, 0
  {
    match cur
    case Root => if pol.root == addr then Lookup(pol.encoded, cur) else Stay
    case Child(parent, _) =>
      if GetTarget(pol, parent) == addr then Lookup(pol.encoded, cur) else DecideFrom(pol, addr, parent)
  }

  function GetTarget(pol: Policy, path: Path): Address
    decreases path, 2
  {
    var res := if path.Root? then pol.root else GetTarget(pol, path.parent);
    Follow(res, Decide(pol, res, path))
  }

  predicate IsInvolved(pol: Policy, addr: Address, path: Path) {
    if addr == pol.root then true
    else match path
      case Root =>
        (match Decide(pol, pol.root, path)
         case Left => addr == pol.root.LeftChild()
         case Right => addr == pol.root.RightChild()
         case _ => false)
      case Child(parent, _) => IsInvolved(pol, addr, parent) || GetTarget(pol, path) == addr
  }

  /** The policy was compiled from the mapping `m`. */
  ghost predicate Realizes(pol: Policy, m: seq<nat>) {
    && pol.root.rank == 0
    && |m| == Pow2(pol.granularity)
    && pol.root.layer <= pol.granularity
    && |pol.encoded| == ByteCount(Pow2(2 * pol.granularity))
    && Compiled(pol.encoded, m, pol.root.layer)
  }

  /** The virtual node that stands for the node range of a cursor. */
  function Location(levels: nat, c: Cursor): Address
    requires c.depth <= levels
  {
    Address(c.base, levels - c.depth)
  }

  // --- the interpreter follows the compiler ---

  lemma FollowIsMove(m: seq<nat>, levels: nat, c: Cursor)
    requires InMapping(m, levels, c)
    ensures var d := Choose(m, levels, c);
            (c.depth < levels ==> Location(levels, Move(levels, c, d)) == Follow(Location(levels, c), d)) &&
            (c.depth == levels ==> Move(levels, c, d) == c)
  {
  }

  lemma HalveKeepsLocation(levels: nat, c: Cursor, right: bool)
    requires c.depth <= levels && c.lo <= c.hi
    ensures Location(levels, Halve(c, right)) == Location(levels, c)
  {
  }

  /** Every task is sent to the virtual node the compiler had in mind for it. */
  lemma {:induction false} TargetIsCompiled(pol: Policy, m: seq<nat>, path: Path)
    requires Realizes(pol, m)
    ensures GetTarget(pol, path) == Location(pol.root.layer, After(m, pol.root.layer, path))
    decreases path
  {
    var levels := pol.root.layer;
    FollowIsMove(m, levels, At(m, levels, path));
    match path
    case Root =>
      assert Location(levels, At(m, levels, path)) == pol.root;
    case Child(parent, b) =>
      TargetIsCompiled(pol, m, parent);
      HalveKeepsLocation(levels, After(m, levels, parent), b);
      var res := GetTarget(pol, parent);
      assert GetTarget(pol, path) == Follow(res, Decide(pol, res, path));
      if !res.IsLeaf() {
        assert Decide(pol, res, path) == DecideFrom(pol, res, path) == DecisionAt(m, levels, path);
      }
  }

  /** One step of the interpreter: from the parent's target, by the stored decision. */
  lemma TargetStep(pol: Policy, m: seq<nat>, path: Path) returns (from: Address)
    requires Realizes(pol, m)
    ensures from == if path.Root? then pol.root else GetTarget(pol, path.parent)
    ensures Written(m, pol.root.layer, path) <==> !from.IsLeaf()
    ensures !from.IsLeaf() ==> Lookup(pol.encoded, path) != Done
    ensures !from.IsLeaf() ==> GetTarget(pol, path) == Follow(from, Lookup(pol.encoded, path))
    ensures from.IsLeaf() ==> GetTarget(pol, path) == from
  {
    var levels := pol.root.layer;
    if path.Root? {
      from := pol.root;
    } else {
      from := GetTarget(pol, path.parent);
      TargetIsCompiled(pol, m, path.parent);
      HalveKeepsLocation(levels, After(m, levels, path.parent), path.right);
    }
    TargetIsCompiled(pol, m, path);
    FollowIsMove(m, levels, At(m, levels, path));
  }

  lemma {:induction false} TargetValid(pol: Policy, m: seq<nat>, path: Path)
    requires Realizes(pol, m)
    ensures pol.root.Valid() && GetTarget(pol, path).Valid() && GetTarget(pol, path).layer <= pol.root.layer
    decreases path
  {
    ShlOne(pol.root.layer);
    ValidMultiple(pol.root.layer, 0);
    if path.Child? {
      TargetValid(pol, m, path.parent);
    }
    var from := TargetStep(pol, m, path);
    if !from.IsLeaf() {
      ParentOfChildren(from);
    }
  }

  // --- the chain from the root to the target ---

  /** `addr` lies between the root and the target of the task. */
  predicate OnChain(pol: Policy, addr: Address, target: Address) {
    Above(addr, target) && addr.layer <= pol.root.layer
  }

  /** A child's chain is its parent's chain and itself. */
  lemma AboveChild(a: Address, b: Address, c: Address)
    requires b.Valid() && !b.IsLeaf() && (c == b.LeftChild() || c == b.RightChild())
    ensures Above(a, c) <==> a == c || Above(a, b)
    ensures Above(b, c)
  {
    ParentOfChildren(b);
    assert c.Up(1) == b;
    if a.layer > c.layer {
      assert c.Up(a.layer - c.layer) == b.Up(a.layer - b.layer);
    }
  }

  lemma {:induction false} AboveTrans(a: Address, b: Address, c: Address)
    requires Above(a, b) && Above(b, c)
    ensures Above(a, c)
    decreases b.layer - c.layer
  {
    if b.layer > c.layer {
      AboveTrans(a, b, c.Parent());
    }
  }

  lemma RootChain(pol: Policy, addr: Address)
    ensures OnChain(pol, addr, pol.root) <==> addr == pol.root
  {
    if OnChain(pol, addr, pol.root) {
      assert pol.root.Up(0) == addr;
    }
  }

  /** The chain grows by the new target, if the decision moves. */
  lemma ChainStep(pol: Policy, m: seq<nat>, addr: Address, path: Path)
    requires Realizes(pol, m)
    ensures var from := if path.Root? then pol.root else GetTarget(pol, path.parent);
            OnChain(pol, addr, GetTarget(pol, path)) <==>
            OnChain(pol, addr, from) || addr == GetTarget(pol, path)
    ensures Above(if path.Root? then pol.root else GetTarget(pol, path.parent), GetTarget(pol, path))
  {
    TargetValid(pol, m, path);
    var from := TargetStep(pol, m, path);
    if path.Child? {
      TargetValid(pol, m, path.parent);
    }
    if GetTarget(pol, path) != from {
      AboveChild(addr, from, GetTarget(pol, path));
    } else {
      assert from.Up(0) == from;
    }
  }

  /** A virtual node takes part in a task exactly when it lies on the way from the root to the target. */
  lemma {:induction false} InvolvedIffOnChain(pol: Policy, m: seq<nat>, addr: Address, path: Path)
    requires Realizes(pol, m)
    ensures IsInvolved(pol, addr, path) <==> OnChain(pol, addr, GetTarget(pol, path))
    decreases path
  {
    RootChain(pol, addr);
    ChainStep(pol, m, addr, path);
    if path.Child? {
      InvolvedIffOnChain(pol, m, addr, path.parent);
      if addr == pol.root {
        RootAlwaysInvolved(pol, path.parent);
      }
    } else {
      var from := TargetStep(pol, m, path);
    }
  }

  lemma RootAlwaysInvolved(pol: Policy, path: Path)
    ensures IsInvolved(pol, pol.root, path)
  {
  }

  /** Involvement survives further splitting of the task. */
  lemma {:induction false} InvolvedMonotone(pol: Policy, addr: Address, p: Path, q: Path)
    requires Extends(q, p) && IsInvolved(pol, addr, p)
    ensures IsInvolved(pol, addr, q)
  {
    if q != p {
      InvolvedMonotone(pol, addr, p, q.parent);
    }
  }

  lemma {:induction false} UninvolvedStays(pol: Policy, m: seq<nat>, addr: Address, cur: Path)
    requires Realizes(pol, m) && !OnChain(pol, addr, GetTarget(pol, cur))
    ensures DecideFrom(pol, addr, cur) == Stay
  {
    ChainStep(pol, m, addr, cur);
    RootChain(pol, addr);
    if cur.Child? {
      var t := GetTarget(pol, cur.parent);
      TargetValid(pol, m, cur.parent);
      assert Above(t, t);
      UninvolvedStays(pol, m, addr, cur.parent);
    }
  }

  /** The decision of a virtual node on the chain points along the chain. */
  predicate Toward(d: Decision, addr: Address, target: Address) {
    if addr == target then d == Stay
    else !addr.IsLeaf() && ((d == Left && Above(addr.LeftChild(), target)) || (d == Right && Above(addr.RightChild(), target)))
  }

  lemma StoredDecisionToward(pol: Policy, m: seq<nat>, path: Path, from: Address)
    requires Realizes(pol, m) && !from.IsLeaf()
    requires from == if path.Root? then pol.root else GetTarget(pol, path.parent)
    ensures Toward(Lookup(pol.encoded, path), from, GetTarget(pol, path))
  {
    var f := TargetStep(pol, m, path);
    assert GetTarget(pol, path).Up(0) == GetTarget(pol, path);
  }

  lemma {:induction false} DecideFromToward(pol: Policy, m: seq<nat>, addr: Address, cur: Path)
    requires Realizes(pol, m) && !addr.IsLeaf() && OnChain(pol, addr, GetTarget(pol, cur))
    ensures Toward(DecideFrom(pol, addr, cur), addr, GetTarget(pol, cur))
    decreases cur
  {
    ChainStep(pol, m, addr, cur);
    RootChain(pol, addr);
    var from := if cur.Root? then pol.root else GetTarget(pol, cur.parent);
    if from == addr {
      StoredDecisionToward(pol, m, cur, addr);
    } else if cur.Child? {
      if OnChain(pol, addr, from) {
        DecideFromToward(pol, m, addr, cur.parent);
        var next := Follow(addr, DecideFrom(pol, addr, cur.parent));
        AboveTrans(next, from, GetTarget(pol, cur));
        AboveStrict(next, addr, GetTarget(pol, cur));
      } else {
        UninvolvedStays(pol, m, addr, cur.parent);
      }
    }
  }

  lemma AboveStrict(next: Address, addr: Address, target: Address)
    requires Above(next, target) && next.layer < addr.layer
    ensures addr != target
  {
  }

  /** At an involved virtual node the decision is never done: it is the next step toward the
      target, or to stay at the target itself. */
  lemma DecideDirection(pol: Policy, m: seq<nat>, addr: Address, path: Path)
    requires Realizes(pol, m) && IsInvolved(pol, addr, path)
    ensures Toward(Decide(pol, addr, path), addr, GetTarget(pol, path))
    ensures Decide(pol, addr, path) != Done
  {
    InvolvedIffOnChain(pol, m, addr, path);
    if addr.IsLeaf() {
      assert addr == GetTarget(pol, path).Up(0);
    } else {
      DecideFromToward(pol, m, addr, path);
    }
  }

  // --- staying inside the network ---

  predicate InNetwork(m: seq<nat>, size: nat) { forall i :: 0 <= i < |m| ==> m[i] < size }

  lemma RightMeansHigh(m: seq<nat>, levels: nat, c: Cursor)
    requires InMapping(m, levels, c) && Choose(m, levels, c) == Right
    ensures c.depth < levels && Location(levels, c).RightChild().rank <= m[c.lo]
  {
  }

  lemma StoredRightInNetwork(pol: Policy, m: seq<nat>, size: nat, path: Path, from: Address)
    requires Realizes(pol, m) && InNetwork(m, size)
    requires from == if path.Root? then pol.root else GetTarget(pol, path.parent)
    requires !from.IsLeaf() && Lookup(pol.encoded, path) == Right
    ensures from.RightChild().rank < size
  {
    var levels := pol.root.layer;
    var c := At(m, levels, path);
    if path.Child? {
      TargetIsCompiled(pol, m, path.parent);
      HalveKeepsLocation(levels, After(m, levels, path.parent), path.right);
    }
    assert DecisionAt(m, levels, path) == Right;
    RightMeansHigh(m, levels, c);
  }

  lemma {:induction false} DecideFromRightInNetwork(pol: Policy, m: seq<nat>, size: nat, addr: Address, cur: Path)
    requires Realizes(pol, m) && InNetwork(m, size) && !addr.IsLeaf()
    requires DecideFrom(pol, addr, cur) == Right
    ensures addr.RightChild().rank < size
    decreases cur
  {
    if cur.Root? {
      StoredRightInNetwork(pol, m, size, cur, addr);
    } else if GetTarget(pol, cur.parent) == addr {
      StoredRightInNetwork(pol, m, size, cur, addr);
    } else {
      DecideFromRightInNetwork(pol, m, size, addr, cur.parent);
    }
  }

  /** A decision to go right always names a locality of the network. */
  lemma RightInNetwork(pol: Policy, m: seq<nat>, size: nat, addr: Address, path: Path)
    requires Realizes(pol, m) && InNetwork(m, size)
    requires Decide(pol, addr, path) == Right
    ensures !addr.IsLeaf() && addr.RightChild().rank < size
  {
    DecideFromRightInNetwork(pol, m, size, addr, path);
  }

  /** So do all targets. */
  lemma {:induction false} TargetInNetwork(pol: Policy, m: seq<nat>, size: nat, path: Path)
    requires Realizes(pol, m) && InNetwork(m, size)
    ensures GetTarget(pol, path).rank < size
    decreases path
  {
    assert m[0] < size;
    if path.Child? {
      TargetInNetwork(pol, m, size, path.parent);
    }
    var from := TargetStep(pol, m, path);
    if !from.IsLeaf() && Lookup(pol.encoded, path) == Right {
      StoredRightInNetwork(pol, m, size, path, from);
    }
  }

  // --- the interpreter as it runs: every read hits an entry the compiler wrote ---

  method ReadDecision(pol: Policy, path: Path, ghost m: seq<nat>) returns (d: Decision)
    requires Realizes(pol, m) && Written(m, pol.root.layer, path)
    ensures d == Lookup(pol.encoded, path) && d != Done
  {
    WrittenDepth(m, pol.root.layer, pol.granularity, path);
    CapacityOfSquare(pol.granularity, path);
    d := Read(pol.encoded, path).decision;
  }

  /** The upward walk as the loop it is, with the reads it makes. */
  method RunDecide(pol: Policy, addr: Address, path: Path, ghost m: seq<nat>) returns (d: Decision)
    requires Realizes(pol, m)
    ensures d == Decide(pol, addr, path)
    decreases path, 0
  {
    if addr.IsLeaf() {
      return Stay;
    }
    var cur := path;
    while true
      invariant DecideFrom(pol, addr, cur) == DecideFrom(pol, addr, path)
      invariant cur == path || cur < path
      decreases cur
    {
      ghost var from := TargetStep(pol, m, cur);
      if cur.Root? {
        if pol.root == addr {
          d := ReadDecision(pol, cur, m);
          return;
        }
        return Stay;
      }
      var target := RunGetTarget(pol, cur.parent, m);
      if target == addr {
        d := ReadDecision(pol, cur, m);
        return;
      }
      cur := cur.parent;
    }
  }

  method RunGetTarget(pol: Policy, path: Path, ghost m: seq<nat>) returns (res: Address)
    requires Realizes(pol, m)
    ensures res == GetTarget(pol, path)
    decreases path, 1
  {
    if path.Root? {
      res := pol.root;
    } else {
      res := RunGetTarget(pol, path.parent, m);
    }
    var d := RunDecide(pol, res, path, m);
    match d {
      case Left => res := res.LeftChild();
      case Right => res := res.RightChild();
      case _ =>
    }
  }

  method RunIsInvolved(pol: Policy, addr: Address, path: Path, ghost m: seq<nat>) returns (involved: bool)
    requires Realizes(pol, m)
    ensures involved <==> OnChain(pol, addr, GetTarget(pol, path))
    decreases path
  {
    InvolvedIffOnChain(pol, m, addr, path);
    if addr == pol.root {
      return true;
    }
    if path.Root? {
      var d := RunDecide(pol, pol.root, path, m);
      match d {
        case Left => return addr == pol.root.LeftChild();
        case Right => return addr == pol.root.RightChild();
        case _ => return false;
      }
    }
    involved := RunIsInvolved(pol, addr, path.parent, m);
    InvolvedIffOnChain(pol, m, addr, path.parent);
    if !involved {
      var t := RunGetTarget(pol, path, m);
      involved := t == addr;
    }
  }
}
