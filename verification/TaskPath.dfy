/** Positions in the tree of recursively split tasks. */
module TaskPath {
  import opened Powers

  /** A task path: the root task, or the left or right half of a split task. */
  datatype Path = Root | Child(parent: Path, right: bool)

  /** Number of splits that lead to the task. */
  function Length(p: Path): nat {
    match p
    case Root => 0
    case Child(q, _) => Length(q) + 1
  }

  /** The splits read as a binary number, the last split in the lowest bit. */
  function Bits(p: Path): nat {
    match p
    case Root => 0
    case Child(q, b) => 2 * Bits(q) + if b then 1 else 0
  }

  lemma {:induction false} BitsBound(p: Path)
    ensures Bits(p) < Pow2(Length(p))
  {
    if p.Child? {
      BitsBound(p.parent);
    }
  }

  /** The path with a given length and a given bit pattern. */
  function PathOf(len: nat, v: nat): (p: Path)
    requires v < Pow2(len)
    ensures Length(p) == len && Bits(p) == v
  {
    if len == 0 then Root else Child(PathOf(len - 1, v / 2), v % 2 == 1)
  }

  /** Length and bit pattern identify a path. */
  lemma {:induction false} PathUnique(p: Path, q: Path)
    requires Length(p) == Length(q) && Bits(p) == Bits(q)
    ensures p == q
  {
    if p.Child? {
      PathUnique(p.parent, q.parent);
    }
  }

  /** `q` is `p` or a task split off from `p`. */
  predicate Extends(q: Path, p: Path) {
    q == p || (q.Child? && Extends(q.parent, p))
  }

  lemma {:induction false} ExtendsLonger(q: Path, p: Path)
    requires Extends(q, p)
    ensures Length(p) <= Length(q)
    ensures Length(p) == Length(q) ==> p == q
  {
    if q != p {
      ExtendsLonger(q.parent, p);
    }
  }

  lemma {:induction false} ExtendsTrans(r: Path, q: Path, p: Path)
    requires Extends(r, q) && Extends(q, p)
    ensures Extends(r, p)
  {
    if r != q {
      ExtendsTrans(r.parent, q, p);
    }
  }

  lemma {:induction false} ExtendsRoot(p: Path)
    ensures Extends(p, Root)
  {
    if p.Child? {
      ExtendsRoot(p.parent);
    }
  }

  /** A strict extension lies below exactly one of the two children. */
  lemma {:induction false} ExtendsSplit(q: Path, p: Path)
    ensures Extends(q, p) <==> q == p || Extends(q, Child(p, false)) || Extends(q, Child(p, true))
    ensures !(Extends(q, Child(p, false)) && Extends(q, Child(p, true)))
    ensures !Extends(p, Child(p, false)) && !Extends(p, Child(p, true))
  {
    if Extends(p, Child(p, false)) {
      ExtendsLonger(p, Child(p, false));
    }
    if Extends(p, Child(p, true)) {
      ExtendsLonger(p, Child(p, true));
    }
    if q.Child? {
      ExtendsSplit(q.parent, p);
      if Extends(q.parent, q) {
        ExtendsLonger(q.parent, q);
      }
    }
  }

  /** The tasks that `d` further splits produce, from left to right. */
  function TasksBelow(cur: Path, d: nat): seq<Path>
    decreases d
  {
    if d == 0 then [cur] else TasksBelow(Child(cur, false), d - 1) + TasksBelow(Child(cur, true), d - 1)
  }

  predicate Consecutive(paths: seq<Path>, len: nat, start: nat) {
    forall j :: 0 <= j < |paths| ==> Length(paths[j]) == len && Bits(paths[j]) == start + j
  }

  lemma ConsecutiveAppend(a: seq<Path>, b: seq<Path>, len: nat, start: nat)
    requires Consecutive(a, len, start) && Consecutive(b, len, start + |a|)
    ensures Consecutive(a + b, len, start)
  {
  }

  lemma ChildShift(cur: Path, d: nat)
    ensures Shl(Bits(Child(cur, false)), d) == Shl(Bits(cur), d + 1)
    ensures Shl(Bits(Child(cur, true)), d) == Shl(Bits(cur), d + 1) + Pow2(d)
  {
    ShlDouble(Bits(cur), d);
  }

  lemma {:induction false} TasksBelowInOrder(cur: Path, d: nat)
    ensures |TasksBelow(cur, d)| == Pow2(d)
    ensures Consecutive(TasksBelow(cur, d), Length(cur) + d, Shl(Bits(cur), d))
    decreases d
  {
    if d > 0 {
      var l, r := TasksBelow(Child(cur, false), d - 1), TasksBelow(Child(cur, true), d - 1);
      TasksBelowInOrder(Child(cur, false), d - 1);
      TasksBelowInOrder(Child(cur, true), d - 1);
      ChildShift(cur, d - 1);
      ConsecutiveAppend(l, r, Length(cur) + d, Shl(Bits(cur), d));
    } else {
      assert TasksBelow(cur, 0) == [cur];
    }
  }

  /** The tasks of full depth, in the order of their indices. */
  lemma RootTasks(g: nat, i: nat)
    requires i < Pow2(g)
    ensures |TasksBelow(Root, g)| == Pow2(g) && TasksBelow(Root, g)[i] == PathOf(g, i)
  {
    TasksBelowInOrder(Root, g);
    ShlOne(g);
    PathUnique(TasksBelow(Root, g)[i], PathOf(g, i));
  }

  /** The ancestor of `p` at depth `k`. */
  function Ancestor(p: Path, k: nat): (q: Path)
    requires k <= Length(p)
    ensures Length(q) == k && Extends(p, q)
  {
    if k == Length(p) then p else Ancestor(p.parent, k)
  }

  lemma {:induction false} AncestorUnique(p: Path, q: Path)
    requires Extends(p, q)
    ensures Length(q) <= Length(p) && Ancestor(p, Length(q)) == q
  {
    ExtendsLonger(p, q);
    if p != q {
      AncestorUnique(p.parent, q);
      ExtendsLonger(p.parent, q);
    }
  }
}
