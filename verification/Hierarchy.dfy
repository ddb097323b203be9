/** Addresses of the virtual management nodes that form a binary tree over the localities. */
module Hierarchy {
  import opened Powers

  predicate BitSet(x: nat, i: nat) { Shr(x, i) % 2 == 1 }

  /** The number with bit `i` cleared. */
  function ClearBit(x: nat, i: nat): (r: nat)
    ensures r <= x && !BitSet(r, i)
  {
    if BitSet(x, i) then
      ShrBounds(x, i);
      ShlDouble(Shr(x, i) / 2, i);
      assert Shl(Shr(x, i) - 1, i) == Shl(Shr(x, i), i) - Pow2(i);
      ShrUnique(x - Pow2(i), i, Shr(x, i) - 1);
      x - Pow2(i)
    else x
  }

  /** A virtual node, hosted on locality `rank`, `layer` levels above the localities. */
  datatype Address = Address(rank: nat, layer: nat) {

    predicate IsLeaf() { layer == 0 }

    /** The lowest `layer` digits of the rank are zero. */
    predicate Valid() { Shl(Shr(rank, layer), layer) == rank }

    predicate IsRightChild() { BitSet(rank, layer) }

    function Parent(): Address { Address(ClearBit(rank, layer), layer + 1) }

    function LeftChild(): Address
      requires !IsLeaf()
    {
      Address(rank, layer - 1)
    }

    function RightChild(): Address
      requires !IsLeaf()
    {
      Address(rank + Pow2(layer - 1), layer - 1)
    }

    function Up(steps: nat): Address
      decreases steps
    {
      if steps == 0 then this else Parent().Up(steps - 1)
    }

    /** The localities below this virtual node. */
    predicate Covers(leaf: nat) { rank <= leaf < rank + Pow2(layer) }
  }

  /** A multiple of the covered width is a valid rank, and its quotient tells the side. */
  lemma ValidMultiple(layer: nat, q: nat)
    ensures Address(Shl(q, layer), layer).Valid()
    ensures Shr(Shl(q, layer), layer) == q
  {
    ShrUnique(Shl(q, layer), layer, q);
  }

  /** The parent is valid and the node is its left or right child, as its own bit says. */
  lemma ChildOfParent(a: Address)
    requires a.Valid()
    ensures a.Parent().Valid()
    ensures a == if a.IsRightChild() then a.Parent().RightChild() else a.Parent().LeftChild()
  {
    var h := Shr(a.rank, a.layer) / 2;
    ShlDouble(h, a.layer);
    ValidMultiple(a.layer + 1, h);
  }

  /** Both children are valid, distinct and lead back to the parent. */
  lemma ParentOfChildren(a: Address)
    requires a.Valid() && !a.IsLeaf()
    ensures a.LeftChild().Valid() && a.RightChild().Valid()
    ensures !a.LeftChild().IsRightChild() && a.RightChild().IsRightChild()
    ensures a.LeftChild().Parent() == a && a.RightChild().Parent() == a
  {
    var q := Shr(a.rank, a.layer);
    ShlDouble(q, a.layer - 1);
    ValidMultiple(a.layer - 1, 2 * q);
    ValidMultiple(a.layer - 1, 2 * q + 1);
  }

  /** The children partition the localities of their parent. */
  lemma CoverSplit(a: Address, leaf: nat)
    requires !a.IsLeaf()
    ensures a.Covers(leaf) <==> a.LeftChild().Covers(leaf) || a.RightChild().Covers(leaf)
    ensures !(a.LeftChild().Covers(leaf) && a.RightChild().Covers(leaf))
  {
    assert Pow2(a.layer) == 2 * Pow2(a.layer - 1);
  }

  lemma ParentCovers(a: Address, leaf: nat)
    requires a.Valid() && a.Covers(leaf)
    ensures a.Parent().Covers(leaf)
  {
    ChildOfParent(a);
    CoverSplit(a.Parent(), leaf);
  }

  /** A valid address is determined by its layer and any locality it covers. */
  lemma CoverUnique(a: Address, b: Address, leaf: nat)
    requires a.Valid() && b.Valid() && a.layer == b.layer
    requires a.Covers(leaf) && b.Covers(leaf)
    ensures a == b
  {
    ShrUnique(leaf, a.layer, Shr(a.rank, a.layer));
    ShrUnique(leaf, b.layer, Shr(b.rank, b.layer));
  }

  /** Climbing from a valid address stays valid and keeps covering the same localities. */
  lemma {:induction false} UpCovers(a: Address, steps: nat, leaf: nat)
    requires a.Valid() && a.Covers(leaf)
    ensures a.Up(steps).Valid() && a.Up(steps).layer == a.layer + steps
    ensures a.Up(steps).Covers(leaf)
    decreases steps
  {
    if steps > 0 {
      ChildOfParent(a);
      ParentCovers(a, leaf);
      UpCovers(a.Parent(), steps - 1, leaf);
    }
  }

  /** `a` is reached from `b` by climbing. */
  predicate Above(a: Address, b: Address) {
    a.layer >= b.layer && b.Up(a.layer - b.layer) == a
  }

  /** Among valid addresses, being above means covering. */
  lemma AboveIsCover(a: Address, b: Address)
    requires a.Valid() && b.Valid() && a.layer >= b.layer
    ensures Above(a, b) <==> a.Covers(b.rank)
  {
    UpCovers(b, a.layer - b.layer, b.rank);
    if a.Covers(b.rank) {
      CoverUnique(a, b.Up(a.layer - b.layer), b.rank);
    }
  }

  // --- the layers present on each locality ---

  function TrailingZeros(x: nat): nat
    requires x > 0
  {
    if x % 2 == 1 then 0 else 1 + TrailingZeros(x / 2)
  }

  /** The height of the overlay tree over `size` localities. */
  function Height(size: nat): (h: nat)
    ensures IsCeilLog2(size, h)
  {
    if size <= 1 then 0 else Height((size + 1) / 2) + 1
  }

  /** Number of virtual nodes hosted by one locality. */
  function Layers(rank: nat, size: nat): nat {
    if rank == 0 then Height(size) + 1 else TrailingZeros(rank) + 1
  }

  function RootOfNetwork(size: nat): Address
  {
    Address(0, Height(size))
  }

  /** Trailing zeros are exactly what validity asks for. */
  lemma {:induction false} TrailingZerosValid(x: nat, layer: nat)
    requires x > 0
    ensures Address(x, layer).Valid() <==> layer <= TrailingZeros(x)
    decreases layer
  {
    if layer > 0 {
      if x % 2 == 1 {
        assert Shl(Shr(x, layer), layer) % 2 == 0;
      } else {
        TrailingZerosValid(x / 2, layer - 1);
        ShrInner(x, layer);
      }
    }
  }

  /** A locality hosts a layer exactly when the address is valid and no higher than the root. */
  lemma LayersExact(rank: nat, size: nat, layer: nat)
    requires rank < size
    ensures layer < Layers(rank, size) <==> Address(rank, layer).Valid() && layer <= Height(size)
  {
    if rank == 0 {
      ShlOne(layer);
      ValidMultiple(layer, 0);
    } else {
      TrailingZerosValid(rank, layer);
      TrailingZerosValid(rank, TrailingZeros(rank));
      var t := TrailingZeros(rank);
      ShlOne(t);
      ShlGap(0, Shr(rank, t), t);
      if t > Height(size) {
        Pow2Mono(Height(size), t);
      }
    }
  }

  /** The virtual nodes that the start-up loop installs across the whole network. */
  predicate Installed(size: nat, a: Address) {
    a.rank < size && a.layer < Layers(a.rank, size)
  }

  /** The installed nodes are exactly the ancestors of localities up to the root. */
  lemma OverlayExact(size: nat, a: Address)
    requires size > 0
    ensures Installed(size, a) <==>
            exists leaf: nat, k: nat :: leaf < size && k <= Height(size) && a == Address(leaf, 0).Up(k)
  {
    if Installed(size, a) {
      LayersExact(a.rank, size, a.layer);
      AboveIsCover(a, Address(a.rank, 0));
      assert a == Address(a.rank, 0).Up(a.layer);
    }
    if leaf: nat, k: nat :| leaf < size && k <= Height(size) && a == Address(leaf, 0).Up(k) {
      UpCovers(Address(leaf, 0), k, leaf);
      LayersExact(a.rank, size, a.layer);
    }
  }

  /** The overlay is closed under every move the scheduler makes. */
  lemma OverlayClosed(size: nat, a: Address)
    requires size > 0 && Installed(size, a)
    ensures a.Valid() && a.layer <= Height(size)
    ensures a != RootOfNetwork(size) ==> Installed(size, a.Parent())
    ensures a.layer == Height(size) ==> a == RootOfNetwork(size)
    ensures !a.IsLeaf() ==> Installed(size, a.LeftChild())
    ensures !a.IsLeaf() && a.RightChild().rank < size ==> Installed(size, a.RightChild())
  {
    LayersExact(a.rank, size, a.layer);
    if a.layer == Height(size) {
      TopIsRoot(size, a);
    } else {
      ChildOfParent(a);
      LayersExact(a.Parent().rank, size, a.layer + 1);
    }
    if !a.IsLeaf() {
      ParentOfChildren(a);
      LayersExact(a.rank, size, a.layer - 1);
      if a.RightChild().rank < size {
        LayersExact(a.RightChild().rank, size, a.layer - 1);
      }
    }
  }

  lemma TopIsRoot(size: nat, a: Address)
    requires a.Valid() && a.rank < size && a.layer >= Height(size)
    ensures a.rank == 0
  {
    Pow2Mono(Height(size), a.layer);
    ShlOne(a.layer);
    if Shr(a.rank, a.layer) > 0 {
      ShlGap(0, Shr(a.rank, a.layer), a.layer);
    }
  }

  /** The root covers every locality and is installed on the first. */
  lemma RootCovers(size: nat, leaf: nat)
    requires leaf < size
    ensures RootOfNetwork(size).Covers(leaf)
    ensures RootOfNetwork(size).Valid()
    ensures Installed(size, RootOfNetwork(size))
  {
    ShlOne(Height(size));
    ValidMultiple(Height(size), 0);
  }

  // --- the loops of the original ---

  method Check(a: Address) returns (ok: bool)
    ensures ok <==> a.Valid()
  {
    var i := 0;
    while i < a.layer
      invariant 0 <= i <= a.layer
      invariant Address(a.rank, i).Valid()
    {
      ghost var h := Shr(a.rank, i) / 2;
      ShlDouble(h, i);
      if Shr(a.rank, i) % 2 != 0 {
        if a.Valid() {
          LowerLayerValid(a, i + 1);
        }
        return false;
      }
      ValidMultiple(i + 1, h);
      i := i + 1;
    }
    return true;
  }

  lemma LowerLayerValid(a: Address, layer: nat)
    requires a.Valid() && layer <= a.layer
    ensures Address(a.rank, layer).Valid()
  {
    var q := Shl(Shr(a.rank, a.layer), a.layer - layer);
    ShlCompose(Shr(a.rank, a.layer), a.layer - layer, layer);
    ValidMultiple(layer, q);
  }

  method GetLayersOn(rank: nat, size: nat) returns (layers: nat)
    requires rank < size
    ensures layers == Layers(rank, size)
  {
    if rank == 0 {
      var height := CeilLog2(size);
      CeilLog2Unique(size, height, Height(size));
      return height + 1;
    }
    layers := 1;
    var r := rank;
    while r % 2 == 0
      invariant r > 0
      invariant layers + TrailingZeros(r) == TrailingZeros(rank) + 1
      decreases r
    {
      r := r / 2;
      layers := layers + 1;
    }
  }

  function LocalServices(rank: nat, layers: nat): seq<Address> {
    seq(layers, i requires 0 <= i < layers => Address(rank, i))
  }

  /** The services started on one locality, one per hosted layer. */
  class HierarchyService {
    var services: seq<Address>

    constructor (rank: nat, size: nat)
      requires rank < size
      ensures services == LocalServices(rank, Layers(rank, size))
      ensures forall a :: a in services <==> a.rank == rank && Installed(size, a)
    {
      services := [];
      new;
      var numServices := GetLayersOn(rank, size);
      var i := 0;
      while i < numServices
        invariant 0 <= i <= numServices
        invariant services == LocalServices(rank, i)
      {
        services := services + [Address(rank, i)];
        i := i + 1;
      }
      forall a: Address | a.rank == rank && Installed(size, a) ensures a in services {
        assert services[a.layer] == a;
      }
    }

    method Get(layer: nat) returns (s: Address)
      requires layer < |services|
      ensures s == services[layer]
    {
      s := services[layer];
    }
  }
}
