/** The packed decision tree: two bits per task path in an array of bytes. */
module DecisionTrees {
  import opened Powers
  import opened TaskPath

  datatype Decision = Done | Stay | Left | Right

  function Code(d: Decision): bv8 {
    match d
    case Done => 0
    case Stay => 1
    case Left => 2
    case Right => 3
  }

  function FromCode(b: bv8): Decision {
    if b == 0 then Done else if b == 1 then Stay else if b == 2 then Left else Right
  }

  /** Index of a path in the embedded tree: a leading one followed by the bits of the path. */
  function Position(p: Path): nat {
    Pow2(Length(p)) + Bits(p)
  }

  lemma PositionInjective(p: Path, q: Path)
    requires Position(p) == Position(q)
    ensures p == q
  {
    BitsBound(p);
    BitsBound(q);
    if Length(p) < Length(q) {
      Pow2Mono(Length(p) + 1, Length(q));
    } else if Length(q) < Length(p) {
      Pow2Mono(Length(q) + 1, Length(p));
    }
    PathUnique(p, q);
  }

  function BytePos(p: Path): nat { 2 * Position(p) / 8 }

  function BitPos(p: Path): nat { 2 * Position(p) % 8 }

  function ReadField(b: bv8, bit: nat): bv8
    requires bit < 8
  {
    (b >> bit) & 3
  }

  function WriteField(b: bv8, bit: nat, v: bv8): bv8
    requires bit < 8
  {
    (b & !(3 << bit)) | (v << bit)
  }

  /** Writing one two-bit field of a byte sets that field and no other. */
  lemma FieldIsolation(b: bv8, v: bv8, w: nat, r: nat)
    requires v <= 3
    requires w == 0 || w == 2 || w == 4 || w == 6
    requires r == 0 || r == 2 || r == 4 || r == 6
    ensures ReadField(WriteField(b, w, v), r) == if r == w then v else ReadField(b, r)
  {
    match w
    case 0 => WriteField0(b, v);
    case 2 => WriteField2(b, v);
    case 4 => WriteField4(b, v);
    case 6 => WriteField6(b, v);
  }

  lemma WriteField0(b: bv8, v: bv8)
    requires v <= 3
    ensures ReadField(WriteField(b, 0, v), 0) == v
    ensures ReadField(WriteField(b, 0, v), 2) == ReadField(b, 2)
    ensures ReadField(WriteField(b, 0, v), 4) == ReadField(b, 4)
    ensures ReadField(WriteField(b, 0, v), 6) == ReadField(b, 6)
  {
  }

  lemma WriteField2(b: bv8, v: bv8)
    requires v <= 3
    ensures ReadField(WriteField(b, 2, v), 0) == ReadField(b, 0)
    ensures ReadField(WriteField(b, 2, v), 2) == v
    ensures ReadField(WriteField(b, 2, v), 4) == ReadField(b, 4)
    ensures ReadField(WriteField(b, 2, v), 6) == ReadField(b, 6)
  {
  }

  lemma WriteField4(b: bv8, v: bv8)
    requires v <= 3
    ensures ReadField(WriteField(b, 4, v), 0) == ReadField(b, 0)
    ensures ReadField(WriteField(b, 4, v), 2) == ReadField(b, 2)
    ensures ReadField(WriteField(b, 4, v), 4) == v
    ensures ReadField(WriteField(b, 4, v), 6) == ReadField(b, 6)
  {
  }

  lemma WriteField6(b: bv8, v: bv8)
    requires v <= 3
    ensures ReadField(WriteField(b, 6, v), 0) == ReadField(b, 0)
    ensures ReadField(WriteField(b, 6, v), 2) == ReadField(b, 2)
    ensures ReadField(WriteField(b, 6, v), 4) == ReadField(b, 4)
    ensures ReadField(WriteField(b, 6, v), 6) == v
  {
  }

  /** Number of bytes allocated for a tree over `numNodes` nodes. */
  function ByteCount(numNodes: nat): nat { 2 * 2 * numNodes / 8 }

  /** The decision stored for a path; paths past the buffer answer done. */
  function Lookup(encoded: seq<bv8>, p: Path): Decision {
    if BytePos(p) >= |encoded| then Done
    else FromCode(ReadField(encoded[BytePos(p)], BitPos(p)))
  }

  /** What a read of the buffer yields: a decision, or an access past its end. */
  datatype Access = Answer(decision: Decision) | PastEnd

  /** The read with the bounds check as written, which lets the first byte past the end through. */
  function Read(encoded: seq<bv8>, p: Path): (a: Access)
    ensures a.PastEnd? <==> BytePos(p) == |encoded|
    ensures a.Answer? ==> a.decision == Lookup(encoded, p)
  {
    var i := BytePos(p);
    if i > |encoded| then Answer(Done)
    else if i == |encoded| then PastEnd
    else Answer(FromCode(ReadField(encoded[i], BitPos(p))))
  }

  /** The first four positions of a level belong to its paths with the smallest bits. */
  lemma PositionRange(p: Path, len: nat)
    requires len >= 2
    ensures Pow2(len) <= Position(p) < Pow2(len) + 4 <==> Length(p) == len && Bits(p) < 4
  {
    BitsBound(p);
    Pow2Mono(2, len);
    if Length(p) < len {
      Pow2Mono(Length(p) + 1, len);
    } else if Length(p) > len {
      Pow2Mono(len + 1, Length(p));
    }
  }

  lemma SmallPositions(p: Path)
    ensures Position(p) < 4 <==> Length(p) <= 1
  {
    BitsBound(p);
    if Length(p) >= 2 {
      Pow2Mono(2, Length(p));
    } else {
      Pow2Mono(Length(p) + 1, 2);
    }
  }

  lemma ByteRange(pos: nat, w: nat)
    ensures 2 * pos / 8 == 2 * 2 * (2 * w) / 8 <==> 4 * w <= pos < 4 * w + 4
  {
  }

  /** The paths that the bounds check misses in a tree over 4^g nodes: the first four of length 2g + 1. */
  lemma FirstBytePastEnd(g: nat, p: Path)
    ensures BytePos(p) == ByteCount(Pow2(2 * g)) <==> if g == 0 then Length(p) <= 1 else Length(p) == 2 * g + 1 && Bits(p) < 4
  {
    if g == 0 {
      SmallPositions(p);
    } else {
      var w := Pow2(2 * g - 1);
      assert Pow2(2 * g) == 2 * w && Pow2(2 * g + 1) == 2 * Pow2(2 * g);
      ByteRange(Position(p), w);
      PositionRange(p, 2 * g + 1);
    }
  }

  /** Whatever the size of the tree, there is a path whose read leaves the buffer. */
  lemma GuardMisses(g: nat, encoded: seq<bv8>) returns (p: Path)
    requires |encoded| == ByteCount(Pow2(2 * g))
    ensures Length(p) == 2 * g + 1 && Read(encoded, p) == PastEnd
  {
    p := PathOf(2 * g + 1, 0);
    FirstBytePastEnd(g, p);
  }

  /** The bytes after a decision has been stored for a path. */
  function Stored(encoded: seq<bv8>, path: Path, decision: Decision): seq<bv8>
    requires BytePos(path) < |encoded|
  {
    var i := BytePos(path);
    encoded[i := WriteField(encoded[i], BitPos(path), Code(decision))]
  }

  lemma CodeFits(d: Decision)
    ensures Code(d) <= 3 && FromCode(Code(d)) == d
  {
  }

  /** Storing a decision changes the answer for its own path and for no other. */
  lemma StoredLookup(encoded: seq<bv8>, path: Path, decision: Decision, q: Path)
    requires BytePos(path) < |encoded|
    ensures Lookup(Stored(encoded, path, decision), q) == if q == path then decision else Lookup(encoded, q)
  {
    var i, bit := BytePos(path), BitPos(path);
    CodeFits(decision);
    if BytePos(q) == i {
      BitPosEven(path);
      BitPosEven(q);
      FieldIsolation(encoded[i], Code(decision), bit, BitPos(q));
      if BitPos(q) == bit {
        assert 2 * Position(q) == 2 * Position(path);
        PositionInjective(q, path);
      }
    }
  }

  class DecisionTree {
    const encoded: array<bv8>

    /** A fresh tree answers done for every path. */
    constructor (numNodes: nat)
      ensures fresh(encoded) && encoded.Length == ByteCount(numNodes)
      ensures forall p :: Lookup(encoded[..], p) == Done
    {
      encoded := new bv8[ByteCount(numNodes)](_ => 0);
      new;
      forall p ensures Lookup(encoded[..], p) == Done {
        var i := BytePos(p);
        if i < encoded.Length {
          assert encoded[..][i] == 0;
          ZeroField(BitPos(p));
        }
      }
    }

    /** Stores a decision for one path and leaves every other path alone. */
    method Set(path: Path, decision: Decision)
      requires BytePos(path) < encoded.Length
      modifies encoded
      ensures forall q :: Lookup(encoded[..], q) == if q == path then decision else old(Lookup(encoded[..], q))
    {
      var i := BytePos(path);
      var bit := BitPos(path);
      ghost var before := encoded[..];
      encoded[i] := WriteField(encoded[i], bit, Code(decision));
      assert encoded[..] == Stored(before, path, decision);
      forall q ensures Lookup(encoded[..], q) == if q == path then decision else Lookup(before, q) {
        StoredLookup(before, path, decision, q);
      }
    }

    /** Reads one path; paths whose byte is the first past the end get no answer. */
    method Get(path: Path) returns (a: Access)
      ensures a.PastEnd? <==> BytePos(path) == encoded.Length
      ensures a.Answer? ==> a.decision == Lookup(encoded[..], path)
    {
      var i := BytePos(path);
      if i > encoded.Length {
        return Answer(Done);
      }
      if i == encoded.Length {
        return PastEnd;
      }
      a := Answer(FromCode(ReadField(encoded[i], BitPos(path))));
    }
  }

  lemma ZeroField(bit: nat)
    requires bit < 8
    ensures FromCode(ReadField(0, bit)) == Done
  {
  }

  lemma BitPosEven(p: Path)
    ensures BitPos(p) == 0 || BitPos(p) == 2 || BitPos(p) == 4 || BitPos(p) == 6
  {
  }

  /** A tree over 4^g nodes has room for every path shorter than 2g. */
  lemma CapacityOfSquare(g: nat, p: Path)
    requires Length(p) < 2 * g
    ensures BytePos(p) < ByteCount(Pow2(2 * g))
  {
    BitsBound(p);
    Pow2Mono(Length(p) + 1, 2 * g);
    assert Position(p) < Pow2(2 * g);
    assert Pow2(2 * g) == 4 * Pow2(2 * g - 2) by {
      assert Pow2(2 * g) == 2 * Pow2(2 * g - 1);
    }
  }
}
