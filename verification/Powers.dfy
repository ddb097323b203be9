/** Powers of two and the ceiling logarithm that sizes the overlay network. */
module Powers {

  function Pow2(n: nat): (r: nat)
    ensures r >= 1
  {
    if n == 0 then 1 else 2 * Pow2(n - 1)
  }

  lemma {:induction false} Pow2Mono(a: nat, b: nat)
    requires a <= b
    ensures Pow2(a) <= Pow2(b)
    ensures a < b ==> Pow2(a) < Pow2(b)
    decreases b
  {
    if a < b {
      Pow2Mono(a, b - 1);
    }
  }

  /** Left shift. */
  function Shl(x: nat, n: nat): nat {
    if n == 0 then x else 2 * Shl(x, n - 1)
  }

  /** Right shift. */
  function Shr(x: nat, n: nat): nat {
    if n == 0 then x else Shr(x, n - 1) / 2
  }

  lemma {:induction false} ShlAdd(x: nat, y: nat, n: nat)
    ensures Shl(x + y, n) == Shl(x, n) + Shl(y, n)
  {
    if n > 0 {
      ShlAdd(x, y, n - 1);
    }
  }

  lemma {:induction false} ShlOne(n: nat)
    ensures Shl(1, n) == Pow2(n) && Shl(0, n) == 0
  {
    if n > 0 {
      ShlOne(n - 1);
    }
  }

  /** Shifted values of different numbers are at least one power of two apart. */
  lemma ShlGap(x: nat, y: nat, n: nat)
    requires x < y
    ensures Shl(x, n) + Pow2(n) <= Shl(y, n)
  {
    ShlOne(n);
    ShlAdd(x, 1, n);
    ShlAdd(x + 1, y - x - 1, n);
  }

  /** Shifting by one more position doubles the argument. */
  lemma ShlDouble(x: nat, n: nat)
    ensures Shl(2 * x, n) == Shl(x, n + 1)
    ensures Shl(2 * x + 1, n) == Shl(x, n + 1) + Pow2(n)
  {
    ShlAdd(x, x, n);
    ShlAdd(2 * x, 1, n);
    ShlOne(n);
  }

  lemma {:induction false} ShlCompose(x: nat, m: nat, n: nat)
    ensures Shl(Shl(x, m), n) == Shl(x, m + n)
  {
    if n > 0 {
      ShlCompose(x, m, n - 1);
    }
  }

  lemma {:induction false} ShrInner(x: nat, n: nat)
    requires n > 0
    ensures Shr(x, n) == Shr(x / 2, n - 1)
  {
    if n > 1 {
      ShrInner(x, n - 1);
    }
  }

  /** The right shift is the quotient by a power of two. */
  lemma {:induction false} ShrBounds(x: nat, n: nat)
    ensures Shl(Shr(x, n), n) <= x < Shl(Shr(x, n), n) + Pow2(n)
  {
    if n > 0 {
      ShrBounds(x, n - 1);
      ShlDouble(Shr(x, n), n - 1);
    }
  }

  lemma ShrUnique(x: nat, n: nat, q: nat)
    requires Shl(q, n) <= x < Shl(q, n) + Pow2(n)
    ensures Shr(x, n) == q
  {
    ShrBounds(x, n);
    if q < Shr(x, n) {
      ShlGap(q, Shr(x, n), n);
    } else if Shr(x, n) < q {
      ShlGap(Shr(x, n), q, n);
    }
  }

  /** `height` is the least exponent whose power of two reaches `size`. */
  predicate IsCeilLog2(size: nat, height: nat) {
    && size <= Pow2(height)
    && (height > 0 ==> Pow2(height - 1) < size)
  }

  lemma CeilLog2Unique(size: nat, a: nat, b: nat)
    requires IsCeilLog2(size, a) && IsCeilLog2(size, b)
    ensures a == b
  {
    if a < b {
      Pow2Mono(a, b - 1);
    } else if b < a {
      Pow2Mono(b, a - 1);
    }
  }

  /** The doubling loop shared by the policy compiler and the overlay network. */
  method CeilLog2(size: nat) returns (height: nat)
    ensures IsCeilLog2(size, height)
  {
    height := 0;
    var c := 1;
    while c < size
      invariant c == Pow2(height)
      invariant height > 0 ==> Pow2(height - 1) < size
      decreases size - c
    {
      c := 2 * c;
      height := height + 1;
    }
  }
}
