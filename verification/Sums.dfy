/** Sums and repetition over sequences. */
module Sums {

  function Sum(s: seq<real>): real {
    if s == [] then 0.0 else Sum(s[..|s| - 1]) + s[|s| - 1]
  }

  lemma {:induction false} SumAppend(a: seq<real>, b: seq<real>)
    ensures Sum(a + b) == Sum(a) + Sum(b)
  {
    if b == [] {
      assert a + b == a;
    } else {
      assert (a + b)[..|a + b| - 1] == a + b[..|b| - 1];
      SumAppend(a, b[..|b| - 1]);
    }
  }

  lemma {:induction false} SumPrefixMono(s: seq<real>, i: nat, j: nat)
    requires i <= j <= |s| && forall k :: 0 <= k < |s| ==> s[k] >= 0.0
    ensures Sum(s[..i]) <= Sum(s[..j])
    decreases j
  {
    if i < j {
      SumPrefixMono(s, i, j - 1);
      assert s[..j][..j - 1] == s[..j - 1];
    }
  }

  /** Sum of the squared distances from a centre. */
  function SumSquares(s: seq<real>, center: real): real {
    if s == [] then 0.0
    else
      var d := s[|s| - 1] - center;
      SumSquares(s[..|s| - 1], center) + d * d
  }

  /** Sum of the squares. */
  function Squares(s: seq<real>): real {
    if s == [] then 0.0 else Squares(s[..|s| - 1]) + s[|s| - 1] * s[|s| - 1]
  }

  lemma ShiftedStep(before: real, squares: real, sum: real, n: real, x: real, c: real, cc: real, xx: real, dd: real)
    requires before == squares - 2.0 * (c * sum) + n * cc
    requires cc == c * c && xx == x * x && dd == (x - c) * (x - c)
    ensures before + dd == (squares + xx) - 2.0 * (c * (sum + x)) + (n + 1.0) * cc
  {
    assert dd == xx - 2.0 * (c * x) + cc;
    assert c * (sum + x) == c * sum + c * x;
    assert (n + 1.0) * cc == n * cc + cc;
  }

  /** The squared distances from a centre, in terms of the squares and the sum alone. */
  lemma {:induction false} SumSquaresShift(s: seq<real>, c: real, cc: real)
    requires cc == c * c
    ensures SumSquares(s, c) == Squares(s) - 2.0 * (c * Sum(s)) + |s| as real * cc
  {
    if s == [] {
      assert c * 0.0 == 0.0;
    } else {
      var n, x := |s| - 1, s[|s| - 1];
      SumSquaresShift(s[..n], c, cc);
      ShiftedStep(SumSquares(s[..n], c), Squares(s[..n]), Sum(s[..n]), n as real, x, c, cc, x * x, (x - c) * (x - c));
    }
  }

  /** Around the mean, the squared distances add up to the squares less the mean times the sum. */
  lemma SpreadFormula(s: seq<real>, mean: real)
    requires mean * |s| as real == Sum(s)
    ensures SumSquares(s, mean) == Squares(s) - mean * Sum(s)
  {
    SumSquaresShift(s, mean, mean * mean);
    assert |s| as real * (mean * mean) == mean * (mean * |s| as real);
  }

  function SumNat(s: seq<nat>): nat {
    if s == [] then 0 else SumNat(s[..|s| - 1]) + s[|s| - 1]
  }

  lemma {:induction false} SumNatUpdate(s: seq<nat>, i: nat, x: nat)
    requires i < |s|
    ensures SumNat(s[i := x]) == SumNat(s) - s[i] + x
    ensures s[i] <= SumNat(s)
  {
    var n := |s| - 1;
    if i == n {
      assert s[i := x][..n] == s[..n];
    } else {
      assert s[i := x][..n] == s[..n][i := x];
      SumNatUpdate(s[..n], i, x);
    }
  }

  function Repeat(x: nat, n: nat): seq<nat> { seq(n, _ => x) }

  lemma {:induction false} RepeatCount(x: nat, n: nat, y: nat)
    ensures multiset(Repeat(x, n))[y] == if x == y then n else 0
  {
    if n > 0 {
      assert Repeat(x, n) == Repeat(x, n - 1) + [x];
      RepeatCount(x, n - 1, y);
    }
  }
}
