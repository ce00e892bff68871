/** The pieces of JavaScript's `Math` that the hydrograph code relies on,
    stated over exact reals and integers. */
module RealMath {

  /** Math.ceil */
  function Ceil(x: real): (c: int)
    ensures x <= c as real < x + 1.0
  {
    -((-x).Floor)
  }

  /** Number.isInteger, for a finite number. */
  predicate IsInteger(x: real) {
    x == x.Floor as real
  }

  lemma CeilOfInteger(n: int)
    ensures Ceil(n as real) == n
  {
  }

  function Max(a: real, b: real): (m: real)
    ensures m >= a && m >= b && (m == a || m == b)
  {
    if a >= b then a else b
  }

  /** Math.min(...s) for a non-empty list. */
  function SeqMin(s: seq<real>): (m: real)
    requires |s| > 0
    ensures m in s
    ensures forall i :: 0 <= i < |s| ==> m <= s[i]
  {
    if |s| == 1 then s[0]
    else
      var rest := SeqMin(s[1..]);
      if s[0] <= rest then s[0] else rest
  }

  /** Math.max(...s) for a non-empty list. */
  function SeqMax(s: seq<real>): (m: real)
    requires |s| > 0
    ensures m in s
    ensures forall i :: 0 <= i < |s| ==> s[i] <= m
  {
    if |s| == 1 then s[0]
    else
      var rest := SeqMax(s[1..]);
      if s[0] >= rest then s[0] else rest
  }

  /** 10 to the power n, for a natural n. */
  function IntPow10(n: nat): (p: nat)
    ensures p >= 1
  {
    if n == 0 then 1 else 10 * IntPow10(n - 1)
  }

  /** Math.pow(10, k) for an integer exponent k. */
  function Pow10(k: int): (p: real)
    ensures p > 0.0
  {
    if k >= 0 then IntPow10(k) as real else 1.0 / (IntPow10(-k) as real)
  }

  lemma Pow10Succ(k: int)
    ensures Pow10(k + 1) == 10.0 * Pow10(k)
  {
    if k < -1 {
      var m := IntPow10(-k - 1) as real;
      assert IntPow10(-k) as real == 10.0 * m;
      calc {
        10.0 * Pow10(k);
        10.0 * (1.0 / (10.0 * m));
        1.0 / m;
        Pow10(k + 1);
      }
    }
  }

  lemma {:induction false} Pow10StrictlyIncreasing(j: int, k: int)
    requires j < k
    ensures Pow10(j) < Pow10(k)
    decreases k - j
  {
    Pow10Succ(j);
    if j + 1 < k {
      Pow10StrictlyIncreasing(j + 1, k);
    }
  }

  /** Math.floor(Math.log10(x)) for a positive x: the exponent of the
      greatest power of ten at or below x. */
  function FloorLog10(x: real): (k: int)
    requires x > 0.0
    ensures Pow10(k) <= x < Pow10(k + 1)
    decreases (if x >= 10.0 then Ceil(x) else 0), (if x < 1.0 then Ceil(1.0 / x) else 0)
  {
    if x >= 10.0 then
      var k := FloorLog10(x / 10.0);
      Pow10Succ(k);
      Pow10Succ(k + 1);
      k + 1
    else if x < 1.0 then
      assert 1.0 / (x * 10.0) == (1.0 / x) / 10.0;
      assert 1.0 / x > 1.0;
      var k := FloorLog10(x * 10.0);
      Pow10Succ(k - 1);
      Pow10Succ(k);
      k - 1
    else
      0
  }

  /** No power of ten that is at or below x exceeds Pow10(FloorLog10(x)). */
  lemma FloorLog10IsGreatest(x: real, j: int)
    requires x > 0.0 && Pow10(j) <= x
    ensures j <= FloorLog10(x)
    ensures Pow10(j) <= Pow10(FloorLog10(x))
  {
    var k := FloorLog10(x);
    if j > k {
      if j == k + 1 {
      } else {
        Pow10StrictlyIncreasing(k + 1, j);
      }
    }
    if j < k {
      Pow10StrictlyIncreasing(j, k);
    }
  }
}
