/** Integer helpers shared by the models of the two helper modules:
    exponentiation as the sources write it (`BigInt(b) ** BigInt(e)`) and
    the division operator of JavaScript BigInts, which truncates toward zero. */
module Arith {

  /** `b ** e` on non-negative BigInts. */
  function Pow(b: nat, e: nat): (r: nat)
    ensures b > 0 ==> r > 0
  {
    if e == 0 then 1 else b * Pow(b, e - 1)
  }

  /** Exponents add: b^(m+n) = b^m * b^n. */
  lemma {:induction false} PowAdd(b: nat, m: nat, n: nat)
    ensures Pow(b, m + n) == Pow(b, m) * Pow(b, n)
  {
    if m > 0 {
      PowAdd(b, m - 1, n);
      assert Pow(b, m + n) == b * Pow(b, m - 1 + n);
    }
  }

  function Abs(x: int): nat {
    if x < 0 then -x else x
  }

  /** JavaScript's `a / b` on BigInts: the quotient rounded toward zero.
      (Dafny's own `/` is Euclidean and differs for negative operands.) */
  function TruncDiv(a: int, b: int): (q: int)
    requires b != 0
    ensures Abs(q) * Abs(b) <= Abs(a) < (Abs(q) + 1) * Abs(b)
    ensures q > 0 ==> (a > 0) == (b > 0)
    ensures q < 0 ==> (a > 0) != (b > 0)
    ensures a >= 0 && b > 0 ==> q == a / b
  {
    var m := Abs(a) / Abs(b);
    DivBounds(Abs(a), Abs(b));
    if (a >= 0) == (b >= 0) then m else -m
  }

  /** Euclidean division of naturals brackets the dividend. */
  lemma DivBounds(a: nat, d: nat)
    requires d > 0
    ensures (a / d) * d <= a < (a / d + 1) * d
  {
    assert a == (a / d) * d + a % d;
  }

  /** Multiplication by a non-negative factor preserves order. */
  lemma {:induction false} MulMonotone(a: int, b: int, c: nat)
    requires a <= b
    ensures a * c <= b * c
  {
    if c > 0 {
      MulMonotone(a, b, c - 1);
      assert a * c == a * (c - 1) + a;
      assert b * c == b * (c - 1) + b;
    }
  }

  /** Multiplying by a positive constant and dividing by it again gives back
      the factor exactly, and leaves no remainder. */
  lemma MulDivCancel(n: int, d: int)
    requires d > 0
    ensures (n * d) / d == n && (n * d) % d == 0
  {
    var q, r := (n * d) / d, (n * d) % d;
    assert n * d == q * d + r && 0 <= r < d;
    assert (n - q) * d == r by {
      assert (n - q) * d == n * d - q * d;
    }
    if n - q >= 1 {
      MulMonotone(1, n - q, d);
    } else if n - q <= -1 {
      MulMonotone(n - q, -1, d);
    }
  }

  /** `d * m / 10^k`-style scaling: a fraction strictly below one of a
      positive quantity is strictly below that quantity. */
  lemma ScaledFractionBelow(d: nat, m: nat, den: nat)
    requires d > 0 && m < den
    ensures 0 <= (d * m) / den < d
    ensures TruncDiv(d * m, den) == (d * m) / den
  {
    var p := d * m;
    var q := p / den;
    assert p < den * d by {
      MulMonotone(m + 1, den, d);
      assert (m + 1) * d == m * d + d;
      assert m * d == p;
    }
    DivBounds(p, den);
    if q >= d {
      MulMonotone(d, q, den);
    }
  }
}
