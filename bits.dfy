module Bits {
  function Pow2(k: nat): (p: nat)
    ensures p > 0
  {
    if k == 0 then 1 else 2 * Pow2(k - 1)
  }

  /** Python's `i >> k` for a non-negative `i`. */
  function Shr(i: nat, k: nat): int
  {
    i / Pow2(k)
  }

  lemma {:induction false} Pow2Add(a: nat, b: nat)
    ensures Pow2(a + b) == Pow2(a) * Pow2(b)
  {
    if b > 0 {
      Pow2Add(a, b - 1);
      calc {
        Pow2(a + b);
        2 * Pow2(a + b - 1);
        2 * (Pow2(a) * Pow2(b - 1));
        Pow2(a) * (2 * Pow2(b - 1));
        Pow2(a) * Pow2(b);
      }
    }
  }

  lemma Pow2Five()
    ensures Pow2(5) == 32
  {
    assert Pow2(1) == 2;
    assert Pow2(2) == 4;
    assert Pow2(3) == 8;
    assert Pow2(4) == 16;
  }

  lemma MulAtLeast(k: int, d: int)
    requires k >= 1 && d > 0
    ensures k * d >= d
  {
  }

  lemma DivModUnique(x: int, d: int, q: int, r: int)
    requires d > 0 && 0 <= r < d && x == q * d + r
    ensures x / d == q && x % d == r
  {
    var q0, r0 := x / d, x % d;
    assert x == q0 * d + r0;
    assert (q - q0) * d == r0 - r;
    if q > q0 {
      MulAtLeast(q - q0, d);
    } else if q < q0 {
      MulAtLeast(q0 - q, d);
    }
  }

  lemma DigitSplit(i: nat, a: nat, b: nat)
    requires a > 0 && b > 0
    ensures (i / a) % b == (i % (a * b)) / a
    ensures (i % (a * b)) % a == i % a
  {
    var j := i % (a * b);
    var big := i / (a * b);
    assert i == big * (a * b) + j;
    var hi, lo := j / a, j % a;
    assert j == hi * a + lo;
    assert hi < b;
    assert i == (big * b + hi) * a + lo;
    DivModUnique(i, a, big * b + hi, lo);
    DivModUnique(i / a, b, big, hi);
  }
}
