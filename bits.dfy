/** Unbounded-integer models of the bitwise operators the allocator uses.
    Go applies `|`, `&` and `^` to bytes and to 32-bit words; `math/big`
    applies `Or` to arbitrary naturals. The recursive definitions below work
    one bit at a time, least significant bit first, and the lemmas give them
    the closed forms the rest of the model needs. */
module Bits {

  type byte = x: int | 0 <= x < 256

  function Pow2(k: nat): (r: nat)
    ensures r >= 1
  {
    if k == 0 then 1 else 2 * Pow2(k - 1)
  }

  /** Bitwise OR of two naturals (Go `|`, `big.Int.Or`). */
  function Or(a: nat, b: nat): (r: nat)
    ensures a <= r && b <= r && r <= a + b
    decreases a + b
  {
    if a == 0 then b
    else if b == 0 then a
    else 2 * Or(a / 2, b / 2) + (if a % 2 == 1 || b % 2 == 1 then 1 else 0)
  }

  /** Bitwise AND of two naturals (Go `&`). */
  function And(a: nat, b: nat): (r: nat)
    ensures r <= a && r <= b
    decreases a + b
  {
    if a == 0 || b == 0 then 0
    else 2 * And(a / 2, b / 2) + (if a % 2 == 1 && b % 2 == 1 then 1 else 0)
  }

  lemma MulTwice(a: int, p: int)
    ensures a * (2 * p) == 2 * (a * p)
  {
  }

  lemma MulAtLeast(d: int, n: int)
    requires d > 0 && n >= 1
    ensures d * n >= d
  {
    assert d * n == d * (n - 1) + d;
    assert d * (n - 1) >= 0;
  }

  /** Quotient and remainder are determined by `x == d * q + r`. */
  lemma DivModUnique(x: int, d: int, q: int, r: int)
    requires d > 0 && 0 <= r < d && x == d * q + r
    ensures x / d == q && x % d == r
  {
    var q', r' := x / d, x % d;
    assert x == d * q' + r';
    assert d * (q - q') == r' - r;
    if q > q' {
      MulAtLeast(d, q - q');
    } else if q < q' {
      MulAtLeast(d, q' - q);
    }
  }

  lemma {:induction false} Pow2Add(a: nat, b: nat)
    ensures Pow2(a + b) == Pow2(a) * Pow2(b)
  {
    if b > 0 {
      Pow2Add(a, b - 1);
      MulTwice(Pow2(a), Pow2(b - 1));
    }
  }

  lemma {:induction false} Pow2Monotone(h: nat, n: nat)
    requires h <= n
    ensures Pow2(h) <= Pow2(n)
  {
    if h < n {
      Pow2Monotone(h, n - 1);
    }
  }

  /** The recursion of `Or` also holds when an operand is zero. */
  lemma OrStep(a: nat, b: nat)
    ensures Or(a, b) == 2 * Or(a / 2, b / 2) + (if a % 2 == 1 || b % 2 == 1 then 1 else 0)
  {
    if a == 0 {
      assert Or(a / 2, b / 2) == b / 2;
    } else if b == 0 {
      assert Or(a / 2, b / 2) == a / 2;
    }
  }

  /** The recursion of `And` also holds when an operand is zero. */
  lemma AndStep(a: nat, b: nat)
    ensures And(a, b) == 2 * And(a / 2, b / 2) + (if a % 2 == 1 && b % 2 == 1 then 1 else 0)
  {
    if a == 0 {
      assert And(a / 2, b / 2) == 0;
    } else if b == 0 {
      assert And(a / 2, b / 2) == 0;
    }
  }

  lemma OrCommutes(a: nat, b: nat)
    ensures Or(a, b) == Or(b, a)
    decreases a + b
  {
    if a != 0 && b != 0 {
      OrCommutes(a / 2, b / 2);
    }
  }

  /** OR of two k-bit numbers is a k-bit number. */
  lemma {:induction false} OrBound(a: nat, b: nat, k: nat)
    requires a < Pow2(k) && b < Pow2(k)
    ensures Or(a, b) < Pow2(k)
  {
    if a != 0 && b != 0 {
      OrBound(a / 2, b / 2, k - 1);
    }
  }

  /** Splitting off the lowest bit of `a * 2^k + b`. */
  lemma HalveSplit(a: nat, b: nat, k: nat)
    requires k > 0 && b < Pow2(k)
    ensures Pow2(k) == 2 * Pow2(k - 1) && b / 2 < Pow2(k - 1)
    ensures (a * Pow2(k) + b) / 2 == a * Pow2(k - 1) + b / 2
    ensures (a * Pow2(k) + b) % 2 == b % 2
  {
    var p := Pow2(k - 1);
    MulTwice(a, p);
    var x := a * Pow2(k) + b;
    assert x == 2 * (a * p + b / 2) + b % 2;
    DivModUnique(x, 2, a * p + b / 2, b % 2);
  }

  /** OR works independently on the high part and on the low k bits. */
  lemma {:induction false} OrSplit(a: nat, b: nat, c: nat, d: nat, k: nat)
    requires b < Pow2(k) && d < Pow2(k)
    ensures Or(a * Pow2(k) + b, c * Pow2(k) + d) == Or(a, c) * Pow2(k) + Or(b, d)
  {
    if k > 0 {
      var x, y := a * Pow2(k) + b, c * Pow2(k) + d;
      HalveSplit(a, b, k);
      HalveSplit(c, d, k);
      OrSplit(a, b / 2, c, d / 2, k - 1);
      OrStep(x, y);
      OrStep(b, d);
      MulTwice(Or(a, c), Pow2(k - 1));
    }
  }

  /** `OrSplit` with the block size given as a number. */
  lemma OrSplitBy(a: nat, b: nat, c: nat, d: nat, k: nat, size: nat)
    requires size == Pow2(k) && b < size && d < size
    ensures Or(a * size + b, c * size + d) == Or(a, c) * size + Or(b, d)
  {
    OrSplit(a, b, c, d, k);
  }

  /** AND works independently on the high part and on the low k bits. */
  lemma {:induction false} AndSplit(a: nat, b: nat, c: nat, d: nat, k: nat)
    requires b < Pow2(k) && d < Pow2(k)
    ensures And(a * Pow2(k) + b, c * Pow2(k) + d) == And(a, c) * Pow2(k) + And(b, d)
  {
    if k > 0 {
      var x, y := a * Pow2(k) + b, c * Pow2(k) + d;
      HalveSplit(a, b, k);
      HalveSplit(c, d, k);
      AndSplit(a, b / 2, c, d / 2, k - 1);
      AndStep(x, y);
      AndStep(b, d);
      MulTwice(And(a, c), Pow2(k - 1));
    }
  }

  /** OR with n one bits of an n-bit number gives the n one bits. */
  lemma {:induction false} OrAllOnes(x: nat, n: nat)
    requires x < Pow2(n)
    ensures Or(x, Pow2(n) - 1) == Pow2(n) - 1
  {
    if n > 0 && x > 0 {
      OrAllOnes(x / 2, n - 1);
      assert (Pow2(n) - 1) / 2 == Pow2(n - 1) - 1;
    }
  }

  /** AND with n one bits keeps every bit of an n-bit number. */
  lemma {:induction false} AndAllOnes(x: nat, n: nat)
    requires x < Pow2(n)
    ensures And(x, Pow2(n) - 1) == x
  {
    if n > 0 && x > 0 {
      AndAllOnes(x / 2, n - 1);
      assert (Pow2(n) - 1) / 2 == Pow2(n - 1) - 1;
    }
  }

  lemma AndZero(x: nat)
    ensures And(x, 0) == 0
  {
  }

  /** Setting the low k bits of `q * 2^k + r`. */
  lemma OrLowOnes(q: nat, r: nat, k: nat)
    requires r < Pow2(k)
    ensures Or(q * Pow2(k) + r, Pow2(k) - 1) == q * Pow2(k) + Pow2(k) - 1
  {
    var p := Pow2(k);
    OrSplit(q, r, 0, p - 1, k);
    assert 0 * p + (p - 1) == p - 1;
    OrAllOnes(r, k);
    assert Or(q, 0) == q;
  }

  /** Clearing the low k bits of `q * 2^k + r`, where q has at most n bits. */
  lemma AndHighOnes(q: nat, r: nat, n: nat, k: nat)
    requires r < Pow2(k) && q < Pow2(n)
    ensures Pow2(n + k) - Pow2(k) == (Pow2(n) - 1) * Pow2(k)
    ensures And(q * Pow2(k) + r, Pow2(n + k) - Pow2(k)) == q * Pow2(k)
  {
    var p := Pow2(k);
    Pow2Add(n, k);
    assert Pow2(n + k) - p == (Pow2(n) - 1) * p;
    AndSplit(q, r, Pow2(n) - 1, 0, k);
    assert (Pow2(n) - 1) * p + 0 == (Pow2(n) - 1) * p;
    AndAllOnes(q, n);
    AndZero(r);
  }

  /** ORing b into a leaves a unchanged exactly when every one bit of b is
      already set in a. */
  lemma {:induction false} OrAbsorbs(a: nat, b: nat)
    ensures Or(a, b) == a <==> And(a, b) == b
    decreases a + b
  {
    if a != 0 && b != 0 {
      OrAbsorbs(a / 2, b / 2);
      assert a == 2 * (a / 2) + a % 2;
      assert b == 2 * (b / 2) + b % 2;
    }
  }

  /** The quotient and remainder of a by d, as naturals. */
  lemma Divide(a: nat, d: nat) returns (q: nat, r: nat)
    requires d > 0
    ensures a == q * d + r && r < d
  {
    q, r := a / d, a % d;
  }

  /** a OR (2^h - 1) sets the low h bits of a: it lies in the block of 2^h
      that holds a, and stays below 2^bits when a does. */
  lemma LastOfBlock(a: nat, h: nat, bits: nat)
    requires h <= bits && a < Pow2(bits)
    ensures a <= Or(Pow2(h) - 1, a) < a + Pow2(h)
    ensures Or(Pow2(h) - 1, a) < Pow2(bits)
  {
    var size := Pow2(h);
    var ones: nat := size - 1;
    assert Or(ones, a) == Or(a, ones) by { OrCommutes(ones, a); }
    assert Or(ones, a) < Pow2(bits) by {
      Pow2Monotone(h, bits);
      OrBound(ones, a, bits);
    }
    var q, rem := Divide(a, size);
    assert Or(a, ones) == q * size + ones by {
      OrLowOnes(q, rem, h);
    }
  }
}
