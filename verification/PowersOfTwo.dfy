/**
 * Arithmetic of powers of two: the quotients, remainders and bitwise ors that masks and shifts
 * of machine words amount to.
 */
module PowersOfTwo {

  function Pow2(k: nat): (p: nat)
    ensures p > 0
  {
    if k == 0 then 1 else 2 * Pow2(k - 1)
  }

  lemma {:induction false} Pow2Add(j: nat, k: nat)
    ensures Pow2(j + k) == Pow2(j) * Pow2(k)
  {
    if j > 0 {
      Pow2Add(j - 1, k);
      Associate(Pow2(j - 1), Pow2(k));
    }
  }

  lemma Associate(a: int, b: int)
    ensures 2 * a * b == 2 * (a * b)
  {
  }

  lemma Pow2Values()
    ensures Pow2(2) == 4 && Pow2(7) == 0x80 && Pow2(20) == 0x10_0000 && Pow2(32) == 0x1_0000_0000
  {
    assert Pow2(4) == 16;
    assert Pow2(7) == 0x80;
    assert Pow2(8) == 0x100;
    Pow2Add(8, 8);
    Pow2Add(16, 4);
    Pow2Add(16, 16);
  }

  lemma AtLeastOnce(p: int, k: int)
    requires p > 0 && k >= 1
    ensures p * k >= p
  {
  }

  lemma NotPositive(p: int, k: int)
    requires p > 0 && k <= 0
    ensures p * k <= 0
  {
  }

  lemma DivMod(x: int, p: int)
    requires p > 0
    ensures x == p * (x / p) + x % p && 0 <= x % p < p
    ensures x >= 0 ==> x / p >= 0 && p * (x / p) >= 0
  {
  }

  /** Quotient and remainder are determined by what they have to add up to. */
  lemma DivModUnique(x: int, p: int, q: int, r: int)
    requires p > 0 && x == p * q + r && 0 <= r < p
    ensures x / p == q && x % p == r
  {
    DivMod(x, p);
    var q', r' := x / p, x % p;
    assert p * (q' - q) == r - r';
    if q' > q {
      AtLeastOnce(p, q' - q);
    } else if q > q' {
      AtLeastOnce(p, q - q');
    }
  }

  lemma BelowMeansZero(x: nat, p: nat)
    requires p > 0
    ensures x / p == 0 <==> x < p
    ensures x < p ==> x % p == x
  {
    DivMod(x, p);
    if x < p {
      DivModUnique(x, p, 0, x);
    }
  }

  /** `x` with its `k` low bits cleared. */
  function ClearLow(x: nat, k: nat): (r: nat)
    ensures r <= x && r % Pow2(k) == 0
  {
    DivMod(x, Pow2(k));
    DivModUnique(Pow2(k) * (x / Pow2(k)), Pow2(k), x / Pow2(k), 0);
    x - x % Pow2(k)
  }

  /** That is the largest multiple of 2^k up to `x`. */
  lemma ClearLowIs(x: nat, k: nat)
    ensures ClearLow(x, k) <= x < ClearLow(x, k) + Pow2(k)
  {
    DivMod(x, Pow2(k));
  }

  /** Clearing more bits first makes clearing fewer superfluous. */
  lemma ClearLowFewer(x: nat, j: nat, k: nat)
    requires j <= k && x % Pow2(k) == 0
    ensures ClearLow(x, j) == x
  {
    var p, q := Pow2(k), x / Pow2(k);
    DivMod(x, p);
    Pow2Add(j, k - j);
    var r := Pow2(k - j) * q;
    RegroupProduct(Pow2(j), Pow2(k - j), q);
    DivModUnique(x, Pow2(j), r, 0);
  }

  lemma RegroupProduct(a: int, b: int, c: int)
    ensures a * b * c == a * (b * c)
  {
  }

  /** An aligned block does not run over the end of the address space. */
  lemma AlignedBlockFits(base: nat, offset: nat, k: nat)
    requires k <= 32 && base < Pow2(32) && base % Pow2(k) == 0 && offset < Pow2(k)
    ensures base + offset < Pow2(32)
  {
    var p, q, r := Pow2(k), base / Pow2(k), Pow2(32 - k);
    Pow2Add(k, 32 - k);
    DivMod(base, p);
    NextMultiple(p, q, r);
  }

  lemma NextMultiple(p: int, q: int, r: int)
    requires p > 0 && p * q < p * r
    ensures p * q + p <= p * r
  {
    var k := r - q;
    Distribute(p, r, q);
    if k >= 1 {
      AtLeastOnce(p, k);
    } else {
      NotPositive(p, k);
    }
  }

  lemma Distribute(p: int, a: int, b: int)
    ensures p * (a - b) == p * a - p * b
  {
  }

  /** Dividing in two steps. */
  lemma DivNested(x: nat, p: nat, q: nat)
    requires p > 0 && q > 0
    ensures p * q > 0 && x / p == q * (x / (p * q)) + x / p % q
  {
    var a, r := x / p, x % p;
    var b, s := a / q, a % q;
    DivMod(x, p);
    DivMod(a, q);
    RegroupProduct(p, q, b);
    Distribute(p, q * b + s, q * b);
    assert x == p * q * b + (p * s + r);
    AtLeastOnce(p, q - s);
    Distribute(p, q, s);
    NonNegative(p, s);
    DivModUnique(x, p * q, b, p * s + r);
  }

  lemma NonNegative(a: nat, b: nat)
    ensures a * b >= 0
  {
  }

  // ----- Bits -----

  /** The number of bits up to the highest one that is set. */
  function BitLength(x: nat): nat {
    if x == 0 then 0 else 1 + BitLength(x / 2)
  }

  lemma {:induction false} BitLengthBound(x: nat, k: nat)
    ensures BitLength(x) <= k <==> x < Pow2(k)
    decreases k
  {
    if x > 0 && k > 0 {
      BitLengthBound(x / 2, k - 1);
    }
  }

  /** Bitwise or. */
  function Or(a: nat, b: nat): nat
    decreases a + b
  {
    if a == 0 && b == 0 then 0
    else (if a % 2 == 1 || b % 2 == 1 then 1 else 0) + 2 * Or(a / 2, b / 2)
  }

  /** Bit `k` is set in the result if and only if it is set in one of the two. */
  lemma {:induction false} OrBits(a: nat, b: nat, k: nat)
    ensures Or(a, b) / Pow2(k) % 2 == 1 <==> a / Pow2(k) % 2 == 1 || b / Pow2(k) % 2 == 1
    decreases k
  {
    if k == 0 {
      OrHalf(a, b);
    } else {
      OrHalf(a, b);
      OrBits(a / 2, b / 2, k - 1);
      DivTwice(a, k);
      DivTwice(b, k);
      DivTwice(Or(a, b), k);
    }
  }

  lemma OrHalf(a: nat, b: nat)
    ensures Or(a, b) / 2 == Or(a / 2, b / 2)
    ensures Or(a, b) % 2 == 1 <==> a % 2 == 1 || b % 2 == 1
  {
  }

  lemma DivTwice(x: nat, k: nat)
    requires k > 0
    ensures x / Pow2(k) == x / 2 / Pow2(k - 1)
  {
    var p, q, r := Pow2(k - 1), x / 2 / Pow2(k - 1), x / 2 % Pow2(k - 1);
    DivMod(x / 2, p);
    assert x / 2 == p * q + r;
    Associate(p, q);
    assert Pow2(k) * q == 2 * (p * q);
    DivModUnique(x, Pow2(k), q, 2 * r + x % 2);
  }

  lemma {:induction false} OrOfZero(b: nat)
    ensures Or(0, b) == b && Or(b, 0) == b
  {
    if b > 0 {
      OrOfZero(b / 2);
    }
  }

  lemma HalfOfMultiple(a: nat, k: nat)
    requires k > 0 && a % Pow2(k) == 0
    ensures a % 2 == 0 && (a / 2) % Pow2(k - 1) == 0
  {
    var p, q := Pow2(k - 1), a / Pow2(k);
    DivMod(a, Pow2(k));
    Associate(p, q);
    assert a == 2 * (p * q);
    DivModUnique(p * q, p, q, 0);
  }

  /** Numbers without a set bit in common are ored by adding them. */
  lemma {:induction false} OrIsSum(a: nat, b: nat, k: nat)
    requires a % Pow2(k) == 0 && b < Pow2(k)
    ensures Or(a, b) == a + b
    decreases k
  {
    if a == 0 {
      OrOfZero(b);
    } else if k == 0 {
      OrOfZero(a);
    } else {
      HalfOfMultiple(a, k);
      OrIsSum(a / 2, b / 2, k - 1);
    }
  }
}
