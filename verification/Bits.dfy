/**
 Bit arithmetic on naturals: powers of two, masks and exclusive or. The Merkle tree and the
 frequency sketch both round their sizes up to a power of two and index with a mask.
 */
module Bits {

  function Pow2(k: nat): (p: nat)
    ensures p > 0
  {
    if k == 0 then 1 else 2 * Pow2(k - 1)
  }

  ghost predicate IsPow2(n: nat) {
    exists k :: n == Pow2(k)
  }

  /** The number of bits needed to write `x`. */
  function BitLen(x: nat): (k: nat)
    ensures x < Pow2(k)
    ensures k > 0 ==> Pow2(k - 1) <= x
  {
    if x == 0 then 0 else 1 + BitLen(x / 2)
  }

  function NextPowerOfTwo(n: int): nat {
    if n <= 1 then 1 else Pow2(BitLen(n - 1))
  }

  lemma {:induction false} Pow2Monotone(j: nat, k: nat)
    requires j <= k
    ensures Pow2(j) <= Pow2(k)
    ensures j < k ==> 2 * Pow2(j) <= Pow2(k)
  {
    if j < k { Pow2Monotone(j, k - 1); }
  }

  /** The smallest power of two that is at least `n`. */
  lemma NextPowerOfTwoIsLeast(n: int, q: nat)
    ensures IsPow2(NextPowerOfTwo(n)) && NextPowerOfTwo(n) >= n
    ensures IsPow2(q) && q >= n ==> NextPowerOfTwo(n) <= q
  {
    if n <= 1 {
      assert Pow2(0) == 1;
    } else {
      var k := BitLen(n - 1);
      assert NextPowerOfTwo(n) == Pow2(k);
      if IsPow2(q) && q >= n {
        var j :| q == Pow2(j);
        if j < k {
          Pow2Monotone(j, k - 1);
          assert false;
        }
        Pow2Monotone(k, j);
      }
    }
  }

  function And(a: nat, b: nat): nat {
    if a == 0 || b == 0 then 0 else 2 * And(a / 2, b / 2) + (a % 2) * (b % 2)
  }

  function Xor(a: nat, b: nat): nat
    decreases a + b
  {
    if a == 0 then b else if b == 0 then a else 2 * Xor(a / 2, b / 2) + (a % 2 + b % 2) % 2
  }

  lemma MulAtLeast(m: nat, k: int)
    requires k >= 1
    ensures m * k >= m
  {
  }

  lemma DivUnique(x: nat, m: nat, q: nat, r: nat)
    requires m > 0 && r < m && x == m * q + r
    ensures x % m == r
  {
    var d := x / m;
    assert m * (d - q) == r - x % m && m * (q - d) == x % m - r;
    if d > q {
      MulAtLeast(m, d - q);
      assert false;
    }
    if d < q {
      MulAtLeast(m, q - d);
      assert false;
    }
  }

  lemma ModDouble(x: nat, p: nat)
    requires p > 0
    ensures x % (2 * p) == 2 * ((x / 2) % p) + x % 2
  {
    var half := x / 2;
    var q := half / p;
    assert half == p * q + half % p;
    assert x == 2 * (p * q + half % p) + x % 2 == (2 * p) * q + (2 * (half % p) + x % 2);
    DivUnique(x, 2 * p, q, 2 * (half % p) + x % 2);
  }

  lemma MaskStep(x: nat, p: nat)
    requires p > 0
    ensures And(x, 2 * p - 1) == 2 * And(x / 2, p - 1) + x % 2
  {
  }

  /** Masking with one less than a power of two is the remainder. */
  lemma {:induction false} MaskIsMod(x: nat, k: nat)
    ensures And(x, Pow2(k) - 1) == x % Pow2(k)
  {
    if k > 0 {
      hide And;
      var p := Pow2(k - 1);
      MaskIsMod(x / 2, k - 1);
      MaskStep(x, p);
      ModDouble(x, p);
    }
  }

  lemma {:induction false} XorCommutes(a: nat, b: nat)
    ensures Xor(a, b) == Xor(b, a)
    decreases a + b
  {
    if a != 0 && b != 0 { XorCommutes(a / 2, b / 2); }
  }

  /** Exclusive or works bit by bit. */
  lemma XorHalves(a: nat, b: nat)
    ensures Xor(a, b) / 2 == Xor(a / 2, b / 2) && Xor(a, b) % 2 == (a % 2 + b % 2) % 2
  {
  }

  lemma SameHalves(x: nat, y: nat)
    requires x / 2 == y / 2 && x % 2 == y % 2
    ensures x == y
  {
  }

  lemma XorParity(a: nat, b: nat, c: nat)
    ensures Xor(Xor(a, b), c) % 2 == Xor(a, Xor(b, c)) % 2
  {
    hide Xor;
    XorHalves(a, b);
    XorHalves(b, c);
    XorHalves(Xor(a, b), c);
    XorHalves(a, Xor(b, c));
  }

  lemma {:induction false} XorAssociates(a: nat, b: nat, c: nat)
    ensures Xor(Xor(a, b), c) == Xor(a, Xor(b, c))
    decreases a + b + c
  {
    if a != 0 && b != 0 && c != 0 {
      hide Xor;
      var left, right := Xor(Xor(a, b), c), Xor(a, Xor(b, c));
      assert left / 2 == right / 2 by {
        XorHalves(a, b);
        XorHalves(b, c);
        XorHalves(Xor(a, b), c);
        XorHalves(a, Xor(b, c));
        XorAssociates(a / 2, b / 2, c / 2);
      }
      XorParity(a, b, c);
      SameHalves(left, right);
    }
  }

  lemma {:induction false} XorSelf(a: nat)
    ensures Xor(a, a) == 0
  {
    if a != 0 { XorSelf(a / 2); }
  }

  /** Exclusive or cancels. */
  lemma XorCancels(a: nat, b: nat, c: nat)
    requires Xor(a, b) == Xor(a, c)
    ensures b == c
  {
    XorAssociates(a, a, b);
    XorAssociates(a, a, c);
    XorSelf(a);
  }

  lemma {:induction false} XorBound(a: nat, b: nat, k: nat)
    requires a < Pow2(k) && b < Pow2(k)
    ensures Xor(a, b) < Pow2(k)
    decreases k
  {
    if a != 0 && b != 0 { XorBound(a / 2, b / 2, k - 1); }
  }
}
