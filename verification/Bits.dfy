/** Bitwise facts about naturals: the `&` tests and the power-of-two sizes of the compact proofs. */
module Bits {
  import Modular

  function Pow2(k: nat): (p: nat)
    ensures p >= 1
  {
    if k == 0 then 1 else 2 * Pow2(k - 1)
  }

  /** The bitwise conjunction of two naturals. */
  function And(a: nat, b: nat): nat {
    if a == 0 || b == 0 then 0 else (a % 2) * (b % 2) + 2 * And(a / 2, b / 2)
  }

  /** Bit `k` of `i`. */
  function Bit(i: nat, k: nat): (b: nat)
    ensures b < 2
  {
    if k == 0 then i % 2 else Bit(i / 2, k - 1)
  }

  predicate IsPow2(n: nat) {
    n == 1 || (n > 1 && n % 2 == 0 && IsPow2(n / 2))
  }

  function Rounds(n: nat): nat
    requires IsPow2(n)
  {
    if n == 1 then 0 else 1 + Rounds(n / 2)
  }

  lemma Pow2IsPow2(k: nat)
    ensures IsPow2(Pow2(k)) && Rounds(Pow2(k)) == k
  {}

  lemma {:induction false} AndSelf(n: nat)
    ensures And(n, n) == n
  {
    if n != 0 {
      AndSelf(n / 2);
    }
  }

  /** The `n & (n-1)` test of the compact proofs recognises exactly the powers of two. */
  lemma {:induction false} AndPredecessor(n: nat)
    requires n > 0
    ensures And(n, n - 1) == 0 <==> IsPow2(n)
  {
    if n == 1 {
    } else if n % 2 == 0 {
      assert (n - 1) / 2 == n / 2 - 1;
      AndPredecessor(n / 2);
    } else {
      assert (n - 1) / 2 == n / 2;
      AndSelf(n / 2);
    }
  }

  /** The `generator & half` test reads one bit of the generator index. */
  lemma {:induction false} AndPow2(i: nat, k: nat)
    ensures And(i, Pow2(k)) == 0 <==> Bit(i, k) == 0
  {
    if k == 0 {
      assert And(i / 2, 0) == 0;
    } else if i == 0 {
      BitOfSmall(0, k);
    } else {
      assert Pow2(k) / 2 == Pow2(k - 1);
      AndPow2(i / 2, k - 1);
    }
  }

  lemma {:induction false} BitOfSmall(i: nat, k: nat)
    requires i < Pow2(k)
    ensures Bit(i, k) == 0
  {
    if k > 0 {
      BitOfSmall(i / 2, k - 1);
    }
  }

  lemma {:induction false} BitOfLarge(i: nat, k: nat)
    requires Pow2(k) <= i < Pow2(k + 1)
    ensures Bit(i, k) == 1
  {
    if k > 0 {
      assert Pow2(k + 1) == 2 * Pow2(k);
      BitOfLarge(i / 2, k - 1);
    }
  }

  /** Clearing a higher bit does not disturb a lower one. */
  lemma {:induction false} BitBelow(i: nat, j: nat, k: nat)
    requires j < k && Pow2(k) <= i
    ensures Bit(i - Pow2(k), j) == Bit(i, j)
  {
    assert Pow2(k) == 2 * Pow2(k - 1);
    if j > 0 {
      assert (i - Pow2(k)) / 2 == i / 2 - Pow2(k - 1);
      BitBelow(i / 2, j - 1, k - 1);
    }
  }

  // ---------------------------------------------------------------- masks and lengths

  /** `big.Int.BitLen` */
  function BitLen(v: nat): nat {
    if v == 0 then 0 else 1 + BitLen(v / 2)
  }

  lemma {:induction false} BitLenBounds(v: nat)
    ensures v < Pow2(BitLen(v)) && (v > 0 ==> BitLen(v) > 0 && Pow2(BitLen(v) - 1) <= v)
  {
    if v > 0 {
      BitLenBounds(v / 2);
    }
  }

  lemma {:induction false} Pow2Sum(a: nat, b: nat)
    ensures Pow2(a + b) == Pow2(a) * Pow2(b)
  {
    if a > 0 {
      Pow2Sum(a - 1, b);
      assert 2 * (Pow2(a - 1) * Pow2(b)) == (2 * Pow2(a - 1)) * Pow2(b);
    }
  }

  lemma {:induction false} Pow2Mono(a: nat, b: nat)
    requires a <= b
    ensures Pow2(a) <= Pow2(b)
  {
    if a < b {
      Pow2Mono(a, b - 1);
    }
  }

  /** Masking with `2^k - 1` keeps the remainder modulo `2^k`. */
  lemma {:induction false} AndMask(r: nat, k: nat)
    ensures And(r, Pow2(k) - 1) == r % Pow2(k)
  {
    if k == 0 {
      assert And(r, 0) == 0 && r % 1 == 0;
    } else if r == 0 {
      assert 0 % Pow2(k) == 0;
    } else {
      AndMask(r / 2, k - 1);
      var p := Pow2(k - 1);
      assert (2 * p - 1) / 2 == p - 1 && (2 * p - 1) % 2 == 1;
      HalvedRemainder(r, p);
    }
  }

  lemma HalvedRemainder(r: nat, p: nat)
    requires p > 0
    ensures r % (2 * p) == r % 2 + 2 * ((r / 2) % p)
  {
    var k, m := (r / 2) / p, (r / 2) % p;
    assert r / 2 == k * p + m;
    assert r == k * (2 * p) + (2 * m + r % 2) by {
      assert 2 * (k * p) == k * (2 * p);
    }
    Modular.ModIs(2 * p, r, k, 2 * m + r % 2);
  }
}
