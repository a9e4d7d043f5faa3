/**
  Proposer eligibility: binomial coefficients by multiply-then-divide, and the smallest sample that is
  unlikely to be all faulty.  Every division is exact, the size returned is minimal, and every larger
  sample meets the bound too.
 */
module Eligibility {
  import opened Common
  import opened Modular

  /** Pascal's triangle. */
  function Choose(n: nat, k: nat): nat {
    if k == 0 then 1 else if n == 0 then 0 else Choose(n - 1, k - 1) + Choose(n - 1, k)
  }

  lemma {:induction false} ChooseBeyond(n: nat, k: nat)
    requires k > n
    ensures Choose(n, k) == 0
  {
    if n > 0 {
      ChooseBeyond(n - 1, k - 1);
      ChooseBeyond(n - 1, k);
    }
  }

  lemma ChooseNone(n: nat)
    ensures Choose(n, 0) == 1
  {}

  lemma {:induction false} ChooseAll(n: nat)
    ensures Choose(n, n) == 1
  {
    if n > 0 {
      ChooseAll(n - 1);
      ChooseBeyond(n - 1, n);
    }
  }

  lemma {:induction false} ChoosePositive(n: nat, k: nat)
    requires k <= n
    ensures Choose(n, k) > 0
  {
    if k > 0 {
      ChoosePositive(n - 1, k - 1);
    }
  }

  /** `(k+1) * C(n+1, k+1) == (n+1) * C(n, k)` */
  lemma {:induction false} Absorption(n: nat, k: nat)
    ensures (k + 1) * Choose(n + 1, k + 1) == (n + 1) * Choose(n, k)
  {
    if n == 0 {
      assert Choose(1, k + 1) == Choose(0, k) + Choose(0, k + 1);
    } else if k == 0 {
      Absorption(n - 1, 0);
      assert Choose(n + 1, 1) == Choose(n, 0) + Choose(n, 1);
    } else {
      Absorption(n - 1, k - 1);
      Absorption(n - 1, k);
      AbsorptionStep(n, k, Choose(n - 1, k - 1), Choose(n - 1, k), Choose(n, k), Choose(n, k + 1), Choose(n + 1, k + 1));
    }
  }

  lemma AbsorptionStep(n: nat, k: nat, a: nat, b: nat, c: nat, d: nat, e: nat)
    requires c == a + b && e == c + d && k * c == n * a && (k + 1) * d == n * b
    ensures (k + 1) * e == (n + 1) * c
  {
    assert (k + 1) * e == k * c + c + (k + 1) * d;
    assert n * a + n * b == n * c;
  }

  lemma {:induction false} Symmetry(n: nat, k: nat)
    requires k <= n
    ensures Choose(n, k) == Choose(n, n - k)
  {
    if k == 0 || k == n {
      ChooseAll(n);
    } else {
      Symmetry(n - 1, k - 1);
      Symmetry(n - 1, k);
    }
  }

  function Factorial(n: nat): nat {
    if n == 0 then 1 else n * Factorial(n - 1)
  }

  /** Pascal's triangle holds the binomial coefficients. */
  lemma {:induction false} ChooseFactorial(n: nat, k: nat)
    requires k <= n
    ensures Choose(n, k) * (Factorial(k) * Factorial(n - k)) == Factorial(n)
  {
    if k == 0 {
      assert Factorial(0) == 1;
    } else {
      ChooseFactorial(n - 1, k - 1);
      Absorption(n - 1, k - 1);
      FactorialStep(n, k, Choose(n, k), Choose(n - 1, k - 1), Factorial(k - 1), Factorial(n - k), Factorial(n - 1));
    }
  }

  lemma FactorialStep(n: nat, k: nat, c: nat, c': nat, f: nat, g: nat, h: nat)
    requires k * c == n * c' && c' * (f * g) == h
    ensures c * ((k * f) * g) == n * h
  {
    assert c * ((k * f) * g) == (k * c) * (f * g);
    assert (n * c') * (f * g) == n * (c' * (f * g));
  }

  /** The loop divides exactly at every step and computes the binomial coefficient. */
  method Binomial(n: int, k: int) returns (r: nat)
    ensures r == if n < 0 || k < 0 then 0 else Choose(n, k)
  {
    hide Choose;
    if k < 0 || k > n {
      if k > n >= 0 {
        ChooseBeyond(n, k);
      }
      return 0;
    }
    var m := k;
    if m > n - m {
      m := n - m;
    }
    Symmetry(n, k);
    r := 1;
    ChooseNone(n - m);
    for i := 1 to m + 1
      invariant r == Choose(n - m + (i - 1), i - 1)
    {
      var product := r * (n - m + i);
      ExactStep(n - m + i - 1, i, product);
      r := product / i;
    }
  }

  /** One turn of the loop: multiplying by the next factor and dividing leaves no remainder. */
  lemma ExactStep(m: nat, i: nat, product: nat)
    requires i > 0 && product == Choose(m, i - 1) * (m + 1)
    ensures product / i == Choose(m + 1, i) && product % i == 0
  {
    Absorption(m, i - 1);
    Commute(i, Choose(m + 1, i));
    ModIs(i, product, Choose(m + 1, i), 0);
  }

  lemma Commute(a: int, b: int)
    ensures a * b == b * a
  {}

  // ---------------------------------------------------------------- the sample size

  /** `C(f, c) / C(n, c) <= p / q` */
  predicate Unlikely(n: nat, f: nat, c: nat, p: nat, q: nat) {
    Choose(f, c) * q <= p * Choose(n, c)
  }

  /** The chance of an all-faulty sample does not grow with the sample. */
  lemma UnlikelyGrows(n: nat, f: nat, c: nat, p: nat, q: nat)
    requires f < n && c < n && Unlikely(n, f, c, p, q)
    ensures Unlikely(n, f, c + 1, p, q)
  {
    if c >= f {
      ChooseBeyond(f, c + 1);
    } else {
      NextRatio(n, c);
      NextRatio(f, c);
      RatioStep(Choose(f, c), Choose(n, c), Choose(f, c + 1), Choose(n, c + 1), f - c, n - c, c + 1, p, q);
    }
  }

  /** `(c+1) * C(n, c+1) == (n-c) * C(n, c)` */
  lemma NextRatio(n: nat, c: nat)
    requires c < n
    ensures (c + 1) * Choose(n, c + 1) == (n - c) * Choose(n, c)
  {
    Absorption(n, c);
    var a, b := Choose(n, c), Choose(n, c + 1);
    assert Choose(n + 1, c + 1) == a + b;
    assert (c + 1) * (a + b) == (c + 1) * a + (c + 1) * b;
    assert (n + 1) * a - (c + 1) * a == (n - c) * a;
  }

  lemma RatioStep(a: nat, b: nat, a': nat, b': nat, x: nat, y: nat, d: nat, p: nat, q: nat)
    requires d > 0 && d * a' == x * a && d * b' == y * b && x <= y && a * q <= p * b
    ensures a' * q <= p * b'
  {
    Move(d, a', q, x, a);
    Move(d, b', p, y, b);
    assert x * (a * q) <= x * (p * b);
    assert x * (p * b) <= y * (p * b);
    assert d * (a' * q) <= d * (p * b');
    assert a' * q > p * b' ==> d * (a' * q) > d * (p * b');
  }

  lemma Move(d: nat, a': nat, q: nat, x: nat, a: nat)
    requires d * a' == x * a
    ensures d * (a' * q) == x * (a * q) && d * (q * a') == x * (q * a)
  {
    assert d * (a' * q) == (d * a') * q && x * (a * q) == (x * a) * q;
    assert q * a' == a' * q && q * a == a * q;
  }

  lemma {:induction false} UnlikelyFrom(n: nat, f: nat, c: nat, d: nat, p: nat, q: nat)
    requires f < n && c <= d <= n && Unlikely(n, f, c, p, q)
    ensures Unlikely(n, f, d, p, q)
    decreases d - c
  {
    if c < d {
      UnlikelyFrom(n, f, c, d - 1, p, q);
      UnlikelyGrows(n, f, d - 1, p, q);
    }
  }

  /** The smallest sample meeting the bound: no smaller one does, every larger one does. */
  method SampleSize(n: int, f: int, p: nat, q: nat) returns (r: Option<nat>)
    ensures r.Some? <==> 0 <= f < n && 0 < p < q
    ensures r.Some? ==> 0 < r.value <= n &&
                        forall c: nat :: 0 < c <= n ==> (Choose(f, c) * q <= p * Choose(n, c) <==> c >= r.value)
  {
    if n <= 0 || f < 0 || f >= n || p == 0 || p >= q {
      return None;
    }
    for c := 1 to n + 1
      invariant forall d: nat :: 0 < d < c ==> Choose(f, d) * q > p * Choose(n, d)
      invariant c <= f + 1
    {
      if c > f {
        ChooseBeyond(f, c);
        FromHere(n, f, c, p, q);
        return Some(c);
      }
      var bad := Binomial(f, c);
      var all := Binomial(n, c);
      ChoosePositive(n, c);
      if bad * q <= p * all {
        FromHere(n, f, c, p, q);
        return Some(c);
      }
    }
    assert false;
    r := None;
  }

  lemma FromHere(n: nat, f: nat, c: nat, p: nat, q: nat)
    requires f < n && 0 < c <= n && Unlikely(n, f, c, p, q)
    ensures forall d: nat :: c <= d <= n ==> Choose(f, d) * q <= p * Choose(n, d)
  {
    forall d: nat | c <= d <= n ensures Choose(f, d) * q <= p * Choose(n, d) {
      UnlikelyFrom(n, f, c, d, p, q);
    }
  }
}
