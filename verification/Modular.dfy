/**
  Arithmetic modulo a prime, the way the scalar field `fr` and the prime-order group G1 behave.

  A scalar is an integer read modulo `q`.  A point of the prime-order group is written as its
  exponent with respect to some fixed generator, so point addition is addition modulo `q` and
  scalar multiplication is multiplication modulo `q`; no operation of the model ever looks at an
  exponent in any other way.  Every theorem is stated for an arbitrary prime `q`.
 */
module Modular {

  type Scalar = int
  type Point = int

  ghost predicate Prime(q: int) {
    q > 1 && forall d :: 1 < d < q ==> q % d != 0
  }

  /** `a` and `b` are the same field element. */
  predicate Cong(q: int, a: int, b: int)
    requires q > 0
  {
    a % q == b % q
  }

  lemma ModIs(q: int, a: int, k: int, r: int)
    requires q > 0 && a == k * q + r && 0 <= r < q
    ensures a % q == r && a / q == k
  {
    var d := a / q - k;
    assert d * q == r - a % q by {
      assert a == (a / q) * q + a % q;
      assert d * q == (a / q) * q - k * q;
    }
    assert d > 0 ==> d * q >= q;
    assert d < 0 ==> d * q <= -q;
  }

  lemma CongIntro(q: int, a: int, b: int, k: int)
    requires q > 0 && a == b + k * q
    ensures Cong(q, a, b)
  {
    var k' := b / q + k;
    assert k' * q == (b / q) * q + k * q;
    ModIs(q, a, k', b % q);
  }

  lemma CongElim(q: int, a: int, b: int) returns (k: int)
    requires q > 0 && Cong(q, a, b)
    ensures a == b + k * q
  {
    k := a / q - b / q;
    assert k * q == (a / q) * q - (b / q) * q;
  }

  lemma ModCong(q: int, a: int)
    requires q > 0
    ensures Cong(q, a % q, a)
  {
    CongIntro(q, a % q, a, -(a / q));
  }

  lemma ModSmall(q: int, a: int)
    requires 0 <= a < q
    ensures a % q == a
  {
    ModIs(q, a, 0, a);
  }

  lemma CongAdd(q: int, a: int, a': int, b: int, b': int)
    requires q > 0 && Cong(q, a, a') && Cong(q, b, b')
    ensures Cong(q, a + b, a' + b')
  {
    var k := CongElim(q, a, a');
    var l := CongElim(q, b, b');
    assert (k + l) * q == k * q + l * q;
    CongIntro(q, a + b, a' + b', k + l);
  }

  lemma CongNeg(q: int, a: int, a': int)
    requires q > 0 && Cong(q, a, a')
    ensures Cong(q, -a, -a')
  {
    var k := CongElim(q, a, a');
    assert (-k) * q == -(k * q);
    CongIntro(q, -a, -a', -k);
  }

  lemma CongSub(q: int, a: int, a': int, b: int, b': int)
    requires q > 0 && Cong(q, a, a') && Cong(q, b, b')
    ensures Cong(q, a - b, a' - b')
  {
    CongNeg(q, b, b');
    CongAdd(q, a, a', -b, -b');
  }

  lemma CongMul(q: int, a: int, a': int, b: int, b': int)
    requires q > 0 && Cong(q, a, a') && Cong(q, b, b')
    ensures Cong(q, a * b, a' * b')
  {
    var k := CongElim(q, a, a');
    var l := CongElim(q, b, b');
    var m := a' * l + k * b' + k * l * q;
    calc {
      a * b;
      (a' + k * q) * (b' + l * q);
      a' * b' + m * q;
    }
    CongIntro(q, a * b, a' * b', m);
  }

  lemma CongMulLeft(q: int, c: int, a: int, a': int)
    requires q > 0 && Cong(q, a, a')
    ensures Cong(q, c * a, c * a')
  {
    CongMul(q, c, c, a, a');
  }

  /** Reducing the operands first does not change a reduced sum or product. */
  lemma ModAdd(q: int, a: int, b: int)
    requires q > 0
    ensures (a % q + b) % q == (a + b) % q
    ensures (a + b % q) % q == (a + b) % q
  {
    ModCong(q, a);
    ModCong(q, b);
    CongAdd(q, a % q, a, b, b);
    CongAdd(q, a, a, b % q, b);
  }

  lemma ModMul(q: int, a: int, b: int)
    requires q > 0
    ensures (a % q * b) % q == (a * b) % q
    ensures (a * (b % q)) % q == (a * b) % q
  {
    ModCong(q, a);
    ModCong(q, b);
    CongMul(q, a % q, a, b, b);
    CongMul(q, a, a, b % q, b);
  }

  lemma CongZero(q: int, a: int, b: int)
    requires q > 0
    ensures Cong(q, a, b) <==> (a - b) % q == 0
  {
    if Cong(q, a, b) {
      var k := CongElim(q, a, b);
      ModIs(q, a - b, k, 0);
    }
    if (a - b) % q == 0 {
      CongIntro(q, a, b, (a - b) / q);
    }
  }

  // ---------------------------------------------------------------- inverses

  /** Extended Euclid: `(s, t, g)` with `s*a + t*b == g`, and `g` a common divisor. */
  function Bezout(a: nat, b: nat): (r: (int, int, nat))
    ensures r.0 * a + r.1 * b == r.2
    decreases b
  {
    if b == 0 then (1, 0, a)
    else
      var (s, t, g) := Bezout(b, a % b);
      assert t * a + (s - t * (a / b)) * b == g by {
        assert a == (a / b) * b + a % b;
        assert t * (a % b) == t * a - t * ((a / b) * b);
        assert (s - t * (a / b)) * b == s * b - t * (a / b) * b;
        assert t * ((a / b) * b) == t * (a / b) * b;
      }
      (t, s - t * (a / b), g)
  }

  ghost predicate Divides(g: int, a: int) {
    exists m: int :: Multiple(m, g) == a
  }

  function Multiple(m: int, g: int): int { m * g }

  lemma {:induction false} BezoutDivides(a: nat, b: nat)
    ensures Divides(Bezout(a, b).2, a) && Divides(Bezout(a, b).2, b)
    decreases b
  {
    var g := Bezout(a, b).2;
    if b == 0 {
      assert Multiple(1, a) == a && Multiple(0, a) == 0;
    } else {
      BezoutDivides(b, a % b);
      var m :| Multiple(m, g) == b;
      var n :| Multiple(n, g) == a % b;
      Combine(g, a, b, m, n);
    }
  }

  lemma Combine(g: int, a: nat, b: nat, m: int, n: int)
    requires b > 0 && Multiple(m, g) == b && Multiple(n, g) == a % b
    ensures Multiple((a / b) * m + n, g) == a
  {
    var k := a / b;
    assert (k * m + n) * g == k * (m * g) + n * g;
  }

  /** `fr.Inverse`, which maps zero to zero. */
  function Inv(q: int, x: int): (y: int)
    requires q > 1
    ensures 0 <= y < q
  {
    if x % q == 0 then 0 else Bezout(x % q, q).0 % q
  }

  lemma PrimeGcd(q: int, a: int)
    requires Prime(q) && 0 < a < q
    ensures Bezout(a, q).2 == 1
  {
    var g := Bezout(a, q).2;
    BezoutDivides(a, q);
    var m :| Multiple(m, g) == a;
    var n :| Multiple(n, g) == q;
    assert g == 0 ==> m * g == 0;
    assert m <= 0 ==> m * g <= 0;
    assert g <= a by { assert m * g >= 1 * g; }
    assert q == n * g + 0;
    ModIs(g, q, n, 0);
  }

  lemma InvCorrect(q: int, x: int)
    requires Prime(q) && x % q != 0
    ensures (x * Inv(q, x)) % q == 1
  {
    var a := x % q;
    var (s, t, g) := Bezout(a, q);
    PrimeGcd(q, a);
    assert s * a == 1 + (-t) * q;
    CongIntro(q, s * a, 1, -t);
    ModCong(q, x);
    ModCong(q, s);
    CongMul(q, s % q, s, a, x);
    CongMul(q, s, s, a, x);
    ModSmall(q, 1);
    assert x * Inv(q, x) == Inv(q, x) * x;
    CongMul(q, s % q, s, x, x);
  }

  /** A factor that is congruent to one disappears. */
  lemma UnitFactor(q: int, t: int, z: int)
    requires q > 1 && t % q == 1
    ensures Cong(q, t * z, z)
  {
    ModSmall(q, 1);
    CongMul(q, t, 1, z, z);
  }

  lemma Cancel(q: int, c: int, a: int, b: int)
    requires Prime(q) && c % q != 0 && Cong(q, c * a, c * b)
    ensures Cong(q, a, b)
  {
    var i := Inv(q, c);
    InvCorrect(q, c);
    CongMul(q, i, i, c * a, c * b);
    assert i * (c * a) == (c * i) * a && i * (c * b) == (c * i) * b;
    UnitFactor(q, c * i, a);
    UnitFactor(q, c * i, b);
  }

  lemma NoZeroDivisors(q: int, a: int, b: int)
    requires Prime(q) && (a * b) % q == 0
    ensures a % q == 0 || b % q == 0
  {
    if a % q != 0 {
      ModSmall(q, 0);
      Cancel(q, a, b, 0);
    }
  }
}
