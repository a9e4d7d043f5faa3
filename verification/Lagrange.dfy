/** Lagrange interpolation at zero over the scalar field, with the coefficients the signer computes. */
module Lagrange {
  import opened Modular
  import opened Vectors
  import opened Polynomials

  /** The factor of node `p` in the coefficient of node `x`; a node skips itself. */
  function Factor(q: int, p: int, x: int): int
    requires q > 1
  {
    if p == x then 1 else p * Inv(q, p - x)
  }

  /** The Lagrange coefficient of node `x` at zero, unreduced. */
  function Coefficient(q: int, nodes: seq<int>, x: int): int
    requires q > 1
  {
    if |nodes| == 0 then 1
    else Coefficient(q, nodes[..|nodes| - 1], x) * Factor(q, nodes[|nodes| - 1], x)
  }

  /** `p` evaluated at the nodes `at`, weighted by their coefficients with respect to `nodes`. */
  function Interpolate(q: int, nodes: seq<int>, at: seq<int>, p: seq<int>): int
    requires q > 1
  {
    if |at| == 0 then 0
    else
      var x := at[|at| - 1];
      Interpolate(q, nodes, at[..|at| - 1], p) + Coefficient(q, nodes, x) * Eval(p, x)
  }

  lemma {:induction false} CoefficientConcat(q: int, a: seq<int>, b: seq<int>, x: int)
    requires q > 1
    ensures Coefficient(q, a + b, x) == Coefficient(q, a, x) * Coefficient(q, b, x)
    decreases |b|
  {
    if |b| == 0 {
      assert a + b == a;
    } else {
      var c := b[..|b| - 1];
      assert (a + b)[..|a + b| - 1] == a + c;
      CoefficientConcat(q, a, c, x);
      Associate(Coefficient(q, a, x), Coefficient(q, c, x), Factor(q, b[|b| - 1], x));
    }
  }

  lemma Associate(a: int, b: int, c: int)
    ensures (a * b) * c == a * (b * c)
  {}

  /** Removing a node divides its factor out of every coefficient. */
  lemma CoefficientRemove(q: int, a: seq<int>, p: int, b: seq<int>, x: int)
    requires q > 1
    ensures Coefficient(q, a + [p] + b, x) == Coefficient(q, a + b, x) * Factor(q, p, x)
  {
    hide Factor;
    CoefficientConcat(q, a + [p], b, x);
    CoefficientConcat(q, a, [p], x);
    CoefficientConcat(q, a, b, x);
    assert [p][..0] == [] && Coefficient(q, [p], x) == Coefficient(q, [], x) * Factor(q, p, x);
    SwapLast(Coefficient(q, a, x), Factor(q, p, x), Coefficient(q, b, x));
  }

  lemma SwapLast(a: int, f: int, b: int)
    ensures (a * f) * b == (a * b) * f
  {}

  lemma {:induction false} InterpolateConcat(q: int, nodes: seq<int>, a: seq<int>, b: seq<int>, p: seq<int>)
    requires q > 1
    ensures Interpolate(q, nodes, a + b, p) == Interpolate(q, nodes, a, p) + Interpolate(q, nodes, b, p)
    decreases |b|
  {
    if |b| == 0 {
      assert a + b == a;
    } else {
      assert (a + b)[..|a + b| - 1] == a + b[..|b| - 1];
      InterpolateConcat(q, nodes, a, b[..|b| - 1], p);
    }
  }

  /** One node's contribution after its neighbour `p` is removed. */
  lemma RemoveTerm(q: int, a: seq<int>, p: int, b: seq<int>, x: int, v: int)
    requires Prime(q) && !Cong(q, p, x)
    ensures Cong(q, Coefficient(q, a + [p] + b, x) * ((x - p) * v), -p * (Coefficient(q, a + b, x) * v))
  {
    var c := Coefficient(q, a + b, x);
    CoefficientRemove(q, a, p, b, x);
    CongZero(q, p, x);
    InvCorrect(q, p - x);
    UnitFactor(q, (p - x) * Inv(q, p - x), -p * (c * v));
    RemoveAlgebra(c, p, Inv(q, p - x), x, v);
  }

  lemma RemoveAlgebra(c: int, p: int, i: int, x: int, v: int)
    ensures (c * (p * i)) * ((x - p) * v) == ((p - x) * i) * (-p * (c * v))
  {
    var d := p - x;
    calc {
      (c * (p * i)) * ((x - p) * v);
      (c * (p * i)) * (-d * v);
      -((c * p) * (i * (d * v)));
      { assert i * (d * v) == (d * i) * v; }
      -((c * p) * ((d * i) * v));
      { assert (c * p) * ((d * i) * v) == (d * i) * (p * (c * v)); }
      -((d * i) * (p * (c * v)));
      (d * i) * (-p * (c * v));
    }
  }

  /** Dividing the polynomial by `x - p` and dropping node `p` go together. */
  lemma {:induction false} InterpolateRemove(q: int, a: seq<int>, p: int, b: seq<int>, at: seq<int>, poly: seq<int>)
    requires Prime(q) && forall i :: 0 <= i < |at| ==> !Cong(q, p, at[i])
    ensures Cong(q, Interpolate(q, a + [p] + b, at, poly),
                 Eval(poly, p) * Interpolate(q, a + [p] + b, at, [1])
                 - p * Interpolate(q, a + b, at, Quotient(poly, p)))
  {
    if |at| > 0 {
      var front, x := at[..|at| - 1], at[|at| - 1];
      InterpolateRemove(q, a, p, b, front, poly);
      var c, c', v := Coefficient(q, a + [p] + b, x), Coefficient(q, a + b, x), Eval(Quotient(poly, p), x);
      QuotientCorrect(poly, p, x);
      RemoveTerm(q, a, p, b, x, v);
      assert Eval([1], x) == 1 by { assert Eval([1][1..], x) == 0; }
      var i0, i1, i2 := Interpolate(q, a + [p] + b, front, poly), Interpolate(q, a + [p] + b, front, [1]),
        Interpolate(q, a + b, front, Quotient(poly, p));
      RemoveStep(q, Eval(poly, p), Eval(poly, x), p, (x - p) * v, c, c' * v, i0, i1, i2);
    }
  }

  lemma RemoveStep(q: int, ep: int, ex: int, p: int, t: int, c: int, w: int, i0: int, i1: int, i2: int)
    requires q > 0 && ex == ep + t && Cong(q, i0, ep * i1 - p * i2) && Cong(q, c * t, -p * w)
    ensures Cong(q, i0 + c * ex, ep * (i1 + c * 1) - p * (i2 + w))
  {
    CongAdd(q, i0, ep * i1 - p * i2, c * t, -p * w);
    CongAdd(q, i0 + c * t, ep * i1 - p * i2 + -p * w, c * ep, c * ep);
    StepIdentity(ep, t, p, c, w, i1, i2);
  }

  lemma StepIdentity(ep: int, t: int, p: int, c: int, w: int, i1: int, i2: int)
    ensures c * (ep + t) == c * t + c * ep
    ensures ep * i1 - p * i2 + -p * w + c * ep == ep * (i1 + c * 1) - p * (i2 + w)
  {}

  /** The same over all nodes: node `p` itself contributes its value times its own coefficient. */
  lemma Reduce(q: int, a: seq<int>, p: int, b: seq<int>, poly: seq<int>)
    requires Prime(q) && DistinctMod(q, a + [p] + b)
    ensures var nodes := a + [p] + b;
            Cong(q, Interpolate(q, nodes, nodes, poly),
                 Eval(poly, p) * Interpolate(q, nodes, nodes, [1]) - p * Interpolate(q, a + b, a + b, Quotient(poly, p)))
  {
    hide Coefficient, Eval, Quotient, Interpolate, DistinctMod;
    var nodes := a + [p] + b;
    var t := Quotient(poly, p);
    Others(q, a, p, b);
    InterpolateRemove(q, a, p, b, a + b, poly);
    SplitAt(q, nodes, a, p, b, poly);
    SplitAt(q, nodes, a, p, b, [1]);
    EvalOne(p);
    var rest, ones := Interpolate(q, nodes, a + b, poly), Interpolate(q, nodes, a + b, [1]);
    var c, e := Coefficient(q, nodes, p), Eval(poly, p);
    AddOwnTerm(q, rest, e, ones, p * Interpolate(q, a + b, a + b, t), c);
  }

  lemma AddOwnTerm(q: int, rest: int, e: int, ones: int, tail: int, c: int)
    requires q > 0 && Cong(q, rest, e * ones - tail)
    ensures Cong(q, rest + c * e, e * (ones + c * 1) - tail)
  {
    CongAdd(q, rest, e * ones - tail, c * e, c * e);
    assert e * (ones + c * 1) == e * ones + c * e;
  }

  lemma EvalOne(x: int)
    ensures Eval([1], x) == 1
  {
    assert Eval([1][1..], x) == 0;
  }

  lemma Others(q: int, a: seq<int>, p: int, b: seq<int>)
    requires q > 0 && DistinctMod(q, a + [p] + b)
    ensures DistinctMod(q, a + b) && forall i :: 0 <= i < |a + b| ==> !Cong(q, p, (a + b)[i])
  {
    var nodes := a + [p] + b;
    assert nodes[|a|] == p;
    forall i | 0 <= i < |a + b| ensures !Cong(q, p, (a + b)[i]) {
      var k := if i < |a| then i else i + 1;
      assert nodes[k] == (a + b)[i];
    }
    forall i, j | 0 <= i < j < |a + b| ensures !Cong(q, (a + b)[i], (a + b)[j]) {
      var k, l := if i < |a| then i else i + 1, if j < |a| then j else j + 1;
      assert nodes[k] == (a + b)[i] && nodes[l] == (a + b)[j];
    }
  }

  lemma SplitAt(q: int, nodes: seq<int>, a: seq<int>, p: int, b: seq<int>, poly: seq<int>)
    requires q > 1
    ensures Interpolate(q, nodes, a + [p] + b, poly)
            == Interpolate(q, nodes, a + b, poly) + Coefficient(q, nodes, p) * Eval(poly, p)
  {
    InterpolateConcat(q, nodes, a + [p], b, poly);
    InterpolateConcat(q, nodes, a, [p], poly);
    InterpolateConcat(q, nodes, a, b, poly);
    assert [p][..0] == [];
    assert Interpolate(q, nodes, [p], poly) == Interpolate(q, nodes, [], poly) + Coefficient(q, nodes, p) * Eval(poly, p);
  }

  /** The coefficients add up to one. */
  lemma {:induction false} UnitSum(q: int, nodes: seq<int>)
    requires Prime(q) && DistinctMod(q, nodes) && |nodes| > 0
    ensures Cong(q, Interpolate(q, nodes, nodes, [1]), 1)
    decreases |nodes|
  {
    if |nodes| == 1 {
      SingleNode(q, nodes[0]);
      assert nodes == [nodes[0]];
    } else {
      var p, r, rest := nodes[0], nodes[1], nodes[2..];
      assert nodes == [] + [p] + ([r] + rest) && nodes == [p] + [r] + rest;
      LinearSum(q, [], p, [r] + rest);
      LinearSum(q, [p], r, rest);
      Difference(q, nodes, nodes, p, r);
      var one, lp, lr := Interpolate(q, nodes, nodes, [1]), Interpolate(q, nodes, nodes, [-p, 1]),
        Interpolate(q, nodes, nodes, [-r, 1]);
      CongSub(q, lr, -r, lp, -p);
      CongZero(q, p, r);
      Cancel(q, p - r, one, 1);
    }
  }

  lemma SingleNode(q: int, x: int)
    requires q > 1
    ensures Interpolate(q, [x], [x], [1]) == 1
  {
    EvalOne(x);
    assert [x][..0] == [];
    assert Coefficient(q, [x], x) == Coefficient(q, [], x) * Factor(q, x, x);
    assert Interpolate(q, [x], [x], [1]) == Interpolate(q, [x], [], [1]) + Coefficient(q, [x], x) * Eval([1], x);
  }

  /** Interpolating `x - p` gives `-p`, from the shorter node list. */
  lemma LinearSum(q: int, a: seq<int>, p: int, b: seq<int>)
    requires Prime(q) && DistinctMod(q, a + [p] + b) && |a + b| > 0
    ensures Cong(q, Interpolate(q, a + [p] + b, a + [p] + b, [-p, 1]), -p)
    decreases |a + [p] + b|, 0
  {
    hide Interpolate, Eval, Quotient, DistinctMod;
    var nodes := a + [p] + b;
    Others(q, a, p, b);
    Reduce(q, a, p, b, [-p, 1]);
    UnitSum(q, a + b);
    LinearAt(p, p);
    LinearQuotient(p);
    LinearStep(q, Interpolate(q, nodes, nodes, [-p, 1]), Interpolate(q, nodes, nodes, [1]), p,
               Interpolate(q, a + b, a + b, [1]));
  }

  lemma LinearStep(q: int, i: int, ones: int, p: int, u: int)
    requires q > 0 && Cong(q, i, 0 * ones - p * u) && Cong(q, u, 1)
    ensures Cong(q, i, -p)
  {
    NoOnes(ones, p, u);
    CongMul(q, p, p, u, 1);
    CongNeg(q, p * u, p * 1);
  }

  lemma NoOnes(ones: int, p: int, u: int)
    ensures 0 * ones - p * u == -(p * u) && p * 1 == p
  {}

  lemma LinearQuotient(p: int)
    ensures Quotient([-p, 1], p) == [1]
  {
    assert [-p, 1][1..] == [1];
    EvalOne(p);
  }

  lemma LinearAt(p: int, x: int)
    ensures Eval([-p, 1], x) == x - p
  {
    assert [-p, 1][1..] == [1];
    EvalOne(x);
  }

  lemma {:induction false} Difference(q: int, nodes: seq<int>, at: seq<int>, p: int, r: int)
    requires q > 1
    ensures Interpolate(q, nodes, at, [-r, 1]) - Interpolate(q, nodes, at, [-p, 1]) == (p - r) * Interpolate(q, nodes, at, [1])
  {
    if |at| > 0 {
      var x := at[|at| - 1];
      Difference(q, nodes, at[..|at| - 1], p, r);
      LinearAt(p, x);
      LinearAt(r, x);
      EvalOne(x);
      var c := Coefficient(q, nodes, x);
      assert c * (x - r) - c * (x - p) == (p - r) * (c * 1);
      Distribute(p - r, Interpolate(q, nodes, at[..|at| - 1], [1]), c * 1);
    }
  }

  lemma Distribute(a: int, b: int, c: int)
    ensures a * (b + c) == a * b + a * c
  {}

  /** Any distinct nodes, at least as many as coefficients, recover the constant term. */
  lemma {:induction false} InterpolationAtZero(q: int, nodes: seq<int>, p: seq<int>)
    requires Prime(q) && DistinctMod(q, nodes) && |p| <= |nodes|
    ensures Cong(q, Interpolate(q, nodes, nodes, p), Eval(p, 0))
    decreases |nodes|
  {
    if |nodes| > 0 {
      hide Interpolate, Eval, Quotient;
      var a, x := nodes[..|nodes| - 1], nodes[|nodes| - 1];
      assert nodes == a + [x] + [] && a + [] == a;
      Reduce(q, a, x, [], p);
      Others(q, a, x, []);
      UnitSum(q, nodes);
      InterpolationAtZero(q, a, Quotient(p, x));
      QuotientCorrect(p, x, 0);
      var e, t := Eval(p, x), Eval(Quotient(p, x), 0);
      CongMulLeft(q, e, Interpolate(q, nodes, nodes, [1]), 1);
      CongMulLeft(q, x, Interpolate(q, a, a, Quotient(p, x)), t);
      CongSub(q, e * Interpolate(q, nodes, nodes, [1]), e * 1, x * Interpolate(q, a, a, Quotient(p, x)), x * t);
    }
  }
}
