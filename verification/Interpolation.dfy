/**
  Interpolation over the scalar field: the coefficients of the polynomial through given points, as a
  function of scalars alone.  What holds between points of the group at enough challenges then holds
  between the coefficients, which is how openings are extracted from several answers.
 */
module Interpolation {
  import opened Modular
  import opened Vectors
  import opened Polynomials

  /** `v0 + (x - x0) * p(x)` */
  function Raised(x0: int, v0: int, p: Vec): (r: Vec)
    ensures |r| == |p| + 1
  {
    seq(|p| + 1, j requires 0 <= j <= |p| => (if j == 0 then v0 else p[j - 1]) - (if j < |p| then x0 * p[j] else 0))
  }

  /** The differences to the first value, divided by the differences to the first node. */
  function Slopes(q: int, nodes: seq<int>, values: Vec): (r: Vec)
    requires q > 1 && |nodes| == |values| > 0
    ensures |r| == |nodes| - 1
  {
    seq(|nodes| - 1, i requires 0 <= i < |nodes| - 1 => (values[i + 1] - values[0]) * Inv(q, nodes[i + 1] - nodes[0]))
  }

  /** The coefficients of the polynomial that has the given values at the nodes. */
  function Interpolated(q: int, nodes: seq<int>, values: Vec): (r: Vec)
    requires q > 1 && |nodes| == |values|
    ensures |r| == |nodes|
    decreases |nodes|
  {
    if |nodes| == 0 then []
    else Raised(nodes[0], values[0], Interpolated(q, nodes[1..], Slopes(q, nodes, values)))
  }

  lemma {:induction false} RaisedEval(x0: int, v0: int, p: Vec, x: int)
    ensures Eval(Raised(x0, v0, p), x) == v0 + (x - x0) * Eval(p, x)
    decreases |p|
  {
    if |p| == 0 {
      assert Raised(x0, v0, p) == [v0];
      assert Eval([v0], x) == v0 + x * Eval([], x);
    } else {
      RaisedEval(x0, p[0], p[1..], x);
      assert Raised(x0, v0, p)[1..] == Raised(x0, p[0], p[1..]);
      RaisedStep(x, x0, v0, p[0], Eval(p[1..], x));
    }
  }

  lemma RaisedStep(x: int, x0: int, v0: int, p0: int, e: int)
    ensures v0 - x0 * p0 + x * (p0 + (x - x0) * e) == v0 + (x - x0) * (p0 + x * e)
  {
    assert x * ((x - x0) * e) == (x - x0) * (x * e);
  }

  lemma Later(q: int, nodes: seq<int>)
    requires q > 0 && |nodes| > 0 && DistinctMod(q, nodes)
    ensures DistinctMod(q, nodes[1..]) && forall i :: 1 <= i < |nodes| ==> !Cong(q, nodes[i], nodes[0])
  {
    forall i | 1 <= i < |nodes| ensures !Cong(q, nodes[i], nodes[0]) {
      assert !Cong(q, nodes[0], nodes[i]);
    }
  }

  /** The interpolated polynomial has the given values. */
  lemma {:induction false} InterpolatedEval(q: int, nodes: seq<int>, values: Vec, i: nat)
    requires Prime(q) && DistinctMod(q, nodes) && |nodes| == |values| && i < |nodes|
    ensures Cong(q, Eval(Interpolated(q, nodes, values), nodes[i]), values[i])
    decreases |nodes|
  {
    hide Raised, Eval, Slopes, Inv, DistinctMod;
    var slopes := Slopes(q, nodes, values);
    var rest := Interpolated(q, nodes[1..], slopes);
    var e := Eval(rest, nodes[i]);
    RaisedEval(nodes[0], values[0], rest, nodes[i]);
    Later(q, nodes);
    if i > 0 {
      InterpolatedEval(q, nodes[1..], slopes, i - 1);
      SlopeAt(q, nodes, values, i);
      SlopeTimes(q, nodes[i], nodes[0], values[i], values[0], e);
    } else {
      assert 0 * e == 0;
    }
  }

  lemma SlopeAt(q: int, nodes: seq<int>, values: Vec, i: nat)
    requires q > 1 && |nodes| == |values| && 0 < i < |nodes|
    ensures Slopes(q, nodes, values)[i - 1] == (values[i] - values[0]) * Inv(q, nodes[i] - nodes[0])
  {}

  lemma SlopeTimes(q: int, x: int, x0: int, v: int, v0: int, e: int)
    requires Prime(q) && !Cong(q, x, x0) && Cong(q, e, (v - v0) * Inv(q, x - x0))
    ensures Cong(q, v0 + (x - x0) * e, v)
  {
    var d, i := x - x0, Inv(q, x - x0);
    CongZero(q, x, x0);
    InvCorrect(q, d);
    CongMulLeft(q, d, e, (v - v0) * i);
    assert d * ((v - v0) * i) == (d * i) * (v - v0);
    UnitFactor(q, d * i, v - v0);
    CongAdd(q, v0, v0, d * e, v - v0);
  }

  /** A polynomial is the raised form of its quotient. */
  lemma QuotientRaised(p: Vec, a: int)
    requires |p| > 0
    ensures p == Raised(a, Eval(p, a), Quotient(p, a))
  {
    var t := Quotient(p, a);
    forall j | 0 <= j < |p| ensures p[j] == Raised(a, Eval(p, a), t)[j] {
      assert p[j..][1..] == p[j + 1..];
      if j > 0 {
        QuotientEntry(p, a, j - 1);
      } else {
        assert p[0..] == p;
      }
      if j < |p| - 1 {
        QuotientEntry(p, a, j);
      }
    }
  }

  lemma RaisedCong(q: int, x0: int, v0: int, v1: int, p: Vec, r: Vec)
    requires q > 0 && Cong(q, v0, v1) && CongV(q, p, r)
    ensures CongV(q, Raised(x0, v0, p), Raised(x0, v1, r))
  {
    forall j | 0 <= j <= |p| ensures Cong(q, Raised(x0, v0, p)[j], Raised(x0, v1, r)[j]) {
      if j < |p| {
        CongMulLeft(q, x0, p[j], r[j]);
        CongSub(q, if j == 0 then v0 else p[j - 1], if j == 0 then v1 else r[j - 1], x0 * p[j], x0 * r[j]);
      }
    }
  }

  /** It is the only polynomial of that length with these values. */
  lemma {:induction false} InterpolatedUnique(q: int, nodes: seq<int>, values: Vec, p: Vec)
    requires Prime(q) && DistinctMod(q, nodes) && |nodes| == |values| == |p|
    requires forall i :: 0 <= i < |nodes| ==> Cong(q, Eval(p, nodes[i]), values[i])
    ensures CongV(q, p, Interpolated(q, nodes, values))
    decreases |nodes|
  {
    if |nodes| > 0 {
      var a, t := nodes[0], Quotient(p, nodes[0]);
      Later(q, nodes);
      forall i | 0 <= i < |nodes| - 1 ensures Cong(q, Eval(t, nodes[1..][i]), Slopes(q, nodes, values)[i]) {
        QuotientCorrect(p, a, nodes[i + 1]);
        SlopeIs(q, nodes[i + 1], a, Eval(p, nodes[i + 1]), Eval(p, a), values[i + 1], values[0], Eval(t, nodes[i + 1]));
      }
      InterpolatedUnique(q, nodes[1..], Slopes(q, nodes, values), t);
      QuotientRaised(p, a);
      RaisedCong(q, a, Eval(p, a), values[0], t, Interpolated(q, nodes[1..], Slopes(q, nodes, values)));
    }
  }

  lemma SlopeIs(q: int, x: int, x0: int, e: int, e0: int, v: int, v0: int, t: int)
    requires Prime(q) && !Cong(q, x, x0) && e == e0 + (x - x0) * t && Cong(q, e, v) && Cong(q, e0, v0)
    ensures Cong(q, t, (v - v0) * Inv(q, x - x0))
  {
    var d, i := x - x0, Inv(q, x - x0);
    CongZero(q, x, x0);
    InvCorrect(q, d);
    CongSub(q, e, v, e0, v0);
    Divided(q, d, t, i, v - v0);
  }

  lemma Divided(q: int, d: int, t: int, i: int, w: int)
    requires q > 1 && (d * i) % q == 1 && Cong(q, d * t, w)
    ensures Cong(q, t, w * i)
  {
    CongMul(q, d * t, w, i, i);
    SwapLast(d, t, i);
    UnitFactor(q, d * i, t);
  }

  lemma SwapLast(a: int, b: int, c: int)
    ensures (a * b) * c == (a * c) * b
  {}

  // ---------------------------------------------------------------- linearity

  lemma RaisedLinear(x0: int, v: int, w: int, p: Vec, r: Vec, c: int)
    requires |p| == |r|
    ensures Raised(x0, v + c * w, Plus(p, Scale(c, r))) == Plus(Raised(x0, v, p), Scale(c, Raised(x0, w, r)))
  {
    var left, right := Raised(x0, v + c * w, Plus(p, Scale(c, r))), Plus(Raised(x0, v, p), Scale(c, Raised(x0, w, r)));
    forall j | 0 <= j <= |p| ensures left[j] == right[j] {
      var b := if j == 0 then w else r[j - 1];
      if j < |p| {
        RaisedEntry(x0, c, if j == 0 then v else p[j - 1], b, p[j], r[j]);
      } else {
        assert c * (b - 0) == c * b;
      }
    }
  }

  lemma RaisedEntry(x0: int, c: int, a: int, b: int, p: int, r: int)
    ensures (a + c * b) - x0 * (p + c * r) == (a - x0 * p) + c * (b - x0 * r)
  {
    assert x0 * (c * r) == c * (x0 * r);
  }

  lemma SlopesLinear(q: int, nodes: seq<int>, a: Vec, b: Vec, c: int)
    requires q > 1 && |nodes| == |a| == |b| > 0
    ensures Slopes(q, nodes, Plus(a, Scale(c, b))) == Plus(Slopes(q, nodes, a), Scale(c, Slopes(q, nodes, b)))
  {
    forall i | 0 <= i < |nodes| - 1
      ensures Slopes(q, nodes, Plus(a, Scale(c, b)))[i] == Plus(Slopes(q, nodes, a), Scale(c, Slopes(q, nodes, b)))[i]
    {
      SlopeEntry(a[i + 1], a[0], b[i + 1], b[0], c, Inv(q, nodes[i + 1] - nodes[0]));
    }
  }

  lemma SlopeEntry(a: int, a0: int, b: int, b0: int, c: int, i: int)
    ensures ((a + c * b) - (a0 + c * b0)) * i == (a - a0) * i + c * ((b - b0) * i)
  {
    assert c * ((b - b0) * i) == (c * b - c * b0) * i;
  }

  /** Interpolation is linear in the values. */
  lemma {:induction false} InterpolatedLinear(q: int, nodes: seq<int>, a: Vec, b: Vec, c: int)
    requires q > 1 && |nodes| == |a| == |b|
    ensures Interpolated(q, nodes, Plus(a, Scale(c, b))) == Plus(Interpolated(q, nodes, a), Scale(c, Interpolated(q, nodes, b)))
    decreases |nodes|
  {
    if |nodes| > 0 {
      hide Slopes, Raised;
      SlopesLinear(q, nodes, a, b, c);
      var sa, sb := Slopes(q, nodes, a), Slopes(q, nodes, b);
      InterpolatedLinear(q, nodes[1..], sa, sb, c);
      RaisedLinear(nodes[0], a[0], b[0], Interpolated(q, nodes[1..], sa), Interpolated(q, nodes[1..], sb), c);
    }
  }

  lemma {:induction false} InterpolatedZero(q: int, nodes: seq<int>, values: Vec)
    requires q > 1 && |nodes| == |values| && forall i :: 0 <= i < |values| ==> values[i] == 0
    ensures forall k :: 0 <= k < |nodes| ==> Interpolated(q, nodes, values)[k] == 0
    decreases |nodes|
  {
    if |nodes| > 0 {
      InterpolatedZero(q, nodes[1..], Slopes(q, nodes, values));
    }
  }

  // ---------------------------------------------------------------- representations

  /** Entry `c` of every representation. */
  function Entries(reps: seq<Vec>, width: nat, c: nat): (r: Vec)
    requires c < width && forall i :: 0 <= i < |reps| ==> |reps[i]| == width
    ensures |r| == |reps|
  {
    seq(|reps|, i requires 0 <= i < |reps| => reps[i][c])
  }

  /** Coefficient `k` of the polynomial whose values are the representations, entry by entry. */
  function Coefficient(q: int, nodes: seq<int>, reps: seq<Vec>, width: nat, k: nat): (r: Vec)
    requires q > 1 && |nodes| == |reps| && k < |nodes| && forall i :: 0 <= i < |reps| ==> |reps[i]| == width
    ensures |r| == width
  {
    seq(width, c requires 0 <= c < width => Interpolated(q, nodes, Entries(reps, width, c))[k])
  }

  /** The first `n` entries of every representation, weighted by the bases. */
  function Partial(bases: Vec, reps: seq<Vec>, n: nat): (r: Vec)
    requires n <= |bases| && forall i :: 0 <= i < |reps| ==> |reps[i]| == |bases|
    ensures |r| == |reps|
  {
    seq(|reps|, i requires 0 <= i < |reps| => Sum(bases, reps[i], n))
  }

  lemma {:induction false} PartialCoefficient(q: int, nodes: seq<int>, bases: Vec, reps: seq<Vec>, k: nat, n: nat)
    requires q > 1 && |nodes| == |reps| && k < |nodes| && n <= |bases|
    requires forall i :: 0 <= i < |reps| ==> |reps[i]| == |bases|
    ensures Interpolated(q, nodes, Partial(bases, reps, n))[k] == Sum(bases, Coefficient(q, nodes, reps, |bases|, k), n)
  {
    hide Interpolated;
    if n == 0 {
      InterpolatedZero(q, nodes, Partial(bases, reps, 0));
    } else {
      PartialCoefficient(q, nodes, bases, reps, k, n - 1);
      var column := Entries(reps, |bases|, n - 1);
      InterpolatedLinear(q, nodes, Partial(bases, reps, n - 1), column, bases[n - 1]);
      assert Partial(bases, reps, n) == Plus(Partial(bases, reps, n - 1), Scale(bases[n - 1], column));
    }
  }

  /**
    A polynomial of points whose values at the nodes are represented by `reps` has its coefficients
    represented by the interpolated entries.
   */
  lemma CoefficientRepresents(q: int, nodes: seq<int>, bases: Vec, reps: seq<Vec>, p: Vec, k: nat)
    requires Prime(q) && DistinctMod(q, nodes) && |nodes| == |reps| == |p| && k < |p|
    requires forall i :: 0 <= i < |reps| ==> |reps[i]| == |bases|
    requires forall i :: 0 <= i < |reps| ==> Cong(q, Eval(p, nodes[i]), Inner(bases, reps[i]))
    ensures Cong(q, p[k], Inner(bases, Coefficient(q, nodes, reps, |bases|, k)))
  {
    hide Interpolated;
    var values := Partial(bases, reps, |bases|);
    InterpolatedUnique(q, nodes, values, p);
    PartialCoefficient(q, nodes, bases, reps, k, |bases|);
  }

  // ---------------------------------------------------------------- relations

  /** Coefficients, not all zero, under which the bases cancel. */
  ghost predicate IsRelation(q: int, bases: Vec, r: Vec)
    requires q > 0
  {
    |r| == |bases| && !ZeroMod(q, r) && Cong(q, Inner(bases, r), 0)
  }

  ghost predicate ZeroMod(q: int, r: Vec)
    requires q > 0
  {
    forall i :: 0 <= i < |r| ==> r[i] % q == 0
  }

  function Minus(a: Vec, b: Vec): (r: Vec)
    requires |a| == |b|
    ensures |r| == |a|
  {
    seq(|a|, i requires 0 <= i < |a| => a[i] - b[i])
  }

  /** Two representations of one point agree, or their difference is a relation. */
  lemma TwoRepresentations(q: int, bases: Vec, point: int, a: Vec, b: Vec)
    requires q > 0 && |a| == |b| == |bases| && Cong(q, point, Inner(bases, a)) && Cong(q, point, Inner(bases, b))
    ensures IsRelation(q, bases, Minus(a, b)) || CongV(q, a, b)
  {
    hide Inner;
    assert Minus(a, b) == Plus(a, Scale(-1, b));
    InnerComm(bases, Minus(a, b));
    InnerPlus(a, Scale(-1, b), bases);
    InnerScale(-1, b, bases);
    InnerComm(bases, a);
    InnerComm(bases, b);
    CongSub(q, Inner(bases, a), point, Inner(bases, b), point);
    if ZeroMod(q, Minus(a, b)) {
      forall i | 0 <= i < |a| ensures Cong(q, a[i], b[i]) {
        assert Minus(a, b)[i] % q == 0;
        CongZero(q, a[i], b[i]);
      }
    }
  }
}
