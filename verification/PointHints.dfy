/**
  Decoding curve points with and without hints.  A compressed point costs a square root; a hint carries
  the uncompressed point and is used only when it recompresses to the bytes on the wire.  Hints can
  therefore never change what is decoded.

  An encoding is its three mask bits and the number in the remaining bits; the curve is
  `y^2 = x^3 + 4` over a prime field of odd characteristic.
 */
module PointHints {
  import opened Common
  import opened Modular

  datatype Affine = Infinity | Affine(x: nat, y: nat)

  /** 48 bytes: mask bits and the number in the other 381. */
  datatype Wire = Wire(mask: nat, value: nat)

  /** 96 bytes: mask bits, the rest of the first half, and the second half. */
  datatype Hint = Hint(mask: nat, x: nat, y: nat)

  /** The field, and its square root as the library provides it. */
  datatype Field = Field(p: int, sqrt: nat -> Option<nat>)

  const UNCOMPRESSED: nat := 0
  const UNCOMPRESSED_INFINITY: nat := 2
  const COMPRESSED_SMALLEST: nat := 4
  const COMPRESSED_LARGEST: nat := 5
  const COMPRESSED_INFINITY: nat := 6

  predicate MaskInvalid(mask: nat) {
    mask == 7 || mask == 3 || mask == 1
  }

  ghost predicate Lawful(f: Field) {
    && Prime(f.p) && f.p > 4
    && (forall a: nat :: f.sqrt(a).Some? ==> f.sqrt(a).value < f.p && IsRoot(f.p, f.sqrt(a).value, a))
    && (forall a: nat, r: nat :: r < f.p && IsRoot(f.p, r, a) ==> f.sqrt(a).Some?)
  }

  /**
    The curve has no point with `y = 0`, that is, no point of order two: the order of the BLS12-381 curve
    group is odd.
   */
  ghost predicate NoOrderTwo(f: Field)
    requires f.p > 0
  {
    forall x: nat :: x < f.p ==> Cubic(f.p, x) != 0
  }

  /** The field and curve of the program. */
  ghost predicate CurveOk(f: Field) {
    Lawful(f) && NoOrderTwo(f)
  }

  predicate IsRoot(p: int, r: nat, a: nat)
    requires p > 0
  {
    Cong(p, r * r, a)
  }

  /** The right-hand side of the curve equation. */
  function Cubic(p: int, x: nat): (r: nat)
    requires p > 0
  {
    (x * x * x + 4) % p
  }

  predicate OnCurve(p: int, x: nat, y: nat)
    requires p > 0
  {
    IsRoot(p, y, Cubic(p, x))
  }

  /** The larger of the two roots `y` and `p - y`. */
  predicate Largest(p: int, y: nat) {
    2 * y > p
  }

  function Negate(p: int, y: nat): (r: nat)
    requires 0 <= y < p
  {
    if y == 0 then 0 else p - y
  }

  // ---------------------------------------------------------------- decoding

  /** The compressed decoder, with a square root. */
  function Decode(f: Field, e: Wire): (r: Option<Affine>)
    requires Lawful(f)
  {
    if MaskInvalid(e.mask) then None
    else if e.mask == COMPRESSED_INFINITY then if e.value == 0 then Some(Infinity) else None
    else if e.mask != COMPRESSED_SMALLEST && e.mask != COMPRESSED_LARGEST then None
    else if e.value >= f.p then None
    else
      var root := f.sqrt(Cubic(f.p, e.value));
      if root.None? then None
      else
        var y := root.value;
        var flip := if Largest(f.p, y) then e.mask == COMPRESSED_SMALLEST else e.mask == COMPRESSED_LARGEST;
        Some(Affine(e.value, if flip then Negate(f.p, y) else y))
  }

  function HintOf(point: Affine): Hint {
    match point
    case Infinity => Hint(UNCOMPRESSED_INFINITY, 0, 0)
    case Affine(x, y) => Hint(UNCOMPRESSED, x, y)
  }

  function DecodeHint(f: Field, h: Hint): Option<Affine>
    requires Lawful(f)
  {
    if MaskInvalid(h.mask) then None
    else if h.mask == UNCOMPRESSED_INFINITY then if h.x == 0 && h.y == 0 then Some(Infinity) else None
    else if h.mask != UNCOMPRESSED then None
    else if h.x >= f.p || h.y >= f.p then None
    else if !OnCurve(f.p, h.x, h.y) then None
    else Some(Affine(h.x, h.y))
  }

  function Recompress(p: int, point: Affine): Wire {
    match point
    case Infinity => Wire(COMPRESSED_INFINITY, 0)
    case Affine(x, y) => Wire(if Largest(p, y) then COMPRESSED_LARGEST else COMPRESSED_SMALLEST, x)
  }

  // ---------------------------------------------------------------- roots

  /** Two square roots of one element are equal or opposite. */
  lemma RootsOpposite(p: int, a: nat, r: nat, s: nat)
    requires Prime(p) && r < p && s < p && IsRoot(p, r, a) && IsRoot(p, s, a)
    ensures r == s || r == Negate(p, s)
  {
    CongZero(p, r * r, s * s);
    assert r * r - s * s == (r - s) * (r + s);
    NoZeroDivisors(p, r - s, r + s);
    if (r - s) % p == 0 {
      CongZero(p, r, s);
      ModSmall(p, r);
      ModSmall(p, s);
    } else {
      SumIsModulus(p, r, s);
    }
  }

  lemma SumIsModulus(p: int, r: nat, s: nat)
    requires p > 0 && r < p && s < p && (r + s) % p == 0
    ensures r == Negate(p, s)
  {
    if r + s < p {
      ModSmall(p, r + s);
    } else {
      ModIs(p, r + s, 1, r + s - p);
    }
  }

  lemma PrimeIsOdd(p: int)
    requires Prime(p) && p > 2
    ensures p % 2 == 1
  {
    assert p % 2 != 0;
  }

  /** The sign bit picks one of the two roots. */
  lemma SignDecides(p: int, y: nat)
    requires Prime(p) && p > 2 && 0 < y < p
    ensures Largest(p, y) <==> !Largest(p, Negate(p, y))
  {
    PrimeIsOdd(p);
  }

  lemma NegateRoot(p: int, y: nat, a: nat)
    requires p > 0 && y < p && IsRoot(p, y, a)
    ensures IsRoot(p, Negate(p, y), a)
  {
    if y > 0 {
      var z: int := y;
      CongIntro(p, p - z, -z, 1);
      CongMul(p, p - z, -z, p - z, -z);
      assert -z * -z == y * y;
    }
  }

  /** Whatever decodes lies on the curve with canonical coordinates. */
  lemma DecodeSound(f: Field, e: Wire)
    requires Lawful(f) && Decode(f, e).Some? && Decode(f, e).value.Affine?
    ensures var q := Decode(f, e).value; q.x == e.value < f.p && q.y < f.p && OnCurve(f.p, q.x, q.y)
  {
    NegateRoot(f.p, f.sqrt(Cubic(f.p, e.value)).value, Cubic(f.p, e.value));
  }

  /** A point on the curve decodes from its compressed form. */
  lemma RecompressDecodes(f: Field, x: nat, y: nat)
    requires Lawful(f) && x < f.p && y < f.p && OnCurve(f.p, x, y)
    ensures Decode(f, Recompress(f.p, Affine(x, y))) == Some(Affine(x, y))
  {
    var a := Cubic(f.p, x);
    assert IsRoot(f.p, y, a);
    var r := f.sqrt(a).value;
    RootsOpposite(f.p, a, r, y);
    if y > 0 {
      SignDecides(f.p, y);
    }
  }

  /** A hint that recompresses to the wire is the point the wire decodes to. */
  lemma HintIsFaithful(f: Field, h: Hint, e: Wire)
    requires Lawful(f) && DecodeHint(f, h).Some? && Recompress(f.p, DecodeHint(f, h).value) == e
    ensures Decode(f, e) == DecodeHint(f, h)
  {
    if DecodeHint(f, h).value.Affine? {
      RecompressDecodes(f, h.x, h.y);
    }
  }

  /** A root of a non-zero element is not zero. */
  lemma NonZeroRoot(p: int, r: nat, a: nat)
    requires p > 0 && 0 < a < p && IsRoot(p, r, a)
    ensures r != 0
  {
    ModSmall(p, a);
    ModSmall(p, 0);
  }

  lemma ZeroRoot(p: int, r: nat)
    requires Prime(p) && r < p && IsRoot(p, r, 0)
    ensures r == 0
  {
    ModSmall(p, 0);
    NoZeroDivisors(p, r, r);
    ModSmall(p, r);
  }

  /**
    Over any field, a decodable wire recompresses to itself except where the larger of two equal roots is
    asked for: at an `x` whose `x^3 + 4` vanishes.
   */
  lemma CanonicalExactly(f: Field, e: Wire)
    requires Lawful(f) && Decode(f, e).Some?
    ensures Recompress(f.p, Decode(f, e).value) == e <==> !(e.mask == COMPRESSED_LARGEST && Cubic(f.p, e.value) == 0)
  {
    if Decode(f, e).value.Affine? {
      var a := Cubic(f.p, e.value);
      var r := f.sqrt(a).value;
      if a == 0 {
        ZeroRoot(f.p, r);
      } else {
        NonZeroRoot(f.p, r, a);
        SignDecides(f.p, r);
      }
    }
  }

  /** On the program's curve every decodable wire is canonical. */
  lemma WireIsCanonical(f: Field, e: Wire)
    requires CurveOk(f) && Decode(f, e).Some?
    ensures Recompress(f.p, Decode(f, e).value) == e
  {
    CanonicalExactly(f, e);
    if Decode(f, e).value.Affine? {
      DecodeSound(f, e);
    }
  }

  // ---------------------------------------------------------------- the decoding reader

  /** The plain decoder run over a whole wire, stopping at the first bad point. */
  /**
    What the decoder accepts, in plain numbers: infinity is the mask 6 with nothing else set, and a point
    of the curve is the mask 5 or 4, as its `y` is the larger or the smaller root, with its `x`.
   */
  lemma DecodeExactly(f: Field, e: Wire, x: nat, y: nat)
    requires CurveOk(f)
    ensures Decode(f, e) == Some(Infinity) <==> e == Wire(6, 0)
    ensures Decode(f, e) == Some(Affine(x, y)) <==>
            x < f.p && y < f.p && (y * y - (x * x * x + 4)) % f.p == 0 && e == Wire(if 2 * y > f.p then 5 else 4, x)
  {
    ModCong(f.p, x * x * x + 4);
    CongZero(f.p, y * y, x * x * x + 4);
    if x < f.p && y < f.p && OnCurve(f.p, x, y) {
      RecompressDecodes(f, x, y);
    }
    if Decode(f, e) == Some(Affine(x, y)) {
      DecodeSound(f, e);
      WireIsCanonical(f, e);
    }
  }

  function DecodeAll(f: Field, wires: seq<Wire>): Option<seq<Affine>>
    requires Lawful(f)
  {
    if |wires| == 0 then Some([])
    else
      var front := DecodeAll(f, wires[..|wires| - 1]);
      var last := Decode(f, wires[|wires| - 1]);
      if front.None? || last.None? then None else Some(front.value + [last.value])
  }

  function HintsOf(points: seq<Affine>): (r: seq<Hint>)
    ensures |r| == |points|
  {
    seq(|points|, i requires 0 <= i < |points| => HintOf(points[i]))
  }

  class Reader {
    const f: Field
    var hints: seq<Hint>
    var usable: bool
    var recording: bool
    var record: seq<Hint>
    var deferred: seq<Affine>

    constructor (f: Field, hints: seq<Hint>, recording: bool)
      requires Lawful(f)
      ensures this.f == f && this.hints == hints && usable == (|hints| > 0) && this.recording == recording
      ensures record == [] && deferred == []
    {
      this.f, this.hints, this.usable := f, hints, |hints| > 0;
      this.recording, this.record, this.deferred := recording, [], [];
    }

    /** The next hint would be used for `e`. */
    predicate Fits(e: Wire)
      requires Lawful(f)
      reads this
    {
      usable && |hints| > 0 && DecodeHint(f, hints[0]).Some? && Recompress(f.p, DecodeHint(f, hints[0]).value) == e
    }

    method ConsumeHint(e: Wire) returns (r: Option<Affine>)
      requires Lawful(f)
      modifies this`hints, this`usable
      ensures r.Some? <==> old(Fits(e))
      ensures r.Some? ==> r == Decode(f, e) && usable && hints == old(hints)[1..]
      ensures r.None? ==> !usable && hints == old(hints)
    {
      if !usable {
        return None;
      }
      if |hints| == 0 {
        usable := false;
        return None;
      }
      var point := DecodeHint(f, hints[0]);
      if point.None? || Recompress(f.p, point.value) != e {
        usable := false;
        return None;
      }
      HintIsFaithful(f, hints[0], e);
      hints := hints[1..];
      r := point;
    }

    /** One point: the same result with any hints as with none. */
    method PointDeferred(e: Wire) returns (r: Option<Affine>)
      requires Lawful(f)
      modifies this
      ensures r == Decode(f, e) && recording == old(recording)
      ensures usable <==> old(Fits(e))
      ensures hints == if usable then old(hints)[1..] else old(hints)
      ensures deferred == old(deferred) + (if r.Some? then [r.value] else [])
      ensures record == old(record) + (if r.Some? && recording then [HintOf(r.value)] else [])
    {
      var hinted := ConsumeHint(e);
      r := hinted;
      if hinted.None? {
        r := Decode(f, e);
        if r.None? {
          return;
        }
      }
      if recording {
        record := record + [HintOf(r.value)];
      }
      deferred := deferred + [r.value];
    }

    /**
      A whole wire: the points are those of the plain decoder whatever the hints; the record is the
      list of their hints; and hints recorded from a decode of the same wire are all consumed.
     */
    method DecodeWires(wires: seq<Wire>) returns (r: Option<seq<Affine>>)
      requires CurveOk(f) && deferred == [] && record == [] && usable == (|hints| > 0)
      modifies this
      ensures r == DecodeAll(f, wires)
      ensures r.Some? ==> deferred == r.value && (old(recording) ==> record == HintsOf(r.value))
      ensures r.Some? && old(hints) == HintsOf(r.value) ==> hints == [] && (|wires| > 0 ==> usable)
    {
      hide Lawful, Decode, DecodeHint, Recompress;
      r := Some([]);
      ghost var start := hints;
      for i := 0 to |wires|
        invariant r == DecodeAll(f, wires[..i]) && r.Some? && |r.value| == i && deferred == r.value
        invariant recording == old(recording) && (recording ==> record == HintsOf(r.value))
        invariant usable ==> i <= |start| && hints == start[i..]
        invariant i == 0 ==> usable == (|start| > 0) && hints == start
        invariant i > 0 ==> (AllFit(f, start, wires, i) <==> usable)
      {
        assert wires[..i + 1][..i] == wires[..i];
        var point := PointDeferred(wires[i]);
        if point.None? {
          DecodeAllFails(f, wires, i + 1);
          return None;
        }
        assert HintsOf(r.value + [point.value]) == HintsOf(r.value) + [HintOf(point.value)];
        r := Some(r.value + [point.value]);
      }
      assert wires[..|wires|] == wires;
      if start == HintsOf(r.value) {
        AllConsumed(f, wires, r.value);
      }
    }
  }

  /** The first `n` hints are usable one after the other. */
  ghost predicate AllFit(f: Field, hints: seq<Hint>, wires: seq<Wire>, n: nat)
    requires Lawful(f) && n <= |wires|
  {
    n <= |hints| &&
    forall i :: 0 <= i < n ==> DecodeHint(f, hints[i]).Some? && Recompress(f.p, DecodeHint(f, hints[i]).value) == wires[i]
  }

  lemma {:induction false} DecodeAllFails(f: Field, wires: seq<Wire>, n: nat)
    requires Lawful(f) && 0 < n <= |wires| && Decode(f, wires[n - 1]).None?
    ensures DecodeAll(f, wires) == None
    decreases |wires|
  {
    if n < |wires| {
      DecodeAllFails(f, wires[..|wires| - 1], n);
    }
  }

  lemma {:induction false} DecodedEntry(f: Field, wires: seq<Wire>, i: nat)
    requires Lawful(f) && DecodeAll(f, wires).Some? && i < |wires|
    ensures |DecodeAll(f, wires).value| == |wires| && Decode(f, wires[i]) == Some(DecodeAll(f, wires).value[i])
    decreases |wires|
  {
    if |wires| > 1 {
      DecodedEntry(f, wires[..|wires| - 1], if i < |wires| - 1 then i else 0);
    }
  }

  /** A decoded point survives the trip through its hint. */
  lemma HintRoundTrip(f: Field, e: Wire)
    requires Lawful(f) && Decode(f, e).Some?
    ensures DecodeHint(f, HintOf(Decode(f, e).value)) == Decode(f, e)
  {
    if Decode(f, e).value.Affine? {
      DecodeSound(f, e);
    }
  }

  /** Recorded hints all fit. */
  lemma AllConsumed(f: Field, wires: seq<Wire>, points: seq<Affine>)
    requires CurveOk(f) && DecodeAll(f, wires) == Some(points) && |points| == |wires|
    ensures AllFit(f, HintsOf(points), wires, |wires|)
  {
    hide Lawful, NoOrderTwo, Decode, DecodeHint, Recompress, HintOf;
    forall i | 0 <= i < |wires|
      ensures DecodeHint(f, HintsOf(points)[i]) == Some(points[i]) && Recompress(f.p, points[i]) == wires[i]
    {
      DecodedEntry(f, wires, i);
      HintRoundTrip(f, wires[i]);
      WireIsCanonical(f, wires[i]);
    }
  }

  /** Recording one decode and replaying it on another consumes every hint and gives the same points. */
  method RecordAndReplay(f: Field, wires: seq<Wire>) returns (r: Option<seq<Affine>>, again: Option<seq<Affine>>, unused: nat)
    requires CurveOk(f)
    ensures r == again == DecodeAll(f, wires)
    ensures r.Some? ==> unused == 0
  {
    var first := new Reader(f, [], true);
    r := first.DecodeWires(wires);
    var second := new Reader(f, first.record, false);
    again := second.DecodeWires(wires);
    unused := |second.hints|;
  }
}
