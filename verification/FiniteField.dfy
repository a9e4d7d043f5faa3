/**
  The field GF(256) with the reduction polynomial x^8 + x^4 + x^3 + x^2 + 1, as computed by the
  shift-and-XOR loop, and the laws that make a product of it.
 */
module FiniteField {

  type Byte = bv8

  /** Addition in the field. */
  function Add(a: Byte, b: Byte): Byte { a ^ b }

  function Half(b: Byte): Byte { b >> 1 }

  /** Multiplication by `x`: shift left and reduce when the top bit falls out. */
  function XTime(a: Byte): Byte {
    if a & 0x80 != 0 then (a << 1) ^ 0x1d else a << 1
  }

  /** `a` when the lowest bit of `b` is set, zero otherwise. */
  function Select(b: Byte, a: Byte): Byte {
    if b & 1 != 0 then a else 0
  }

  /** The first `n` steps of the loop: bit `i` of `b` selects `a` times `x^i`. */
  function MulBits(a: Byte, b: Byte, n: nat): Byte
    decreases n
  {
    if n == 0 then 0 else Add(Select(b, a), MulBits(XTime(a), Half(b), n - 1))
  }

  function Mul(a: Byte, b: Byte): Byte {
    MulBits(a, b, 8)
  }

  // ---------------------------------------------------------------- the loop

  /** `b` shifted right `n` times. */
  function Shifted(b: Byte, n: nat): Byte
    decreases n
  {
    if n == 0 then b else Shifted(Half(b), n - 1)
  }

  lemma AllShiftedOut(b: Byte)
    ensures Shifted(b, 8) == 0
  {
    var c := Half(Half(Half(Half(b))));
    assert Shifted(b, 8) == Shifted(c, 4) == Half(Half(Half(Half(c))));
  }

  lemma {:induction false} ZeroBits(a: Byte, n: nat)
    ensures MulBits(a, 0, n) == 0
    decreases n
  {
    if n > 0 {
      ZeroBits(XTime(a), n - 1);
    }
  }

  /** The loop runs until `b` is exhausted, which is what the eight-step form computes. */
  method GF256Mul(a: Byte, b: Byte) returns (product: Byte)
    ensures product == Mul(a, b)
  {
    hide XTime, Select, Add, Half;
    product := 0;
    var x, y := a, b;
    ghost var n: nat := 8;
    AllShiftedOut(b);
    AddLaws(MulBits(a, b, 8), 0, 0);
    while y != 0
      invariant Mul(a, b) == Add(product, MulBits(x, y, n)) && Shifted(y, n) == 0
      decreases n
    {
      AddLaws(product, Select(y, x), MulBits(XTime(x), Half(y), n - 1));
      product := Add(product, Select(y, x));
      x := XTime(x);
      y := Half(y);
      n := n - 1;
    }
    ZeroBits(x, n);
    AddLaws(product, 0, 0);
  }

  // ---------------------------------------------------------------- small facts about bytes

  lemma AddLaws(a: Byte, b: Byte, c: Byte)
    ensures Add(a, Add(b, c)) == Add(Add(a, b), c) && Add(a, b) == Add(b, a) && Add(a, 0) == a && Add(0, a) == a
    ensures Add(a, a) == 0
  {}

  lemma Regroup4(a: Byte, b: Byte, c: Byte, d: Byte)
    ensures Add(Add(a, b), Add(c, d)) == Add(Add(a, c), Add(b, d))
  {
    hide Add;
    AddLaws(a, b, Add(c, d));
    AddLaws(b, c, d);
    AddLaws(c, b, d);
    AddLaws(a, c, Add(b, d));
  }

  lemma XTimeAdd(a: Byte, b: Byte)
    ensures XTime(Add(a, b)) == Add(XTime(a), XTime(b)) && XTime(0) == 0
  {
    var ta, tb := a & 0x80, b & 0x80;
    assert (a ^ b) & 0x80 == ta ^ tb;
    assert (a ^ b) << 1 == (a << 1) ^ (b << 1);
    assert (ta == 0 || ta == 0x80) && (tb == 0 || tb == 0x80);
  }

  lemma SelectLaws(b: Byte, b': Byte, a: Byte, a': Byte)
    ensures Select(b, Add(a, a')) == Add(Select(b, a), Select(b, a'))
    ensures Select(Add(b, b'), a) == Add(Select(b, a), Select(b', a))
    ensures Half(Add(b, b')) == Add(Half(b), Half(b'))
  {}

  lemma SelectXTime(b: Byte, a: Byte)
    ensures Select(b, XTime(a)) == XTime(Select(b, a))
  {}

  // ---------------------------------------------------------------- bilinearity

  lemma {:induction false} LeftAdd(a: Byte, a': Byte, b: Byte, n: nat)
    ensures MulBits(Add(a, a'), b, n) == Add(MulBits(a, b, n), MulBits(a', b, n))
    decreases n
  {
    hide XTime, Select, Add, Half;
    if n == 0 {
      AddLaws(0, 0, 0);
    } else {
      XTimeAdd(a, a');
      SelectLaws(b, b, a, a');
      LeftAdd(XTime(a), XTime(a'), Half(b), n - 1);
      Regroup4(Select(b, a), Select(b, a'), MulBits(XTime(a), Half(b), n - 1), MulBits(XTime(a'), Half(b), n - 1));
    }
  }

  lemma {:induction false} RightAdd(a: Byte, b: Byte, b': Byte, n: nat)
    ensures MulBits(a, Add(b, b'), n) == Add(MulBits(a, b, n), MulBits(a, b', n))
    decreases n
  {
    hide XTime, Select, Add, Half;
    if n == 0 {
      AddLaws(0, 0, 0);
    } else {
      SelectLaws(b, b', a, a);
      RightAdd(XTime(a), Half(b), Half(b'), n - 1);
      Regroup4(Select(b, a), Select(b', a), MulBits(XTime(a), Half(b), n - 1), MulBits(XTime(a), Half(b'), n - 1));
    }
  }

  lemma {:induction false} LeftXTime(a: Byte, b: Byte, n: nat)
    ensures MulBits(XTime(a), b, n) == XTime(MulBits(a, b, n))
    decreases n
  {
    hide XTime, Select, Add, Half;
    if n == 0 {
      XTimeAdd(0, 0);
    } else {
      LeftXTime(XTime(a), Half(b), n - 1);
      SelectXTime(b, a);
      XTimeAdd(Select(b, a), MulBits(XTime(a), Half(b), n - 1));
    }
  }

  // ---------------------------------------------------------------- ring laws

  lemma {:induction false} LeftSelect(c: Byte, x: Byte, a: Byte)
    ensures Mul(Select(c, x), a) == Select(c, Mul(x, a))
  {
    hide MulBits;
    if c & 1 == 0 {
      LeftZero(a, 8);
    }
  }

  lemma {:induction false} LeftZero(a: Byte, n: nat)
    ensures MulBits(0, a, n) == 0
    decreases n
  {
    hide Half;
    if n > 0 {
      XTimeAdd(0, 0);
      LeftZero(Half(a), n - 1);
    }
  }

  /** Multiplying a product from the left goes bit by bit. */
  lemma {:induction false} LeftMulBits(x: Byte, b: Byte, a: Byte, n: nat)
    ensures Mul(MulBits(x, b, n), a) == MulBits(Mul(x, a), b, n)
    decreases n
  {
    hide XTime, Select, Add, Half;
    if n == 0 {
      LeftZero(a, 8);
    } else {
      hide Mul;
      ProductAdd(Select(b, x), MulBits(XTime(x), Half(b), n - 1), a);
      LeftSelect(b, x, a);
      LeftMulBits(XTime(x), Half(b), a, n - 1);
      ProductXTime(x, a);
    }
  }

  lemma ProductAdd(x: Byte, y: Byte, a: Byte)
    ensures Mul(Add(x, y), a) == Add(Mul(x, a), Mul(y, a))
  {
    LeftAdd(x, y, a, 8);
  }

  lemma ProductXTime(x: Byte, a: Byte)
    ensures Mul(XTime(x), a) == XTime(Mul(x, a))
  {
    LeftXTime(x, a, 8);
  }

  /** The eight steps written out. */
  function Unrolled(a: Byte, b: Byte): Byte {
    Add(Select(b, a), Upper(XTime(a), Half(b)))
  }

  function Upper(a: Byte, b: Byte): Byte {
    Add(Select(b, a), Add(Select(Half(b), XTime(a)),
    Add(Select(Half(Half(b)), XTime(XTime(a))), UpperHalf(XTime(XTime(XTime(a))), Half(Half(Half(b)))))))
  }

  function UpperHalf(a: Byte, b: Byte): Byte {
    Add(Select(b, a), Add(Select(Half(b), XTime(a)),
    Add(Select(Half(Half(b)), XTime(XTime(a))), Select(Half(Half(Half(b))), XTime(XTime(XTime(a)))))))
  }

  lemma MulUnrolled(a: Byte, b: Byte)
    ensures Mul(a, b) == Unrolled(a, b)
  {
    hide XTime, Select, Add, Half;
    var a3, b3 := XTime(XTime(XTime(XTime(a)))), Half(Half(Half(Half(b))));
    assert MulBits(a3, b3, 4) == UpperHalf(a3, b3) by {
      AddLaws(Select(Half(Half(Half(b3))), XTime(XTime(XTime(a3)))), 0, 0);
    }
    assert MulBits(XTime(a), Half(b), 7) == Upper(XTime(a), Half(b));
  }

  /** One is the unit. */
  lemma MulOne(b: Byte)
    ensures Mul(1, b) == b
  {
    MulUnrolled(1, b);
    assert XTime(1) == 2 && XTime(2) == 4 && XTime(4) == 8 && XTime(8) == 16 && XTime(16) == 32 && XTime(32) == 64;
    assert XTime(64) == 128;
  }

  lemma MulCommutes(a: Byte, b: Byte)
    ensures Mul(a, b) == Mul(b, a)
  {
    hide MulBits;
    MulOne(a);
    MulOne(b);
    LeftMulBits(1, b, a, 8);
  }

  lemma MulAssociates(a: Byte, b: Byte, c: Byte)
    ensures Mul(a, Mul(b, c)) == Mul(Mul(a, b), c)
  {
    hide MulBits;
    LeftMulBits(b, c, a, 8);
    MulCommutes(a, Mul(b, c));
    MulCommutes(a, b);
  }

  lemma MulDistributes(a: Byte, b: Byte, c: Byte)
    ensures Mul(a, Add(b, c)) == Add(Mul(a, b), Mul(a, c)) && Mul(Add(b, c), a) == Add(Mul(b, a), Mul(c, a))
    ensures Mul(a, 0) == 0 && Mul(0, a) == 0
  {
    hide MulBits;
    RightAdd(a, b, c, 8);
    LeftAdd(b, c, a, 8);
    ZeroBits(a, 8);
    LeftZero(a, 8);
  }

  /** `x^8` reduces to `x^4 + x^3 + x^2 + 1`, so the product is the one modulo that polynomial. */
  lemma Reduction(a: Byte)
    ensures Mul(0x80, 2) == 0x1d && Mul(2, a) == if a >= 0x80 then (a << 1) ^ 0x1d else a << 1
  {
    MulCommutes(2, a);
    MulUnrolled(a, 2);
    MulUnrolled(0x80, 2);
  }
}
