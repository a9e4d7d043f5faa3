/**
  The canonical comparator: per lane it proves, digit by digit, that a scalar written in radix 256
  is at most `q - 1`, by exhibiting the complement `q - 1 - scalar` and the borrows of the subtraction.

  `Rows` lists the borrow equations of every lane.  The verifier checks one weighted sum of them.
 */
module Comparator {
  import opened Common
  import opened Modular
  import opened Vectors
  import opened Polynomials
  import opened RangeVectors

  const RADIX: nat := 256

  // ---------------------------------------------------------------- digits

  method RadixDigits(v: nat, count: nat) returns (r: Option<seq<int>>)
    ensures r.Some? <==> v < Power(RADIX, count)
    ensures r.Some? ==> |r.value| == count && InRadix(RADIX, r.value) && Eval(r.value, RADIX) == v
  {
    if v >= Power(RADIX, count) {
      return None;
    }
    var encoded := BigEndian(v, count);
    var digits := [];
    for i := 0 to count
      invariant |digits| == i
      invariant forall k :: 0 <= k < i ==> digits[k] == DigitsOf(RADIX, v, count)[k]
    {
      BigEndianReversed(v, count, i);
      digits := digits + [encoded[count - 1 - i]];
    }
    assert digits == DigitsOf(RADIX, v, count);
    DigitsCorrect(RADIX, v, count);
    r := Some(digits);
  }

  method ModulusDigits(q: int, count: nat) returns (r: Option<seq<int>>)
    requires q > 1
    ensures r.Some? <==> count > 0 && q - 1 < Power(RADIX, count)
    ensures r.Some? ==> |r.value| == count && InRadix(RADIX, r.value) && Eval(r.value, RADIX) == q - 1
  {
    if count == 0 {
      return None;
    }
    r := RadixDigits(q - 1, count);
  }

  method ComplementDigits(q: int, scalar: nat, count: nat) returns (r: Option<seq<int>>)
    requires q > 1
    ensures r.Some? <==> scalar < q && q - 1 - scalar < Power(RADIX, count)
    ensures r.Some? ==> |r.value| == count && InRadix(RADIX, r.value) && Eval(r.value, RADIX) == q - 1 - scalar
  {
    if q - 1 - scalar < 0 {
      return None;
    }
    r := RadixDigits(q - 1 - scalar, count);
  }

  // ---------------------------------------------------------------- the borrow chain

  /** `uint64(value)`, which wraps a negative value. */
  function AsWord(value: int): int {
    value % WORD
  }

  lemma SmallWord(value: int)
    ensures 0 <= value < WORD ==> AsWord(value) == value
  {}

  /** The borrows out of every digit but the last, or `None` when some complement digit is wrong. */
  function BorrowChain(m: seq<int>, s: seq<int>, c: seq<int>, borrow: int): (r: Option<seq<int>>)
    requires |m| == |s| == |c| > 0
    ensures r.Some? ==> |r.value| == |m| - 1
  {
    var value := m[0] - s[0] - borrow;
    var next := if value < 0 then 1 else 0;
    if AsWord(value + RADIX * next) != c[0] then None
    else if |m| == 1 then if next != 0 then None else Some([])
    else Prepend([next], BorrowChain(m[1..], s[1..], c[1..], next))
  }

  /** The borrow chain succeeds exactly when the complement is the right number. */
  lemma {:induction false} BorrowChainExact(m: seq<int>, s: seq<int>, c: seq<int>, borrow: int)
    requires |m| == |s| == |c| > 0 && 0 <= borrow <= 1
    requires InRadix(RADIX, m) && InRadix(RADIX, s) && InRadix(RADIX, c)
    ensures BorrowChain(m, s, c, borrow).Some?
            <==> Eval(m, RADIX) - borrow == Eval(s, RADIX) + Eval(c, RADIX)
  {
    hide AsWord;
    var value := m[0] - s[0] - borrow;
    var next := if value < 0 then 1 else 0;
    SmallWord(value + RADIX * next);
    if |m| > 1 {
      BorrowChainExact(m[1..], s[1..], c[1..], next);
    } else {
      assert Eval(m[1..], RADIX) == Eval(s[1..], RADIX) == Eval(c[1..], RADIX) == 0;
    }
  }

  method Borrows(m: seq<int>, s: seq<int>, c: seq<int>) returns (r: Option<seq<int>>)
    ensures r == if |m| == |s| == |c| > 0 then BorrowChain(m, s, c, 0) else None
    ensures r.Some? ==> |r.value| == |m| - 1 && InRadix(2, r.value)
    ensures InRadix(RADIX, m) && InRadix(RADIX, s) && InRadix(RADIX, c) ==>
              (r.Some? <==> |m| == |s| == |c| > 0 && Eval(m, RADIX) == Eval(s, RADIX) + Eval(c, RADIX)) &&
              (r.Some? ==> BalancedLane(m, s, c, r.value))
  {
    hide AsWord;
    if |m| == 0 || |m| != |s| || |s| != |c| {
      return None;
    }
    assert m[0..] == m && s[0..] == s && c[0..] == c;
    var borrows := [];
    var borrow := 0;
    PrependUnits(BorrowChain(m, s, c, 0), []);
    for i := 0 to |s|
      invariant 0 <= borrow <= 1 && InRadix(2, borrows)
      invariant i < |s| ==>
                  BorrowChain(m, s, c, 0) == Prepend(borrows, BorrowChain(m[i..], s[i..], c[i..], borrow))
      invariant i == |s| ==> BorrowChain(m, s, c, 0) == Some(borrows)
    {
      assert m[i..][1..] == m[i + 1..] && s[i..][1..] == s[i + 1..] && c[i..][1..] == c[i + 1..];
      var value := m[i] - s[i] - borrow;
      var nextBorrow := 0;
      if value < 0 {
        value := value + RADIX;
        nextBorrow := 1;
      }
      if AsWord(value) != c[i] {
        ChainMeaning(m, s, c);
        return None;
      }
      if i + 1 < |s| {
        PrependTwice(borrows, nextBorrow, BorrowChain(m[i + 1..], s[i + 1..], c[i + 1..], nextBorrow));
        borrows := borrows + [nextBorrow];
      } else if nextBorrow != 0 {
        ChainMeaning(m, s, c);
        return None;
      }
      PrependUnits(None, borrows);
      borrow := nextBorrow;
    }
    ChainMeaning(m, s, c);
    r := Some(borrows);
  }

  lemma ChainMeaning(m: seq<int>, s: seq<int>, c: seq<int>)
    requires |m| == |s| == |c| > 0
    ensures InRadix(RADIX, m) && InRadix(RADIX, s) && InRadix(RADIX, c) ==>
              var r := BorrowChain(m, s, c, 0);
              (r.Some? <==> Eval(m, RADIX) == Eval(s, RADIX) + Eval(c, RADIX)) && (r.Some? ==> BalancedLane(m, s, c, r.value))
  {
    if InRadix(RADIX, m) && InRadix(RADIX, s) && InRadix(RADIX, c) {
      BorrowChainExact(m, s, c, 0);
      if BorrowChain(m, s, c, 0).Some? {
        forall k | 0 <= k < |m| ensures LaneRow(m, s, c, BorrowChain(m, s, c, 0).value, k) == 0 {
          BorrowsBalance(m, s, c, BorrowChain(m, s, c, 0).value, 0, k);
        }
      }
    }
  }

  function Prepend(front: seq<int>, rest: Option<seq<int>>): Option<seq<int>> {
    if rest.None? then None else Some(front + rest.value)
  }

  lemma PrependUnits(rest: Option<seq<int>>, front: seq<int>)
    ensures Prepend([], rest) == rest && Prepend(front, Some([])) == Some(front)
  {
    assert front + [] == front;
    assert rest.Some? ==> [] + rest.value == rest.value;
  }

  lemma PrependTwice(front: seq<int>, x: int, rest: Option<seq<int>>)
    ensures Prepend(front, Prepend([x], rest)) == Prepend(front + [x], rest)
  {
    if rest.Some? {
      assert front + ([x] + rest.value) == (front + [x]) + rest.value;
    }
  }

  // ---------------------------------------------------------------- one lane

  /** The borrow equation of digit `k`; it is zero when the digit is right. */
  function LaneRow(m: Vec, s: Vec, c: Vec, b: Vec, k: nat): int
    requires |m| == |s| == |c| == |b| + 1 && k < |m|
  {
    m[k] - s[k] - c[k] - (if k > 0 then b[k - 1] else 0) + (if k < |b| then RADIX * b[k] else 0)
  }

  ghost predicate BalancedLane(m: Vec, s: Vec, c: Vec, b: Vec)
    requires |m| == |s| == |c| == |b| + 1
  {
    forall k :: 0 <= k < |m| ==> LaneRow(m, s, c, b, k) == 0
  }

  /** The equations telescope: from digit `k` on, the numbers differ by the incoming borrow. */
  lemma {:induction false} Telescope(m: Vec, s: Vec, c: Vec, b: Vec, k: nat)
    requires |m| == |s| == |c| == |b| + 1 && k < |m| && BalancedLane(m, s, c, b)
    ensures Eval(m[k..], RADIX) == Eval(s[k..], RADIX) + Eval(c[k..], RADIX) + (if k > 0 then b[k - 1] else 0)
    decreases |m| - k
  {
    assert m[k..][1..] == m[k + 1..] && s[k..][1..] == s[k + 1..] && c[k..][1..] == c[k + 1..];
    assert LaneRow(m, s, c, b, k) == 0;
    if k + 1 < |m| {
      Telescope(m, s, c, b, k + 1);
    }
  }

  /** In range, an equation that holds in the field holds over the integers. */
  lemma SmallRow(q: int, m: Vec, s: Vec, c: Vec, b: Vec, k: nat)
    requires |m| == |s| == |c| == |b| + 1 && k < |m| && q >= 2 * RADIX
    requires InRadix(RADIX, m) && InRadix(RADIX, s) && InRadix(RADIX, c) && InRadix(2, b)
    requires LaneRow(m, s, c, b, k) % q == 0
    ensures LaneRow(m, s, c, b, k) == 0
  {
    var v := LaneRow(m, s, c, b, k);
    assert -q < v < q;
    if v > 0 {
      ModSmall(q, v);
    } else if v < 0 {
      ModIs(q, v, -1, v + q);
    }
  }

  /**
    Soundness and completeness of one lane: digits and bits that are in range satisfy the field
    equations exactly when scalar and complement add up to the modulus minus one and the bits are the
    borrows of that subtraction.
   */
  lemma LaneExact(q: int, m: Vec, s: Vec, c: Vec, b: Vec)
    requires |m| == |s| == |c| == |b| + 1 && q >= 2 * RADIX && Eval(m, RADIX) == q - 1
    requires InRadix(RADIX, m) && InRadix(RADIX, s) && InRadix(RADIX, c) && InRadix(2, b)
    ensures (forall k :: 0 <= k < |m| ==> LaneRow(m, s, c, b, k) % q == 0)
            <==> Eval(s, RADIX) + Eval(c, RADIX) == q - 1 && BorrowChain(m, s, c, 0) == Some(b)
    ensures (forall k :: 0 <= k < |m| ==> LaneRow(m, s, c, b, k) % q == 0) ==> 0 <= Eval(s, RADIX) <= q - 1
  {
    ModSmall(q, 0);
    RadixBounds(RADIX, s);
    RadixBounds(RADIX, c);
    assert m[0..] == m && s[0..] == s && c[0..] == c && b[0..] == b;
    if forall k :: 0 <= k < |m| ==> LaneRow(m, s, c, b, k) % q == 0 {
      forall k | 0 <= k < |m| ensures LaneRow(m, s, c, b, k) == 0 {
        SmallRow(q, m, s, c, b, k);
      }
      Telescope(m, s, c, b, 0);
      BalancedGivesBorrows(m, s, c, b, 0);
    }
    if BorrowChain(m, s, c, 0) == Some(b) {
      forall k | 0 <= k < |m| ensures LaneRow(m, s, c, b, k) == 0 {
        BorrowsBalance(m, s, c, b, 0, k);
      }
    }
  }

  lemma {:induction false} BalancedGivesBorrows(m: Vec, s: Vec, c: Vec, b: Vec, k: nat)
    requires |m| == |s| == |c| == |b| + 1 && k < |m| && BalancedLane(m, s, c, b)
    requires InRadix(RADIX, m) && InRadix(RADIX, s) && InRadix(RADIX, c) && InRadix(2, b)
    ensures BorrowChain(m[k..], s[k..], c[k..], if k > 0 then b[k - 1] else 0) == Some(b[k..])
    decreases |m| - k
  {
    hide AsWord;
    SmallWord(c[k]);
    assert m[k..][1..] == m[k + 1..] && s[k..][1..] == s[k + 1..] && c[k..][1..] == c[k + 1..];
    assert LaneRow(m, s, c, b, k) == 0;
    if k + 1 < |m| {
      BalancedGivesBorrows(m, s, c, b, k + 1);
      assert b[k..] == [b[k]] + b[k + 1..];
    }
  }

  lemma {:induction false} BorrowsBalance(m: Vec, s: Vec, c: Vec, b: Vec, borrow: int, k: nat)
    requires |m| == |s| == |c| == |b| + 1 && k < |m| && 0 <= borrow <= 1
    requires InRadix(RADIX, m) && InRadix(RADIX, s) && BorrowChain(m, s, c, borrow) == Some(b)
    ensures LaneRow(m, s, c, b, k) == if k == 0 then borrow else 0
  {
    hide AsWord;
    var value := m[0] - s[0] - borrow;
    SmallWord(value + RADIX * if value < 0 then 1 else 0);
    if |m| > 1 {
      var rest := b[1..];
      assert b == [b[0]] + BorrowChain(m[1..], s[1..], c[1..], b[0]).value;
      assert rest == BorrowChain(m[1..], s[1..], c[1..], b[0]).value;
      if k > 0 {
        BorrowsBalance(m[1..], s[1..], c[1..], rest, b[0], k - 1);
      }
    }
  }
}
