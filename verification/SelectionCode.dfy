/**
  The compact encoding of a selection: the first index as is, every further one as the zigzag of its
  difference to the previous, each as a base-128 varint.  Decoding undoes encoding and consumes exactly
  the bytes written.
 */
module SelectionCode {
  import opened Common

  type Bytes = seq<nat>

  const HALF: nat := 0x8000_0000_0000_0000
  const MAX_POOL: nat := 0x4000_0000_0000_0000

  /** The value of a 64-bit word read as a signed number. */
  function Signed(v: int): int {
    var w := v % WORD;
    if w >= HALF then w - WORD else w
  }

  // ---------------------------------------------------------------- zigzag

  /** `uint64(delta<<1) ^ uint64(delta>>63)`: the shifted word, complemented when the sign bit is set. */
  function ZigZag(delta: int): (v: nat)
    ensures v < WORD
  {
    if delta < 0 then WORD - 1 - (2 * delta) % WORD else (2 * delta) % WORD
  }

  /** Half the value, complemented when it is odd. */
  function UnZigZag(v: nat): int {
    var delta := Signed(v / 2);
    if v % 2 != 0 then -delta - 1 else delta
  }

  /** Small differences of either sign become small words, the sign in the lowest bit. */
  lemma ZigZagRoundTrip(delta: int)
    requires 0 - MAX_POOL < delta < MAX_POOL
    ensures UnZigZag(ZigZag(delta)) == delta
    ensures ZigZag(delta) == if delta >= 0 then 2 * delta else -2 * delta - 1
  {
    if delta < 0 {
      assert (2 * delta) % WORD == 2 * delta + WORD;
      assert ZigZag(delta) == -2 * delta - 1;
    } else {
      assert (2 * delta) % WORD == 2 * delta;
    }
  }

  // ---------------------------------------------------------------- varints

  /** `binary.PutUvarint` */
  function Varint(v: nat): (r: Bytes)
    ensures |r| > 0
  {
    if v < 128 then [v] else [v % 128 + 128] + Varint(v / 128)
  }

  /** The number written in groups of seven bits, lowest first. */
  function Groups(b: Bytes): nat {
    if |b| == 0 then 0 else b[0] % 128 + 128 * Groups(b[1..])
  }

  /** The format: bytes of which all but the last have the top bit set, seven bits each, no more than needed. */
  lemma {:induction false} VarintFormat(v: nat)
    ensures var r := Varint(v);
            (forall i :: 0 <= i < |r| - 1 ==> 128 <= r[i] < 256) && r[|r| - 1] < 128 && Groups(r) == v &&
            (|r| > 1 ==> r[|r| - 1] > 0)
  {
    if v >= 128 {
      VarintFormat(v / 128);
      var t := Varint(v / 128);
      assert Varint(v)[1..] == t;
      assert |t| == 1 ==> t == [v / 128];
    }
  }

  method PutUvarint(v: nat) returns (out: Bytes)
    ensures out == Varint(v)
  {
    out := [];
    var x := v;
    while x >= 128
      invariant out + Varint(x) == Varint(v)
    {
      assert out + Varint(x) == out + [x % 128 + 128] + Varint(x / 128);
      out := out + [x % 128 + 128];
      x := x / 128;
    }
    out := out + [x];
  }

  /** `binary.ReadUvarint` from byte number `i` of a varint: the value in units of `128^i` and what is left. */
  function ReadFrom(b: Bytes, i: nat): Option<(nat, Bytes)>
    decreases 10 - i
  {
    if i >= 10 || |b| == 0 then None
    else if b[0] < 128 then if i == 9 && b[0] > 1 then None else Some((b[0], b[1..]))
    else
      match ReadFrom(b[1..], i + 1)
      case None => None
      case Some((high, rest)) => Some((b[0] % 128 + 128 * high, rest))
  }

  /** The words that fit in the bytes from number `i` on. */
  function Room(i: nat): nat
    requires i <= 9
    decreases 9 - i
  {
    if i == 9 then 2 else 128 * Room(i + 1)
  }

  lemma {:induction false} VarintRoundTrip(v: nat, rest: Bytes, i: nat)
    requires i <= 9 && v < Room(i)
    ensures ReadFrom(Varint(v) + rest, i) == Some((v, rest))
    decreases 9 - i
  {
    if v < 128 {
      assert (Varint(v) + rest)[1..] == rest;
    } else {
      var high, b := v / 128, Varint(v) + rest;
      VarintRoundTrip(high, rest, i + 1);
      assert b[1..] == Varint(high) + rest;
      LowGroup(v, b[0]);
    }
  }

  lemma LowGroup(v: nat, byte: nat)
    requires byte == v % 128 + 128
    ensures byte >= 128 && byte % 128 + 128 * (v / 128) == v
  {}

  lemma RoomForWords()
    ensures Room(0) == WORD
  {
    assert Room(5) == 128 * (128 * (128 * (128 * 2)));
    assert Room(0) == 128 * (128 * (128 * (128 * (128 * Room(5)))));
  }

  // ---------------------------------------------------------------- selections

  /** The word written for an index. */
  function Word(first: bool, previous: int, index: int): nat
    requires 0 <= index
  {
    if first then index % WORD else ZigZag(index - previous)
  }

  /** The indices from here on; `previous` precedes them unless they are the first. */
  function Encode(selected: seq<int>, first: bool, previous: int): Bytes
    requires forall i :: 0 <= i < |selected| ==> 0 <= selected[i]
  {
    if |selected| == 0 then []
    else Varint(Word(first, previous, selected[0])) + Encode(selected[1..], false, selected[0])
  }

  /** The index a word stands for. */
  function Current(first: bool, previous: int, value: nat): int {
    if first then Signed(value) else Signed(previous + UnZigZag(value))
  }

  function Decode(b: Bytes, count: nat, poolSize: int, first: bool, previous: int): Option<(seq<int>, Bytes)>
    decreases count
  {
    if count == 0 then Some(([], b))
    else
      match ReadFrom(b, 0)
      case None => None
      case Some((value, rest)) =>
        var current := Current(first, previous, value);
        if current < 0 || current >= poolSize then None
        else
          match Decode(rest, count - 1, poolSize, false, current)
          case None => None
          case Some((tail, left)) => Some(([current] + tail, left))
  }

  ghost predicate InPool(selected: seq<int>, poolSize: int) {
    forall i :: 0 <= i < |selected| ==> 0 <= selected[i] < poolSize
  }

  lemma WordRoundTrip(first: bool, previous: int, index: int)
    requires 0 <= index < MAX_POOL && (!first ==> 0 <= previous < MAX_POOL)
    ensures Current(first, previous, Word(first, previous, index)) == index && Word(first, previous, index) < WORD
  {
    if !first {
      ZigZagRoundTrip(index - previous);
    }
  }

  /** Decoding gives the selection back and leaves exactly what followed it. */
  lemma {:induction false} SelectionRoundTrip(selected: seq<int>, poolSize: int, rest: Bytes, first: bool, previous: int)
    requires InPool(selected, poolSize) && poolSize <= MAX_POOL && (!first ==> 0 <= previous < MAX_POOL)
    ensures Decode(Encode(selected, first, previous) + rest, |selected|, poolSize, first, previous) == Some((selected, rest))
    decreases |selected|
  {
    if |selected| == 0 {
      assert Encode(selected, first, previous) + rest == rest;
    } else {
      hide ZigZag, UnZigZag, Signed, Varint, ReadFrom, Current, Word;
      var head, tail := Varint(Word(first, previous, selected[0])), Encode(selected[1..], false, selected[0]);
      WordRoundTrip(first, previous, selected[0]);
      RoomForWords();
      VarintRoundTrip(Word(first, previous, selected[0]), tail + rest, 0);
      assert Encode(selected, first, previous) + rest == head + (tail + rest);
      SelectionRoundTrip(selected[1..], poolSize, rest, false, selected[0]);
      assert selected == [selected[0]] + selected[1..];
    }
  }

  lemma {:induction false} ReadLeavesSuffix(b: Bytes, i: nat)
    requires ReadFrom(b, i).Some?
    ensures var left := ReadFrom(b, i).value.1; |left| < |b| && left == b[|b| - |left|..]
    decreases |b|
  {
    if b[0] >= 128 {
      ReadLeavesSuffix(b[1..], i + 1);
    }
  }

  /** Whatever is decoded has `count` indices of the pool, and what is left is the end of the input. */
  lemma {:induction false} DecodeSound(b: Bytes, count: nat, poolSize: int, first: bool, previous: int)
    requires Decode(b, count, poolSize, first, previous).Some?
    ensures var (selected, left) := Decode(b, count, poolSize, first, previous).value;
            InPool(selected, poolSize) && |selected| == count && |left| + count <= |b| && left == b[|b| - |left|..]
    decreases count
  {
    if count > 0 {
      hide ReadFrom, Current;
      var (value, rest) := ReadFrom(b, 0).value;
      ReadLeavesSuffix(b, 0);
      DecodeSound(rest, count - 1, poolSize, false, Current(first, previous, value));
    }
  }

  /** The encoder's loop; an index outside the pool is refused. */
  method EncodeSelection(selected: seq<int>, poolSize: int) returns (r: Option<Bytes>)
    requires poolSize <= MAX_POOL
    ensures r.Some? <==> InPool(selected, poolSize)
    ensures r.Some? ==> r.value == Encode(selected, true, 0)
  {
    hide Varint, ZigZag;
    var wire: Bytes := [];
    var previous := 0;
    for i := 0 to |selected|
      invariant InPool(selected[..i], poolSize)
      invariant previous == if i == 0 then 0 else selected[i - 1]
      invariant InPool(selected, poolSize) ==> wire + Encode(selected[i..], i == 0, previous) == Encode(selected, true, 0)
    {
      var index := selected[i];
      if index < 0 || index >= poolSize {
        return None;
      }
      var value := index;
      if i > 0 {
        value := ZigZag(index - previous);
      }
      var encoded := PutUvarint(value);
      assert selected[i..][1..] == selected[i + 1..];
      assert InPool(selected, poolSize) ==>
          wire + Encode(selected[i..], i == 0, previous) == wire + encoded + Encode(selected[i + 1..], false, index);
      wire := wire + encoded;
      previous := index;
    }
    r := Some(wire);
  }

  /** The decoder's loop. */
  method DecodeSelection(b: Bytes, count: nat, poolSize: int) returns (r: Option<(seq<int>, Bytes)>)
    ensures r == Decode(b, count, poolSize, true, 0)
  {
    hide ReadFrom, Current;
    var selected, rest, previous := [], b, 0;
    PrependNothing([], Decode(b, count, poolSize, true, 0));
    for i := 0 to count
      invariant Decode(b, count, poolSize, true, 0) == Prepend(selected, Decode(rest, count - i, poolSize, i == 0, previous))
    {
      var word := ReadFrom(rest, 0);
      if word == None {
        return None;
      }
      var current := Current(i == 0, previous, word.value.0);
      if current < 0 || current >= poolSize {
        return None;
      }
      PrependTwice(selected, current, Decode(word.value.1, count - i - 1, poolSize, false, current));
      selected, rest, previous := selected + [current], word.value.1, current;
    }
    PrependNothing(selected, Some(([], rest)));
    r := Some((selected, rest));
  }

  lemma PrependNothing(front: seq<int>, r: Option<(seq<int>, Bytes)>)
    ensures Prepend([], r) == r && (r.Some? && r.value.0 == [] ==> Prepend(front, r) == Some((front, r.value.1)))
  {
    assert r.Some? ==> [] + r.value.0 == r.value.0;
    assert front + [] == front;
  }

  function Prepend(front: seq<int>, r: Option<(seq<int>, Bytes)>): Option<(seq<int>, Bytes)> {
    if r.None? then None else Some((front + r.value.0, r.value.1))
  }

  lemma PrependTwice(front: seq<int>, x: int, r: Option<(seq<int>, Bytes)>)
    ensures Prepend(front, Prepend([x], r)) == Prepend(front + [x], r)
  {
    assert r.Some? ==> front + ([x] + r.value.0) == front + [x] + r.value.0;
  }
}
