/**
  Asynchronous provable dispersal: a payload is framed with its length, erasure-coded, and committed by
  a Merkle root; stores are checked against the root, and recovery re-encodes what it decoded.

  The erasure code is any pair of functions in which every `dataShards` shards of an encoding decode to
  what was encoded (`Lawful`).
 */
module Dispersal {
  import opened Common
  import opened Modular
  import opened Polynomials
  import opened Merkle

  datatype Codec = Codec(encode: (Payload, nat, nat) -> Option<seq<Payload>>,
                         decode: (seq<Option<Payload>>, nat) -> Option<Payload>)

  /** The public parameters of one dispersal. */
  datatype Sizes = Sizes(dataShards: int, totalShards: int, shardBytes: int, maximumPayload: int)

  datatype Store = Store(instance: Tag, root: Digest, index: int, shard: Payload, siblings: seq<Digest>)
  datatype Lock = Lock(instance: Tag, root: Digest)

  const HEADER: nat := 8
  // ---------------------------------------------------------------- the erasure code

  function Count(partial: seq<Option<Payload>>): nat {
    if |partial| == 0 then 0 else Count(partial[..|partial| - 1]) + (if partial[|partial| - 1].Some? then 1 else 0)
  }

  ghost predicate Agrees(partial: seq<Option<Payload>>, shards: seq<Payload>) {
    |partial| == |shards| && forall i :: 0 <= i < |shards| && partial[i].Some? ==> partial[i].value == shards[i]
  }

  ghost predicate EncodesWell(codec: Codec, k: nat, n: nat, w: nat, packed: Payload) {
    codec.encode(packed, k, n).Some? &&
    var shards := codec.encode(packed, k, n).value;
    |shards| == n && (forall i :: 0 <= i < n ==> |shards[i]| == w) &&
    forall partial :: Agrees(partial, shards) && Count(partial) >= k ==> codec.decode(partial, k) == Some(packed)
  }

  ghost predicate Lawful(codec: Codec, k: nat, n: nat, w: nat) {
    forall packed :: |packed| == Product(k, w) ==> EncodesWell(codec, k, n, w, packed)
  }

  lemma {:induction false} CountAll(shards: seq<Payload>, partial: seq<Option<Payload>>)
    requires |partial| == |shards| && forall i :: 0 <= i < |shards| ==> partial[i] == Some(shards[i])
    ensures Count(partial) == |shards|
  {
    if |shards| > 0 {
      CountAll(shards[..|shards| - 1], partial[..|partial| - 1]);
    }
  }

  /** A lawful code is injective. */
  lemma EncodeInjective(codec: Codec, k: nat, n: nat, w: nat, a: Payload, b: Payload)
    requires k <= n && EncodesWell(codec, k, n, w, a) && EncodesWell(codec, k, n, w, b)
    requires codec.encode(a, k, n) == codec.encode(b, k, n)
    ensures a == b
  {
    var shards := codec.encode(a, k, n).value;
    var all := seq(n, i requires 0 <= i < n => Some(shards[i]));
    CountAll(shards, all);
    assert Agrees(all, shards);
  }

  // ---------------------------------------------------------------- framing

  lemma WordPower()
    ensures Power(256, 8) == WORD
  {
    assert Power(256, 4) == 0x1_0000_0000 by {
      assert Power(256, 2) == 0x1_0000;
    }
    assert Power(256, 8) == 256 * (256 * (256 * (256 * Power(256, 4))));
  }

  function Header(length: nat): (r: seq<int>)
    ensures |r| == HEADER
  {
    BigEndian(length, HEADER)
  }

  /** The length, the payload and zeros up to `size`. */
  function Packed(payload: Payload, size: nat): (r: Payload)
    requires HEADER + |payload| <= size
    ensures |r| == size && r[..HEADER] == Header(|payload|) && r[HEADER..HEADER + |payload|] == payload
  {
    var r := Header(|payload|) + payload + seq(size - HEADER - |payload|, i => 0);
    assert r[HEADER..HEADER + |payload|] == payload;
    r
  }

  lemma PackedInjective(a: Payload, b: Payload, size: nat)
    requires HEADER + |a| <= size && HEADER + |b| <= size && |a| < WORD && |b| < WORD && Packed(a, size) == Packed(b, size)
    ensures a == b
  {
    WordPower();
    BigEndianRoundTrip(|a|, HEADER);
    BigEndianRoundTrip(|b|, HEADER);
  }

  // ---------------------------------------------------------------- encoding

  predicate Encodable(s: Sizes, payload: Payload) {
    && 0 < |payload| <= s.maximumPayload && s.maximumPayload < WORD
    && 0 < s.dataShards <= s.totalShards && s.shardBytes > 0
    && HEADER + |payload| <= Product(s.dataShards, s.shardBytes)
  }

  function EncodedShards(codec: Codec, s: Sizes, payload: Payload): (r: Option<seq<Payload>>)
    ensures r.Some? ==> Encodable(s, payload) && |r.value| == s.totalShards
  {
    if !Encodable(s, payload) then None
    else
      var packed := Packed(payload, Product(s.dataShards, s.shardBytes));
      match codec.encode(packed, s.dataShards, s.totalShards)
      case None => None
      case Some(shards) => if |shards| != s.totalShards || |shards[0]| == 0 then None else Some(shards)
  }

  function EncodedRoot(codec: Codec, instance: Tag, s: Sizes, payload: Payload): Option<Digest> {
    match EncodedShards(codec, s, payload)
    case None => None
    case Some(shards) => Some(ShardRoot(instance, shards))
  }

  function StoreOf(instance: Tag, shards: seq<Payload>, i: nat): Store
    requires i < |shards|
  {
    Store(instance, ShardRoot(instance, shards), i, shards[i], Branch(Leaves(instance, shards), i))
  }

  /** The sizes the program admits, in plain numbers: parity shards are optional, the frame takes 8 bytes. */
  predicate Admissible(s: Sizes, payload: Payload) {
    1 <= |payload| <= s.maximumPayload < 0x1_0000_0000_0000_0000 && 1 <= s.dataShards <= s.totalShards && 1 <= s.shardBytes &&
    8 + |payload| <= s.dataShards * s.shardBytes
  }

  lemma AdmissibleEncodes(codec: Codec, s: Sizes, payload: Payload)
    ensures EncodedShards(codec, s, payload).Some? ==> Admissible(s, payload)
    ensures Admissible(s, payload) && Lawful(codec, s.dataShards, s.totalShards, s.shardBytes) ==>
              EncodedShards(codec, s, payload).Some? && |EncodedShards(codec, s, payload).value| == s.totalShards &&
              forall i :: 0 <= i < s.totalShards ==> |EncodedShards(codec, s, payload).value[i]| == s.shardBytes
  {
    if Admissible(s, payload) && Lawful(codec, s.dataShards, s.totalShards, s.shardBytes) {
      var packed := Packed(payload, Product(s.dataShards, s.shardBytes));
      assert EncodesWell(codec, s.dataShards, s.totalShards, s.shardBytes, packed);
    }
  }

  /** Encode and commit: the root and one store per holder. */
  method EncodeSized(codec: Codec, instance: Tag, payload: Payload, s: Sizes) returns (r: Option<(Digest, seq<Store>)>)
    requires s.maximumPayload < WORD
    ensures r.Some? <==> EncodedShards(codec, s, payload).Some?
    ensures r.Some? ==> Admissible(s, payload)
    ensures Admissible(s, payload) && Lawful(codec, s.dataShards, s.totalShards, s.shardBytes) ==> r.Some?
    ensures r.Some? ==>
              var shards := EncodedShards(codec, s, payload).value;
              EncodedRoot(codec, instance, s, payload) == Some(r.value.0) && |r.value.1| == |shards| &&
              forall i :: 0 <= i < |shards| ==> r.value.1[i] == StoreOf(instance, shards, i)
  {
    hide Product, Merkle.Root, Branch, Leaves, Lawful, Admissible;
    AdmissibleEncodes(codec, s, payload);
    if |payload| == 0 || s.maximumPayload <= 0 || |payload| > s.maximumPayload || s.dataShards <= 0 ||
       s.totalShards < s.dataShards || s.shardBytes <= 0 ||
       HEADER + |payload| > Product(s.dataShards, s.shardBytes) {
      return None;
    }
    var size := Product(s.dataShards, s.shardBytes);
    var packed := Header(|payload|) + payload + seq(size - HEADER - |payload|, i => 0);
    var encoded := codec.encode(packed, s.dataShards, s.totalShards);
    if encoded == None || |encoded.value| != s.totalShards || |encoded.value[0]| == 0 {
      return None;
    }
    var shards := encoded.value;
    var root, branches := BuildMerkle(instance, shards);
    var stores := [];
    for i := 0 to |shards|
      invariant |stores| == i && forall k :: 0 <= k < i ==> stores[k] == StoreOf(instance, shards, k)
    {
      stores := stores + [Store(instance, root, i, shards[i], branches[i])];
    }
    r := Some((root, stores));
  }

  // ---------------------------------------------------------------- stores

  predicate ValidStore(store: Store, totalShards: int, shardBytes: int) {
    0 <= store.index < totalShards && shardBytes > 0 && |store.shard| == shardBytes &&
    |store.siblings| == Depth(totalShards) &&
    Climb(ShardHash(store.instance, store.index, store.shard), store.index, store.siblings) == store.root
  }

  method VerifyStore(store: Store, totalShards: int, shardBytes: int) returns (ok: bool)
    ensures ok <==> ValidStore(store, totalShards, shardBytes)
    ensures ok ==> 0 <= store.index < totalShards && |store.shard| == shardBytes > 0 && |store.siblings| == Depth(totalShards)
  {
    if store.index < 0 || store.index >= totalShards || shardBytes <= 0 || |store.shard| != shardBytes {
      return false;
    }
    var wantDepth := MerkleDepth(totalShards);
    if |store.siblings| != wantDepth {
      return false;
    }
    var digest := ClimbBranch(ShardHash(store.instance, store.index, store.shard), store.index, store.siblings);
    ok := digest == store.root;
  }

  /** Two valid stores for one instance, root and index carry the same shard and branch. */
  lemma StoreBinding(a: Store, b: Store, totalShards: int, shardBytes: int)
    requires ValidStore(a, totalShards, shardBytes) && ValidStore(b, totalShards, shardBytes)
    requires a.instance == b.instance && a.root == b.root && a.index == b.index
    ensures a == b
  {
    ClimbBinds(ShardHash(a.instance, a.index, a.shard), ShardHash(b.instance, b.index, b.shard), a.index, a.siblings,
               b.siblings);
  }

  /** Every store of an honest encoding is valid. */
  lemma HonestStoreValid(codec: Codec, instance: Tag, s: Sizes, payload: Payload, i: nat)
    requires EncodedShards(codec, s, payload).Some? && i < s.totalShards
    requires |EncodedShards(codec, s, payload).value[i]| == s.shardBytes
    ensures ValidStore(StoreOf(instance, EncodedShards(codec, s, payload).value, i), s.totalShards, s.shardBytes)
  {
    BranchCorrect(Leaves(instance, EncodedShards(codec, s, payload).value), i);
  }

  // ---------------------------------------------------------------- recovery

  /** The payload re-encodes to the locked root. */
  predicate Authentic(codec: Codec, lock: Lock, s: Sizes, payload: Payload) {
    EncodedRoot(codec, lock.instance, s, payload) == Some(lock.root)
  }

  ghost predicate LawfulFor(codec: Codec, s: Sizes) {
    0 < s.dataShards <= s.totalShards && s.shardBytes > 0 &&
    Lawful(codec, s.dataShards, s.totalShards, s.shardBytes)
  }

  /** A lock has at most one authentic payload, however it was obtained. */
  lemma AuthenticUnique(codec: Codec, lock: Lock, s: Sizes, a: Payload, b: Payload)
    requires LawfulFor(codec, s) && Authentic(codec, lock, s, a) && Authentic(codec, lock, s, b)
    ensures a == b
  {
    hide Product, Power;
    var x, y := EncodedShards(codec, s, a).value, EncodedShards(codec, s, b).value;
    ShardRootInjective(lock.instance, x, lock.instance, y);
    var size := Product(s.dataShards, s.shardBytes);
    assert EncodesWell(codec, s.dataShards, s.totalShards, s.shardBytes, Packed(a, size));
    assert EncodesWell(codec, s.dataShards, s.totalShards, s.shardBytes, Packed(b, size));
    EncodeInjective(codec, s.dataShards, s.totalShards, s.shardBytes, Packed(a, size), Packed(b, size));
    PackedInjective(a, b, size);
  }

  predicate Matches(lock: Lock, store: Store, s: Sizes) {
    store.instance == lock.instance && store.root == lock.root && ValidStore(store, s.totalShards, s.shardBytes)
  }

  /** Under an authentic root every valid store holds the honest shard. */
  lemma StoreIsHonest(codec: Codec, lock: Lock, s: Sizes, payload: Payload, store: Store)
    requires Authentic(codec, lock, s, payload) && Matches(lock, store, s)
    ensures store.shard == EncodedShards(codec, s, payload).value[store.index]
  {
    HonestRootBinds(lock.instance, EncodedShards(codec, s, payload).value, store.index, store.shard, store.siblings);
  }

  /** Enough stores, all valid for the lock, no index twice. */
  ghost predicate Usable(lock: Lock, stores: seq<Store>, s: Sizes) {
    && 0 < s.dataShards <= s.totalShards && s.shardBytes > 0 && 0 < s.maximumPayload < WORD
    && |stores| >= s.dataShards
    && (forall i :: 0 <= i < |stores| ==> Matches(lock, stores[i], s))
    && (forall i, j :: 0 <= i < j < |stores| ==> stores[i].index != stores[j].index)
  }

  /** The payload framed in `packed`, when its length is plausible. */
  function Unpack(packed: Payload, maximumPayload: int): Option<Payload> {
    if |packed| < HEADER then None
    else
      var length := BigEndianValue(packed[..HEADER]);
      if length <= 0 || length > |packed| - HEADER || length > maximumPayload then None
      else Some(packed[HEADER..HEADER + length])
  }

  lemma UnpackPacked(payload: Payload, size: nat, maximumPayload: int)
    requires 0 < |payload| <= maximumPayload < WORD && HEADER + |payload| <= size
    ensures Unpack(Packed(payload, size), maximumPayload) == Some(payload)
  {
    WordPower();
    BigEndianRoundTrip(|payload|, HEADER);
  }

  /** One more shard entered in the table. */
  lemma {:induction false} CountUpdate(partial: seq<Option<Payload>>, i: nat, shard: Payload)
    requires i < |partial| && partial[i] == None
    ensures Count(partial[i := Some(shard)]) == Count(partial) + 1
  {
    var n := |partial| - 1;
    if i < n {
      CountUpdate(partial[..n], i, shard);
      assert partial[i := Some(shard)][..n] == partial[..n][i := Some(shard)];
    } else {
      assert partial[i := Some(shard)][..n] == partial[..n];
    }
  }

  lemma {:induction false} CountNone(partial: seq<Option<Payload>>)
    requires forall i :: 0 <= i < |partial| ==> partial[i] == None
    ensures Count(partial) == 0
  {
    if |partial| > 0 {
      CountNone(partial[..|partial| - 1]);
    }
  }

  /** The shard table and the set of indices seen. */
  method FillShards(lock: Lock, stores: seq<Store>, s: Sizes) returns (r: Option<seq<Option<Payload>>>, seen: set<int>)
    requires 0 < s.dataShards <= s.totalShards
    ensures r.Some? <==> (forall i :: 0 <= i < |stores| ==> Matches(lock, stores[i], s)) &&
                         (forall i, j :: 0 <= i < j < |stores| ==> stores[i].index != stores[j].index)
    ensures r.Some? ==> |r.value| == s.totalShards && Count(r.value) == |seen| == |stores|
    ensures r.Some? ==> forall k :: 0 <= k < s.totalShards && r.value[k].Some? ==>
              exists i :: 0 <= i < |stores| && stores[i].index == k && stores[i].shard == r.value[k].value
  {
    hide Matches, Count;
    var shards: seq<Option<Payload>> := seq(s.totalShards, i => None);
    CountNone(shards);
    seen := {};
    for n := 0 to |stores|
      invariant |shards| == s.totalShards && Count(shards) == |seen| == n
      invariant forall i :: 0 <= i < n ==> Matches(lock, stores[i], s) && stores[i].index in seen
      invariant forall i, j :: 0 <= i < j < n ==> stores[i].index != stores[j].index
      invariant forall k :: k in seen ==> exists i :: 0 <= i < n && stores[i].index == k
      invariant forall k :: 0 <= k < s.totalShards ==> (shards[k].Some? <==> k in seen)
      invariant forall k :: 0 <= k < s.totalShards && shards[k].Some? ==>
                  exists i :: 0 <= i < n && stores[i].index == k && stores[i].shard == shards[k].value
    {
      var store := stores[n];
      var ok := VerifyStore(store, s.totalShards, s.shardBytes);
      MatchesIs(lock, store, s);
      if store.instance != lock.instance || store.root != lock.root || !ok {
        return None, {};
      }
      if store.index in seen {
        return None, {};
      }
      IndexInRange(lock, store, s);
      CountUpdate(shards, store.index, store.shard);
      seen := seen + {store.index};
      shards := shards[store.index := Some(store.shard)];
    }
    r := Some(shards);
  }

  lemma MatchesIs(lock: Lock, store: Store, s: Sizes)
    ensures Matches(lock, store, s) <==>
            store.instance == lock.instance && store.root == lock.root && ValidStore(store, s.totalShards, s.shardBytes)
  {}

  lemma IndexInRange(lock: Lock, store: Store, s: Sizes)
    requires Matches(lock, store, s)
    ensures 0 <= store.index < s.totalShards
  {}

  /**
    Recovery from stores.  What it returns re-encodes to the locked root; and when the root has an
    authentic payload at all, every usable set of stores yields exactly that payload.
   */
  method Recover(codec: Codec, lock: Lock, stores: seq<Store>, s: Sizes, binding: Payload -> bool) returns (r: Option<Payload>)
    requires s.maximumPayload < WORD
    ensures r.Some? ==> Usable(lock, stores, s) && Authentic(codec, lock, s, r.value) && binding(r.value)
    ensures LawfulFor(codec, s) && Usable(lock, stores, s) ==>
              forall p :: Authentic(codec, lock, s, p) ==> r == if binding(p) then Some(p) else None
  {
    hide Lawful, Product, EncodedRoot, Matches;
    if s.dataShards <= 0 || s.totalShards < s.dataShards || s.shardBytes <= 0 || s.maximumPayload <= 0 ||
       |stores| < s.dataShards {
      return None;
    }
    var shards, seen := FillShards(lock, stores, s);
    if shards == None || |seen| < s.dataShards {
      return None;
    }
    var packed := codec.decode(shards.value, s.dataShards);
    forall p | LawfulFor(codec, s) && Authentic(codec, lock, s, p)
      ensures packed.Some? && Unpack(packed.value, s.maximumPayload) == Some(p)
    {
      DecodesAuthentic(codec, lock, stores, s, shards.value, p);
    }
    if packed == None {
      return None;
    }
    var payload := Unpack(packed.value, s.maximumPayload);
    if payload == None {
      return None;
    }
    var reencoded := EncodeSized(codec, lock.instance, payload.value, s);
    if reencoded == None || reencoded.value.0 != lock.root {
      NotAuthentic(codec, lock, s, payload.value);
      return None;
    }
    if !binding(payload.value) {
      return None;
    }
    r := payload;
  }

  /**
    The round trip: an admissible payload is encoded into one store per holder, and any `dataShards` or
    more different stores, in any order, give exactly the payload back.
   */
  method EncodeAndRecover(codec: Codec, instance: Tag, payload: Payload, s: Sizes, picks: seq<nat>)
    returns (encoded: Option<(Digest, seq<Store>)>, r: Option<Payload>)
    requires 1 <= |payload| <= s.maximumPayload < 0x1_0000_0000_0000_0000 && 1 <= s.dataShards <= s.totalShards
    requires 1 <= s.shardBytes && 8 + |payload| <= s.dataShards * s.shardBytes
    requires Lawful(codec, s.dataShards, s.totalShards, s.shardBytes)
    requires |picks| >= s.dataShards && forall i :: 0 <= i < |picks| ==> picks[i] < s.totalShards
    requires forall i, j :: 0 <= i < j < |picks| ==> picks[i] != picks[j]
    ensures encoded.Some? && |encoded.value.1| == s.totalShards
    ensures forall i :: 0 <= i < s.totalShards ==> encoded.value.1[i].index == i && |encoded.value.1[i].shard| == s.shardBytes
    ensures r == Some(payload)
  {
    hide Lawful, EncodedRoot, ValidStore, StoreOf, EncodedShards, Product;
    encoded := EncodeSized(codec, instance, payload, s);
    AdmissibleEncodes(codec, s, payload);
    var stores := encoded.value.1;
    var lock := Lock(instance, encoded.value.0);
    forall i | 0 <= i < s.totalShards
      ensures stores[i].index == i && |stores[i].shard| == s.shardBytes && Matches(lock, stores[i], s)
    {
      HonestStoreValid(codec, instance, s, payload, i);
      StoreFields(codec, instance, s, payload, i);
    }
    var chosen := seq(|picks|, i requires 0 <= i < |picks| => stores[picks[i]]);
    assert Usable(lock, chosen, s) by {
      forall i, j | 0 <= i < j < |chosen| ensures chosen[i].index != chosen[j].index {
        assert picks[i] != picks[j];
      }
    }
    assert Authentic(codec, lock, s, payload);
    r := Recover(codec, lock, chosen, s, p => true);
  }

  lemma StoreFields(codec: Codec, instance: Tag, s: Sizes, payload: Payload, i: nat)
    requires EncodedShards(codec, s, payload).Some? && i < |EncodedShards(codec, s, payload).value|
    ensures var shards := EncodedShards(codec, s, payload).value;
            var store := StoreOf(instance, shards, i);
            store.index == i && store.shard == shards[i] && store.instance == instance &&
            EncodedRoot(codec, instance, s, payload) == Some(store.root)
  {}

  lemma NotAuthentic(codec: Codec, lock: Lock, s: Sizes, payload: Payload)
    requires EncodedShards(codec, s, payload).None? || EncodedRoot(codec, lock.instance, s, payload) != Some(lock.root)
    ensures !Authentic(codec, lock, s, payload)
  {}

  /** Valid stores under an authentic root decode to its packed payload. */
  lemma DecodesAuthentic(codec: Codec, lock: Lock, stores: seq<Store>, s: Sizes, shards: seq<Option<Payload>>, p: Payload)
    requires LawfulFor(codec, s) && Authentic(codec, lock, s, p) && |shards| == s.totalShards && Count(shards) >= s.dataShards
    requires forall i :: 0 <= i < |stores| ==> Matches(lock, stores[i], s)
    requires forall k :: 0 <= k < s.totalShards && shards[k].Some? ==>
               exists i :: 0 <= i < |stores| && stores[i].index == k && stores[i].shard == shards[k].value
    ensures var packed := codec.decode(shards, s.dataShards);
            packed.Some? && Unpack(packed.value, s.maximumPayload) == Some(p)
  {
    hide Product, Matches, Count, Unpack, Power;
    var size := Product(s.dataShards, s.shardBytes);
    var honest := EncodedShards(codec, s, p).value;
    forall k | 0 <= k < s.totalShards && shards[k].Some? ensures shards[k].value == honest[k] {
      var i :| 0 <= i < |stores| && stores[i].index == k && stores[i].shard == shards[k].value;
      StoreIsHonest(codec, lock, s, p, stores[i]);
    }
    assert EncodesWell(codec, s.dataShards, s.totalShards, s.shardBytes, Packed(p, size));
    assert Agrees(shards, honest);
    UnpackPacked(p, size, s.maximumPayload);
  }
}
