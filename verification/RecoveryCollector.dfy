/**
  The collector of recovery responses for one lock.  Fragments and full payloads arrive in any order
  from any holder; whichever path completes first, what it returns is the one authentic payload.
 */
module RecoveryCollector {
  import opened Common
  import opened Merkle
  import opened Dispersal

  type Wire = seq<int>

  datatype Response = Response(instance: Tag, payload: Payload, hints: Wire)

  class Collector {
    const codec: Codec
    const lock: Lock
    const s: Sizes
    const memberIndex: map<int, nat>
    const binding: Payload -> bool
    var stores: map<int, Store>
    var storeWires: map<int, Wire>
    var payload: Option<Payload>
    var payloadHints: Wire

    /** Stores are filed under their own index and match the lock; an accepted payload is authentic. */
    ghost predicate Valid()
      reads this
    {
      && 0 < s.dataShards <= s.totalShards && s.shardBytes > 0 && 0 < s.maximumPayload < WORD
      && (forall m :: m in memberIndex ==> memberIndex[m] < s.totalShards)
      && stores.Keys == storeWires.Keys
      && (forall i :: i in stores ==> 0 <= i < s.totalShards && stores[i].index == i && Matches(lock, stores[i], s))
      && (payload.Some? ==> Authentic(codec, lock, s, payload.value))
    }

    constructor (codec: Codec, lock: Lock, roster: seq<int>, s: Sizes, binding: Payload -> bool)
      requires 0 < s.dataShards <= s.totalShards == |roster| && s.shardBytes > 0 && 0 < s.maximumPayload < WORD
      ensures Valid() && stores == map[] && storeWires == map[] && payload == None
      ensures this.codec == codec && this.lock == lock && this.s == s && this.binding == binding
    {
      this.codec, this.lock, this.s, this.binding := codec, lock, s, binding;
      this.memberIndex := map m | m in roster :: IndexIn(roster, m);
      this.stores, this.storeWires, this.payload, this.payloadHints := map[], map[], None, [];
    }

    /** A store that passed the wire decoder's Merkle check; `None` is an error. */
    method AddDecodedStore(from: int, store: Store, wire: Wire) returns (r: Option<bool>)
      requires Valid() && ValidStore(store, s.totalShards, s.shardBytes)
      modifies this`stores, this`storeWires
      ensures Valid()
      ensures var fits := |wire| > 0 && from in memberIndex && store.index == memberIndex[from] &&
                          store.instance == lock.instance && store.root == lock.root;
              var fresh_ := fits && store.index !in old(storeWires);
              && stores == (if fresh_ then old(stores)[store.index := store] else old(stores))
              && storeWires == (if fresh_ then old(storeWires)[store.index := wire] else old(storeWires))
              && (r.Some? <==> fits && (store.index in old(storeWires) ==> old(storeWires)[store.index] == wire))
              && (r.Some? ==> (r.value <==> |stores| >= s.dataShards))
    {
      if |wire| == 0 || from !in memberIndex {
        return None;
      }
      var expectedIndex := memberIndex[from];
      if store.index != expectedIndex || store.instance != lock.instance || store.root != lock.root {
        return None;
      }
      if expectedIndex in storeWires {
        if storeWires[expectedIndex] != wire {
          return None;
        }
        return Some(|stores| >= s.dataShards);
      }
      stores := stores[expectedIndex := store];
      storeWires := storeWires[expectedIndex := wire];
      r := Some(|stores| >= s.dataShards);
    }

    /** The second critical section: the response has been re-encoded, others may have run meanwhile. */
    method CommitPayload(response: Response, hintsEnabled: bool) returns (r: Option<bool>)
      requires Valid() && Authentic(codec, lock, s, response.payload)
      modifies this`payload, this`payloadHints
      ensures Valid()
      ensures payload == if old(payload).Some? then old(payload) else Some(response.payload)
      ensures r == if payload == Some(response.payload) then Some(true) else None
      ensures LawfulFor(codec, s) ==> r == Some(true)
    {
      if payload.Some? {
        if LawfulFor(codec, s) {
          AuthenticUnique(codec, lock, s, payload.value, response.payload);
        }
        if payload.value != response.payload {
          return None;
        }
        return Some(true);
      }
      if |payloadHints| == 0 && hintsEnabled && |response.hints| > 0 {
        payloadHints := response.hints;
      }
      payload := Some(response.payload);
      r := Some(true);
    }

    /** A full payload is accepted only when it reproduces the locked root. */
    method AddPayload(response: Response, hintsEnabled: bool) returns (r: Option<bool>)
      requires Valid()
      modifies this`payload, this`payloadHints
      ensures Valid()
      ensures r.Some? ==> payload == Some(response.payload) && r.value
      ensures r.None? ==> payload == old(payload)
      ensures LawfulFor(codec, s) ==> (r.Some? <==> response.instance == lock.instance &&
                                                    Authentic(codec, lock, s, response.payload))
    {
      if response.instance != lock.instance {
        return None;
      }
      if payload.Some? {
        if LawfulFor(codec, s) && Authentic(codec, lock, s, response.payload) {
          AuthenticUnique(codec, lock, s, payload.value, response.payload);
        }
        if payload.value != response.payload {
          return None;
        }
        return Some(true);
      }
      var reencoded := EncodeSized(codec, lock.instance, response.payload, s);
      if reencoded == None || reencoded.value.0 != lock.root {
        return None;
      }
      r := CommitPayload(response, hintsEnabled);
    }

    /** Stores in index order. */
    method OrderedStores() returns (out: seq<Store>)
      requires Valid()
      ensures |out| == |stores|
      ensures forall i :: 0 <= i < |out| ==> Matches(lock, out[i], s)
      ensures forall i, j :: 0 <= i < j < |out| ==> out[i].index < out[j].index
    {
      hide Matches;
      out := [];
      ghost var done: set<int> := {};
      for index := 0 to s.totalShards
        invariant done == set i | i in stores && i < index
        invariant |out| == |done|
        invariant forall i :: 0 <= i < |out| ==> Matches(lock, out[i], s) && out[i].index < index
        invariant forall i, j :: 0 <= i < j < |out| ==> out[i].index < out[j].index
      {
        if index in stores {
          out := out + [stores[index]];
          done := done + {index};
        }
      }
      assert done == stores.Keys;
      assert |stores.Keys| == |stores|;
    }

    /**
      Recovery by whichever path is available.  The result is authentic, and once the collector is
      complete it is the authentic payload exactly when one exists and passes the binding check.
     */
    method Recover() returns (r: Option<Payload>, fromPayload: bool)
      requires Valid()
      ensures r.Some? ==> (payload.Some? || |stores| >= s.dataShards) && Authentic(codec, lock, s, r.value) && binding(r.value)
      ensures LawfulFor(codec, s) && (payload.Some? || |stores| >= s.dataShards) ==>
                forall p :: Authentic(codec, lock, s, p) ==> r == if binding(p) then Some(p) else None
      ensures fromPayload <==> payload.Some?
    {
      hide Authentic, LawfulFor, Matches;
      if payload.Some? {
        forall p | LawfulFor(codec, s) && Authentic(codec, lock, s, p) ensures p == payload.value {
          AuthenticUnique(codec, lock, s, p, payload.value);
        }
        if !binding(payload.value) {
          return None, true;
        }
        return payload, true;
      }
      fromPayload := false;
      if |stores| < s.dataShards {
        return None, false;
      }
      var ordered := OrderedStores();
      r := Dispersal.Recover(codec, lock, ordered, s, binding);
    }
  }

  function IndexIn(roster: seq<int>, m: int): (i: nat)
    requires m in roster
    ensures i < |roster| && roster[i] == m
  {
    if roster[|roster| - 1] == m then |roster| - 1
    else
      assert roster == roster[..|roster| - 1] + [roster[|roster| - 1]];
      IndexIn(roster[..|roster| - 1], m)
  }

  lemma Placed(c: Collector, m: int)
    requires c.Valid() && m in c.memberIndex
    ensures c.memberIndex[m] < c.s.totalShards
  {}

  /** A valid store of the lock for one index. */
  predicate Honest(lock: Lock, s: Sizes, store: Store, i: nat) {
    store.index == i && store.instance == lock.instance && store.root == lock.root && ValidStore(store, s.totalShards, s.shardBytes)
  }

  lemma HonestStore(codec: Codec, lock: Lock, s: Sizes, payload: Payload, i: nat)
    requires Authentic(codec, lock, s, payload) && 0 < s.dataShards && i < s.totalShards && s.shardBytes > 0
    requires Lawful(codec, s.dataShards, s.totalShards, s.shardBytes)
    ensures EncodedShards(codec, s, payload).Some? && i < |EncodedShards(codec, s, payload).value|
    ensures Honest(lock, s, StoreOf(lock.instance, EncodedShards(codec, s, payload).value, i), i)
  {
    hide Lawful, StoreOf, ValidStore;
    AdmissibleEncodes(codec, s, payload);
    HonestStoreValid(codec, lock.instance, s, payload, i);
    StoreFields(codec, lock.instance, s, payload, i);
  }

  /**
    From any `dataShards` or more holders of an honest dispersal, in any order: every store is filed and
    the payload is recovered.
   */
  method CollectAndRecover(c: Collector, senders: seq<int>, wire: Wire, payload: Payload, stores: seq<Store>) returns (r: Option<Payload>)
    requires c.Valid() && c.stores == map[] && c.payload == None && |wire| > 0 && c.binding(payload)
    requires Lawful(c.codec, c.s.dataShards, c.s.totalShards, c.s.shardBytes) && Authentic(c.codec, c.lock, c.s, payload)
    requires |stores| == c.s.totalShards
    requires forall i :: 0 <= i < |stores| ==> stores[i] == StoreOf(c.lock.instance, EncodedShards(c.codec, c.s, payload).value, i)
    requires |senders| >= c.s.dataShards && forall i :: 0 <= i < |senders| ==> senders[i] in c.memberIndex
    requires forall i, j :: 0 <= i < j < |senders| ==> c.memberIndex[senders[i]] != c.memberIndex[senders[j]]
    modifies c
    ensures c.Valid() && r == Some(payload)
  {
    hide Matches, ValidStore, Lawful, EncodedShards, StoreOf, Authentic;
    forall i | 0 <= i < |stores| ensures Honest(c.lock, c.s, stores[i], i) {
      HonestStore(c.codec, c.lock, c.s, payload, i);
    }
    for n := 0 to |senders|
      invariant c.Valid() && |c.stores| == n && c.payload == None
      invariant forall i :: i in c.stores ==> exists k :: 0 <= k < n && c.memberIndex[senders[k]] == i
    {
      Placed(c, senders[n]);
      var i := c.memberIndex[senders[n]];
      assert Honest(c.lock, c.s, stores[i], i);
      assert i !in c.stores;
      ghost var before := c.stores;
      var added := c.AddDecodedStore(senders[n], stores[i], wire);
      assert c.stores.Keys == before.Keys + {i};
      assert |c.stores.Keys| == |c.stores| && |before.Keys| == |before|;
    }
    var fromPayload;
    r, fromPayload := c.Recover();
  }

  /** Any two successful recoveries against one lock agree. */
  lemma RecoveriesAgree(codec: Codec, lock: Lock, s: Sizes, a: Option<Payload>, b: Option<Payload>)
    requires LawfulFor(codec, s)
    requires a.Some? ==> Authentic(codec, lock, s, a.value)
    requires b.Some? ==> Authentic(codec, lock, s, b.value)
    ensures a.Some? && b.Some? ==> a == b
  {
    if a.Some? && b.Some? {
      AuthenticUnique(codec, lock, s, a.value, b.value);
    }
  }
}
