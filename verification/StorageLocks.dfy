/**
  Dispersal locks as a protocol: holders file one store per instance and sign its root, and enough
  signatures make a lock.  Runs are those of one session, a fixed session identifier and epoch.
 */
module StorageLocks {
  import opened Common
  import opened Merkle
  import opened Dispersal
  import opened OneShot

  // ---------------------------------------------------------------- the holder's store

  datatype Key = Key(sid: string, epoch: nat, holder: int, instance: Tag)

  /** What a stored-share signature says. */
  datatype Stored = Stored(instance: Tag, root: Digest)

  ghost predicate StrictlyIncreasing(roster: seq<int>) {
    forall i, j :: 0 <= i < j < |roster| ==> roster[i] < roster[j]
  }

  method CheckRoster(roster: seq<int>) returns (ok: bool)
    ensures ok <==> StrictlyIncreasing(roster)
  {
    if |roster| == 0 {
      return true;
    }
    for i := 1 to |roster|
      invariant forall j, k :: 0 <= j < k < i && k < |roster| ==> roster[j] < roster[k]
    {
      if roster[i - 1] >= roster[i] {
        return false;
      }
    }
    ok := true;
  }

  /** The holder's place in the roster, or -1. */
  method Position(roster: seq<int>, holder: int) returns (r: int)
    ensures -1 <= r < |roster| && (r >= 0 ==> roster[r] == holder)
    ensures r < 0 ==> holder !in roster
  {
    for i := 0 to |roster|
      invariant forall j :: 0 <= j < i ==> roster[j] != holder
    {
      if roster[i] == holder {
        return i;
      }
    }
    r := -1;
  }

  lemma IndexedStore(store: Store, totalShards: int, shardBytes: int)
    ensures ValidStore(store, totalShards, shardBytes) ==> 0 <= store.index < totalShards
  {}

  class HolderStore {
    var files: map<Key, Store>

    constructor ()
      ensures files == map[]
    {
      files := map[];
    }

    /** The request is well formed and the store is the holder's own, correctly placed and verified. */
    ghost predicate Acceptable(sid: string, epoch: nat, holder: int, canSign: bool, roster: seq<int>, store: Store,
                               totalShards: int, shardBytes: int) {
      !Blank(sid) && 0 < epoch <= MAX_EPOCH && holder >= 0 && canSign && |roster| == totalShards &&
      StrictlyIncreasing(roster) && ValidStore(store, totalShards, shardBytes) && roster[store.index] == holder
    }

    /**
      Persist, then sign, once: the returned statement is on file under its key, a key keeps its first
      store for ever, and nothing else in the store changes.
     */
    method StoreAndSignOnce(sid: string, epoch: nat, holder: int, canSign: bool, roster: seq<int>, store: Store,
                            totalShards: int, shardBytes: int) returns (r: Option<Stored>)
      modifies this
      ensures var k := Key(sid, epoch, holder, store.instance);
              var ok := Acceptable(sid, epoch, holder, canSign, roster, store, totalShards, shardBytes) &&
                        CanPut(old(files), k, store);
              r == (if ok then Some(Stored(store.instance, store.root)) else None) &&
              files == if ok then old(files)[k := store] else old(files)
      ensures forall k :: k in old(files) ==> k in files && files[k] == old(files)[k]
      ensures r.Some? ==> 0 < epoch < 0x8000_0000_0000_0000 && sid != "" && canSign && holder >= 0 && |roster| == totalShards &&
                          0 <= store.index < totalShards && roster[store.index] == holder && shardBytes > 0 &&
                          LockProtocol(totalShards, {}, shardBytes).accept(store.index, store)
    {
      hide ValidStore;
      if sid == "" || epoch == 0 || holder < 0 || !canSign || |roster| != totalShards {
        return None;
      }
      var increasing := CheckRoster(roster);
      if !increasing {
        return None;
      }
      var holderIndex := Position(roster, holder);
      IndexedStore(store, totalShards, shardBytes);
      if holderIndex < 0 || store.index != holderIndex {
        return None;
      }
      var ok := VerifyStore(store, totalShards, shardBytes);
      if !ok || epoch > MAX_EPOCH || Blank(sid) {
        return None;
      }
      var k := Key(sid, epoch, holder, store.instance);
      if !CanPut(files, k, store) {
        return None;
      }
      files := files[k := store];
      r := Some(Stored(store.instance, store.root));
    }

    /** The store that an honest dispersal sends to a holder is one it accepts. */
    lemma HonestAcceptable(codec: Codec, sid: string, epoch: nat, roster: seq<int>, instance: Tag, payload: Payload, s: Sizes, i: nat,
                           letter: nat)
      requires letter < |sid| && 0x21 <= sid[letter] as int <= 0x7e && 0 < epoch < 0x8000_0000_0000_0000
      requires StrictlyIncreasing(roster) && |roster| == s.totalShards && i < |roster| && roster[i] >= 0
      requires Admissible(s, payload) && Lawful(codec, s.dataShards, s.totalShards, s.shardBytes)
      ensures EncodedShards(codec, s, payload).Some?
      ensures Acceptable(sid, epoch, roster[i], true, roster, StoreOf(instance, EncodedShards(codec, s, payload).value, i),
                         s.totalShards, s.shardBytes)
    {
      hide EncodedShards, ValidStore, Lawful, StoreOf;
      AdmissibleEncodes(codec, s, payload);
      HonestStoreValid(codec, instance, s, payload, i);
      StoreFields(codec, instance, s, payload, i);
    }

    /** Reading back for a recovery request: only the store of the requested lock is released. */
    method Read(sid: string, epoch: nat, holder: int, instance: Tag, root: Digest, totalShards: int, shardBytes: int)
      returns (r: Option<Store>)
      ensures r.Some? <==> totalShards > 0 && shardBytes > 0 && Key(sid, epoch, holder, instance) in files &&
                           var store := files[Key(sid, epoch, holder, instance)];
                           Matches(Lock(instance, root), store, Sizes(0, totalShards, shardBytes, 0))
      ensures r.Some? ==> r.value == files[Key(sid, epoch, holder, instance)]
    {
      var k := Key(sid, epoch, holder, instance);
      if totalShards <= 0 || shardBytes <= 0 || k !in files {
        return None;
      }
      var ok := VerifyStore(files[k], totalShards, shardBytes);
      if !ok || files[k].instance != instance || files[k].root != root {
        return None;
      }
      r := Some(files[k]);
    }
  }

  // ---------------------------------------------------------------- the protocol

  /** Members are roster positions; a member files stores by instance and signs their roots. */
  function LockProtocol(n: nat, faulty: set<Member>, shardBytes: nat): Protocol<Tag, Store, Stored> {
    Protocol(n, faulty, (s: Store) => s.instance, (s: Store) => Stored(s.instance, s.root),
             (h, s: Store) => ValidStore(s, n, shardBytes) && s.index == h)
  }

  type LockSteps = seq<Step<Store, Stored>>

  /** A lock is valid when its statement is certified. */
  ghost predicate Locked(p: Protocol<Tag, Store, Stored>, steps: LockSteps, t: nat, lock: Lock) {
    Run(p, steps).Some? && Certified(p, Run(p, steps).value, t, Stored(lock.instance, lock.root))
  }

  /** With `2t > n + f`, one instance has one locked root, in every run. */
  lemma LocksAgree(n: nat, faulty: set<Member>, f: nat, t: nat, shardBytes: nat, steps: LockSteps, a: Lock, b: Lock)
    requires |faulty| <= f && 2 * t > n + f && a.instance == b.instance
    requires Locked(LockProtocol(n, faulty, shardBytes), steps, t, a)
    requires Locked(LockProtocol(n, faulty, shardBytes), steps, t, b)
    ensures a == b
  {
    CertificatesAgree(LockProtocol(n, faulty, shardBytes), steps, f, t, Stored(a.instance, a.root),
                      Stored(b.instance, b.root), a.instance);
  }

  /** An honest dispersal is locked by the honest holders alone. */
  lemma LockReached(n: nat, faulty: set<Member>, f: nat, codec: Codec, s: Sizes, instance: Tag, payload: Payload)
    returns (steps: LockSteps, lock: Lock)
    requires |faulty| <= f <= n == s.totalShards && Admissible(s, payload) && Lawful(codec, s.dataShards, s.totalShards, s.shardBytes)
    ensures forall k :: 0 <= k < |steps| ==> steps[k].Persist? || steps[k].Sign?
    ensures Locked(LockProtocol(n, faulty, s.shardBytes), steps, n - f, lock) && lock.instance == instance
    ensures Authentic(codec, lock, s, payload)
  {
    hide EncodedShards, ValidStore, Lawful, StoreOf, Admissible;
    AdmissibleEncodes(codec, s, payload);
    AdmissibleSizes(s, payload);
    var shards := EncodedShards(codec, s, payload).value;
    lock := Lock(instance, EncodedRoot(codec, instance, s, payload).value);
    var p := LockProtocol(n, faulty, s.shardBytes);
    var r := (h: Member) => StoreAt(instance, shards, h);
    forall h | 0 <= h < n ensures p.accept(h, r(h)) && p.statement(r(h)) == Stored(instance, lock.root) {
      HonestStoreValid(codec, instance, s, payload, h);
      StoreFields(codec, instance, s, payload, h);
    }
    steps := HonestCertify(p, r, Stored(instance, lock.root), f);
  }

  lemma AdmissibleSizes(s: Sizes, payload: Payload)
    requires Admissible(s, payload)
    ensures s.totalShards > 0 && s.shardBytes > 0
  {}

  /** Some run of at most `f` faulty members locks two roots for one instance. */
  ghost predicate CanConflict(n: nat, f: nat, t: nat, shardBytes: nat) {
    exists faulty: set<Member>, steps: LockSteps, a: Lock, b: Lock :: |faulty| <= f && a != b && a.instance == b.instance &&
      Locked(LockProtocol(n, faulty, shardBytes), steps, t, a) && Locked(LockProtocol(n, faulty, shardBytes), steps, t, b)
  }

  function Constant(n: nat, shardBytes: nat, byte: int): (r: seq<Payload>)
    ensures |r| == n && forall i :: 0 <= i < n ==> |r[i]| == shardBytes
  {
    seq(n, i => seq(shardBytes, j => byte))
  }

  /** The store of position `h`, or of position zero beyond the end. */
  function StoreAt(instance: Tag, shards: seq<Payload>, h: nat): Store
    requires |shards| > 0
  {
    StoreOf(instance, shards, if h < |shards| then h else 0)
  }

  lemma StoreAtAccepted(n: nat, faulty: set<Member>, shardBytes: nat, instance: Tag, byte: int)
    requires n > 0 && shardBytes > 0
    ensures var p := LockProtocol(n, faulty, shardBytes);
            var shards := Constant(n, shardBytes, byte);
            forall h: nat :: 0 <= h < n ==>
              p.accept(h, StoreAt(instance, shards, h)) &&
              p.statement(StoreAt(instance, shards, h)) == Stored(instance, ShardRoot(instance, shards))
  {
    var shards := Constant(n, shardBytes, byte);
    forall h: nat | 0 <= h < n ensures ValidStore(StoreAt(instance, shards, h), n, shardBytes) {
      BranchCorrect(Leaves(instance, shards), h);
    }
  }

  lemma RootsDiffer(n: nat, shardBytes: nat, instance: Tag)
    requires n > 0 && shardBytes > 0
    ensures ShardRoot(instance, Constant(n, shardBytes, 0)) != ShardRoot(instance, Constant(n, shardBytes, 1))
  {
    var x, y := Constant(n, shardBytes, 0), Constant(n, shardBytes, 1);
    assert x[0][0] == 0 && y[0][0] == 1;
    if ShardRoot(instance, x) == ShardRoot(instance, y) {
      ShardRootInjective(instance, x, instance, y);
    }
  }

  lemma LowThresholdConflicts(n: nat, f: nat, t: nat, shardBytes: nat)
    requires 0 < t <= n && 2 * t <= n + f && shardBytes > 0
    ensures CanConflict(n, f, t, shardBytes)
  {
    hide ShardRoot, StoreAt, Constant, Run, Certified;
    var instance: Tag := [];
    var p := LockProtocol(n, Overlap(n, t), shardBytes);
    var x, y := Constant(n, shardBytes, 0), Constant(n, shardBytes, 1);
    RootsDiffer(n, shardBytes, instance);
    StoreAtAccepted(n, Overlap(n, t), shardBytes, instance, 0);
    StoreAtAccepted(n, Overlap(n, t), shardBytes, instance, 1);
    var a, b := Lock(instance, ShardRoot(instance, x)), Lock(instance, ShardRoot(instance, y));
    var steps := ConflictRun(p, t, (h: Member) => StoreAt(instance, x, h), (h: Member) => StoreAt(instance, y, h),
                             Stored(instance, a.root), Stored(instance, b.root));
    assert |p.faulty| <= f && a != b && a.instance == b.instance && Locked(p, steps, t, a) && Locked(p, steps, t, b);
  }

  /** Locks are unique in every run exactly when `2t > n + f`. */
  lemma LocksUniqueExactly(n: nat, f: nat, t: nat, shardBytes: nat)
    requires 0 < t <= n && shardBytes > 0
    ensures CanConflict(n, f, t, shardBytes) <==> 2 * t <= n + f
  {
    if 2 * t <= n + f {
      LowThresholdConflicts(n, f, t, shardBytes);
    } else if CanConflict(n, f, t, shardBytes) {
      var faulty: set<Member>, steps: LockSteps, a: Lock, b: Lock :| |faulty| <= f && a != b && a.instance == b.instance &&
        Locked(LockProtocol(n, faulty, shardBytes), steps, t, a) && Locked(LockProtocol(n, faulty, shardBytes), steps, t, b);
      LocksAgree(n, faulty, f, t, shardBytes, steps, a, b);
      assert false;
    }
  }

  /**
    The derived lock threshold is `2f + 1`, and configurations only promise `n >= 3f + 1`: locks are
    unique exactly when the committee is as small as that allows.
   */
  lemma DerivedThreshold(n: nat, f: nat, shardBytes: nat)
    requires n >= 3 * f + 1 && shardBytes > 0
    ensures !CanConflict(n, f, 2 * f + 1, shardBytes) <==> n == 3 * f + 1
  {
    LocksUniqueExactly(n, f, 2 * f + 1, shardBytes);
  }

  // ---------------------------------------------------------------- recoverability

  /** Distinct valid stores of the lock, each on file with an honest holder. */
  ghost predicate HeldStores(p: Protocol<Tag, Store, Stored>, st: State<Tag, Store, Stored>, lock: Lock, stores: seq<Store>,
                             shardBytes: nat)
    requires Shaped(p, st)
  {
    (forall i :: 0 <= i < |stores| ==>
       0 <= stores[i].index && Honest(p, stores[i].index) && Filed(p, st, stores[i].index, stores[i]) &&
       stores[i].instance == lock.instance && stores[i].root == lock.root && ValidStore(stores[i], p.n, shardBytes)) &&
    forall i, j :: 0 <= i < j < |stores| ==> stores[i].index != stores[j].index
  }

  lemma {:induction false} CollectStores(p: Protocol<Tag, Store, Stored>, st: State<Tag, Store, Stored>, faulty: set<Member>,
                                         shardBytes: nat, lock: Lock, holders: set<Member>) returns (stores: seq<Store>)
    requires p == LockProtocol(p.n, faulty, shardBytes) && Inv(p, st) && Shaped(p, st)
    requires forall h :: h in holders ==> h in Holders(p, st, Stored(lock.instance, lock.root))
    ensures |stores| == |holders| && HeldStores(p, st, lock, stores, shardBytes)
    ensures forall i :: 0 <= i < |stores| ==> stores[i].index in holders
    decreases holders
  {
    hide ValidStore, Holders, Inv;
    if holders == {} {
      stores := [];
    } else {
      assert (forall x :: x !in holders) ==> holders == {};
      var h :| h in holders;
      var rest := CollectStores(p, st, faulty, shardBytes, lock, holders - {h});
      var r := HeldStore(p, st, faulty, shardBytes, lock, h);
      stores := rest + [r];
    }
  }

  lemma HeldStore(p: Protocol<Tag, Store, Stored>, st: State<Tag, Store, Stored>, faulty: set<Member>, shardBytes: nat,
                  lock: Lock, h: Member) returns (r: Store)
    requires p == LockProtocol(p.n, faulty, shardBytes) && Inv(p, st)
    requires h in Holders(p, st, Stored(lock.instance, lock.root))
    ensures r.index == h && Honest(p, h) && Filed(p, st, h, r)
    ensures r.instance == lock.instance && r.root == lock.root && ValidStore(r, p.n, shardBytes)
  {
    hide ValidStore;
    assert Backed(p, st, h, Stored(lock.instance, lock.root));
    r :| Filed(p, st, h, r) && p.statement(r) == Stored(lock.instance, lock.root);
    assert p.accept(h, st.files[h][p.key(r)]);
  }

  /**
    A valid lock is recoverable: at least `t - f` honest holders have matching stores on file, so when
    that covers the data shards a recoverer always has a usable set.
   */
  lemma LockedIsRecoverable(n: nat, faulty: set<Member>, f: nat, t: nat, s: Sizes, steps: LockSteps, lock: Lock)
    returns (stores: seq<Store>)
    requires |faulty| <= f && 0 < s.dataShards <= t - f && s.totalShards == n >= t
    requires s.shardBytes > 0 && 0 < s.maximumPayload < WORD
    requires Locked(LockProtocol(n, faulty, s.shardBytes), steps, t, lock)
    ensures Usable(lock, stores, s)
    ensures var p := LockProtocol(n, faulty, s.shardBytes); HeldStores(p, Run(p, steps).value, lock, stores, s.shardBytes)
  {
    var p := LockProtocol(n, faulty, s.shardBytes);
    var st := Run(p, steps).value;
    RunKeepsInv(p, steps);
    CertifiedIsHeld(p, steps, f, t, Stored(lock.instance, lock.root));
    stores := CollectStores(p, st, faulty, s.shardBytes, lock, Holders(p, st, Stored(lock.instance, lock.root)));
  }
}
