/**
  FirstKValid: of a pool of component descriptors, the first `f + 1` whose leaves load and verify.  The
  materializer and the verifier of an offer load in shrinking batches, and both may reuse an aggregate
  verified earlier; all of them select exactly the plain filter's prefix.
 */
module FirstValid {
  import opened Common

  datatype Descriptor = Descriptor(dealer: int, leaf: seq<int>, dispersal: seq<int>)

  /** A verified leaf, by the descriptor it was loaded for. */
  datatype Leaf = Leaf(of: Descriptor)

  /** The manifest root is a hash of the descriptors in order, so it determines them. */
  datatype Root = ManifestRoot(descriptors: seq<Descriptor>)

  /** An aggregate of verified leaves names the dealers and leaf digests it combines. */
  datatype Aggregate = Aggregate(parts: seq<(int, seq<int>)>)

  /** Retrieving and verifying a component: a function of the descriptor. */
  type Loader = Descriptor -> bool

  // ---------------------------------------------------------------- the plain filter

  function Filter(ds: seq<Descriptor>, load: Loader): (r: seq<Descriptor>)
    ensures |r| <= |ds|
  {
    if |ds| == 0 then []
    else
      var d := ds[|ds| - 1];
      Filter(ds[..|ds| - 1], load) + (if load(d) then [d] else [])
  }

  /** The first `want` valid descriptors in pool order, when there are that many. */
  function FirstK(ds: seq<Descriptor>, load: Loader, want: nat): Option<seq<Descriptor>> {
    if |Filter(ds, load)| < want then None else Some(Filter(ds, load)[..want])
  }

  lemma {:induction false} FilterConcat(a: seq<Descriptor>, b: seq<Descriptor>, load: Loader)
    ensures Filter(a + b, load) == Filter(a, load) + Filter(b, load)
    decreases |b|
  {
    if |b| == 0 {
      assert a + b == a && Filter(b, load) == [];
    } else {
      assert (a + b)[..|a + b| - 1] == a + b[..|b| - 1];
      FilterConcat(a, b[..|b| - 1], load);
    }
  }

  lemma {:induction false} FilterAll(ds: seq<Descriptor>, load: Loader)
    requires forall i :: 0 <= i < |ds| ==> load(ds[i])
    ensures Filter(ds, load) == ds
  {
    if |ds| > 0 {
      FilterAll(ds[..|ds| - 1], load);
      assert ds == ds[..|ds| - 1] + [ds[|ds| - 1]];
    }
  }

  lemma {:induction false} FilterValid(ds: seq<Descriptor>, load: Loader)
    ensures forall i :: 0 <= i < |Filter(ds, load)| ==> load(Filter(ds, load)[i])
  {
    if |ds| > 0 {
      FilterValid(ds[..|ds| - 1], load);
    }
  }

  // ---------------------------------------------------------------- positions

  /** The positions of the pool that load. */
  function Loading(ds: seq<Descriptor>, load: Loader): set<nat> {
    set i: nat | i < |ds| && load(ds[i])
  }

  /** The selection is what stands at the picked positions: the first ones that load, none left out. */
  ghost predicate Picks(ds: seq<Descriptor>, load: Loader, picked: seq<nat>, selected: seq<Descriptor>) {
    && |picked| == |selected|
    && (forall j :: 0 <= j < |picked| ==> picked[j] < |ds| && selected[j] == ds[picked[j]] && load(selected[j]))
    && (forall j, k :: 0 <= j < k < |picked| ==> picked[j] < picked[k])
    && forall i, k :: 0 <= i < |ds| && load(ds[i]) && 0 <= k < |picked| && i <= picked[k] ==> i in picked
  }

  /** Every position that loads is picked. */
  ghost predicate PicksAll(ds: seq<Descriptor>, load: Loader, picked: seq<nat>) {
    forall i :: 0 <= i < |ds| && load(ds[i]) ==> i in picked
  }

  lemma {:induction false} FilterPositions(ds: seq<Descriptor>, load: Loader) returns (picked: seq<nat>)
    ensures Picks(ds, load, picked, Filter(ds, load)) && PicksAll(ds, load, picked) && |Loading(ds, load)| == |picked|
  {
    hide Picks, PicksAll;
    if |ds| == 0 {
      picked := [];
      NoPosition(load);
    } else {
      var n := |ds| - 1;
      var before := FilterPositions(ds[..n], load);
      picked := before + if load(ds[n]) then [n] else [];
      assert Loading(ds, load) == Loading(ds[..n], load) + if load(ds[n]) then {n} else {};
      NextPosition(ds, load, before);
    }
  }

  lemma NoPosition(load: Loader)
    ensures Picks([], load, [], []) && PicksAll([], load, [])
  {}

  lemma NextPosition(ds: seq<Descriptor>, load: Loader, before: seq<nat>)
    requires |ds| > 0
    requires var front := ds[..|ds| - 1]; Picks(front, load, before, Filter(front, load)) && PicksAll(front, load, before)
    ensures var picked := before + if load(ds[|ds| - 1]) then [|ds| - 1] else [];
            Picks(ds, load, picked, Filter(ds, load)) && PicksAll(ds, load, picked)
  {
    var n := |ds| - 1;
    var picked := before + if load(ds[n]) then [n] else [];
    forall i | 0 <= i < |ds| && load(ds[i]) ensures i in picked {
      if i < n {
        assert ds[..n][i] == ds[i];
      } else {
        assert picked[|before|] == n;
      }
    }
  }

  /** There is a selection exactly when enough positions load, and then it holds the first of them. */
  lemma FirstKExact(ds: seq<Descriptor>, load: Loader, want: nat)
    ensures FirstK(ds, load, want).Some? <==> |Loading(ds, load)| >= want
    ensures FirstK(ds, load, want).Some? ==>
              |FirstK(ds, load, want).value| == want && exists picked :: Picks(ds, load, picked, FirstK(ds, load, want).value)
  {
    hide Loading, Filter;
    var all := FilterPositions(ds, load);
    if FirstK(ds, load, want).Some? {
      assert Picks(ds, load, all[..want], FirstK(ds, load, want).value);
    }
  }

  // ---------------------------------------------------------------- batches

  function Loaded(d: Descriptor, load: Loader): Option<Leaf> {
    if load(d) then Some(Leaf(d)) else None
  }

  /** One batch: workers write their results by index, finishing in whatever order. */
  method LoadOrdered(ds: seq<Descriptor>, load: Loader) returns (leaves: seq<Option<Leaf>>)
    ensures |leaves| == |ds| && forall i :: 0 <= i < |ds| ==> leaves[i] == Loaded(ds[i], load)
  {
    var table := new Option<Leaf>[|ds|](i => None);
    var running := Range(0, |ds|);
    while running != {}
      invariant forall i :: i in running ==> 0 <= i < |ds|
      invariant forall i :: 0 <= i < |ds| && i !in running ==> table[i] == Loaded(ds[i], load)
      decreases |running|
    {
      NonEmpty(running);
      var i :| i in running;
      table[i] := Loaded(ds[i], load);
      running := running - {i};
    }
    leaves := table[..];
  }

  /** Valid descriptors of a batch are appended in pool order. */
  method TakeBatch(ds: seq<Descriptor>, load: Loader) returns (taken: seq<Descriptor>)
    ensures taken == Filter(ds, load)
  {
    var loaded := LoadOrdered(ds, load);
    taken := [];
    for offset := 0 to |ds|
      invariant taken == Filter(ds[..offset], load)
    {
      assert ds[..offset + 1][..offset] == ds[..offset];
      if loaded[offset].Some? {
        taken := taken + [ds[offset]];
      }
    }
    assert ds[..|ds|] == ds;
  }

  /**
    The shrinking-batch loop.  Unless it is interrupted, it selects exactly what the plain filter
    selects: the first `want` descriptors that load, whenever that many positions load.
   */
  method SelectInBatches(ds: seq<Descriptor>, load: Loader, want: nat, interrupted: nat -> bool)
    returns (r: Option<seq<Descriptor>>)
    ensures r.Some? ==> r == FirstK(ds, load, want)
    ensures r.None? ==> FirstK(ds, load, want).None? || exists c: nat :: interrupted(c)
    ensures r.Some? ==> |r.value| == want && exists picked :: Picks(ds, load, picked, r.value)
    ensures r.Some? ==> |Loading(ds, load)| >= want
    ensures r.None? ==> |Loading(ds, load)| < want || exists c: nat :: interrupted(c)
  {
    hide Picks, Loading;
    FirstKExact(ds, load, want);
    var selected := [];
    var cursor := 0;
    while |selected| < want && cursor < |ds|
      invariant 0 <= cursor <= |ds| && |selected| <= want
      invariant selected == Filter(ds[..cursor], load)
      decreases |ds| - cursor
    {
      var end := cursor + (want - |selected|);
      if end > |ds| {
        end := |ds|;
      }
      var batch := TakeBatch(ds[cursor..end], load);
      FilterConcat(ds[..cursor], ds[cursor..end], load);
      assert ds[..cursor] + ds[cursor..end] == ds[..end];
      selected := selected + batch;
      cursor := end;
      if interrupted(cursor) {
        return None;
      }
    }
    FilterConcat(ds[..cursor], ds[cursor..], load);
    assert ds[..cursor] + ds[cursor..] == ds;
    if |selected| != want {
      assert ds[cursor..] == [];
      return None;
    }
    assert Filter(ds, load)[..want] == selected;
    r := Some(selected);
  }

  // ---------------------------------------------------------------- offers

  function Parts(ds: seq<Descriptor>): (r: seq<(int, seq<int>)>)
    ensures |r| == |ds|
  {
    seq(|ds|, i requires 0 <= i < |ds| => (ds[i].dealer, ds[i].leaf))
  }

  function Dealers(ds: seq<Descriptor>): (r: seq<int>)
    ensures |r| == |ds|
  {
    seq(|ds|, i requires 0 <= i < |ds| => ds[i].dealer)
  }

  /** The digest of an aggregate determines it. */
  datatype AggregateDigest = AggregateHash(aggregate: Aggregate)

  /** The root and payload digest of an aggregate's own dispersal. */
  datatype Coding = Coding(root: seq<int>, payloadDigest: seq<int>)

  datatype Header = Header(dealers: seq<int>, digest: AggregateDigest, coding: Coding)

  datatype Offer = Offer(header: Header, readyRoot: Root, root: Root)

  /** The offer a materializer makes for a selection of its pool. */
  function OfferFor(pool: seq<Descriptor>, selected: seq<Descriptor>, coding: Coding): Offer {
    Offer(Header(Dealers(selected), AggregateHash(Aggregate(Parts(selected))), coding), ManifestRoot(pool),
          ManifestRoot(selected))
  }

  class Service {
    const load: Loader
    const disperse: Aggregate -> Option<Coding>
    const want: nat
    const poolSize: nat
    var readyPools: map<Root, seq<Descriptor>>
    var resolved: map<(Root, Root), seq<Descriptor>>
    var verifiedByHeader: map<Header, Aggregate>
    var verifiedByRoot: map<Root, Aggregate>
    var dispersals: map<AggregateDigest, Coding>

    /** Cached manifests are the selection of their pool; cached aggregates and dispersals are the right ones. */
    ghost predicate Valid()
      reads this
    {
      && (forall k :: k in readyPools ==> k == ManifestRoot(readyPools[k]))
      && (forall k :: k in resolved ==> Selects(k.0, k.1) && FirstK(readyPools[k.0], load, want) == Some(resolved[k]))
      && (forall k :: k in verifiedByRoot ==> CombinesValid(k, verifiedByRoot[k]))
      && (forall h :: h in verifiedByHeader ==>
            h.digest == AggregateHash(verifiedByHeader[h]) && disperse(verifiedByHeader[h]) == Some(h.coding))
      && (forall d :: d in dispersals ==> disperse(d.aggregate) == Some(dispersals[d]))
    }

    /** The root is that of the selection from an accepted pool of the right size. */
    ghost predicate Selects(readyRoot: Root, root: Root)
      reads this
    {
      readyRoot in readyPools && |readyPools[readyRoot]| == poolSize &&
      FirstK(readyPools[readyRoot], load, want).Some? &&
      ManifestRoot(FirstK(readyPools[readyRoot], load, want).value) == root
    }

    /** The aggregate combines the components under the root, all of which load. */
    ghost predicate CombinesValid(root: Root, agg: Aggregate) {
      agg == Aggregate(Parts(root.descriptors)) &&
      forall i :: 0 <= i < |root.descriptors| ==> load(root.descriptors[i])
    }

    constructor (load: Loader, disperse: Aggregate -> Option<Coding>, want: nat, poolSize: nat)
      ensures Valid() && this.load == load && this.disperse == disperse && this.want == want && this.poolSize == poolSize
      ensures readyPools == map[]
    {
      this.load, this.disperse, this.want, this.poolSize := load, disperse, want, poolSize;
      readyPools, resolved, verifiedByHeader, verifiedByRoot, dispersals := map[], map[], map[], map[], map[];
    }

    /** A pool accepted with its certificate is filed under its own root. */
    method AcceptPool(pool: seq<Descriptor>)
      requires Valid()
      modifies this`readyPools
      ensures Valid() && readyPools == old(readyPools)[ManifestRoot(pool) := pool]
    {
      readyPools := readyPools[ManifestRoot(pool) := pool];
    }

    /** What an offer resolves to: the selection of its accepted pool, when dealers and root are its own. */
    ghost function Resolution(offer: Offer): Option<seq<Descriptor>>
      reads this
    {
      if !Selects(offer.readyRoot, offer.root) then None
      else
        var selected := FirstK(readyPools[offer.readyRoot], load, want);
        if Dealers(selected.value) == offer.header.dealers then selected else None
    }

    /** An offer resolves to the selection of its accepted pool, cached or not. */
    method Resolve(offer: Offer) returns (r: Option<seq<Descriptor>>)
      requires Valid()
      modifies this`resolved
      ensures Valid() && r == Resolution(offer)
      ensures r.Some? ==> offer.readyRoot in readyPools && |readyPools[offer.readyRoot]| == poolSize && |r.value| == want &&
                          ManifestRoot(r.value) == offer.root && Dealers(r.value) == offer.header.dealers &&
                          exists picked :: Picks(readyPools[offer.readyRoot], load, picked, r.value)
    {
      hide Picks;
      if offer.readyRoot in readyPools {
        FirstKExact(readyPools[offer.readyRoot], load, want);
      }
      if |offer.header.dealers| != want {
        return None;
      }
      var key := (offer.readyRoot, offer.root);
      if key in resolved && |resolved[key]| == want {
        if Dealers(resolved[key]) != offer.header.dealers {
          return None;
        }
        return Some(resolved[key]);
      }
      if offer.readyRoot !in readyPools || |readyPools[offer.readyRoot]| != poolSize {
        return None;
      }
      var selected := SelectInBatches(readyPools[offer.readyRoot], load, want, c => false);
      if selected == None || Dealers(selected.value) != offer.header.dealers ||
         ManifestRoot(selected.value) != offer.root {
        return None;
      }
      resolved := resolved[key := selected.value];
      r := selected;
    }

    /** The aggregate of leaves that all load. */
    method Build(descriptors: seq<Descriptor>) returns (r: Option<Aggregate>)
      ensures r == if forall i :: 0 <= i < |descriptors| ==> load(descriptors[i]) then Some(Aggregate(Parts(descriptors))) else None
    {
      var leaves := LoadOrdered(descriptors, load);
      var parts: seq<(int, seq<int>)> := [];
      for i := 0 to |leaves|
        invariant parts == Parts(descriptors[..i]) && forall k :: 0 <= k < i ==> load(descriptors[k])
      {
        if leaves[i].None? {
          return None;
        }
        parts := parts + [(leaves[i].value.of.dealer, leaves[i].value.of.leaf)];
        assert descriptors[..i + 1][..i] == descriptors[..i];
      }
      assert descriptors[..|descriptors|] == descriptors;
      r := Some(Aggregate(parts));
    }

    method Disperse(agg: Aggregate) returns (r: Option<Coding>)
      requires Valid()
      modifies this`dispersals
      ensures Valid() && r == disperse(agg)
    {
      var digest := AggregateHash(agg);
      if digest in dispersals {
        return Some(dispersals[digest]);
      }
      r := disperse(agg);
      if r.Some? {
        dispersals := dispersals[digest := r.value];
      }
    }

    /** The header describes the aggregate of these components and its dispersal. */
    ghost predicate Describes(header: Header, descriptors: seq<Descriptor>)
      reads this
    {
      var agg := Aggregate(Parts(descriptors));
      header.digest == AggregateHash(agg) && disperse(agg) == Some(header.coding)
    }

    /** The aggregate of resolved components, from a cache or rebuilt, and its checks against the header. */
    method VerifyManifest(header: Header, descriptors: seq<Descriptor>, root: Root) returns (r: Option<Aggregate>)
      requires Valid() && forall i :: 0 <= i < |descriptors| ==> load(descriptors[i])
      modifies this`verifiedByHeader, this`verifiedByRoot, this`dispersals
      ensures Valid()
      ensures r == if root == ManifestRoot(descriptors) && Describes(header, descriptors)
                   then Some(Aggregate(Parts(descriptors))) else None
    {
      if root != ManifestRoot(descriptors) {
        return None;
      }
      var agg;
      if header in verifiedByHeader {
        agg := Some(verifiedByHeader[header]);
      } else if root in verifiedByRoot {
        agg := Some(verifiedByRoot[root]);
      } else {
        agg := Build(descriptors);
      }
      if agg == None || agg.value.parts != Parts(descriptors) || AggregateHash(agg.value) != header.digest {
        return None;
      }
      var coding := Disperse(agg.value);
      if coding == None || coding.value != header.coding {
        return None;
      }
      if header in verifiedByHeader && AggregateHash(verifiedByHeader[header]) != AggregateHash(agg.value) {
        return None;
      }
      verifiedByHeader := verifiedByHeader[header := agg.value];
      verifiedByRoot := verifiedByRoot[root := agg.value];
      r := agg;
    }

    /**
      The verifier of an offer: it succeeds exactly when the offer resolves and its header carries the
      digest of that selection's aggregate and the root and payload digest of its dispersal.
     */
    method VerifyOffer(offer: Offer) returns (r: Option<Aggregate>)
      requires Valid()
      modifies this`resolved, this`verifiedByHeader, this`verifiedByRoot, this`dispersals
      ensures Valid()
      ensures var ds := Resolution(offer);
              r == if ds.Some? && Describes(offer.header, ds.value) then Some(Aggregate(Parts(ds.value))) else None
      ensures r.Some? ==> offer.header.digest == AggregateHash(r.value) && disperse(r.value) == Some(offer.header.coding) &&
                          r.value.parts == Parts(offer.root.descriptors)
    {
      var ds := Resolve(offer);
      if ds == None {
        return None;
      }
      FilterValid(readyPools[offer.readyRoot], load);
      r := VerifyManifest(offer.header, ds.value, offer.root);
    }

    /**
      The materializer: its offer is made for the first valid components of the pool, whether they were
      loaded in batches or an aggregate verified earlier was reused.
     */
    method Materialize(pool: seq<Descriptor>, interrupted: nat -> bool) returns (r: Option<Offer>)
      requires Valid() && want <= |pool|
      modifies this`verifiedByHeader, this`verifiedByRoot, this`dispersals
      ensures Valid()
      ensures r.Some? ==>
                FirstK(pool, load, want).Some? &&
                var selected := FirstK(pool, load, want).value;
                disperse(Aggregate(Parts(selected))).Some? &&
                r.value == OfferFor(pool, selected, disperse(Aggregate(Parts(selected))).value)
      ensures r.None? ==> FirstK(pool, load, want).None? || (exists c: nat :: interrupted(c)) ||
                          disperse(Aggregate(Parts(FirstK(pool, load, want).value))).None?
    {
      var selected, agg := Select(pool, interrupted);
      if selected == None || interrupted(|pool|) {
        return None;
      }
      var root := ManifestRoot(selected.value);
      if root in verifiedByRoot && AggregateHash(verifiedByRoot[root]) != AggregateHash(agg) {
        return None;
      }
      verifiedByRoot := verifiedByRoot[root := agg];
      var coding := Disperse(agg);
      if coding == None {
        return None;
      }
      var header := Header(Dealers(selected.value), AggregateHash(agg), coding.value);
      verifiedByHeader := verifiedByHeader[header := agg];
      r := Some(Offer(header, ManifestRoot(pool), root));
    }

    /** The selection and its aggregate; the cached-aggregate shortcut selects what the batch loop would. */
    method Select(pool: seq<Descriptor>, interrupted: nat -> bool) returns (r: Option<seq<Descriptor>>, agg: Aggregate)
      requires Valid() && want <= |pool|
      ensures r.Some? ==> r == FirstK(pool, load, want) && agg == Aggregate(Parts(r.value)) && CombinesValid(ManifestRoot(r.value), agg)
      ensures r.None? ==> FirstK(pool, load, want).None? || exists c: nat :: interrupted(c)
    {
      var first := pool[..want];
      var root := ManifestRoot(first);
      if root in verifiedByRoot && verifiedByRoot[root].parts == Parts(first) {
        PrefixSelected(pool, load, want);
        return Some(first), verifiedByRoot[root];
      }
      r := SelectInBatches(pool, load, want, interrupted);
      agg := Aggregate([]);
      if r.Some? {
        FilterValid(pool, load);
        var built := Build(r.value);
        agg := built.value;
      }
    }
  }

  lemma PrefixSelected(ds: seq<Descriptor>, load: Loader, want: nat)
    requires want <= |ds| && forall i :: 0 <= i < want ==> load(ds[i])
    ensures FirstK(ds, load, want) == Some(ds[..want])
  {
    FilterAll(ds[..want], load);
    FilterConcat(ds[..want], ds[want..], load);
    assert ds[..want] + ds[want..] == ds;
  }

  /**
    Materializer and verifier agree: an offer made from a pool that the verifier has accepted is
    verified, and both hold the aggregate of the same selection.
   */
  method OfferAccepted(materializer: Service, verifier: Service, pool: seq<Descriptor>, interrupted: nat -> bool)
    returns (offer: Option<Offer>, agg: Option<Aggregate>)
    requires materializer != verifier && materializer.Valid() && verifier.Valid()
    requires materializer.load == verifier.load && materializer.disperse == verifier.disperse
    requires materializer.want == verifier.want <= |pool| == verifier.poolSize
    requires ManifestRoot(pool) in verifier.readyPools
    modifies materializer, verifier
    ensures offer.Some? ==> agg.Some? && offer.value.header.digest == AggregateHash(agg.value) &&
                            FirstK(pool, verifier.load, verifier.want).Some? &&
                            agg.value == Aggregate(Parts(FirstK(pool, verifier.load, verifier.want).value))
  {
    offer := materializer.Materialize(pool, interrupted);
    agg := None;
    if offer.Some? {
      agg := verifier.VerifyOffer(offer.value);
    }
  }
}
