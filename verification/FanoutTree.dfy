/**
  The binary fan-out tree of a candidate: the sorted roster rotated to start at the origin, read as a
  heap.  Every other member is the peer of exactly one member, and relaying reaches everyone although a
  relay leaves out the member it heard from.
 */
module FanoutTree {
  import opened Sorting

  /** The roster in order, starting at position `root`. */
  function Rotated(ordered: seq<int>, root: nat): (r: seq<int>)
    requires root <= |ordered|
    ensures |r| == |ordered|
  {
    ordered[root..] + ordered[..root]
  }

  function Children(i: nat): seq<nat> { [2 * i + 1, 2 * i + 2] }

  function Parent(i: nat): (p: nat)
    requires i > 0
    ensures p < i && i in Children(p)
  {
    (i - 1) / 2
  }

  /** The members at the child positions that exist, without the excluded one. */
  function PeersAt(rotated: seq<int>, i: nat, excluded: int): seq<int> {
    (if 2 * i + 1 < |rotated| && rotated[2 * i + 1] != excluded then [rotated[2 * i + 1]] else []) +
    (if 2 * i + 2 < |rotated| && rotated[2 * i + 2] != excluded then [rotated[2 * i + 2]] else [])
  }

  lemma RotatedMembers(ordered: seq<int>, root: nat, x: int)
    requires root <= |ordered|
    ensures x in ordered <==> x in Rotated(ordered, root)
  {
    assert ordered == ordered[..root] + ordered[root..];
  }

  /** The first position of a member. */
  function FirstIndex(s: seq<int>, x: int): (i: nat)
    requires x in s
    ensures i < |s| && s[i] == x && forall k :: 0 <= k < i ==> s[k] != x
  {
    if s[0] == x then 0 else 1 + FirstIndex(s[1..], x)
  }

  /** The sorted roster starting at the origin. */
  function HeapOrder(roster: seq<int>, origin: int): (r: seq<int>)
    requires origin in roster
    ensures |r| == |roster| && forall x :: x in r <==> x in roster
  {
    SortedElements(roster);
    var ordered := Sorted(roster);
    var root := FirstIndex(ordered, origin);
    RotatedAll(ordered, root);
    Rotated(ordered, root)
  }

  lemma RotatedAll(ordered: seq<int>, root: nat)
    requires root <= |ordered|
    ensures forall x :: x in ordered <==> x in Rotated(ordered, root)
  {
    forall x ensures x in ordered <==> x in Rotated(ordered, root) {
      RotatedMembers(ordered, root, x);
    }
  }

  /** A member's children in the tree; members outside the roster have none. */
  function TreePeers(roster: seq<int>, local: int, excluded: int, origin: int): seq<int> {
    if origin !in roster || local !in roster then []
    else
      var heap := HeapOrder(roster, origin);
      PeersAt(heap, FirstIndex(heap, local), excluded)
  }

  /** `sort.SearchInts`: the first position that is not smaller, or the length. */
  method Search(ordered: seq<int>, x: int) returns (i: nat)
    ensures i <= |ordered|
    ensures forall k :: 0 <= k < i ==> ordered[k] < x
    ensures i < |ordered| ==> ordered[i] >= x
  {
    i := 0;
    while i < |ordered| && ordered[i] < x
      invariant 0 <= i <= |ordered| && forall k :: 0 <= k < i ==> ordered[k] < x
    {
      i := i + 1;
    }
  }

  /** Everyone but the local and the excluded member, in order. */
  function Others(ordered: seq<int>, local: int, excluded: int): seq<int> {
    if |ordered| == 0 then []
    else
      var last := ordered[|ordered| - 1];
      Others(ordered[..|ordered| - 1], local, excluded) + (if last != local && last != excluded then [last] else [])
  }

  ghost predicate Increasing(s: seq<int>) {
    forall i, j :: 0 <= i < j < |s| ==> s[i] < s[j]
  }

  /** Outside tree mode the peers are everyone but the two, in order. */
  lemma {:induction false} OthersExactly(ordered: seq<int>, local: int, excluded: int)
    requires Increasing(ordered)
    ensures forall m :: m in Others(ordered, local, excluded) <==> m in ordered && m != local && m != excluded
    ensures Increasing(Others(ordered, local, excluded))
  {
    if |ordered| > 0 {
      var front, last := ordered[..|ordered| - 1], ordered[|ordered| - 1];
      OthersExactly(front, local, excluded);
      assert ordered == front + [last];
      var before := Others(front, local, excluded);
      forall i | 0 <= i < |before| ensures before[i] < last {
        assert before[i] in before;
      }
    }
  }

  /** A member's peers: everyone else, or in tree mode its children. */
  method Peers(roster: seq<int>, local: int, excluded: int, origin: int, tree: bool) returns (peers: seq<int>)
    ensures peers == if tree then TreePeers(roster, local, excluded, origin) else Others(Sorted(roster), local, excluded)
  {
    var ordered := Sorted(roster);
    SortedCorrect(roster);
    SortedElements(roster);
    peers := [];
    if !tree {
      for i := 0 to |ordered|
        invariant peers == Others(ordered[..i], local, excluded)
      {
        assert ordered[..i + 1][..i] == ordered[..i];
        if ordered[i] != local && ordered[i] != excluded {
          peers := peers + [ordered[i]];
        }
      }
      assert ordered[..|ordered|] == ordered;
      return;
    }
    var root := Search(ordered, origin);
    if root >= |ordered| || ordered[root] != origin {
      assert origin !in ordered;
      return [];
    }
    assert root == FirstIndex(ordered, origin);
    var rotated := ordered[root..] + ordered[..root];
    assert rotated == HeapOrder(roster, origin);
    peers := ChildrenOf(rotated, local, excluded);
  }

  method ChildrenOf(rotated: seq<int>, local: int, excluded: int) returns (peers: seq<int>)
    ensures peers == if local in rotated then PeersAt(rotated, FirstIndex(rotated, local), excluded) else []
  {
    var localIndex := 0;
    while localIndex < |rotated| && rotated[localIndex] != local
      invariant 0 <= localIndex <= |rotated| && forall k :: 0 <= k < localIndex ==> rotated[k] != local
    {
      localIndex := localIndex + 1;
    }
    if localIndex >= |rotated| {
      return [];
    }
    assert localIndex == FirstIndex(rotated, local);
    peers := [];
    var child := 2 * localIndex + 1;
    if child < |rotated| && rotated[child] != excluded {
      peers := peers + [rotated[child]];
    }
    child := 2 * localIndex + 2;
    if child < |rotated| && rotated[child] != excluded {
      peers := peers + [rotated[child]];
    }
  }

  lemma PeersMembers(rotated: seq<int>, i: nat, excluded: int, m: int)
    ensures m in PeersAt(rotated, i, excluded) <==>
            m != excluded && ((2 * i + 1 < |rotated| && rotated[2 * i + 1] == m) || (2 * i + 2 < |rotated| && rotated[2 * i + 2] == m))
  {}

  lemma HeapDistinct(roster: seq<int>, origin: int)
    requires Distinct(roster) && origin in roster
    ensures Distinct(HeapOrder(roster, origin)) && HeapOrder(roster, origin)[0] == origin
  {
    SortedDistinct(roster);
  }

  /** The member that sends to `m`. */
  function ParentOf(roster: seq<int>, origin: int, m: int): (p: int)
    requires origin in roster && m in roster
  {
    var heap := HeapOrder(roster, origin);
    var k := FirstIndex(heap, m);
    if k == 0 then m else heap[Parent(k)]
  }

  /** The heap order is the sorted roster read from the origin on, around the end. */
  lemma HeapOrderIs(roster: seq<int>, origin: int, k: nat)
    requires origin in roster && k < |roster|
    ensures |Sorted(roster)| == |roster| && origin in Sorted(roster)
    ensures var root := FirstIndex(Sorted(roster), origin);
            HeapOrder(roster, origin)[k] == Sorted(roster)[if root + k < |roster| then root + k else root + k - |roster|]
  {
    SortedElements(roster);
  }

  /** In plain positions: member number `i` of the heap sends to numbers `2i + 1` and `2i + 2`. */
  lemma HeapChildren(roster: seq<int>, origin: int, excluded: int, i: nat, k: nat)
    requires Distinct(roster) && origin in roster && i < |roster| && k < |roster|
    ensures var heap := HeapOrder(roster, origin);
            heap[k] in TreePeers(roster, heap[i], excluded, origin) <==> (k == 2 * i + 1 || k == 2 * i + 2) && heap[k] != excluded
  {
    hide HeapOrder, PeersAt;
    var heap := HeapOrder(roster, origin);
    HeapDistinct(roster, origin);
    assert heap[i] in heap && heap[k] in heap;
    assert FirstIndex(heap, heap[i]) == i;
    PeersMembers(heap, i, excluded, heap[k]);
    assert 2 * i + 1 < |heap| && heap[2 * i + 1] == heap[k] ==> 2 * i + 1 == k;
    assert 2 * i + 2 < |heap| && heap[2 * i + 2] == heap[k] ==> 2 * i + 2 == k;
  }

  /**
    The peers partition the roster without its origin: whatever each member leaves out, nobody sends to
    the origin, and to anyone else only its parent does, unless the parent leaves exactly that one out.
   */
  lemma PeersPartition(roster: seq<int>, origin: int, local: int, excluded: int, m: int)
    requires Distinct(roster) && origin in roster && m in roster
    ensures m in TreePeers(roster, local, excluded, origin) <==>
            m != origin && local == ParentOf(roster, origin, m) && excluded != m
  {
    hide HeapOrder, PeersAt;
    var heap := HeapOrder(roster, origin);
    HeapDistinct(roster, origin);
    var k := FirstIndex(heap, m);
    if local in roster {
      var i := FirstIndex(heap, local);
      PeersMembers(heap, i, excluded, m);
      assert 2 * i + 1 < |heap| && heap[2 * i + 1] == m ==> 2 * i + 1 == k;
      assert 2 * i + 2 < |heap| && heap[2 * i + 2] == m ==> 2 * i + 2 == k;
      assert k > 0 ==> (heap[Parent(k)] == local <==> Parent(k) == i);
    } else {
      assert k > 0 ==> heap[Parent(k)] in heap;
    }
  }

  /**
    Relaying: `has` holds the candidate, contains the origin, and with every member also its peers and
    the member it left out, from whom the candidate came.  Then everyone has it.
   */
  ghost predicate Relayed(roster: seq<int>, origin: int, excluded: int -> int, has: set<int>) {
    origin in has &&
    (forall l, m :: l in has && l in roster && m in TreePeers(roster, l, excluded(l), origin) ==> m in has) &&
    forall l :: l in has && l in roster && excluded(l) in roster ==> excluded(l) in has
  }

  lemma {:induction false} PositionReached(roster: seq<int>, origin: int, excluded: int -> int, has: set<int>, k: nat)
    requires Distinct(roster) && origin in roster && Relayed(roster, origin, excluded, has) && k < |roster|
    ensures HeapOrder(roster, origin)[k] in has
  {
    hide HeapOrder, TreePeers;
    var heap := HeapOrder(roster, origin);
    HeapDistinct(roster, origin);
    if k > 0 {
      var l, m := heap[Parent(k)], heap[k];
      PositionReached(roster, origin, excluded, has, Parent(k));
      assert l in heap && m in heap;
      assert FirstIndex(heap, m) == k;
      PeersPartition(roster, origin, l, excluded(l), m);
    }
  }

  /** Relaying reaches every member of the roster. */
  lemma EveryoneReached(roster: seq<int>, origin: int, excluded: int -> int, has: set<int>)
    requires Distinct(roster) && origin in roster && Relayed(roster, origin, excluded, has)
    ensures forall m :: m in roster ==> m in has
  {
    var heap := HeapOrder(roster, origin);
    forall m | m in roster ensures m in has {
      PositionReached(roster, origin, excluded, has, FirstIndex(heap, m));
    }
  }
}
