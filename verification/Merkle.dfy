/**
  The Merkle trees over shards: levels that repeat an odd last node, branches, and branch checks.

  A digest is the term that was hashed, so hashing is injective and the leaf and node domains are
  separate.  `Other` stands for any 32 bytes that are not a hash of interest.
 */
module Merkle {
  import opened Common
  import opened Bits

  type Tag = seq<int>
  type Payload = seq<int>

  datatype Digest =
    | ShardHash(tag: Tag, index: nat, shard: Payload)
    | NodeHash(left: Digest, right: Digest)
    | Other(id: nat)

  // ---------------------------------------------------------------- levels

  /** The level with its last entry repeated when the length is odd. */
  function Padded(level: seq<Digest>): (r: seq<Digest>)
    requires |level| > 0
    ensures |r| % 2 == 0 && |level| <= |r| <= |level| + 1
  {
    if |level| % 2 == 1 then level + [level[|level| - 1]] else level
  }

  function NextLevel(level: seq<Digest>): (r: seq<Digest>)
    requires |level| > 0
    ensures |r| == (|level| + 1) / 2
  {
    var p := Padded(level);
    seq(|p| / 2, i requires 0 <= i < |p| / 2 => NodeHash(p[2 * i], p[2 * i + 1]))
  }

  function Root(level: seq<Digest>): Digest
    requires |level| > 0
    decreases |level|
  {
    if |level| == 1 then level[0] else Root(NextLevel(level))
  }

  function Depth(n: nat): nat {
    if n <= 1 then 0 else 1 + Depth((n + 1) / 2)
  }

  /** The neighbour of `i`, which is the last entry itself when there is none. */
  function Sibling(i: nat, n: nat): (s: nat)
    requires i < n
    ensures s < n
  {
    var s := if i % 2 == 0 then i + 1 else i - 1;
    if s >= n then n - 1 else s
  }

  function Branch(level: seq<Digest>, i: nat): seq<Digest>
    requires i < |level|
    decreases |level|
  {
    if |level| == 1 then [] else [level[Sibling(i, |level|)]] + Branch(NextLevel(level), i / 2)
  }

  /** One step up: an even position is the left child. */
  function Up(digest: Digest, index: nat, sibling: Digest): Digest {
    if index % 2 == 0 then NodeHash(digest, sibling) else NodeHash(sibling, digest)
  }

  /** The root a branch leads to. */
  function Climb(digest: Digest, index: nat, siblings: seq<Digest>): Digest
    decreases |siblings|
  {
    if |siblings| == 0 then digest else Climb(Up(digest, index, siblings[0]), index / 2, siblings[1..])
  }

  lemma UpIsNext(level: seq<Digest>, i: nat)
    requires i < |level| && |level| > 1
    ensures i / 2 < |NextLevel(level)| && Up(level[i], i, level[Sibling(i, |level|)]) == NextLevel(level)[i / 2]
  {}

  /** Every built branch has the advertised depth and leads to the root, odd levels included. */
  lemma {:induction false} BranchCorrect(level: seq<Digest>, i: nat)
    requires i < |level|
    ensures |Branch(level, i)| == Depth(|level|) && Climb(level[i], i, Branch(level, i)) == Root(level)
    decreases |level|
  {
    if |level| > 1 {
      UpIsNext(level, i);
      BranchCorrect(NextLevel(level), i / 2);
      assert Branch(level, i)[1..] == Branch(NextLevel(level), i / 2);
    }
  }

  /** Branches of one length bind: the same position under one root holds one digest. */
  lemma {:induction false} ClimbBinds(d: Digest, d': Digest, i: nat, s: seq<Digest>, s': seq<Digest>)
    requires |s| == |s'| && Climb(d, i, s) == Climb(d', i, s')
    ensures d == d' && s == s'
    decreases |s|
  {
    if |s| > 0 {
      ClimbBinds(Up(d, i, s[0]), Up(d', i, s'[0]), i / 2, s[1..], s'[1..]);
      assert s == [s[0]] + s[1..] && s' == [s'[0]] + s'[1..];
    }
  }

  /** The tree is as flat as a binary tree can be. */
  lemma {:induction false} DepthExactly(n: nat)
    requires n > 0
    ensures n <= Pow2(Depth(n)) && (n > 1 ==> Pow2(Depth(n) - 1) < n)
  {
    if n > 1 {
      DepthExactly((n + 1) / 2);
    }
  }

  /** Two neighbours are hashed left before right, and a node without a neighbour with itself. */
  lemma LevelEntry(level: seq<Digest>, i: nat)
    requires 2 * i < |level|
    ensures i < |NextLevel(level)|
    ensures NextLevel(level)[i] == NodeHash(level[2 * i], if 2 * i + 1 < |level| then level[2 * i + 1] else level[2 * i])
  {}

  // ---------------------------------------------------------------- shards

  function Leaves(tag: Tag, shards: seq<Payload>): (r: seq<Digest>)
    ensures |r| == |shards|
  {
    seq(|shards|, i requires 0 <= i < |shards| => ShardHash(tag, i, shards[i]))
  }

  function ShardRoot(tag: Tag, shards: seq<Payload>): Digest
    requires |shards| > 0
  {
    Root(Leaves(tag, shards))
  }

  /** The leaf at the end of the right spine. */
  function RightLeaf(d: Digest): Digest {
    match d
    case NodeHash(_, r) => RightLeaf(r)
    case _ => d
  }

  lemma LastParent(level: seq<Digest>)
    requires |level| > 0
    ensures NextLevel(level)[|NextLevel(level)| - 1].NodeHash?
    ensures NextLevel(level)[|NextLevel(level)| - 1].right == level[|level| - 1]
  {}

  lemma {:induction false} RootRightLeaf(level: seq<Digest>)
    requires |level| > 0
    ensures RightLeaf(Root(level)) == RightLeaf(level[|level| - 1])
    decreases |level|
  {
    if |level| > 1 {
      var next := NextLevel(level);
      LastParent(level);
      hide NextLevel;
      RootRightLeaf(next);
    }
  }

  lemma NextLevelInjective(a: seq<Digest>, b: seq<Digest>)
    requires |a| == |b| > 0 && NextLevel(a) == NextLevel(b)
    ensures a == b
  {
    forall i | 0 <= i < |a| ensures a[i] == b[i] {
      assert NextLevel(a)[i / 2] == NextLevel(b)[i / 2];
      assert i == 2 * (i / 2) || i == 2 * (i / 2) + 1;
    }
  }

  lemma {:induction false} RootInjective(a: seq<Digest>, b: seq<Digest>)
    requires |a| == |b| > 0 && Root(a) == Root(b)
    ensures a == b
    decreases |a|
  {
    if |a| > 1 {
      RootInjective(NextLevel(a), NextLevel(b));
      NextLevelInjective(a, b);
    }
  }

  /** Equal roots imply equal shard vectors, their number included. */
  lemma ShardRootInjective(tag: Tag, shards: seq<Payload>, tag': Tag, shards': seq<Payload>)
    requires |shards| > 0 && |shards'| > 0 && ShardRoot(tag, shards) == ShardRoot(tag', shards')
    ensures shards == shards' && tag == tag'
  {
    var a, b := Leaves(tag, shards), Leaves(tag', shards');
    RootRightLeaf(a);
    RootRightLeaf(b);
    assert a[|a| - 1] == b[|b| - 1];
    RootInjective(a, b);
    forall i | 0 <= i < |shards| ensures shards[i] == shards'[i] {
      assert a[i] == b[i];
    }
  }

  // ---------------------------------------------------------------- the building loop

  method ParentLevel(level: seq<Digest>) returns (next: seq<Digest>)
    requires |level| > 0
    ensures next == NextLevel(level)
  {
    var padded := level;
    if |level| % 2 == 1 {
      padded := level + [level[|level| - 1]];
    }
    next := [];
    var i := 0;
    while i < |padded|
      invariant 0 <= i <= |padded| && i % 2 == 0 && |next| == i / 2
      invariant forall k :: 0 <= k < |next| ==> next[k] == NodeHash(padded[2 * k], padded[2 * k + 1])
    {
      next := next + [NodeHash(padded[i], padded[i + 1])];
      i := i + 2;
    }
  }

  /** Level `k` of the tree and its root and branches, related by one recursive step each. */
  ghost predicate Tower(levels: seq<seq<Digest>>) {
    |levels| > 0 && (forall k :: 0 <= k < |levels| ==> |levels[k]| > 0) &&
    forall k :: 0 <= k < |levels| - 1 ==> |levels[k]| > 1 && levels[k + 1] == NextLevel(levels[k])
  }

  lemma {:induction false} TowerRoot(levels: seq<seq<Digest>>, k: nat)
    requires Tower(levels) && k < |levels|
    ensures Root(levels[0]) == Root(levels[k])
  {
    if k > 0 {
      TowerRoot(levels, k - 1);
    }
  }

  method BranchOf(levels: seq<seq<Digest>>, i: nat) returns (branch: seq<Digest>)
    requires Tower(levels) && |levels[|levels| - 1]| == 1 && i < |levels[0]|
    ensures branch == Branch(levels[0], i)
  {
    hide NextLevel;
    branch := [];
    var index: nat := i;
    for depth := 0 to |levels| - 1
      invariant index < |levels[depth]|
      invariant branch + Branch(levels[depth], index) == Branch(levels[0], i)
    {
      var level := levels[depth];
      assert |level| > 1 && levels[depth + 1] == NextLevel(level);
      var sibling := if index % 2 == 0 then index + 1 else index - 1;
      if sibling >= |level| {
        sibling := |level| - 1;
      }
      assert branch + Branch(level, index) == branch + [level[sibling]] + Branch(NextLevel(level), index / 2);
      branch := branch + [level[sibling]];
      index := index / 2;
    }
  }

  method ShardLeaves(tag: Tag, shards: seq<Payload>) returns (leaves: seq<Digest>)
    ensures leaves == Leaves(tag, shards)
  {
    leaves := [];
    for i := 0 to |shards|
      invariant |leaves| == i && forall k :: 0 <= k < i ==> leaves[k] == ShardHash(tag, k, shards[k])
    {
      leaves := leaves + [ShardHash(tag, i, shards[i])];
    }
  }

  method BuildLevels(leaves: seq<Digest>) returns (levels: seq<seq<Digest>>)
    requires |leaves| > 0
    ensures Tower(levels) && levels[0] == leaves && |levels[|levels| - 1]| == 1
  {
    hide NextLevel;
    levels := [leaves];
    while |levels[|levels| - 1]| > 1
      invariant Tower(levels) && levels[0] == leaves
      decreases |levels[|levels| - 1]|
    {
      var next := ParentLevel(levels[|levels| - 1]);
      levels := levels + [next];
    }
  }

  /** The root and all branches of the shards. */
  method BuildMerkle(tag: Tag, shards: seq<Payload>) returns (root: Digest, branches: seq<seq<Digest>>)
    requires |shards| > 0
    ensures root == ShardRoot(tag, shards)
    ensures |branches| == |shards| && forall i :: 0 <= i < |shards| ==> branches[i] == Branch(Leaves(tag, shards), i)
  {
    hide NextLevel, Leaves, Branch;
    var leaves := ShardLeaves(tag, shards);
    var levels := BuildLevels(leaves);
    TowerRoot(levels, |levels| - 1);
    branches := [];
    for i := 0 to |shards|
      invariant |branches| == i && forall k :: 0 <= k < i ==> branches[k] == Branch(leaves, k)
    {
      var branch := BranchOf(levels, i);
      branches := branches + [branch];
    }
    root := levels[|levels| - 1][0];
  }

  method MerkleDepth(totalShards: nat) returns (depth: nat)
    ensures depth == Depth(totalShards)
  {
    depth := 0;
    var n := totalShards;
    while n > 1
      invariant depth + Depth(n) == Depth(totalShards)
    {
      depth := depth + 1;
      n := (n + 1) / 2;
    }
  }

  method ClimbBranch(digest: Digest, index: nat, siblings: seq<Digest>) returns (r: Digest)
    ensures r == Climb(digest, index, siblings)
  {
    r := digest;
    var i := index;
    for k := 0 to |siblings|
      invariant Climb(r, i, siblings[k..]) == Climb(digest, index, siblings)
    {
      assert siblings[k..][1..] == siblings[k + 1..];
      if i % 2 == 0 {
        r := NodeHash(r, siblings[k]);
      } else {
        r := NodeHash(siblings[k], r);
      }
      i := i / 2;
    }
  }

  // ---------------------------------------------------------------- branches of unchecked length

  /** Every path below `d` reaches a shard after exactly `k` steps. */
  predicate Uniform(d: Digest, k: nat) {
    match d
    case ShardHash(_, _, _) => k == 0
    case NodeHash(l, r) => k > 0 && Uniform(l, k - 1) && Uniform(r, k - 1)
    case Other(_) => false
  }

  lemma {:induction false} RootUniform(level: seq<Digest>, k: nat)
    requires |level| > 0 && forall i :: 0 <= i < |level| ==> Uniform(level[i], k)
    ensures Uniform(Root(level), k + Depth(|level|))
    decreases |level|
  {
    if |level| > 1 {
      RootUniform(NextLevel(level), k + 1);
    }
  }

  lemma {:induction false} ClimbUniform(d: Digest, i: nat, s: seq<Digest>, k: nat)
    requires Uniform(Climb(d, i, s), k)
    ensures |s| <= k && Uniform(d, k - |s|)
    decreases |s|
  {
    if |s| > 0 {
      ClimbUniform(Up(d, i, s[0]), i / 2, s[1..], k);
    }
  }

  /** Under the root of an honest tree a branch of any length can only show the honest shard. */
  lemma HonestRootBinds(tag: Tag, shards: seq<Payload>, i: nat, shard: Payload, s: seq<Digest>)
    requires i < |shards| && Climb(ShardHash(tag, i, shard), i, s) == ShardRoot(tag, shards)
    ensures shard == shards[i] && |s| == Depth(|shards|)
  {
    var leaves := Leaves(tag, shards);
    RootUniform(leaves, 0);
    ClimbUniform(ShardHash(tag, i, shard), i, s, Depth(|shards|));
    BranchCorrect(leaves, i);
    ClimbBinds(ShardHash(tag, i, shard), leaves[i], i, s, Branch(leaves, i));
  }

  /** The digest reached from `d` going down, the top step first. */
  function Below(d: Digest, i: nat, n: nat): Option<Digest> {
    if n == 0 then Some(d)
    else
      match d
      case NodeHash(l, r) => Below(if Bit(i, n - 1) == 0 then l else r, i, n - 1)
      case _ => None
  }

  lemma {:induction false} BitHalf(i: nat, k: nat)
    ensures Bit(i / 2, k) == Bit(i, k + 1)
  {}

  /** Going down by the bits of the index undoes climbing. */
  lemma {:induction false} BelowClimb(d: Digest, i: nat, s: seq<Digest>)
    ensures Below(Climb(d, i, s), i, |s|) == Some(d)
    decreases |s|
  {
    if |s| > 0 {
      var u := Up(d, i, s[0]);
      BelowClimb(u, i / 2, s[1..]);
      BelowExtends(Climb(d, i, s), i, |s| - 1, u);
    }
  }

  lemma {:induction false} BelowExtends(d: Digest, i: nat, n: nat, u: Digest)
    requires Below(d, i / 2, n) == Some(u)
    ensures u.NodeHash? ==> Below(d, i, n + 1) == Some(if i % 2 == 0 then u.left else u.right)
    ensures !u.NodeHash? ==> Below(d, i, n + 1) == None
    decreases n
  {
    if n > 0 {
      BitHalf(i, n - 1);
      BelowExtends(if Bit(i / 2, n - 1) == 0 then d.left else d.right, i, n - 1, u);
    }
  }

  lemma {:induction false} ClimbAppend(d: Digest, i: nat, s: seq<Digest>, t: Digest)
    ensures Climb(d, i, s + [t]) == if Bit(i, |s|) == 0 then NodeHash(Climb(d, i, s), t) else NodeHash(t, Climb(d, i, s))
    decreases |s|
  {
    if |s| == 0 {
      assert (s + [t])[1..] == [];
    } else {
      assert (s + [t])[1..] == s[1..] + [t];
      ClimbAppend(Up(d, i, s[0]), i / 2, s[1..], t);
      BitHalf(i, |s| - 1);
    }
  }

  /** The siblings along the downward path, in climbing order. */
  function Siblings(d: Digest, i: nat, n: nat): (s: seq<Digest>)
    requires Below(d, i, n).Some?
    ensures |s| == n
  {
    if n == 0 then []
    else if Bit(i, n - 1) == 0 then Siblings(d.left, i, n - 1) + [d.right]
    else Siblings(d.right, i, n - 1) + [d.left]
  }

  lemma {:induction false} ClimbBelow(d: Digest, i: nat, n: nat)
    requires Below(d, i, n).Some?
    ensures Climb(Below(d, i, n).value, i, Siblings(d, i, n)) == d
    decreases n
  {
    if n > 0 {
      var child, other := if Bit(i, n - 1) == 0 then d.left else d.right, if Bit(i, n - 1) == 0 then d.right else d.left;
      ClimbBelow(child, i, n - 1);
      ClimbAppend(Below(d, i, n).value, i, Siblings(child, i, n - 1), other);
    }
  }

  /** The path of the shorter branch is the beginning of the path of the longer one. */
  ghost predicate Aligned(i: nat, n: nat, m: nat)
    requires n <= m
  {
    forall j :: 0 <= j < n ==> Bit(i, j) == Bit(i, j + (m - n))
  }

  lemma {:induction false} BelowAligned(d: Digest, i: nat, n: nat, m: nat)
    requires n <= m && Aligned(i, n, m) && Below(d, i, n).Some?
    ensures Below(d, i, m) == Below(Below(d, i, n).value, i, m - n)
    decreases n
  {
    if n > 0 {
      assert Bit(i, n - 1) == Bit(i, n - 1 + (m - n));
      assert forall j :: 0 <= j < n - 1 ==> Bit(i, j) == Bit(i, j + (m - n));
      BelowAligned(if Bit(i, n - 1) == 0 then d.left else d.right, i, n - 1, m - 1);
    }
  }

  /** A chain that leads down to `x` by the lowest `n` bits of `i`. */
  function Chain(i: nat, n: nat, x: Digest): Digest {
    if n == 0 then x
    else if Bit(i, n - 1) == 0 then NodeHash(Chain(i, n - 1, x), Other(0)) else NodeHash(Other(0), Chain(i, n - 1, x))
  }

  lemma {:induction false} ChainBelow(i: nat, n: nat, x: Digest)
    ensures Below(Chain(i, n, x), i, n) == Some(x)
  {
    if n > 0 {
      ChainBelow(i, n - 1, x);
    }
  }

  /** A tree with `x` at the end of one path and `y` at the end of the other. */
  function Fork(i: nat, n: nat, x: Digest, m: nat, y: Digest): Digest
    decreases n
  {
    if n == 0 || m == 0 then Other(0)
    else if Bit(i, n - 1) == Bit(i, m - 1) then
      if Bit(i, n - 1) == 0 then NodeHash(Fork(i, n - 1, x, m - 1, y), Other(0))
      else NodeHash(Other(0), Fork(i, n - 1, x, m - 1, y))
    else if Bit(i, n - 1) == 0 then NodeHash(Chain(i, n - 1, x), Chain(i, m - 1, y))
    else NodeHash(Chain(i, m - 1, y), Chain(i, n - 1, x))
  }

  lemma {:induction false} ForkHoldsBoth(i: nat, n: nat, x: Digest, m: nat, y: Digest)
    requires n <= m && !Aligned(i, n, m)
    ensures Below(Fork(i, n, x, m, y), i, n) == Some(x) && Below(Fork(i, n, x, m, y), i, m) == Some(y)
    decreases n
  {
    hide Bit, Chain;
    var j :| 0 <= j < n && Bit(i, j) != Bit(i, j + (m - n));
    if Bit(i, n - 1) == Bit(i, m - 1) {
      assert j < n - 1 && Bit(i, j) != Bit(i, j + ((m - 1) - (n - 1)));
      ForkHoldsBoth(i, n - 1, x, m - 1, y);
    } else {
      ChainBelow(i, n - 1, x);
      ChainBelow(i, m - 1, y);
    }
  }

  /** Some root accepts two different shards for index `i`, with branches of lengths `n` and `m`. */
  ghost predicate Conflict(tag: Tag, i: nat, n: nat, m: nat, x: Payload, y: Payload) {
    exists s: seq<Digest>, t: seq<Digest> :: |s| == n && |t| == m &&
      Climb(ShardHash(tag, i, x), i, s) == Climb(ShardHash(tag, i, y), i, t)
  }

  /**
    Where the branch length is not checked, one root can carry two different shards for one index
    exactly when the two lengths send the index down paths that part.
   */
  lemma ConflictExactly(tag: Tag, i: nat, n: nat, m: nat, x: Payload, y: Payload)
    requires n <= m && x != y
    ensures Conflict(tag, i, n, m, x, y) <==> !Aligned(i, n, m)
  {
    var dx, dy := ShardHash(tag, i, x), ShardHash(tag, i, y);
    if Conflict(tag, i, n, m, x, y) {
      var s: seq<Digest>, t: seq<Digest> :| |s| == n && |t| == m && Climb(dx, i, s) == Climb(dy, i, t);
      BelowClimb(dx, i, s);
      BelowClimb(dy, i, t);
      if Aligned(i, n, m) {
        BelowAligned(Climb(dx, i, s), i, n, m);
        assert false;
      }
    }
    if !Aligned(i, n, m) {
      var root := Fork(i, n, dx, m, dy);
      ForkHoldsBoth(i, n, dx, m, dy);
      ClimbBelow(root, i, n);
      ClimbBelow(root, i, m);
      var s, t := Siblings(root, i, n), Siblings(root, i, m);
      assert |s| == n && |t| == m && Climb(dx, i, s) == Climb(dy, i, t);
    }
  }
}
