/** The incremental hash cache of TigerTree (src/utils/TigerTree.cc): one
    stored hash and one valid flag per node of the linearised tree of
    TigerNav, a counter of the valid flags, and the two operations that change
    them, notifyChange and calcHash. The Tiger primitives are uninterpreted:
    a hash value is the term that says what was hashed. */
module TigerTreeCache {
  import opened Pow2Arith
  import opened TigerNav

  /** Results of the three hash primitives: tiger() over a byte string,
      tiger_leaf() over one full block, tiger_int() over two child hashes. */
  datatype TigerHash =
    | Tiger(input: seq<bv8>)
    | TigerLeaf(block: seq<bv8>)
    | TigerInt(left: TigerHash, right: TigerHash)

  /** TTCacheEntry::Info. */
  datatype Info = Info(hash: TigerHash, valid: bool)

  /** The hash calcHash stores for leaf n: a full block goes through
      tiger_leaf, the partial last block is hashed by tiger with a zero byte
      in front of it. */
  function LeafHash(data: seq<bv8>, n: nat): TigerHash
    requires n * (BLOCK_SIZE / 2) <= |data|
  {
    var b := n * (BLOCK_SIZE / 2);
    var l := |data| - b;
    if l >= BLOCK_SIZE then TigerLeaf(data[b..b + BLOCK_SIZE])
    else Tiger([0 as bv8] + data[b..])
  }

  /** Every leaf of the tree starts inside the data (or at its end, for the
      single leaf of empty data). */
  lemma LeafInData(dataSize: nat, n: nat)
    requires n % 2 == 0 && n < CalcNumNodes(dataSize)
    ensures n * (BLOCK_SIZE / 2) <= dataSize
  {
    var N := CalcNumNodes(dataSize);
    NumNodesBlocks(dataSize);
    if dataSize > 0 {
      var k := (N + 1) / 2 - 1;
      assert n / 2 <= k;
      assert n * (BLOCK_SIZE / 2) == (n / 2) * BLOCK_SIZE;
      assert (n / 2) * BLOCK_SIZE <= k * BLOCK_SIZE;
    }
  }

  /** The hash of the subtree below nd of the tree over data: the value
      calcHash(nd) computes and stores. */
  ghost function SubtreeHash(data: seq<bv8>, nd: Node): TigerHash
    requires InTree(CalcNumNodes(|data|), nd)
    decreases nd.l
  {
    var N := CalcNumNodes(|data|);
    WFFacts(nd);
    if nd.n % 2 == 1 then
      ChildrenInTree(N, nd);
      TigerInt(SubtreeHash(data, LeftChild(nd)), SubtreeHash(data, RightChild(N, nd)))
    else
      LeafInData(|data|, nd.n);
      LeafHash(data, nd.n)
  }

  /** The Tiger tree hash of data: the hash of the root of its tree. */
  ghost function TreeHash(data: seq<bv8>): TigerHash
  {
    TopInTree(CalcNumNodes(|data|));
    SubtreeHash(data, Top(CalcNumNodes(|data|)))
  }

  /** The hash belonging at index i of the node array. */
  ghost function HashAt(data: seq<bv8>, i: nat): TigerHash
    requires i < CalcNumNodes(|data|)
  {
    LowBitWF(i);
    SubtreeHash(data, NodeAt(i))
  }

  /** A node of the tree sits at its own index of the node array. */
  lemma NodeAtIndex(N: nat, nd: Node)
    requires InTree(N, nd)
    ensures NodeAt(nd.n) == nd
  {
    LevelWF(nd.n);
  }

  /** Number of set valid flags. */
  function CountValid(s: seq<Info>): (r: nat)
    ensures r <= |s|
  {
    if s == [] then 0 else CountValid(s[..|s| - 1]) + (if s[|s| - 1].valid then 1 else 0)
  }

  /** Changing one flag changes the count by one, in the same direction. */
  lemma {:induction false} CountUpdate(s: seq<Info>, i: nat, v: Info)
    requires i < |s|
    ensures CountValid(s[i := v]) + (if s[i].valid then 1 else 0) == CountValid(s) + (if v.valid then 1 else 0)
    decreases |s|
  {
    var t := s[i := v];
    var k := |s| - 1;
    if i < k {
      assert t[..k] == s[..k][i := v];
      CountUpdate(s[..k], i, v);
    } else {
      assert t[..k] == s[..k];
    }
  }

  /** The counter reaches its bounds exactly when no flag, or every flag, is
      set. */
  lemma {:induction false} CountValidRange(s: seq<Info>)
    ensures CountValid(s) == 0 <==> forall i :: 0 <= i < |s| ==> !s[i].valid
    ensures CountValid(s) == |s| <==> forall i :: 0 <= i < |s| ==> s[i].valid
    decreases |s|
  {
    if s != [] {
      var k := |s| - 1;
      CountValidRange(s[..k]);
      assert forall i :: 0 <= i < k ==> s[..k][i] == s[i];
    }
  }

  /** Index of the left child of the interior node at index i. */
  ghost function LeftOf(N: nat, i: nat): (r: nat)
    requires TreeSize(N) && i < N && i % 2 == 1
    ensures r < i
  {
    LowBitWF(i);
    WFFacts(NodeAt(i));
    LeftChild(NodeAt(i)).n
  }

  /** Index of the right child of the interior node at index i. */
  ghost function RightOf(N: nat, i: nat): (r: nat)
    requires TreeSize(N) && i < N && i % 2 == 1
    ensures i < r < N
  {
    LowBitWF(i);
    WFFacts(NodeAt(i));
    InteriorFacts(N, NodeAt(i));
    RightFromFacts(N, i, NodeAt(i).l);
    RightChild(N, NodeAt(i)).n
  }

  /** The node at an odd index is interior, and its children sit at LeftOf
      and RightOf, one level or more below it. */
  lemma ChildrenAt(N: nat, i: nat)
    requires TreeSize(N) && i < N && i % 2 == 1
    ensures InTree(N, NodeAt(i)) && NodeAt(i).l > 1 && NodeAt(i).l / 2 <= i
    ensures InTree(N, NodeAt(LeftOf(N, i))) && NodeAt(LeftOf(N, i)) == LeftChild(NodeAt(i))
    ensures InTree(N, NodeAt(RightOf(N, i))) && NodeAt(RightOf(N, i)) == RightChild(N, NodeAt(i))
    ensures Level(LeftOf(N, i)) < Level(i) && Level(RightOf(N, i)) < Level(i)
  {
    LevelWF(i);
    var nd := NodeAt(i);
    WFFacts(nd);
    ParentOfLeft(N, nd);
    ParentOfRight(N, nd);
    RightFromFacts(N, i, nd.l);
    NodeAtIndex(N, LeftChild(nd));
    NodeAtIndex(N, RightChild(N, nd));
  }

  /** A node whose index is a child index of i has i as its parent. */
  lemma ChildIndexParent(N: nat, i: nat, c: Node)
    requires TreeSize(N) && i < N && i % 2 == 1 && InTree(N, c)
    requires LeftOf(N, i) == c.n || RightOf(N, i) == c.n
    ensures c != Top(N) && ParentOf(N, c).n == i
  {
    ChildrenAt(N, i);
    NodeAtIndex(N, c);
    ParentOfLeft(N, NodeAt(i));
    ParentOfRight(N, NodeAt(i));
  }

  /** The closure invariant: a valid interior node has valid children. The
      node at index e is exempt (notifyChange breaks the invariant there while
      it walks up; -1 exempts nothing). */
  ghost predicate Closed(s: seq<Info>, e: int)
  {
    TreeSize(|s|) &&
    forall i {:trigger LeftOf(|s|, i)} {:trigger RightOf(|s|, i)} ::
      0 <= i < |s| && i % 2 == 1 && s[i].valid && i != e ==>
      s[LeftOf(|s|, i)].valid && s[RightOf(|s|, i)].valid
  }

  /** Every valid node stores the hash of its subtree over data. */
  ghost predicate Consistent(s: seq<Info>, data: seq<bv8>)
  {
    |s| == CalcNumNodes(|data|) &&
    forall i {:trigger HashAt(data, i)} :: 0 <= i < |s| && s[i].valid ==> s[i].hash == HashAt(data, i)
  }

  /** What a cache entry keeps true between calls, for the contents data its
      hashes describe. */
  ghost predicate CacheInvariant(s: seq<Info>, count: nat, data: seq<bv8>)
  {
    Consistent(s, data) && Closed(s, -1) && count == CountValid(s)
  }

  /** The array after `nodes[n].valid = false`. */
  function ClearedAt(s: seq<Info>, n: nat): seq<Info>
    requires n < |s|
  {
    s[n := s[n].(valid := false)]
  }

  /** Clearing the flag of c moves the exemption of the closure invariant to
      the parent of c (the root has none). */
  lemma ClearClosed(s: seq<Info>, c: Node, e: int)
    requires Closed(s, e) && InTree(|s|, c) && (e == c.n || e == -1)
    ensures c == Top(|s|) ==> Closed(ClearedAt(s, c.n), -1)
    ensures c != Top(|s|) ==> Closed(ClearedAt(s, c.n), ParentOf(|s|, c).n)
  {
    var N := |s|;
    var t := ClearedAt(s, c.n);
    var e' := if c == Top(N) then -1 else ParentOf(N, c).n;
    forall i | 0 <= i < N && i % 2 == 1 && t[i].valid && i != e'
      ensures t[LeftOf(N, i)].valid && t[RightOf(N, i)].valid
    {
      if LeftOf(N, i) == c.n || RightOf(N, i) == c.n {
        ChildIndexParent(N, i, c);
      }
    }
    assert Closed(t, e');
  }

  /** Storing the subtree hash at an invalid node whose children are valid
      keeps the invariant and adds one to the count. */
  lemma SetValidKeeps(s: seq<Info>, data: seq<bv8>, nd: Node, h: TigerHash)
    requires Consistent(s, data) && Closed(s, -1) && InTree(|s|, nd) && !s[nd.n].valid
    requires nd.n % 2 == 1 ==> s[LeftOf(|s|, nd.n)].valid && s[RightOf(|s|, nd.n)].valid
    requires h == SubtreeHash(data, nd)
    ensures Consistent(s[nd.n := Info(h, true)], data) && Closed(s[nd.n := Info(h, true)], -1)
    ensures CountValid(s[nd.n := Info(h, true)]) == CountValid(s) + 1
  {
    NodeAtIndex(|s|, nd);
    CountUpdate(s, nd.n, Info(h, true));
  }

  /** A valid node has every node it covers valid. */
  lemma {:induction false} ClosureCovers(s: seq<Info>, i: nat, j: nat)
    requires Closed(s, -1) && i < |s| && j < |s| && s[i].valid
    requires Covers(NodeAt(i), j)
    ensures s[j].valid
    decreases Level(i)
  {
    var N := |s|;
    LevelWF(i);
    var nd := NodeAt(i);
    WFFacts(nd);
    if j != i {
      assert i % 2 == 1;
      ChildrenAt(N, i);
      ChildSpans(N, nd, j);
      if Covers(LeftChild(nd), j) {
        ClosureCovers(s, LeftOf(N, i), j);
      } else {
        ClosureCovers(s, RightOf(N, i), j);
      }
    }
  }

  /** Index blk is a block whose leaf lies below nd. */
  ghost predicate CoversLeafBlock(nd: Node, blk: nat)
  {
    Covers(nd, 2 * blk)
  }

  /** d1 and d2 agree on the bytes of block blk. */
  ghost predicate SameBlock(d1: seq<bv8>, d2: seq<bv8>, blk: nat)
  {
    forall k :: blk * BLOCK_SIZE <= k < blk * BLOCK_SIZE + BLOCK_SIZE && k < |d1| && k < |d2| ==> d1[k] == d2[k]
  }

  /** The hash of a subtree depends only on the blocks of its leaves. */
  lemma {:induction false} HashFrame(d1: seq<bv8>, d2: seq<bv8>, nd: Node)
    requires |d1| == |d2| && InTree(CalcNumNodes(|d1|), nd)
    requires forall blk: nat :: 2 * blk < CalcNumNodes(|d1|) && CoversLeafBlock(nd, blk) ==> SameBlock(d1, d2, blk)
    ensures SubtreeHash(d1, nd) == SubtreeHash(d2, nd)
    decreases nd.l
  {
    var N := CalcNumNodes(|d1|);
    WFFacts(nd);
    if nd.n % 2 == 1 {
      ChildrenInTree(N, nd);
      var left, right := LeftChild(nd), RightChild(N, nd);
      forall blk: nat | 2 * blk < N && (CoversLeafBlock(left, blk) || CoversLeafBlock(right, blk))
        ensures SameBlock(d1, d2, blk)
      {
        ChildSpans(N, nd, 2 * blk);
      }
      HashFrame(d1, d2, left);
      HashFrame(d1, d2, right);
    } else {
      var blk := nd.n / 2;
      assert CoversLeafBlock(nd, blk);
      LeafFacts(N, blk);
      LeafFrame(d1, d2, blk);
    }
  }

  /** The hash of a leaf depends only on the bytes of its block. */
  lemma LeafFrame(d1: seq<bv8>, d2: seq<bv8>, blk: nat)
    requires |d1| == |d2| && 2 * blk < CalcNumNodes(|d1|) && SameBlock(d1, d2, blk)
    requires Leaf(blk).n * (BLOCK_SIZE / 2) == blk * BLOCK_SIZE
    ensures 2 * blk * (BLOCK_SIZE / 2) <= |d1|
    ensures LeafHash(d1, 2 * blk) == LeafHash(d2, 2 * blk)
  {
    LeafInData(|d1|, 2 * blk);
    var b := blk * BLOCK_SIZE;
    if |d1| - b >= BLOCK_SIZE {
      assert d1[b..b + BLOCK_SIZE] == d2[b..b + BLOCK_SIZE];
    } else {
      assert d1[b..] == d2[b..];
    }
  }

  /** Division by BLOCK_SIZE is monotonic. */
  lemma BlockMono(a: nat, b: nat)
    requires a <= b
    ensures a / BLOCK_SIZE <= b / BLOCK_SIZE
  {
  }

  /** A byte lies in the block its index divided by BLOCK_SIZE names. */
  lemma ByteBlock(k: nat, blk: nat)
    requires blk * BLOCK_SIZE <= k < blk * BLOCK_SIZE + BLOCK_SIZE
    ensures k / BLOCK_SIZE == blk
  {
    DivModUnique(k, BLOCK_SIZE, blk, k - blk * BLOCK_SIZE);
  }

  /** The block of every byte of the data has a leaf in the tree. */
  lemma ByteLeaf(dataSize: nat, k: nat)
    requires k < dataSize
    ensures 2 * (k / BLOCK_SIZE) < CalcNumNodes(dataSize)
  {
    var N := CalcNumNodes(dataSize);
    var m := (N + 1) / 2;
    NumNodesBlocks(dataSize);
    DivMod(k, BLOCK_SIZE);
  }

  /** After notifyChange has invalidated the leaves of the changed blocks,
      the hashes still marked valid describe the new contents too. */
  lemma NotifyConsistent(s: seq<Info>, before: seq<bv8>, after: seq<bv8>, offset: nat, len: nat)
    requires Consistent(s, before) && Closed(s, -1) && |after| == |before|
    requires len > 0 && offset + len <= |before|
    requires forall k :: 0 <= k < |before| && (k < offset || offset + len <= k) ==> after[k] == before[k]
    requires forall b :: offset / BLOCK_SIZE <= b <= (offset + len - 1) / BLOCK_SIZE ==> 2 * b < |s| && !s[2 * b].valid
    ensures Consistent(s, after)
  {
    var first, last := offset / BLOCK_SIZE, (offset + len - 1) / BLOCK_SIZE;
    forall i | 0 <= i < |s| && s[i].valid
      ensures s[i].hash == HashAt(after, i)
    {
      LevelWF(i);
      forall blk: nat | 2 * blk < |s| && CoversLeafBlock(NodeAt(i), blk)
        ensures SameBlock(before, after, blk)
      {
        ClosureCovers(s, i, 2 * blk);
        assert !(first <= blk <= last);
        forall k | blk * BLOCK_SIZE <= k < blk * BLOCK_SIZE + BLOCK_SIZE && k < |before|
          ensures before[k] == after[k]
        {
          ByteBlock(k, blk);
          if offset <= k {
            BlockMono(offset, k);
          }
          if k <= offset + len - 1 {
            BlockMono(k, offset + len - 1);
          }
        }
      }
      assert s[i].hash == HashAt(before, i);
      HashFrame(before, after, NodeAt(i));
    }
  }

  /** Only valid flags were cleared; no hash changed. */
  ghost predicate OnlyCleared(s: seq<Info>, t: seq<Info>)
  {
    |s| == |t| &&
    forall i :: 0 <= i < |s| ==> t[i].hash == s[i].hash && (t[i].valid ==> s[i].valid)
  }

  /** Node i is the root or an ancestor of the leaf of a block in b0..b1. */
  ghost predicate Touched(N: nat, i: nat, b0: nat, b1: nat)
  {
    i == Top(N).n || exists b :: b0 <= b <= b1 && CoversLeafBlock(NodeAt(i), b)
  }

  /** What notifyChange has done to the flags, from s0 to s, once it has
      handled blocks b0 .. b - 1 of the changed blocks b0 .. b1: the root is
      cleared, the leaves of those blocks are cleared, no hash changed, and
      only flags of the root and of ancestors of changed leaves were
      cleared. */
  ghost predicate Invalidated(s0: seq<Info>, s: seq<Info>, b0: nat, b: nat, b1: nat)
  {
    |s0| == |s| &&
    Top(|s|).n < |s| && !s[Top(|s|).n].valid &&
    (forall blk :: b0 <= blk < b ==> 2 * blk < |s| && !s[2 * blk].valid) &&
    OnlyCleared(s0, s) &&
    (forall i :: 0 <= i < |s| && s0[i].valid && !s[i].valid ==> Touched(|s|, i, b0, b1))
  }

  /** The state of notifyChange between two blocks: the flags are
      invalidated so far, and the cache invariant holds. */
  ghost predicate Clearing(s0: seq<Info>, s: seq<Info>, count: nat, data: seq<bv8>, b0: nat, b: nat, b1: nat)
  {
    CacheInvariant(s, count, data) && Invalidated(s0, s, b0, b, b1)
  }

  /** The state of the inner loop of notifyChange for block blk, standing
      at node on the path from the leaf of blk to the root: as Clearing, but
      the closure invariant is exempt at node, and the leaf of blk is cleared
      unless node is that leaf. */
  ghost predicate Climbing(s0: seq<Info>, s: seq<Info>, count: nat, data: seq<bv8>, b0: nat, blk: nat, b1: nat, node: Node)
  {
    |s0| == |s| == CalcNumNodes(|data|) && b0 <= blk <= b1 &&
    InTree(|s|, node) && CoversLeafBlock(node, blk) &&
    Consistent(s, data) && Closed(s, node.n) && count == CountValid(s) &&
    Top(|s|).n < |s| && !s[Top(|s|).n].valid &&
    2 * blk < |s| && (node.n == 2 * blk || !s[2 * blk].valid) &&
    (forall b :: b0 <= b < blk ==> 2 * b < |s| && !s[2 * b].valid) &&
    OnlyCleared(s0, s) &&
    (forall i :: 0 <= i < |s| && s0[i].valid && !s[i].valid ==> Touched(|s|, i, b0, b1))
  }

  /** The sentinel step of notifyChange: clearing the root (when it is
      valid) starts the walk over the blocks b0 .. b1. */
  lemma StartClearing(s0: seq<Info>, count: nat, data: seq<bv8>, b0: nat, b1: nat)
    requires CacheInvariant(s0, count, data)
    ensures Top(|s0|).n < |s0|
    ensures s0[Top(|s0|).n].valid ==> count >= 1 && Clearing(s0, ClearedAt(s0, Top(|s0|).n), count - 1, data, b0, b0, b1)
    ensures !s0[Top(|s0|).n].valid ==> Clearing(s0, s0, count, data, b0, b0, b1)
  {
    var top := Top(|s0|);
    TopInTree(|s0|);
    if s0[top.n].valid {
      ClearClosed(s0, top, -1);
      CountUpdate(s0, top.n, s0[top.n].(valid := false));
    }
  }

  /** The walk for block blk starts at its leaf. */
  lemma StartClimb(s0: seq<Info>, s: seq<Info>, count: nat, data: seq<bv8>, b0: nat, blk: nat, b1: nat)
    requires Clearing(s0, s, count, data, b0, blk, b1) && b0 <= blk <= b1 && 2 * blk < |s|
    ensures Climbing(s0, s, count, data, b0, blk, b1, Leaf(blk))
  {
    LeafFacts(|s|, blk);
  }

  /** One iteration of the inner loop: a valid node on the path is not the
      root; clearing it moves the exemption to its parent, one level or more
      higher, which still covers the leaf of blk. */
  lemma ClearStep(s0: seq<Info>, s: seq<Info>, count: nat, data: seq<bv8>, b0: nat, blk: nat, b1: nat, node: Node)
    requires Climbing(s0, s, count, data, b0, blk, b1, node) && s[node.n].valid
    ensures count >= 1 && node != Top(|s|)
    ensures node.l < ParentOf(|s|, node).l <= Top(|s|).l
    ensures Climbing(s0, ClearedAt(s, node.n), count - 1, data, b0, blk, b1, ParentOf(|s|, node))
  {
    var N := |s|;
    NodeAtIndex(N, node);
    assert CoversLeafBlock(NodeAt(node.n), blk);
    ClearTracked(s0, s, node.n, b0, b1);
    ClearConsistent(s, data, node.n);
    ClearClosed(s, node, node.n);
    CountUpdate(s, node.n, s[node.n].(valid := false));
    ParentFacts(N, node, 2 * blk);
    LevelBound(N, ParentOf(N, node));
    assert CoversLeafBlock(ParentOf(N, node), blk);
  }

  /** Clearing a flag keeps the stored hashes consistent. */
  lemma ClearConsistent(s: seq<Info>, data: seq<bv8>, n: nat)
    requires Consistent(s, data) && n < |s|
    ensures Consistent(ClearedAt(s, n), data)
  {
    var t := ClearedAt(s, n);
    forall i | 0 <= i < |t| && t[i].valid
      ensures t[i].hash == HashAt(data, i)
    {
      assert s[i].hash == HashAt(data, i);
    }
  }

  /** Clearing the flag of a touched node keeps "only touched flags were
      cleared, no hash changed". */
  lemma ClearTracked(s0: seq<Info>, s: seq<Info>, n: nat, b0: nat, b1: nat)
    requires OnlyCleared(s0, s) && n < |s| && Touched(|s|, n, b0, b1)
    requires forall i :: 0 <= i < |s| && s0[i].valid && !s[i].valid ==> Touched(|s|, i, b0, b1)
    ensures OnlyCleared(s0, ClearedAt(s, n))
    ensures forall i :: 0 <= i < |s| && s0[i].valid && !ClearedAt(s, n)[i].valid ==> Touched(|s|, i, b0, b1)
  {
  }

  /** The inner loop stops at an invalid node: the closure invariant is
      whole again and the leaf of blk is cleared. */
  lemma EndClimb(s0: seq<Info>, s: seq<Info>, count: nat, data: seq<bv8>, b0: nat, blk: nat, b1: nat, node: Node)
    requires Climbing(s0, s, count, data, b0, blk, b1, node) && !s[node.n].valid
    ensures Clearing(s0, s, count, data, b0, blk + 1, b1)
  {
  }

  /** Only invalid nodes below nd were changed, and those became valid. */
  ghost predicate GrowsIn(s: seq<Info>, t: seq<Info>, nd: Node)
  {
    |s| == |t| &&
    forall j :: 0 <= j < |s| && t[j] != s[j] ==> Covers(nd, j) && !s[j].valid && t[j].valid
  }

  /** The changes of calcHash on the two children and on nd itself are
      changes below nd; nd itself was untouched by the children. */
  lemma GrowsChildren(N: nat, nd: Node, s0: seq<Info>, s1: seq<Info>, s2: seq<Info>)
    requires InTree(N, nd) && nd.l > 1 && |s0| == N
    requires GrowsIn(s0, s1, LeftChild(nd)) && GrowsIn(s1, s2, RightChild(N, nd))
    ensures s2[nd.n] == s0[nd.n]
    ensures !s0[nd.n].valid ==> forall h :: GrowsIn(s0, s2[nd.n := Info(h, true)], nd)
  {
    ChildSpans(N, nd, nd.n);
    forall j | 0 <= j < N
      ensures (Covers(LeftChild(nd), j) || Covers(RightChild(N, nd), j)) ==> Covers(nd, j)
    {
      ChildSpans(N, nd, j);
    }
  }

  /** Once the root and everything below it is valid, the whole array is
      valid, the counter is full and the root stores the tree hash. */
  lemma RootComplete(s: seq<Info>, count: nat, data: seq<bv8>, root: Node, h: TigerHash)
    requires CacheInvariant(s, count, data) && root == Top(|s|) && InTree(|s|, root)
    requires forall j :: 0 <= j < |s| && Covers(root, j) ==> s[j].valid
    requires h == SubtreeHash(data, root)
    ensures h == TreeHash(data)
    ensures forall i :: 0 <= i < |s| ==> s[i].valid
    ensures count == |s|
  {
    TopInTree(|s|);
    forall i | 0 <= i < |s|
      ensures s[i].valid
    {
      TopCovers(|s|, i);
    }
    CountValidRange(s);
  }

  /** What calcHash(node) leaves behind, from array s0 to array s: h is the
      stored hash of node and the hash of its subtree, everything node covers
      is valid, and only invalid nodes below node changed. */
  ghost predicate Computed(s0: seq<Info>, s: seq<Info>, data: seq<bv8>, node: Node, h: TigerHash)
  {
    |s0| == |s| == CalcNumNodes(|data|) && InTree(|s|, node) &&
    h == s[node.n].hash && h == SubtreeHash(data, node) &&
    (forall j :: 0 <= j < |s| && Covers(node, j) ==> s[j].valid) &&
    GrowsIn(s0, s, node)
  }

  /** The state just before calcHash stores h at the invalid node: everything
      else node covers is valid, in particular its children, and h is the
      hash of its subtree. */
  ghost predicate Ready(s0: seq<Info>, s: seq<Info>, data: seq<bv8>, node: Node, h: TigerHash)
  {
    |s0| == |s| == CalcNumNodes(|data|) && InTree(|s|, node) &&
    !s0[node.n].valid && !s[node.n].valid && GrowsIn(s0, s, node) &&
    (forall j :: 0 <= j < |s| && Covers(node, j) && j != node.n ==> s[j].valid) &&
    (node.n % 2 == 1 ==> TreeSize(|s|) && s[LeftOf(|s|, node.n)].valid && s[RightOf(|s|, node.n)].valid) &&
    h == SubtreeHash(data, node)
  }

  /** A valid node needs no work: it already stores its subtree hash and
      covers only valid nodes. */
  lemma ValidDone(s: seq<Info>, count: nat, data: seq<bv8>, node: Node)
    requires CacheInvariant(s, count, data) && InTree(|s|, node) && s[node.n].valid
    ensures Computed(s, s, data, node, s[node.n].hash)
  {
    ValidHash(s, data, node);
    ValidCovers(s, node);
  }

  lemma ValidHash(s: seq<Info>, data: seq<bv8>, node: Node)
    requires Consistent(s, data) && InTree(|s|, node) && s[node.n].valid
    ensures s[node.n].hash == SubtreeHash(data, node)
  {
    NodeAtIndex(|s|, node);
    assert s[node.n].hash == HashAt(data, node.n);
  }

  lemma ValidCovers(s: seq<Info>, node: Node)
    requires Closed(s, -1) && InTree(|s|, node) && s[node.n].valid
    ensures forall j :: 0 <= j < |s| && Covers(node, j) ==> s[j].valid
  {
    NodeAtIndex(|s|, node);
    forall j | 0 <= j < |s| && Covers(node, j)
      ensures s[j].valid
    {
      ClosureCovers(s, node.n, j);
    }
  }

  /** An invalid leaf is ready for its block hash. */
  lemma LeafReady(s: seq<Info>, data: seq<bv8>, node: Node)
    requires |s| == CalcNumNodes(|data|) && InTree(|s|, node) && node.n % 2 == 0 && !s[node.n].valid
    ensures node.n * (BLOCK_SIZE / 2) <= |data|
    ensures Ready(s, s, data, node, LeafHash(data, node.n))
  {
    WFFacts(node);
    LeafInData(|data|, node.n);
  }

  /** After calcHash on both children of an invalid interior node, the node
      is ready for TigerInt of the children's hashes. */
  lemma InteriorReady(node: Node, data: seq<bv8>, s0: seq<Info>, s1: seq<Info>, s2: seq<Info>, h1: TigerHash, h2: TigerHash)
    requires |s0| == CalcNumNodes(|data|) && InTree(|s0|, node) && node.l > 1 && !s0[node.n].valid
    requires InTree(|s0|, LeftChild(node)) && InTree(|s0|, RightChild(|s0|, node))
    requires Computed(s0, s1, data, LeftChild(node), h1)
    requires Computed(s1, s2, data, RightChild(|s0|, node), h2)
    ensures Ready(s0, s2, data, node, TigerInt(h1, h2))
  {
    var N := |s0|;
    ChildrenInTree(N, node);
    ChildrenAt(N, node.n);
    NodeAtIndex(N, node);
    GrowsChildren(N, node, s0, s1, s2);
    assert Covers(LeftChild(node), LeftChild(node).n);
    assert Covers(RightChild(N, node), RightChild(N, node).n);
    forall j | 0 <= j < N && Covers(node, j) && j != node.n
      ensures s2[j].valid
    {
      ChildSpans(N, node, j);
    }
    forall j | 0 <= j < N && s2[j] != s0[j]
      ensures Covers(node, j) && !s0[j].valid && s2[j].valid
    {
      ChildSpans(N, node, j);
    }
  }

  /** Storing h at a ready node keeps the invariant, adds one to the count
      and completes the computation of calcHash(node). */
  lemma StoreDone(s0: seq<Info>, s: seq<Info>, count: nat, data: seq<bv8>, node: Node, h: TigerHash)
    requires CacheInvariant(s, count, data) && Ready(s0, s, data, node, h)
    ensures CacheInvariant(s[node.n := Info(h, true)], count + 1, data)
    ensures Computed(s0, s[node.n := Info(h, true)], data, node, h)
  {
    SetValidKeeps(s, data, node, h);
  }

  /** The progress reports (numNodesValid, total) made while the counter
      went from lo to hi, one per recomputed node. */
  function Reports(lo: nat, hi: nat, total: nat): (r: seq<(nat, nat)>)
    requires lo <= hi
    ensures |r| == hi - lo
    ensures forall k :: 0 <= k < |r| ==> r[k].0 == lo + k + 1 && r[k].1 == total
    decreases hi
  {
    if lo == hi then [] else Reports(lo, hi - 1, total) + [(hi, total)]
  }

  lemma ReportsConcat(a: nat, b: nat, c: nat, total: nat)
    requires a <= b <= c
    ensures Reports(a, b, total) + Reports(b, c, total) == Reports(a, c, total)
  {
    var x, y, z := Reports(a, b, total), Reports(b, c, total), Reports(a, c, total);
    assert forall k :: 0 <= k < |z| ==> (x + y)[k] == z[k];
  }

  /** The callback log went from p0 to p while the counter went from c0 to
      c: one report per new valid node, or none without a callback. */
  ghost predicate Reported(p0: seq<(nat, nat)>, p: seq<(nat, nat)>, c0: nat, c: nat, total: nat, withProgress: bool)
  {
    c0 <= c && p == p0 + (if withProgress then Reports(c0, c, total) else [])
  }

  /** Two stretches of reporting make one. */
  lemma ReportedConcat(p0: seq<(nat, nat)>, p1: seq<(nat, nat)>, p2: seq<(nat, nat)>, c0: nat, c1: nat, c2: nat, total: nat, withProgress: bool)
    requires Reported(p0, p1, c0, c1, total, withProgress) && Reported(p1, p2, c1, c2, total, withProgress)
    ensures Reported(p0, p2, c0, c2, total, withProgress)
  {
    if withProgress {
      ReportsConcat(c0, c1, c2, total);
    }
  }

  /** One more valid node, reported as (c + 1, total) when there is a
      callback. */
  lemma ReportedStep(p0: seq<(nat, nat)>, p1: seq<(nat, nat)>, c0: nat, c1: nat, total: nat, withProgress: bool)
    requires Reported(p0, p1, c0, c1, total, withProgress)
    ensures Reported(p0, p1 + (if withProgress then [(c1 + 1, total)] else []), c0, c1 + 1, total, withProgress)
  {
    if withProgress {
      assert Reports(c1, c1 + 1, total) == [(c1 + 1, total)];
      ReportsConcat(c0, c1, c1 + 1, total);
    }
  }

  /** The contents of the data a tree is computed over (TTData). */
  class TTData {
    var bytes: seq<bv8>

    constructor (bytes: seq<bv8>)
      ensures this.bytes == bytes
    {
      this.bytes := bytes;
    }
  }

  /** One entry of the global cache: the node array, the time of the last
      change and the counter of valid flags. The ghost field hashed is the
      contents the stored hashes describe. */
  class TTCacheEntry {
    var nodes: array<Info>
    var time: int
    var numNodesValid: nat
    ghost var hashed: seq<bv8>

    /** A fresh entry of the cache map: no nodes, time -1. */
    constructor ()
      ensures nodes.Length == 0 && time == -1 && numNodesValid == 0 && hashed == []
    {
      nodes := new Info[0];
      time := -1;
      numNodesValid := 0;
      hashed := [];
    }

    /** The reset part of getCacheEntry. The validity check is handed the
        entry's time and may rewrite it: newTime is the time it leaves.
        Unless the cache is still valid for the data (its hashes were
        computed over the current contents), size the array for dataSize
        and clear every flag. */
    method Refresh(dataSize: nat, stillValid: bool, newTime: int, ghost contents: seq<bv8>)
      requires |contents| == dataSize
      requires stillValid ==> hashed == contents && CacheInvariant(nodes[..], numNodesValid, hashed)
      modifies this
      ensures hashed == contents && CacheInvariant(nodes[..], numNodesValid, hashed)
      ensures time == newTime
      ensures stillValid ==> nodes == old(nodes) && nodes[..] == old(nodes[..]) && numNodesValid == old(numNodesValid)
      ensures !stillValid ==> fresh(nodes) && nodes.Length == CalcNumNodes(dataSize) && numNodesValid == 0
      ensures !stillValid ==> forall i :: 0 <= i < nodes.Length ==> !nodes[i].valid
    {
      time := newTime;
      if !stillValid {
        var numNodes := CalcNumNodes(dataSize);
        nodes := new Info[numNodes](_ => Info(Tiger([]), false));
        numNodesValid := 0;
        hashed := contents;
        CountValidRange(nodes[..]);
      }
    }
  }

  /** A TigerTree over data of dataSize bytes, working on one cache entry.
      progress records the calls of the progress callback. */
  class TigerTree {
    const data: TTData
    const dataSize: nat
    const entry: TTCacheEntry
    var progress: seq<(nat, nat)>

    ghost predicate Valid()
      reads this, entry, entry.nodes
    {
      |entry.hashed| == dataSize && CacheInvariant(entry.nodes[..], entry.numNodesValid, entry.hashed)
    }

    constructor (data: TTData, dataSize: nat, entry: TTCacheEntry, stillValid: bool, newTime: int)
      requires |data.bytes| == dataSize
      requires stillValid ==> entry.hashed == data.bytes && CacheInvariant(entry.nodes[..], entry.numNodesValid, entry.hashed)
      modifies entry
      ensures this.data == data && this.dataSize == dataSize && this.entry == entry && progress == []
      ensures Valid() && entry.hashed == data.bytes && entry.time == newTime
      ensures stillValid ==> entry.nodes == old(entry.nodes) && entry.nodes[..] == old(entry.nodes[..]) && entry.numNodesValid == old(entry.numNodesValid)
      ensures !stillValid ==> fresh(entry.nodes) && entry.nodes.Length == CalcNumNodes(dataSize) && entry.numNodesValid == 0
      ensures !stillValid ==> forall i :: 0 <= i < entry.nodes.Length ==> !entry.nodes[i].valid
    {
      this.data := data;
      this.dataSize := dataSize;
      this.entry := entry;
      progress := [];
      new;
      entry.Refresh(dataSize, stillValid, newTime, data.bytes);
    }

    /** getParent: the loop climbs the complete tree until the index exists. */
    method GetParent(node: Node) returns (p: Node)
      requires InTree(entry.nodes.Length, node) && node != Top(entry.nodes.Length)
      ensures p == ParentOf(entry.nodes.Length, node)
    {
      ghost var N := entry.nodes.Length;
      ParentOfPre(N, node);
      p := ParentStep(node);
      while p.n >= entry.nodes.Length
        invariant Climbable(N, p) && Climb(N, p) == ParentOf(N, node)
        decreases Top(N).l - p.l
      {
        ClimbStep(N, p);
        p := ParentStep(p);
      }
    }

    /** getRightChild: halve the level until n + level is an index. */
    method GetRightChild(node: Node) returns (r: Node)
      requires InTree(entry.nodes.Length, node) && node.l > 1
      ensures r == RightChild(entry.nodes.Length, node)
    {
      InteriorFacts(entry.nodes.Length, node);
      var l := node.l;
      while true
        invariant IsPow2(l) && l >= 2
        invariant RightFrom(entry.nodes.Length, node.n, l) == RightChild(entry.nodes.Length, node)
        decreases l
      {
        Pow2Facts(l);
        l := l / 2;
        if node.n + l < entry.nodes.Length {
          return Node(node.n + l, l);
        }
        Pow2Facts(l);
      }
    }

    /** notifyChange: bytes offset .. offset + len - 1 of the data changed at
        time. The root is cleared as a sentinel, then from the leaf of every
        changed block the flags are cleared upwards up to the first node that
        is already invalid. */
    method NotifyChange(offset: nat, len: nat, time: int)
      requires Valid() && offset + len <= dataSize && |data.bytes| == dataSize
      requires forall k :: 0 <= k < dataSize && (k < offset || offset + len <= k) ==> data.bytes[k] == entry.hashed[k]
      modifies entry`time, entry`numNodesValid, entry`hashed, entry.nodes
      ensures Valid() && entry.hashed == data.bytes && entry.time == time
      ensures len == 0 ==> entry.nodes[..] == old(entry.nodes[..]) && entry.numNodesValid == old(entry.numNodesValid)
      ensures len > 0 ==> Invalidated(old(entry.nodes[..]), entry.nodes[..],
        offset / BLOCK_SIZE, (offset + len - 1) / BLOCK_SIZE + 1, (offset + len - 1) / BLOCK_SIZE)
    {
      entry.time := time;
      if len == 0 {
        assert data.bytes == entry.hashed;
        entry.hashed := data.bytes;
        return;
      }
      var first := offset / BLOCK_SIZE;
      var last := (offset + len - 1) / BLOCK_SIZE;
      ByteLeaf(dataSize, offset + len - 1);
      BlockMono(offset, offset + len - 1);
      ClearBlocks(first, last);
      NotifyConsistent(entry.nodes[..], entry.hashed, data.bytes, offset, len);
      entry.hashed := data.bytes;
    }

    /** The flag clearing of notifyChange for the changed blocks
        first .. last: the sentinel, then the do/while loop over the blocks. */
    method ClearBlocks(first: nat, last: nat)
      requires CacheInvariant(entry.nodes[..], entry.numNodesValid, entry.hashed)
      requires first <= last && 2 * last < entry.nodes.Length
      modifies entry`numNodesValid, entry.nodes
      ensures Clearing(old(entry.nodes[..]), entry.nodes[..], entry.numNodesValid, entry.hashed, first, last + 1, last)
    {
      ghost var s0 := entry.nodes[..];
      StartClearing(s0, entry.numNodesValid, entry.hashed, first, last);
      var top := Top(entry.nodes.Length);
      if entry.nodes[top.n].valid {
        entry.nodes[top.n] := entry.nodes[top.n].(valid := false);
        entry.numNodesValid := entry.numNodesValid - 1;
        assert entry.nodes[..] == ClearedAt(s0, top.n);
      }
      var b := first;
      while b <= last
        modifies entry`numNodesValid, entry.nodes
        invariant first <= b <= last + 1
        invariant Clearing(s0, entry.nodes[..], entry.numNodesValid, entry.hashed, first, b, last)
      {
        ClearPath(b, s0, first, last);
        b := b + 1;
      }
    }

    /** One round of the do/while loop of notifyChange: from the leaf of
        block blk, clear valid flags upwards (getParent) up to the first
        invalid node. */
    method ClearPath(blk: nat, ghost s0: seq<Info>, ghost b0: nat, ghost b1: nat)
      requires Clearing(s0, entry.nodes[..], entry.numNodesValid, entry.hashed, b0, blk, b1)
      requires b0 <= blk <= b1 && 2 * blk < entry.nodes.Length
      modifies entry`numNodesValid, entry.nodes
      ensures Clearing(s0, entry.nodes[..], entry.numNodesValid, entry.hashed, b0, blk + 1, b1)
    {
      StartClimb(s0, entry.nodes[..], entry.numNodesValid, entry.hashed, b0, blk, b1);
      var node := Leaf(blk);
      while entry.nodes[node.n].valid
        modifies entry`numNodesValid, entry.nodes
        invariant Climbing(s0, entry.nodes[..], entry.numNodesValid, entry.hashed, b0, blk, b1, node)
        decreases Top(entry.nodes.Length).l - node.l
      {
        node := ClearNode(node, s0, b0, blk, b1);
      }
      EndClimb(s0, entry.nodes[..], entry.numNodesValid, entry.hashed, b0, blk, b1, node);
    }

    /** The body of the inner loop of notifyChange: clear the valid node
        and go to its parent. */
    method ClearNode(node: Node, ghost s0: seq<Info>, ghost b0: nat, ghost blk: nat, ghost b1: nat) returns (p: Node)
      requires Climbing(s0, entry.nodes[..], entry.numNodesValid, entry.hashed, b0, blk, b1, node)
      requires entry.nodes[node.n].valid
      modifies entry`numNodesValid, entry.nodes
      ensures Climbing(s0, entry.nodes[..], entry.numNodesValid, entry.hashed, b0, blk, b1, p)
      ensures node.l < p.l <= Top(entry.nodes.Length).l
    {
      ghost var s := entry.nodes[..];
      ClearStep(s0, s, entry.numNodesValid, entry.hashed, b0, blk, b1, node);
      entry.nodes[node.n] := entry.nodes[node.n].(valid := false);
      entry.numNodesValid := entry.numNodesValid - 1;
      assert entry.nodes[..] == ClearedAt(s, node.n);
      p := GetParent(node);
    }

    /** calcHash(node): the hash of the subtree below node, recomputing the
        invalid nodes below it bottom-up and reporting each recomputation to
        the progress callback when there is one. A valid node is returned
        as stored. */
    method CalcHash(node: Node, withProgress: bool) returns (h: TigerHash)
      requires Valid() && data.bytes == entry.hashed && InTree(entry.nodes.Length, node)
      modifies entry`numNodesValid, entry.nodes, this`progress
      ensures Valid()
      ensures Computed(old(entry.nodes[..]), entry.nodes[..], entry.hashed, node, h)
      ensures old(entry.nodes[node.n].valid) ==> entry.nodes[..] == old(entry.nodes[..]) && entry.numNodesValid == old(entry.numNodesValid)
      ensures Reported(old(progress), progress, old(entry.numNodesValid), entry.numNodesValid, entry.nodes.Length, withProgress)
      decreases node.l, 2
    {
      if entry.nodes[node.n].valid {
        ValidDone(entry.nodes[..], entry.numNodesValid, entry.hashed, node);
        h := entry.nodes[node.n].hash;
      } else {
        h := Recompute(node, withProgress);
      }
    }

    /** The body of calcHash for an invalid node: compute its hash, store
        it, mark the node valid and count and report it. */
    method Recompute(node: Node, withProgress: bool) returns (h: TigerHash)
      requires Valid() && data.bytes == entry.hashed && InTree(entry.nodes.Length, node)
      requires !entry.nodes[node.n].valid
      modifies entry`numNodesValid, entry.nodes, this`progress
      ensures Valid()
      ensures Computed(old(entry.nodes[..]), entry.nodes[..], entry.hashed, node, h)
      ensures Reported(old(progress), progress, old(entry.numNodesValid), entry.numNodesValid, entry.nodes.Length, withProgress)
      decreases node.l, 1
    {
      ghost var s0, p0, c0 := entry.nodes[..], progress, entry.numNodesValid;
      var hash;
      if node.n % 2 == 1 {
        hash := HashChildren(node, withProgress);
      } else {
        LeafReady(entry.nodes[..], entry.hashed, node);
        hash := LeafHash(data.bytes, node.n);
      }
      ghost var p1, c1 := progress, entry.numNodesValid;
      Store(node, hash, withProgress, s0);
      ReportedConcat(p0, p1, progress, c0, c1, entry.numNodesValid, entry.nodes.Length, withProgress);
      h := hash;
    }

    /** The end of calcHash for an invalid node: store the hash, set the
        flag, count it and call the progress callback. */
    method Store(node: Node, hash: TigerHash, withProgress: bool, ghost s0: seq<Info>)
      requires Valid() && Ready(s0, entry.nodes[..], entry.hashed, node, hash)
      modifies entry`numNodesValid, entry.nodes, this`progress
      ensures Valid()
      ensures Computed(s0, entry.nodes[..], entry.hashed, node, hash)
      ensures Reported(old(progress), progress, old(entry.numNodesValid), entry.numNodesValid, entry.nodes.Length, withProgress)
    {
      ghost var s1, p1, c1 := entry.nodes[..], progress, entry.numNodesValid;
      StoreDone(s0, s1, c1, entry.hashed, node, hash);
      entry.nodes[node.n] := Info(hash, true);
      entry.numNodesValid := entry.numNodesValid + 1;
      if withProgress {
        progress := progress + [(entry.numNodesValid, entry.nodes.Length)];
      }
      ReportedStep(p1, p1, c1, c1, entry.nodes.Length, withProgress);
      assert entry.nodes[..] == s1[node.n := Info(hash, true)];
    }

    /** The interior branch of calcHash: calcHash on the left child, then on
        the right child, and tiger_int of the two hashes. */
    method HashChildren(node: Node, withProgress: bool) returns (hash: TigerHash)
      requires Valid() && data.bytes == entry.hashed && InTree(entry.nodes.Length, node)
      requires !entry.nodes[node.n].valid && node.n % 2 == 1
      modifies entry`numNodesValid, entry.nodes, this`progress
      ensures Valid()
      ensures Ready(old(entry.nodes[..]), entry.nodes[..], entry.hashed, node, hash)
      ensures Reported(old(progress), progress, old(entry.numNodesValid), entry.numNodesValid, entry.nodes.Length, withProgress)
      decreases node.l, 0
    {
      ghost var s0, p0, c0 := entry.nodes[..], progress, entry.numNodesValid;
      WFFacts(node);
      ChildrenInTree(entry.nodes.Length, node);
      var left := LeftChild(node);
      var right := GetRightChild(node);
      var h1 := CalcHash(left, withProgress);
      ghost var s1, p1, c1 := entry.nodes[..], progress, entry.numNodesValid;
      var h2 := CalcHash(right, withProgress);
      InteriorReady(node, entry.hashed, s0, s1, entry.nodes[..], h1, h2);
      ReportedConcat(p0, p1, progress, c0, c1, entry.numNodesValid, entry.nodes.Length, withProgress);
      hash := TigerInt(h1, h2);
    }

    /** calcHash(): the hash of the whole tree, after which every node of the
        cache is valid. */
    method CalcRootHash(withProgress: bool) returns (h: TigerHash)
      requires Valid() && data.bytes == entry.hashed
      modifies entry`numNodesValid, entry.nodes, this`progress
      ensures Valid()
      ensures h == TreeHash(data.bytes)
      ensures forall i :: 0 <= i < entry.nodes.Length ==> entry.nodes[i].valid
      ensures entry.numNodesValid == entry.nodes.Length
      ensures progress == old(progress) +
        (if withProgress then Reports(old(entry.numNodesValid), entry.nodes.Length, entry.nodes.Length) else [])
    {
      TopInTree(entry.nodes.Length);
      var top := Top(entry.nodes.Length);
      h := CalcHash(top, withProgress);
      RootComplete(entry.nodes[..], entry.numNodesValid, entry.hashed, top, h);
    }
  }
}
