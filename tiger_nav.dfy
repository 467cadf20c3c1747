/** Index arithmetic of the linearised binary tree behind TigerTree
    (src/utils/TigerTree.cc). Leaves get the even indices 0, 2, 4, ... and
    level 1; an interior node at level l (a power of two) combines a left
    child at level l/2 with a right child at a lower level when the tree is
    not complete. In the complete infinite tree the node with index n has the
    level l for which n + 1 is an odd multiple of l; a tree with N nodes keeps
    the indices below N and links every node to its nearest ancestor that
    exists. */
module TigerNav {
  import opened Pow2Arith

  /** Bytes hashed per leaf (TigerTree::BLOCK_SIZE). */
  const BLOCK_SIZE: nat := 1024

  /** A node index together with its level (TigerTree::Node). */
  datatype Node = Node(n: nat, l: nat)

  /** Number of nodes of the tree over dataSize bytes: one leaf per block of
      BLOCK_SIZE bytes (the last one possibly partial), at least one leaf. */
  function CalcNumNodes(dataSize: nat): (r: nat)
    ensures r % 2 == 1
  {
    var numBlocks := (dataSize + BLOCK_SIZE - 1) / BLOCK_SIZE;
    if numBlocks == 0 then 1 else 2 * numBlocks - 1
  }

  /** The tree has one leaf per started block of data, and a single leaf for
      empty data: (N + 1) / 2 blocks of BLOCK_SIZE bytes hold the data, one
      fewer do not. */
  lemma NumNodesBlocks(dataSize: nat)
    ensures dataSize == 0 ==> CalcNumNodes(dataSize) == 1
    ensures dataSize > 0 ==> ((CalcNumNodes(dataSize) + 1) / 2 - 1) * BLOCK_SIZE < dataSize
    ensures dataSize <= (CalcNumNodes(dataSize) + 1) / 2 * BLOCK_SIZE
  {
    var m := (dataSize + BLOCK_SIZE - 1) / BLOCK_SIZE;
    DivMod(dataSize + BLOCK_SIZE - 1, BLOCK_SIZE);
    if m > 0 {
      assert (CalcNumNodes(dataSize) + 1) / 2 == m;
    }
  }

  /** Node counts that CalcNumNodes can produce. */
  ghost predicate TreeSize(N: nat)
  {
    N % 2 == 1
  }

  /** x & ~b for a power of two b: clears that one bit of x. Written with
      subtraction only: bit b of x is the bit b of x - 2b, for x >= 2b. */
  function ClearBit(x: nat, b: nat): (r: nat)
    requires b > 0
    ensures r == x || r + b == x
    decreases x
  {
    if x < b then x else if x < 2 * b then x - b else ClearBit(x - 2 * b, b) + 2 * b
  }

  /** With x = bq + r0 and r0 < b, the bit b of x is the parity of q: the
      bit is cleared exactly when q is odd. */
  lemma {:induction false} ClearBitAt(x: nat, b: nat, q: nat, r0: nat)
    requires b > 0 && r0 < b && x == b * q + r0
    ensures ClearBit(x, b) == if q % 2 == 1 then x - b else x
    decreases q
  {
    if q >= 2 {
      assert b * q == b * (q - 2) + 2 * b;
      ClearBitAt(x - 2 * b, b, q - 2, r0);
    } else if q == 1 {
      assert x == b + r0;
    } else {
      assert x == r0;
    }
  }

  /** One iteration of the loop in getParent: go to the parent in the
      complete tree. */
  function ParentStep(nd: Node): Node
    requires nd.l > 0
  {
    Node(ClearBit(nd.n, 2 * nd.l) + nd.l, 2 * nd.l)
  }

  /** x is an odd multiple of l: l, 3l, 5l, ... */
  ghost predicate OddMultiple(x: nat, l: nat)
    decreases x
  {
    l > 0 && (x == l || (x > 2 * l && OddMultiple(x - 2 * l, l)))
  }

  lemma {:induction false} OddMultipleOf(l: nat, q: nat)
    requires l > 0
    ensures OddMultiple(2 * l * q + l, l)
    decreases q
  {
    if q > 0 {
      assert 2 * l * q + l - 2 * l == 2 * l * (q - 1) + l by {
        MulOdd(l, q - 1);
        MulOdd(l, q);
      }
      OddMultipleOf(l, q - 1);
    }
  }

  lemma {:induction false} OddMultipleQuot(x: nat, l: nat) returns (q: nat)
    requires OddMultiple(x, l)
    ensures x == 2 * l * q + l
    decreases x
  {
    if x == l {
      q := 0;
    } else {
      var q' := OddMultipleQuot(x - 2 * l, l);
      q := q' + 1;
      MulOdd(l, q');
      MulOdd(l, q);
    }
  }

  /** nd is a node of the complete tree: its level is a power of two and
      n + 1 is an odd multiple of it. */
  ghost predicate WF(nd: Node)
  {
    IsPow2(nd.l) && OddMultiple(nd.n + 1, nd.l)
  }

  /** nd is a node of the tree with N nodes. */
  ghost predicate InTree(N: nat, nd: Node)
  {
    TreeSize(N) && WF(nd) && nd.n < N
  }

  /** Index c lies below nd in the complete tree: n - l < c < n + l. */
  ghost predicate Covers(nd: Node, c: nat)
  {
    nd.n < c + nd.l && c < nd.n + nd.l
  }

  lemma WFCompose(n: nat, l: nat, q: nat)
    requires IsPow2(l) && n + 1 == 2 * l * q + l
    ensures WF(Node(n, l))
  {
    Pow2Facts(l);
    OddMultipleOf(l, q);
  }

  lemma WFDecompose(nd: Node) returns (q: nat)
    requires WF(nd)
    ensures nd.n + 1 == 2 * nd.l * q + nd.l
  {
    q := OddMultipleQuot(nd.n + 1, nd.l);
  }

  /** The bit test of the source: n + 1 leaves remainder l modulo 2l. */
  lemma WFMod(nd: Node)
    requires WF(nd)
    ensures (nd.n + 1) % (2 * nd.l) == nd.l
  {
    var q := WFDecompose(nd);
    Pow2Facts(nd.l);
    DivModUnique(nd.n + 1, 2 * nd.l, q, nd.l);
  }

  /** Leaves are exactly the even indices; the span of a node starts at an
      even index. */
  lemma WFFacts(nd: Node)
    requires WF(nd)
    ensures nd.l >= 1 && nd.l <= nd.n + 1
    ensures nd.l == 1 <==> nd.n % 2 == 0
    ensures nd.l >= 2 ==> nd.n >= nd.l / 2 && nd.l % 2 == 0
    ensures (nd.n + 1 - nd.l) % 2 == 0
  {
    var p := OddMultipleSpan(nd.n + 1, nd.l);
    Pow2Facts(nd.l);
  }

  /** The linear form of an odd multiple: x = l + 2p. */
  lemma {:induction false} OddMultipleSpan(x: nat, l: nat) returns (p: nat)
    requires OddMultiple(x, l)
    ensures x == l + 2 * p
    decreases x
  {
    if x == l {
      p := 0;
    } else {
      var p' := OddMultipleSpan(x - 2 * l, l);
      p := p' + l;
    }
  }

  /** The parent step from a node whose index is m = 2hq + h - 1: the bit
      tested by getParent is the parity of q. */
  lemma StepAt(m: nat, h: nat, q: nat)
    requires IsPow2(h) && m + 1 == 2 * h * q + h
    ensures WF(ParentStep(Node(m, h)))
    ensures ParentStep(Node(m, h)) == if q % 2 == 1 then Node(m - h, 2 * h) else Node(m + h, 2 * h)
  {
    StepValue(m, h, q);
    StepUp(m, h, q);
  }

  lemma StepValue(m: nat, h: nat, q: nat)
    requires h > 0 && m + 1 == 2 * h * q + h
    ensures q % 2 == 1 ==> m >= h
    ensures ParentStep(Node(m, h)) == if q % 2 == 1 then Node(m - h, 2 * h) else Node(m + h, 2 * h)
  {
    ClearBitAt(m, 2 * h, q, h - 1);
  }

  /** The node one level up from m = 2hq + h - 1: to the left for odd q, to
      the right for even q. */
  lemma StepUp(m: nat, h: nat, q: nat)
    requires IsPow2(h) && m + 1 == 2 * h * q + h
    ensures q % 2 == 1 ==> m >= h && WF(Node(m - h, 2 * h))
    ensures q % 2 == 0 ==> WF(Node(m + h, 2 * h))
  {
    Pow2Facts(h);
    if q % 2 == 1 {
      StepUpLeft(m, h, q / 2);
    } else {
      StepUpRight(m, h, q / 2);
    }
  }

  lemma StepUpLeft(m: nat, h: nat, p: nat)
    requires IsPow2(2 * h) && m + 1 == 2 * h * (2 * p + 1) + h
    ensures m >= h && WF(Node(m - h, 2 * h))
  {
    assert m - h + 1 == 2 * (2 * h) * p + 2 * h by {
      MulOdd(2 * h, p);
    }
    WFCompose(m - h, 2 * h, p);
  }

  lemma StepUpRight(m: nat, h: nat, p: nat)
    requires IsPow2(2 * h) && m + 1 == 2 * h * (2 * p) + h
    ensures WF(Node(m + h, 2 * h))
  {
    assert m + h + 1 == 2 * (2 * h) * p + 2 * h by {
      MulOdd(2 * h, p);
    }
    WFCompose(m + h, 2 * h, p);
  }

  /** The parent in the complete tree is a node one level up whose span
      contains the span of nd. */
  lemma StepFacts(nd: Node)
    requires WF(nd)
    ensures WF(ParentStep(nd)) && ParentStep(nd).l == 2 * nd.l
    ensures ParentStep(nd).n == nd.n + nd.l || ParentStep(nd).n + nd.l == nd.n
    ensures forall c :: Covers(nd, c) ==> Covers(ParentStep(nd), c)
  {
    var q := WFDecompose(nd);
    StepAt(nd.n, nd.l, q);
  }

  /** Math::floodRight: every bit below the highest set bit is set. */
  function FloodRight(x: nat): nat
  {
    if x == 0 then 0 else 2 * FloodRight(x / 2) + 1
  }

  lemma {:induction false} FloodRightFacts(x: nat)
    ensures IsPow2(FloodRight(x) + 1)
    ensures x <= FloodRight(x)
    ensures x >= 1 ==> FloodRight(x) < 2 * x
  {
    if x > 0 {
      FloodRightFacts(x / 2);
      Pow2Facts(FloodRight(x / 2) + 1);
      assert FloodRight(x) + 1 == 2 * (FloodRight(x / 2) + 1);
    }
  }

  /** getTop: the root of the tree with N nodes. */
  function Top(N: nat): Node
  {
    var n := FloodRight(N / 2);
    Node(n, n + 1)
  }

  /** The root exists, its level is a power of two, and its span covers every
      index of the tree. */
  lemma TopFacts(N: nat)
    requires TreeSize(N)
    ensures InTree(N, Top(N)) && Top(N).l == Top(N).n + 1
    ensures N <= 2 * Top(N).n + 1
  {
    var x := N / 2;
    FloodRightFacts(x);
    WFCompose(Top(N).n, Top(N).l, 0);
  }

  /** The root is a node of the tree. */
  lemma TopInTree(N: nat)
    requires TreeSize(N)
    ensures InTree(N, Top(N))
  {
    TopFacts(N);
  }

  /** The span of the root covers every index of the tree. */
  lemma TopCovers(N: nat, i: nat)
    requires TreeSize(N) && i < N
    ensures Covers(Top(N), i)
  {
    TopFacts(N);
  }

  /** At the level of the root, the root is the only node whose span reaches
      below N. */
  lemma TopUnique(N: nat, nd: Node)
    requires TreeSize(N) && WF(nd) && nd.l == Top(N).l && nd.n + 1 < N + nd.l
    ensures nd == Top(N)
  {
    TopFacts(N);
    var q := WFDecompose(nd);
    if q >= 1 {
      MulAtLeast(2 * nd.l, q);
      assert false;
    }
  }

  /** No node of the tree is above the root, and the root is the only node of
      the tree at its level. */
  lemma LevelBound(N: nat, nd: Node)
    requires InTree(N, nd)
    ensures nd.l <= Top(N).l
    ensures nd.l == Top(N).l ==> nd == Top(N)
  {
    TopFacts(N);
    WFFacts(nd);
    Pow2Below(nd.l, Top(N).l);
    if nd.l == Top(N).l {
      TopUnique(N, nd);
    }
  }

  /** A node of the complete tree that the climb of getParent may visit: not
      above the root, and with a span that starts inside the tree. */
  ghost predicate Climbable(N: nat, nd: Node)
  {
    TreeSize(N) && WF(nd) && nd.l <= Top(N).l && nd.n + 1 < N + nd.l
  }

  lemma ClimbStep(N: nat, nd: Node)
    requires Climbable(N, nd) && nd.n >= N
    ensures nd.l < Top(N).l
    ensures Climbable(N, ParentStep(nd)) && ParentStep(nd).l == 2 * nd.l
  {
    TopFacts(N);
    if nd.l == Top(N).l {
      TopUnique(N, nd);
      assert false;
    }
    Pow2Less(nd.l, Top(N).l);
    StepFacts(nd);
  }

  /** The rest of the loop of getParent: climb while the index is outside
      the tree. */
  ghost function Climb(N: nat, nd: Node): Node
    requires Climbable(N, nd)
    decreases Top(N).l - nd.l
  {
    if nd.n < N then nd
    else
      ClimbStep(N, nd);
      Climb(N, ParentStep(nd))
  }

  lemma {:induction false} ClimbFacts(N: nat, nd: Node, c: nat)
    requires Climbable(N, nd)
    ensures InTree(N, Climb(N, nd)) && Climb(N, nd).l >= nd.l
    ensures Covers(nd, c) ==> Covers(Climb(N, nd), c)
    decreases Top(N).l - nd.l
  {
    if nd.n >= N {
      ClimbStep(N, nd);
      StepFacts(nd);
      ClimbFacts(N, ParentStep(nd), c);
    }
  }

  lemma ParentOfPre(N: nat, nd: Node)
    requires InTree(N, nd) && nd != Top(N)
    ensures nd.l < Top(N).l
    ensures Climbable(N, ParentStep(nd)) && ParentStep(nd).l == 2 * nd.l
  {
    TopFacts(N);
    LevelBound(N, nd);
    Pow2Less(nd.l, Top(N).l);
    StepFacts(nd);
  }

  /** getParent: the nearest ancestor in the complete tree that exists in
      the tree. The source loops forever on the root. */
  ghost function ParentOf(N: nat, nd: Node): Node
    requires InTree(N, nd) && nd != Top(N)
  {
    ParentOfPre(N, nd);
    Climb(N, ParentStep(nd))
  }

  /** The parent of a node is a node of the tree on a higher level whose span
      contains the span of the node. */
  lemma ParentFacts(N: nat, nd: Node, c: nat)
    requires InTree(N, nd) && nd != Top(N)
    ensures InTree(N, ParentOf(N, nd)) && ParentOf(N, nd).l > nd.l
    ensures Covers(ParentOf(N, nd), nd.n)
    ensures Covers(nd, c) ==> Covers(ParentOf(N, nd), c)
  {
    ParentOfPre(N, nd);
    StepFacts(nd);
    WFFacts(nd);
    ClimbFacts(N, ParentStep(nd), c);
    ClimbFacts(N, ParentStep(nd), nd.n);
  }

  /** getLeftChild: half the level, that much further left. */
  function LeftChild(nd: Node): Node
    requires nd.l > 1 && nd.l / 2 <= nd.n
  {
    Node(nd.n - nd.l / 2, nd.l / 2)
  }

  /** An interior node of the tree is followed by another index of the tree. */
  lemma InteriorFacts(N: nat, nd: Node)
    requires InTree(N, nd) && nd.l > 1
    ensures nd.n + 1 < N && nd.l / 2 <= nd.n && nd.n % 2 == 1
  {
    WFFacts(nd);
  }

  /** The loop of getRightChild: halve the level until n + level is an index
      of the tree. */
  ghost function RightFrom(N: nat, n: nat, m: nat): Node
    requires IsPow2(m) && m >= 2 && n + 1 < N
    decreases m
  {
    Pow2Facts(m);
    var h := m / 2;
    if n + h < N then Node(n + h, h) else RightFrom(N, n, h)
  }

  /** getRightChild of an interior node of the tree. */
  ghost function RightChild(N: nat, nd: Node): Node
    requires InTree(N, nd) && nd.l > 1
  {
    InteriorFacts(N, nd);
    RightFrom(N, nd.n, nd.l)
  }

  /** The right child is the node at the highest level below m whose index
      n + level lies inside the tree. */
  lemma {:induction false} RightFromFacts(N: nat, n: nat, m: nat)
    requires IsPow2(m) && m >= 2 && n + 1 < N
    ensures IsPow2(RightFrom(N, n, m).l) && RightFrom(N, n, m).l < m
    ensures RightFrom(N, n, m).n == n + RightFrom(N, n, m).l < N
    ensures 2 * RightFrom(N, n, m).l == m || n + 2 * RightFrom(N, n, m).l >= N
    decreases m
  {
    Pow2Facts(m);
    var h := m / 2;
    if n + h >= N {
      RightFromFacts(N, n, h);
    }
  }

  /** Conversely, that highest fitting level determines the right child. */
  lemma {:induction false} RightFromFit(N: nat, n: nat, m: nat, h: nat)
    requires IsPow2(m) && m >= 2 && n + 1 < N
    requires IsPow2(h) && h < m && n + h < N && (2 * h == m || n + 2 * h >= N)
    ensures RightFrom(N, n, m) == Node(n + h, h)
    decreases m
  {
    Pow2Facts(m);
    Pow2Less(h, m);
    var h' := m / 2;
    if n + h' < N {
      if h < h' {
        Pow2Less(h, h');
        assert false;
      }
    } else {
      assert h < h';
      RightFromFit(N, n, h', h);
    }
  }

  /** The index arithmetic behind RightSpine: for a node n at level l and a
      power of two h below l, n + h + 1 is an odd multiple of h, and the
      quotient is odd exactly when h is half of l. */
  lemma RightSpineIndex(n: nat, l: nat, q: nat, h: nat) returns (q': nat)
    requires IsPow2(l) && n + 1 == 2 * l * q + l && IsPow2(h) && h < l
    ensures n + h + 1 == 2 * h * q' + h
    ensures (q' % 2 == 1) == (2 * h == l)
  {
    Pow2Facts(h);
    Pow2Less(h, l);
    var t := Pow2Ratio(2 * h, l);
    q' := t * (2 * q + 1);
    SpineProduct(n, l, q, 2 * h, t);
    OddFactor(t, 2 * q + 1);
    RatioOne(2 * h, t);
  }

  lemma SpineProduct(n: nat, l: nat, q: nat, h2: nat, t: nat)
    requires n + 1 == 2 * l * q + l && l == h2 * t
    ensures n + 1 == h2 * (t * (2 * q + 1))
  {
    MulOdd(l, q);
    MulAssoc(h2, t, 2 * q + 1);
  }

  /** A power of two times an odd number is odd only for the power one. */
  lemma OddFactor(t: nat, k: nat)
    requires IsPow2(t) && k % 2 == 1
    ensures (t * k) % 2 == 1 <==> t == 1
  {
    Pow2Facts(t);
    if t != 1 {
      var u := t / 2;
      assert t * k == 2 * (k * u) by {
        MulOdd(k, u);
      }
    }
  }

  lemma RatioOne(a: nat, t: nat)
    requires a > 0
    ensures a * t == a <==> t == 1
  {
    if t >= 2 {
      MulAtLeast(a, t - 1);
      assert a * t == a * (t - 1) + a;
    }
    if t == 0 {
      assert a * t == 0;
    }
  }

  /** Nodes n + h, for powers of two h below the level of nd, form the left
      spine of the right subtree of nd; each one's parent is the next one up,
      and the last one's parent is nd itself. */
  lemma RightSpine(nd: Node, h: nat)
    requires WF(nd) && IsPow2(h) && h < nd.l
    ensures WF(Node(nd.n + h, h))
    ensures ParentStep(Node(nd.n + h, h)) == if 2 * h == nd.l then nd else Node(nd.n + 2 * h, 2 * h)
  {
    var q := WFDecompose(nd);
    var q' := RightSpineIndex(nd.n, nd.l, q, h);
    WFCompose(nd.n + h, h, q');
    StepAt(nd.n + h, h, q');
  }

  /** The left child's parent step leads straight back. */
  lemma LeftSpine(nd: Node)
    requires WF(nd) && nd.l > 1
    ensures nd.l / 2 <= nd.n && WF(LeftChild(nd)) && ParentStep(LeftChild(nd)) == nd
  {
    WFFacts(nd);
    var h := nd.l / 2;
    assert nd == Node(nd.n, 2 * h);
    var q := WFDecompose(Node(nd.n, 2 * h));
    LeftIndex(nd.n, h, q);
    Pow2Facts(nd.l);
    WFCompose(nd.n - h, h, 2 * q);
    StepAt(nd.n - h, h, 2 * q);
  }

  lemma LeftIndex(n: nat, h: nat, q: nat)
    requires n + 1 == 2 * (2 * h) * q + 2 * h
    ensures n >= h && n - h + 1 == 2 * h * (2 * q) + h
  {
    MulOdd(2 * h, q);
    MulOdd(h, 2 * q);
  }

  /** Climbing from n + m through indices outside the tree ends at nd. */
  lemma {:induction false} ClimbUp(N: nat, nd: Node, m: nat)
    requires InTree(N, nd) && IsPow2(m) && m < nd.l && nd.n + m >= N
    ensures Climbable(N, Node(nd.n + m, m)) && Climb(N, Node(nd.n + m, m)) == nd
    decreases nd.l - m
  {
    InteriorFacts(N, nd);
    RightSpine(nd, m);
    LevelBound(N, nd);
    var x := Node(nd.n + m, m);
    ClimbStep(N, x);
    if 2 * m != nd.l {
      Pow2Less(m, nd.l);
      Pow2Facts(m);
      ClimbUp(N, nd, 2 * m);
    }
  }

  /** The left child of an interior node is a node of the tree, and getParent
      leads back from it. */
  lemma ParentOfLeft(N: nat, nd: Node)
    requires InTree(N, nd) && nd.l > 1
    ensures nd.l / 2 <= nd.n && InTree(N, LeftChild(nd)) && LeftChild(nd) != Top(N)
    ensures ParentOf(N, LeftChild(nd)) == nd
  {
    LeftSpine(nd);
    LevelBound(N, nd);
    TopFacts(N);
  }

  /** The right child of an interior node is a node of the tree, and getParent
      leads back from it. */
  lemma ParentOfRight(N: nat, nd: Node)
    requires InTree(N, nd) && nd.l > 1
    ensures InTree(N, RightChild(N, nd)) && RightChild(N, nd) != Top(N)
    ensures ParentOf(N, RightChild(N, nd)) == nd
  {
    InteriorFacts(N, nd);
    RightFromFacts(N, nd.n, nd.l);
    var r := RightChild(N, nd);
    var h := r.l;
    RightSpine(nd, h);
    LevelBound(N, nd);
    assert InTree(N, r) && r != Top(N);
    ParentOfPre(N, r);
    if 2 * h != nd.l {
      Pow2Less(h, nd.l);
      Pow2Facts(h);
      ClimbUp(N, nd, 2 * h);
    }
  }

  /** Both children of an interior node are nodes of the tree, on lower
      levels. */
  lemma ChildrenInTree(N: nat, nd: Node)
    requires InTree(N, nd) && nd.l > 1
    ensures nd.n + 1 < N && nd.l / 2 <= nd.n && nd.n % 2 == 1
    ensures InTree(N, LeftChild(nd)) && LeftChild(nd).l < nd.l
    ensures InTree(N, RightChild(N, nd)) && RightChild(N, nd).l < nd.l
  {
    InteriorFacts(N, nd);
    ParentOfLeft(N, nd);
    ParentOfRight(N, nd);
    RightFromFacts(N, nd.n, nd.l);
  }

  /** Seen from the child: every node of the tree except the root is the left
      or the right child of its parent. */
  lemma ChildOfParent(N: nat, c: Node)
    requires InTree(N, c) && c != Top(N)
    ensures InTree(N, ParentOf(N, c)) && ParentOf(N, c).l > 1 && ParentOf(N, c).l / 2 <= ParentOf(N, c).n
    ensures c == LeftChild(ParentOf(N, c)) || c == RightChild(N, ParentOf(N, c))
  {
    ParentOfPre(N, c);
    ParentFacts(N, c, c.n);
    ClimbToChild(N, c, c);
    InteriorFacts(N, ParentOf(N, c));
  }

  /** The climb of getParent from c, at an intermediate node x of the complete
      tree: x is c itself or lies outside the tree, and c sits at the bottom
      of the left spine of x (their spans start at the same index). */
  lemma {:induction false} ClimbToChild(N: nat, c: Node, x: Node)
    requires InTree(N, c) && c != Top(N)
    requires WF(x) && c.l <= x.l < Top(N).l && x.n + c.l == c.n + x.l
    requires x == c || (x.n >= N && c.n + c.l >= N)
    ensures Climbable(N, ParentStep(x))
    ensures Climb(N, ParentStep(x)).l > 1 && InTree(N, Climb(N, ParentStep(x)))
    ensures Climb(N, ParentStep(x)).l / 2 <= Climb(N, ParentStep(x)).n
    ensures c == LeftChild(Climb(N, ParentStep(x))) || c == RightChild(N, Climb(N, ParentStep(x)))
    decreases Top(N).l - x.l
  {
    TopFacts(N);
    WFFacts(c);
    StepFacts(x);
    Pow2Less(x.l, Top(N).l);
    var s := ParentStep(x);
    assert Climbable(N, s);
    if s.n == x.n + x.l {
      if s.n < N {
        WFFacts(s);
      } else {
        ClimbStep(N, s);
        ClimbToChild(N, c, s);
      }
    } else {
      assert s.n + c.l == c.n;
      WFFacts(s);
      InteriorFacts(N, s);
      Pow2Facts(x.l);
      if x != c {
        Pow2Less(c.l, x.l);
      }
      RightFromFit(N, s.n, s.l, c.l);
    }
  }

  /** Spans of the children: the left child covers the part of the span of nd
      left of nd, the right child the part right of nd that is inside the
      tree. */
  lemma ChildSpans(N: nat, nd: Node, x: nat)
    requires InTree(N, nd) && nd.l > 1
    ensures nd.l / 2 <= nd.n
    ensures Covers(LeftChild(nd), x) ==> Covers(nd, x) && x < nd.n
    ensures Covers(RightChild(N, nd), x) ==> Covers(nd, x) && nd.n < x
    ensures Covers(nd, x) && x < N ==> x == nd.n || Covers(LeftChild(nd), x) || Covers(RightChild(N, nd), x)
  {
    InteriorFacts(N, nd);
    RightFromFacts(N, nd.n, nd.l);
    Pow2Less(RightChild(N, nd).l, nd.l);
  }

  /** The level of a node is determined by its index. */
  lemma LevelUnique(a: Node, b: Node)
    requires WF(a) && WF(b) && a.n == b.n
    ensures a == b
  {
    WFMod(a);
    WFMod(b);
    if a.l < b.l {
      HigherLevelMod(a.l, b);
      assert false;
    } else if b.l < a.l {
      HigherLevelMod(b.l, a);
      assert false;
    }
  }

  /** n + 1 is a multiple of twice every power of two below the level of n. */
  lemma HigherLevelMod(a: nat, b: Node)
    requires IsPow2(a) && WF(b) && a < b.l
    ensures (b.n + 1) % (2 * a) == 0
  {
    Pow2Facts(a);
    Pow2Less(a, b.l);
    var d := 2 * a;
    DivMod(b.l, d);
    var s := b.l / d;
    var qb := WFDecompose(b);
    var k := 2 * qb + 1;
    assert b.n + 1 == d * (s * k) by {
      MulOdd(b.l, qb);
      MulAssoc(d, s, k);
    }
    DivModUnique(b.n + 1, d, s * k, 0);
  }

  /** The lowest set bit of m. */
  ghost function LowBit(m: nat): nat
    requires m >= 1
  {
    if m % 2 == 1 then 1 else 2 * LowBit(m / 2)
  }

  /** The level of index n: the lowest set bit of n + 1. */
  ghost function Level(n: nat): nat
  {
    LowBit(n + 1)
  }

  lemma {:induction false} LowBitWF(n: nat)
    ensures WF(Node(n, Level(n)))
    decreases n
  {
    var m := n + 1;
    if m % 2 == 1 {
      WFCompose(n, 1, m / 2);
    } else {
      var m' := m / 2;
      LowBitWF(m' - 1);
      Pow2Facts(LowBit(m'));
      OddMultipleDouble(m', LowBit(m'));
    }
  }

  /** Doubling an odd multiple of l gives an odd multiple of 2l. */
  lemma {:induction false} OddMultipleDouble(x: nat, l: nat)
    requires OddMultiple(x, l)
    ensures OddMultiple(2 * x, 2 * l)
    decreases x
  {
    if x != l {
      OddMultipleDouble(x - 2 * l, l);
    }
  }

  /** Every index has a level, and it is the only one. */
  lemma LevelWF(n: nat)
    ensures WF(Node(n, Level(n)))
    ensures forall l :: WF(Node(n, l)) ==> l == Level(n)
  {
    LowBitWF(n);
    forall l | WF(Node(n, l))
      ensures l == Level(n)
    {
      LevelUnique(Node(n, l), Node(n, Level(n)));
    }
  }

  /** The node of the tree at index i. */
  ghost function NodeAt(i: nat): Node
  {
    Node(i, Level(i))
  }

  /** getLeaf: the leaf of a block. */
  function Leaf(block: nat): Node
  {
    Node(2 * block, 1)
  }

  /** The leaf of every block of the tree is a node of the tree whose index
      tells back the block, and the leaf hash starts at that block's first
      byte. */
  lemma LeafFacts(N: nat, block: nat)
    requires TreeSize(N) && 2 * block < N
    ensures InTree(N, Leaf(block)) && Leaf(block) == NodeAt(2 * block)
    ensures Leaf(block).n / 2 == block && Leaf(block).n * (BLOCK_SIZE / 2) == block * BLOCK_SIZE
  {
    WFCompose(2 * block, 1, block);
    LevelWF(2 * block);
  }

  /** The layout drawn in the comment of the source, for a tree of 13 nodes
      (7 blocks), and the one-node tree: the roots. */
  lemma TopExample()
    ensures Top(13) == Node(7, 8) && Top(1) == Node(0, 1)
  {
    assert FloodRight(6) == 7 by {
      assert FloodRight(1) == 1;
      assert FloodRight(3) == 3;
    }
  }

  /** Leaf 12 has no partner at level 2: its parent is 11, two levels up. */
  lemma ParentExampleSkip()
    ensures InTree(13, Node(12, 1)) && Node(12, 1) != Top(13)
    ensures ParentOf(13, Node(12, 1)) == Node(11, 4)
  {
    TopExample();
    WFCompose(12, 1, 6);
    ParentOfPre(13, Node(12, 1));
    StepAt(12, 1, 6);
    ClimbStep(13, Node(13, 2));
    StepAt(13, 2, 3);
    assert Climb(13, Node(11, 4)) == Node(11, 4);
  }

  /** When the first parent step lands inside the tree, that is the parent. */
  lemma DirectParent(N: nat, nd: Node, p: Node)
    requires InTree(N, nd) && nd != Top(N) && ParentStep(nd) == p && p.n < N
    ensures ParentOf(N, nd) == p
  {
    ParentOfPre(N, nd);
  }

  /** Nodes 3 and 11, from levels 4, share the root 7. */
  lemma ParentExampleRoot()
    ensures InTree(13, Node(3, 4)) && InTree(13, Node(11, 4))
    ensures ParentOf(13, Node(3, 4)) == Node(7, 8) && ParentOf(13, Node(11, 4)) == Node(7, 8)
  {
    TopExample();
    WFCompose(3, 4, 0);
    WFCompose(11, 4, 1);
    StepAt(3, 4, 0);
    StepAt(11, 4, 1);
    DirectParent(13, Node(3, 4), Node(7, 8));
    DirectParent(13, Node(11, 4), Node(7, 8));
  }

  /** The children of 11: 9 on the left, and leaf 12 on the right. */
  lemma ChildExample()
    ensures InTree(13, Node(11, 4))
    ensures RightChild(13, Node(11, 4)) == Node(12, 1) && LeftChild(Node(11, 4)) == Node(9, 2)
  {
    WFCompose(11, 4, 1);
    assert RightFrom(13, 11, 2) == Node(12, 1);
  }
}
