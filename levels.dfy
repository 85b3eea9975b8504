/** Breadth-first order, specified independently of any queue: the keys at
    depth 0, then those at depth 1, and so on, each level read left to right.
    `BfsQueue` is what a FIFO queue of nodes produces; the lemmas show the two
    agree and that both list every node exactly once. */
module LevelOrder {
  import opened Trees
  import NodeOps

  function Max(a: nat, b: nat): nat
  {
    if a < b then b else a
  }

  function Height(t: Tree): nat
  {
    match t
    case Empty => 0
    case Node(l, _, r) => 1 + Max(Height(l), Height(r))
  }

  /** The keys of the nodes at depth `d` of `t`, left to right. */
  function Level(t: Tree, d: nat): seq<int>
  {
    match t
    case Empty => []
    case Node(l, v, r) => if d == 0 then [v] else Level(l, d - 1) + Level(r, d - 1)
  }

  /** Levels `d` up to (not including) `h` of `t`, one after another. */
  function LevelsFrom(t: Tree, d: nat, h: nat): seq<int>
    decreases h - d
  {
    if h <= d then [] else Level(t, d) + LevelsFrom(t, d + 1, h)
  }

  /** The keys of `t` level by level, top down, left before right. */
  function LevelOrder(t: Tree): seq<int>
  {
    LevelsFrom(t, 0, Height(t))
  }

  // ---------------------------------------------------------------------
  // The queue

  function ForestSize(q: seq<Tree>): nat
  {
    if q == [] then 0 else Size(q[0]) + ForestSize(q[1..])
  }

  function ForestElements(q: seq<Tree>): multiset<int>
  {
    if q == [] then multiset{} else Elements(q[0]) + ForestElements(q[1..])
  }

  /** The existing children of node `n`, left before right: what the source
      pushes onto the queue after visiting `n`. */
  function Children(n: Tree): (c: seq<Tree>)
    requires n.Node?
    ensures forall i :: 0 <= i < |c| ==> c[i].Node?
  {
    (if n.left.Node? then [n.left] else []) + (if n.right.Node? then [n.right] else [])
  }

  /** The keys a queue loop emits starting from queue `q`: take the front
      node, emit its key, append its existing children at the back, repeat
      until the queue is empty. An `Empty` entry, which the loop never
      enqueues, emits nothing. */
  function BfsQueue(q: seq<Tree>): seq<int>
    decreases ForestSize(q), |q|
  {
    if q == [] then []
    else if q[0].Empty? then BfsQueue(q[1..])
    else
      ForestSizeAppend(q[1..], Children(q[0]));
      ChildrenFacts(q[0], 0);
      [q[0].val] + BfsQueue(q[1..] + Children(q[0]))
  }

  /** One turn of the queue loop: it emits the front node's key and leaves
      the rest of the queue with the node's children appended, all of them
      nodes, with one key fewer still to emit. */
  lemma BfsQueueStep(emitted: seq<int>, q: seq<Tree>)
    requires q != [] && forall t :: t in q ==> t.Node?
    ensures forall t :: t in q[1..] + Children(q[0]) ==> t.Node?
    ensures emitted + BfsQueue(q) == (emitted + [q[0].val]) + BfsQueue(q[1..] + Children(q[0]))
    ensures |BfsQueue(q[1..] + Children(q[0]))| < |BfsQueue(q)|
  {
    assert q[0] in q;
  }

  /** What the children of a node contribute, whichever of them exist. */
  lemma ChildrenFacts(n: Tree, d: nat)
    requires n.Node?
    ensures ForestSize(Children(n)) == Size(n.left) + Size(n.right)
    ensures ForestElements(Children(n)) == Elements(n.left) + Elements(n.right)
    ensures ForestLevel(Children(n), d) == Level(n.left, d) + Level(n.right, d)
    ensures ForestHeight(Children(n)) == Max(Height(n.left), Height(n.right))
  {
    var c := Children(n);
    if n.left.Node? && n.right.Node? {
      assert c == [n.left, n.right] && c[1..] == [n.right] && c[1..][1..] == [];
      assert ForestSize(c[1..]) == Size(n.right);
      assert ForestElements(c[1..]) == Elements(n.right);
      assert ForestLevel(c[1..], d) == Level(n.right, d);
      assert ForestHeight(c[1..]) == Height(n.right);
    } else if n.left.Node? {
      assert c == [n.left] && c[1..] == [];
    } else if n.right.Node? {
      assert c == [n.right] && c[1..] == [];
    } else {
      assert c == [];
    }
  }

  lemma {:induction false} ForestSizeAppend(p: seq<Tree>, q: seq<Tree>)
    ensures ForestSize(p + q) == ForestSize(p) + ForestSize(q)
    decreases |p|
  {
    if p == [] {
      assert p + q == q;
    } else {
      assert (p + q)[1..] == p[1..] + q;
      ForestSizeAppend(p[1..], q);
    }
  }

  lemma {:induction false} ForestElementsAppend(p: seq<Tree>, q: seq<Tree>)
    ensures ForestElements(p + q) == ForestElements(p) + ForestElements(q)
    decreases |p|
  {
    if p == [] {
      assert p + q == q;
    } else {
      assert (p + q)[1..] == p[1..] + q;
      ForestElementsAppend(p[1..], q);
    }
  }

  /** The queue loop emits every node of the queued trees exactly once. */
  lemma {:induction false} BfsQueueElements(q: seq<Tree>)
    ensures multiset(BfsQueue(q)) == ForestElements(q)
    decreases ForestSize(q), |q|
  {
    if q == [] {
    } else if q[0].Empty? {
      BfsQueueElements(q[1..]);
    } else {
      var n := q[0];
      ForestSizeAppend(q[1..], Children(n));
      ChildrenFacts(n, 0);
      BfsQueueElements(q[1..] + Children(n));
      ForestElementsAppend(q[1..], Children(n));
    }
  }

  // ---------------------------------------------------------------------
  // Whole levels of a queue

  /** The keys of the roots of the queued trees, in queue order. */
  function Roots(q: seq<Tree>): seq<int>
  {
    if q == [] then [] else (if q[0].Node? then [q[0].val] else []) + Roots(q[1..])
  }

  /** The children of all the queued trees, in queue order. */
  function ChildrenOf(q: seq<Tree>): seq<Tree>
  {
    if q == [] then [] else (if q[0].Node? then Children(q[0]) else []) + ChildrenOf(q[1..])
  }

  function ForestHeight(q: seq<Tree>): nat
  {
    if q == [] then 0 else Max(Height(q[0]), ForestHeight(q[1..]))
  }

  /** Level `d` of each queued tree, in queue order. */
  function ForestLevel(q: seq<Tree>, d: nat): seq<int>
  {
    if q == [] then [] else Level(q[0], d) + ForestLevel(q[1..], d)
  }

  function ForestLevelsFrom(q: seq<Tree>, d: nat, h: nat): seq<int>
    decreases h - d
  {
    if h <= d then [] else ForestLevel(q, d) + ForestLevelsFrom(q, d + 1, h)
  }

  /** Running the loop over the whole queue `q` emits the roots of `q` and
      leaves their children queued behind whatever followed. */
  lemma {:induction false} BfsQueueSplit(q: seq<Tree>, p: seq<Tree>)
    ensures BfsQueue(q + p) == Roots(q) + BfsQueue(p + ChildrenOf(q))
    decreases |q|, 1
  {
    if q == [] {
      assert q + p == p;
      assert p + ChildrenOf(q) == p;
    } else if q[0].Empty? {
      assert (q + p)[1..] == q[1..] + p;
      assert ChildrenOf(q) == ChildrenOf(q[1..]);
      BfsQueueSplit(q[1..], p);
    } else {
      BfsQueueSplitNode(q, p);
    }
  }

  /** `BfsQueueSplit` when the front of `q` is a node. */
  lemma {:induction false} BfsQueueSplitNode(q: seq<Tree>, p: seq<Tree>)
    requires q != [] && q[0].Node?
    ensures BfsQueue(q + p) == Roots(q) + BfsQueue(p + ChildrenOf(q))
    decreases |q|, 0
  {
    var n, r := q[0], q[1..];
    assert q == [n] + r;
    Associative([n], r, p);
    BfsQueueCons(n, r + p);
    Associative(r, p, Children(n));
    BfsQueueSplit(r, p + Children(n));
    Associative(p, Children(n), ChildrenOf(r));
    Associative([n.val], Roots(r), BfsQueue(p + ChildrenOf(q)));
  }

  /** The loop on a queue whose front is a node. */
  lemma BfsQueueCons(n: Tree, r: seq<Tree>)
    requires n.Node?
    ensures BfsQueue([n] + r) == [n.val] + BfsQueue(r + Children(n))
  {
    assert ([n] + r)[0] == n && ([n] + r)[1..] == r;
  }

  lemma Associative<T>(a: seq<T>, b: seq<T>, c: seq<T>)
    ensures (a + b) + c == a + (b + c)
  {
  }

  lemma {:induction false} ForestLevelAppend(p: seq<Tree>, q: seq<Tree>, d: nat)
    ensures ForestLevel(p + q, d) == ForestLevel(p, d) + ForestLevel(q, d)
    decreases |p|
  {
    if p == [] {
      assert p + q == q;
    } else {
      assert (p + q)[1..] == p[1..] + q;
      ForestLevelAppend(p[1..], q, d);
    }
  }

  lemma {:induction false} ForestLevelZero(q: seq<Tree>)
    ensures ForestLevel(q, 0) == Roots(q)
    decreases |q|
  {
    if q != [] {
      ForestLevelZero(q[1..]);
    }
  }

  /** Level `d + 1` of the queued trees is level `d` of their children. */
  lemma {:induction false} ForestLevelNext(q: seq<Tree>, d: nat)
    ensures ForestLevel(q, d + 1) == ForestLevel(ChildrenOf(q), d)
    decreases |q|
  {
    if q != [] {
      ForestLevelNext(q[1..], d);
      var own := if q[0].Node? then Children(q[0]) else [];
      ForestLevelAppend(own, ChildrenOf(q[1..]), d);
      if q[0].Node? {
        ChildrenFacts(q[0], d);
      }
    }
  }

  lemma {:induction false} ForestHeightAppend(p: seq<Tree>, q: seq<Tree>)
    ensures ForestHeight(p + q) == Max(ForestHeight(p), ForestHeight(q))
    decreases |p|
  {
    if p == [] {
      assert p + q == q;
    } else {
      assert (p + q)[1..] == p[1..] + q;
      ForestHeightAppend(p[1..], q);
    }
  }

  /** The children of the queued trees are one level less tall; when all the
      queued trees are empty there are no children at all. */
  lemma {:induction false} ChildrenOfHeight(q: seq<Tree>)
    ensures ForestHeight(q) == 0 ==> ChildrenOf(q) == []
    ensures 0 < ForestHeight(q) ==> ForestHeight(ChildrenOf(q)) == ForestHeight(q) - 1
    decreases |q|
  {
    if q != [] {
      ChildrenOfHeight(q[1..]);
      var own := if q[0].Node? then Children(q[0]) else [];
      ForestHeightAppend(own, ChildrenOf(q[1..]));
      if q[0].Node? {
        ChildrenFacts(q[0], 0);
      }
    }
  }

  lemma {:induction false} ForestLevelsShift(q: seq<Tree>, d: nat, h: nat)
    ensures ForestLevelsFrom(q, d + 1, h + 1) == ForestLevelsFrom(ChildrenOf(q), d, h)
    decreases h - d
  {
    if d < h {
      ForestLevelNext(q, d);
      ForestLevelsShift(q, d + 1, h);
    }
  }

  /** The queue loop emits the queued trees level by level. */
  lemma {:induction false} BfsQueueByLevels(q: seq<Tree>)
    ensures BfsQueue(q) == ForestLevelsFrom(q, 0, ForestHeight(q))
    decreases ForestHeight(q)
  {
    var h := ForestHeight(q);
    BfsQueueSplit(q, []);
    assert q + [] == q;
    assert [] + ChildrenOf(q) == ChildrenOf(q);
    ChildrenOfHeight(q);
    ForestLevelZero(q);
    if h == 0 {
      ForestLevelsOfFlat(q);
    } else {
      BfsQueueByLevels(ChildrenOf(q));
      ForestLevelsShift(q, 0, h - 1);
    }
  }

  /** A queue of empty trees has no levels. */
  lemma {:induction false} ForestLevelsOfFlat(q: seq<Tree>)
    requires ForestHeight(q) == 0
    ensures Roots(q) == []
    decreases |q|
  {
    if q != [] {
      ForestLevelsOfFlat(q[1..]);
    }
  }

  lemma {:induction false} SingletonLevels(t: Tree, d: nat, h: nat)
    ensures ForestLevelsFrom([t], d, h) == LevelsFrom(t, d, h)
    decreases h - d
  {
    if d < h {
      assert [t][1..] == [];
      assert ForestLevel([t], d) == Level(t, d);
      SingletonLevels(t, d + 1, h);
    }
  }

  /** A queue seeded with the root emits exactly the level order. */
  lemma BfsQueueIsLevelOrder(t: Tree)
    ensures BfsQueue([t]) == LevelOrder(t)
  {
    BfsQueueByLevels([t]);
    assert [t][1..] == [];
    SingletonLevels(t, 0, Height(t));
  }

  /** What the queue loop emits from a one-node queue: the level order,
      which lists every node of the tree exactly once, so it is a permutation
      of the pre-order, and which starts with the root key. */
  lemma BfsQueueFromRoot(t: Tree)
    requires t.Node?
    ensures BfsQueue([t]) == LevelOrder(t)
    ensures multiset(LevelOrder(t)) == Elements(t) == multiset(NodeOps.DfsPreOrder(t))
    ensures |LevelOrder(t)| > 0 && LevelOrder(t)[0] == t.val
  {
    BfsQueueIsLevelOrder(t);
    BfsQueueElements([t]);
    assert [t][1..] == [];
  }
}
