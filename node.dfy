/** The recursive methods of the source's `Node` class, as functions over the
    tree value. The source tests a child for null before it recurses into it,
    and the tree-level wrappers test the root for null before they delegate;
    here the receiver may itself be `Empty`, and that case yields what the
    null test yields in the source. */
module NodeOps {
  import opened Trees

  // ---------------------------------------------------------------------
  // findRecursively

  /** The subtree whose root holds `val`, found by comparing `val` with each
      node's key on the way down; `None` once the walk falls off the tree. */
  function FindRecursively(t: Tree, val: int): (r: Option<Tree>)
    ensures r.Some? ==> r.value.Node? && r.value.val == val && Keys(r.value) <= Keys(t)
  {
    match t
    case Empty => None
    case Node(l, v, rt) =>
      if val < v then FindRecursively(l, val)
      else if val > v then FindRecursively(rt, val)
      else Some(t)
  }

  /** On a search tree the search succeeds exactly for the keys the tree holds. */
  lemma {:induction false} FindRecursivelyOnBst(t: Tree, val: int)
    ensures IsBst(t) ==> (FindRecursively(t, val).Some? <==> val in Keys(t))
  {
    match t
    case Empty =>
    case Node(l, v, r) =>
      FindRecursivelyOnBst(l, val);
      FindRecursivelyOnBst(r, val);
  }

  /** A search that succeeds stops at a node of the tree itself: the result
      is the subtree at the end of the search route for `val`. */
  lemma {:induction false} FindRecursivelyReachesNode(t: Tree, val: int) returns (a: seq<Dir>)
    requires FindRecursively(t, val).Some?
    ensures Routes(t, a, val) && IsAddress(t, a)
    ensures FindRecursively(t, val) == Some(At(t, a))
  {
    match t
    case Node(l, v, r) =>
      if val == v {
        a := [];
      } else {
        var d := if val < v then Left else Right;
        var rest := FindRecursivelyReachesNode(Child(t, d), val);
        a := [d] + rest;
        assert a[1..] == rest;
      }
  }

  /** A search that has walked along `a` continues from the subtree it reached. */
  lemma {:induction false} FindAlongRoute(t: Tree, a: seq<Dir>, val: int)
    requires Routes(t, a, val)
    ensures IsAddress(t, a)
    ensures FindRecursively(t, val) == FindRecursively(At(t, a), val)
    decreases a
  {
    RoutesIsAddress(t, a, val);
    if a != [] {
      FindAlongRoute(Child(t, a[0]), a[1..], val);
    }
  }

  // ---------------------------------------------------------------------
  // insertRecursively

  /** The tree after inserting `val`: the walk goes left on a smaller key and
      right on a larger one, and an empty slot receives a new leaf. An equal
      key takes neither branch, so the tree is returned unchanged. (In the
      source a new leaf is linked first and then asked to insert its own key,
      which takes neither branch: that second step changes nothing.) */
  function InsertRecursively(t: Tree, val: int): (r: Tree)
    ensures r.Node? && Keys(r) == Keys(t) + {val}
    ensures t.Node? ==> r.val == t.val
  {
    match t
    case Empty => Leaf(val)
    case Node(l, v, rt) =>
      if val < v then Node(InsertRecursively(l, val), v, rt)
      else if val > v then Node(l, v, InsertRecursively(rt, val))
      else t
  }

  /** Inserting keeps the ordering invariant. */
  lemma {:induction false} InsertRecursivelyKeepsOrder(t: Tree, val: int)
    requires IsBst(t)
    ensures IsBst(InsertRecursively(t, val))
  {
    match t
    case Empty =>
    case Node(l, v, r) =>
      if val < v {
        InsertRecursivelyKeepsOrder(l, val);
      } else if val > v {
        InsertRecursivelyKeepsOrder(r, val);
      }
  }

  /** A key the search finds is not inserted a second time: the tree is unchanged. */
  lemma {:induction false} InsertRecursivelyDuplicate(t: Tree, val: int)
    requires FindRecursively(t, val).Some?
    ensures InsertRecursively(t, val) == t
  {
    match t
    case Empty =>
    case Node(l, v, r) =>
      if val < v {
        InsertRecursivelyDuplicate(l, val);
      } else if val > v {
        InsertRecursivelyDuplicate(r, val);
      }
  }

  /** A key the search does not find goes into a new leaf at the empty slot
      where the search ends; every other node keeps its key and its place,
      and the tree grows by exactly one node. */
  lemma {:induction false} InsertRecursivelyAttachesLeaf(t: Tree, val: int) returns (a: seq<Dir>)
    requires FindRecursively(t, val).None?
    ensures Routes(t, a, val) && IsAddress(t, a) && At(t, a) == Empty
    ensures InsertRecursively(t, val) == Replace(t, a, Leaf(val))
    ensures Size(InsertRecursively(t, val)) == Size(t) + 1
  {
    match t
    case Empty =>
      a := [];
    case Node(l, v, r) =>
      var d := if val < v then Left else Right;
      var rest := InsertRecursivelyAttachesLeaf(Child(t, d), val);
      a := [d] + rest;
      assert a[1..] == rest;
  }

  // ---------------------------------------------------------------------
  // dfsPreOrder, dfsInOrder, dfsPostOrder

  /** Node, then left subtree, then right subtree. */
  function DfsPreOrder(t: Tree): (r: seq<int>)
    ensures multiset(r) == Elements(t)
    ensures t.Node? ==> r[0] == t.val
  {
    match t
    case Empty => []
    case Node(l, v, rt) => [v] + DfsPreOrder(l) + DfsPreOrder(rt)
  }

  /** Left subtree, then node, then right subtree. */
  function DfsInOrder(t: Tree): (r: seq<int>)
    ensures multiset(r) == Elements(t)
  {
    match t
    case Empty => []
    case Node(l, v, rt) => DfsInOrder(l) + [v] + DfsInOrder(rt)
  }

  /** Left subtree, then right subtree, then node. */
  function DfsPostOrder(t: Tree): (r: seq<int>)
    ensures multiset(r) == Elements(t)
    ensures t.Node? ==> r[|r| - 1] == t.val
  {
    match t
    case Empty => []
    case Node(l, v, rt) => DfsPostOrder(l) + DfsPostOrder(rt) + [v]
  }

  /** The three depth-first orders list the same keys, each node once. */
  lemma TraversalsArePermutations(t: Tree)
    ensures multiset(DfsPreOrder(t)) == multiset(DfsInOrder(t)) == multiset(DfsPostOrder(t))
    ensures |DfsPreOrder(t)| == |DfsInOrder(t)| == |DfsPostOrder(t)| == Size(t)
    ensures forall k :: k in DfsInOrder(t) <==> k in Keys(t)
  {
    forall k ensures k in DfsInOrder(t) <==> k in Keys(t) {
      KeysAreElements(t, k);
      assert k in DfsInOrder(t) <==> k in multiset(DfsInOrder(t));
    }
  }

  /** A sequence of the form `s + [v] + u` is strictly increasing exactly when
      both parts are and `v` lies strictly between them. */
  lemma IncreasingAround(s: seq<int>, v: int, u: seq<int>)
    ensures StrictlyIncreasing(s + [v] + u) <==>
      StrictlyIncreasing(s) && StrictlyIncreasing(u) &&
      (forall x :: x in s ==> x < v) && (forall y :: y in u ==> v < y)
  {
    var w := s + [v] + u;
    if StrictlyIncreasing(w) {
      forall i, j | 0 <= i < j < |s| ensures s[i] < s[j] {
        assert w[i] == s[i] && w[j] == s[j];
      }
      forall i, j | 0 <= i < j < |u| ensures u[i] < u[j] {
        assert w[|s| + 1 + i] == u[i] && w[|s| + 1 + j] == u[j];
      }
      forall x | x in s ensures x < v {
        var i :| 0 <= i < |s| && s[i] == x;
        assert w[i] == s[i] && w[|s|] == v;
      }
      forall y | y in u ensures v < y {
        var j :| 0 <= j < |u| && u[j] == y;
        assert w[|s|] == v && w[|s| + 1 + j] == u[j];
      }
    }
    if StrictlyIncreasing(s) && StrictlyIncreasing(u) &&
       (forall x :: x in s ==> x < v) && (forall y :: y in u ==> v < y) {
      forall i, j | 0 <= i < j < |w| ensures w[i] < w[j] {
        if j < |s| {
          assert w[i] == s[i] && w[j] == s[j];
        } else if i < |s| {
          assert w[i] == s[i] && s[i] in s;
          if j > |s| {
            assert w[j] == u[j - |s| - 1] && u[j - |s| - 1] in u;
          }
        } else if i > |s| {
          assert w[i] == u[i - |s| - 1] && w[j] == u[j - |s| - 1];
        } else {
          assert w[j] == u[j - |s| - 1] && u[j - |s| - 1] in u;
        }
      }
    }
  }

  /** The in-order traversal is strictly increasing exactly when the tree
      satisfies the ordering invariant. */
  lemma {:induction false} InOrderIncreasingIffBst(t: Tree)
    ensures IsBst(t) <==> StrictlyIncreasing(DfsInOrder(t))
  {
    match t
    case Empty =>
    case Node(l, v, r) =>
      InOrderIncreasingIffBst(l);
      InOrderIncreasingIffBst(r);
      TraversalsArePermutations(l);
      TraversalsArePermutations(r);
      IncreasingAround(DfsInOrder(l), v, DfsInOrder(r));
  }
}
