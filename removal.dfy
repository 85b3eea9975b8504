/** The in-order successor used by removal, and removal itself as a function
    of the tree: the reference against which the source's pointer-walking
    `remove` is proved. */
module Removal {
  import opened Trees
  import NodeOps

  /** The node reached from `t` by following left links until there is none. */
  function Leftmost(t: Tree): (m: Tree)
    requires t.Node?
    ensures m.Node? && m.left.Empty? && m.val in Keys(t)
    ensures IsBst(t) ==> forall k :: k in Keys(t) ==> m.val <= k
  {
    if t.left.Empty? then t else Leftmost(t.left)
  }

  /** In a search tree, the leftmost node of the right subtree holds the
      smallest key of the node's subtree that is larger than the node's own;
      and the right subtree is empty exactly when no key of the subtree is
      larger. */
  lemma SuccessorIsNextLarger(n: Tree)
    requires n.Node? && IsBst(n)
    ensures n.right.Node? ==>
      var s := Leftmost(n.right).val;
      s in Keys(n) && n.val < s && forall k :: k in Keys(n) && n.val < k ==> s <= k
    ensures n.right.Empty? <==> forall k :: k in Keys(n) ==> k <= n.val
  {
  }

  /** Searching a search tree for its smallest key finds the leftmost node. */
  lemma {:induction false} FindLeftmost(t: Tree)
    requires t.Node? && IsBst(t)
    ensures NodeOps.FindRecursively(t, Leftmost(t).val) == Some(Leftmost(t))
  {
    if t.left.Node? {
      FindLeftmost(t.left);
    }
  }

  /** The address of `Leftmost(t)` below `t`: left steps only. */
  function LeftmostAddress(t: Tree): (a: seq<Dir>)
    requires t.Node?
    ensures IsAddress(t, a) && At(t, a) == Leftmost(t)
    ensures forall i :: 0 <= i < |a| ==> a[i] == Left
  {
    if t.left.Empty? then [] else
      var rest := LeftmostAddress(t.left);
      assert ([Left] + rest)[1..] == rest;
      [Left] + rest
  }

  /** Removing the smallest key of a search tree unlinks only the leftmost
      node: its right subtree (possibly empty) takes its slot, and every other
      node keeps its key and its place. */
  lemma {:induction false} RemovedLeftmostUnlinks(t: Tree)
    requires t.Node? && IsBst(t)
    ensures Removed(t, Leftmost(t).val) == Replace(t, LeftmostAddress(t), Leftmost(t).right)
  {
    if t.left.Node? {
      var rest := LeftmostAddress(t.left);
      assert ([Left] + rest)[1..] == rest;
      RemovedLeftmostUnlinks(t.left);
    }
  }

  predicate HasTwoChildren(t: Tree)
  {
    t.Node? && t.left.Node? && t.right.Node?
  }

  /** The tree after removing `val`. The walk compares as a search does. A
      leaf is cut off; a node with one child is replaced by that child; a
      node with two children stays in place with its left subtree, takes the
      key of its successor, and the successor is removed from its right
      subtree. An absent key leaves the tree unchanged. */
  function Removed(t: Tree, val: int): (r: Tree)
    ensures Keys(r) <= Keys(t)
  {
    match t
    case Empty => Empty
    case Node(l, v, rt) =>
      if val < v then Node(Removed(l, val), v, rt)
      else if val > v then Node(l, v, Removed(rt, val))
      else if l.Empty? && rt.Empty? then Empty
      else if l.Node? && rt.Node? then
        var s := Leftmost(rt).val;
        Node(l, s, Removed(rt, s))
      else if rt.Empty? then l
      else rt
  }

  /** Removal keeps the ordering invariant, takes out exactly the key asked
      for, and (when the key was there) exactly one node. */
  lemma {:induction false} RemovedKeepsOrder(t: Tree, val: int)
    requires IsBst(t)
    ensures IsBst(Removed(t, val))
    ensures Keys(Removed(t, val)) == Keys(t) - {val}
    ensures Size(Removed(t, val)) == if val in Keys(t) then Size(t) - 1 else Size(t)
    decreases t, 1
  {
    match t
    case Empty =>
    case Node(l, v, r) =>
      if val != v {
        RemovedBelowKeepsOrder(t, val);
      } else if l.Node? && r.Node? {
        RemovedRootKeepsOrder(t);
      }
  }

  /** `RemovedKeepsOrder` at a root with two children: the successor's key
      lies above the whole left subtree and below the rest of the right one. */
  lemma {:induction false} RemovedRootKeepsOrder(t: Tree)
    requires HasTwoChildren(t) && IsBst(t)
    ensures IsBst(Removed(t, t.val))
    ensures Keys(Removed(t, t.val)) == Keys(t) - {t.val}
    ensures Size(Removed(t, t.val)) == Size(t) - 1
    decreases t, 0
  {
    var s := Leftmost(t.right).val;
    var r' := Removed(t.right, s);
    RemovedKeepsOrder(t.right, s);
    assert Removed(t, t.val) == Node(t.left, s, r');
    assert t.val < s;
    assert forall k :: k in Keys(t.left) ==> k < s;
    assert forall k :: k in Keys(r') ==> s < k;
  }

  /** `RemovedKeepsOrder` when the walk goes on past the root. */
  lemma {:induction false} RemovedBelowKeepsOrder(t: Tree, val: int)
    requires t.Node? && IsBst(t) && val != t.val
    ensures IsBst(Removed(t, val))
    ensures Keys(Removed(t, val)) == Keys(t) - {val}
    ensures Size(Removed(t, val)) == if val in Keys(t) then Size(t) - 1 else Size(t)
    decreases t, 0
  {
    if val < t.val {
      RemovedKeepsOrder(t.left, val);
      assert val !in Keys(t.right);
    } else {
      RemovedKeepsOrder(t.right, val);
      assert val !in Keys(t.left);
    }
  }

  /** A removal whose search has walked along `a` happens entirely inside the
      subtree it reached; everything off that walk is untouched. */
  lemma {:induction false} RemovedAlongRoute(t: Tree, a: seq<Dir>, val: int)
    requires Routes(t, a, val)
    ensures IsAddress(t, a)
    ensures Removed(t, val) == Replace(t, a, Removed(At(t, a), val))
    decreases a
  {
    RoutesIsAddress(t, a, val);
    if a != [] {
      RemovedAlongRoute(Child(t, a[0]), a[1..], val);
    }
  }
}
