/** The tree as a value. A node holds an integer key and owns at most one left
    and one right child; an absent child (a null link) and an empty tree (a
    null root) are both `Empty`.

    A reference to a node is modelled by its address: the sequence of child
    slots that leads to it from the root. Writing a field through a reference
    (`parent.left = x`, `node.val = k`) becomes `Replace` at that address. */
module Trees {

  datatype Option<T> = None | Some(value: T)

  /** Which child slot a step down the tree takes. */
  datatype Dir = Left | Right

  datatype Tree = Empty | Node(left: Tree, val: int, right: Tree)

  /** A freshly constructed node: a key and no children. */
  function Leaf(key: int): Tree
  {
    Node(Empty, key, Empty)
  }

  function Child(t: Tree, d: Dir): Tree
    requires t.Node?
  {
    if d == Left then t.left else t.right
  }

  /** The node `t` with the child slot `d` overwritten by `c`. */
  function WithChild(t: Tree, d: Dir, c: Tree): (r: Tree)
    requires t.Node?
    ensures r.Node? && r.val == t.val && Child(r, d) == c
    ensures d == Left ==> r.right == t.right
    ensures d == Right ==> r.left == t.left
  {
    if d == Left then t.(left := c) else t.(right := c)
  }

  function Size(t: Tree): nat
  {
    match t
    case Empty => 0
    case Node(l, _, r) => Size(l) + 1 + Size(r)
  }

  /** The set of keys held by the nodes of `t`. */
  function Keys(t: Tree): set<int>
  {
    match t
    case Empty => {}
    case Node(l, v, r) => Keys(l) + {v} + Keys(r)
  }

  /** The keys of `t` counted once per node. */
  function Elements(t: Tree): (m: multiset<int>)
    ensures |m| == Size(t)
  {
    match t
    case Empty => multiset{}
    case Node(l, v, r) => Elements(l) + multiset{v} + Elements(r)
  }

  /** The ordering invariant: every key in a left subtree is smaller than the
      node's key, every key in a right subtree is larger. */
  ghost predicate IsBst(t: Tree)
  {
    match t
    case Empty => true
    case Node(l, v, r) =>
      IsBst(l) && IsBst(r) &&
      (forall k :: k in Keys(l) ==> k < v) &&
      (forall k :: k in Keys(r) ==> v < k)
  }

  predicate StrictlyIncreasing(s: seq<int>)
  {
    forall i, j :: 0 <= i < j < |s| ==> s[i] < s[j]
  }

  lemma {:induction false} KeysAreElements(t: Tree, k: int)
    ensures k in Keys(t) <==> k in Elements(t)
  {
    match t
    case Empty =>
    case Node(l, _, r) =>
      KeysAreElements(l, k);
      KeysAreElements(r, k);
  }

  // ---------------------------------------------------------------------
  // Addresses

  /** `a` leads from the root of `t` through nodes only; its last step may
      end in an empty slot. */
  predicate IsAddress(t: Tree, a: seq<Dir>)
    decreases a
  {
    a == [] || (t.Node? && IsAddress(Child(t, a[0]), a[1..]))
  }

  /** The subtree that address `a` reaches. */
  function At(t: Tree, a: seq<Dir>): (s: Tree)
    requires IsAddress(t, a)
    ensures Keys(s) <= Keys(t)
    ensures IsBst(t) ==> IsBst(s)
    decreases a
  {
    if a == [] then t else At(Child(t, a[0]), a[1..])
  }

  /** `t` with the subtree at address `a` replaced by `s`; every node off the
      address keeps its key and its place. */
  function Replace(t: Tree, a: seq<Dir>, s: Tree): (r: Tree)
    requires IsAddress(t, a)
    ensures IsAddress(r, a) && At(r, a) == s
    decreases a
  {
    if a == [] then s
    else if a[0] == Left then t.(left := Replace(t.left, a[1..], s))
    else t.(right := Replace(t.right, a[1..], s))
  }

  /** Stepping from a node to one of its children extends the address by one step. */
  lemma {:induction false} AtStep(t: Tree, a: seq<Dir>, d: Dir)
    requires IsAddress(t, a) && At(t, a).Node?
    ensures IsAddress(t, a + [d]) && At(t, a + [d]) == Child(At(t, a), d)
    decreases a
  {
    if a == [] {
      assert a + [d] == [d];
    } else {
      assert (a + [d])[1..] == a[1..] + [d];
      AtStep(Child(t, a[0]), a[1..], d);
    }
  }

  /** Writing child slot `d` of the node at `a` is replacing the subtree at `a + [d]`. */
  lemma {:induction false} ReplaceStep(t: Tree, a: seq<Dir>, d: Dir, c: Tree)
    requires IsAddress(t, a) && At(t, a).Node?
    ensures IsAddress(t, a + [d])
    ensures Replace(t, a + [d], c) == Replace(t, a, WithChild(At(t, a), d, c))
    decreases a
  {
    AtStep(t, a, d);
    if a == [] {
      assert a + [d] == [d];
    } else {
      assert (a + [d])[1..] == a[1..] + [d];
      ReplaceStep(Child(t, a[0]), a[1..], d, c);
    }
  }

  /** A second write at the same address overrides the first. */
  lemma {:induction false} ReplaceTwice(t: Tree, a: seq<Dir>, x: Tree, y: Tree)
    requires IsAddress(t, a)
    ensures Replace(Replace(t, a, x), a, y) == Replace(t, a, y)
    decreases a
  {
    if a != [] {
      ReplaceTwice(Child(t, a[0]), a[1..], x, y);
    }
  }

  /** A write at address `a` leaves every address that turns off `a`
      somewhere reaching the subtree it reached before. */
  lemma {:induction false} ReplaceElsewhere(t: Tree, a: seq<Dir>, s: Tree, b: seq<Dir>, i: nat)
    requires IsAddress(t, a) && IsAddress(t, b)
    requires i < |a| && i < |b| && a[i] != b[i]
    ensures IsAddress(Replace(t, a, s), b) && At(Replace(t, a, s), b) == At(t, b)
    decreases i
  {
    if a[0] != b[0] {
      assert Child(Replace(t, a, s), b[0]) == Child(t, b[0]);
    } else {
      ReplaceElsewhere(Child(t, a[0]), a[1..], s, b[1..], i - 1);
    }
  }

  /** A write at address `a` is, seen from a node above it at address `b`,
      a write inside that node's subtree: the node keeps its key, and every
      node above it keeps its key as well. */
  lemma {:induction false} ReplaceBelow(t: Tree, a: seq<Dir>, s: Tree, b: seq<Dir>)
    requires IsAddress(t, a) && |b| <= |a| && b == a[..|b|]
    ensures IsAddress(t, b) && IsAddress(At(t, b), a[|b|..])
    ensures IsAddress(Replace(t, a, s), b)
    ensures At(Replace(t, a, s), b) == Replace(At(t, b), a[|b|..], s)
    ensures |b| < |a| ==> At(t, b).Node? && At(Replace(t, a, s), b).val == At(t, b).val
    decreases b
  {
    if b != [] {
      assert a[1..][..|b| - 1] == b[1..];
      assert a[1..][|b| - 1..] == a[|b|..];
      ReplaceBelow(Child(t, a[0]), a[1..], s, b[1..]);
    }
  }

  // ---------------------------------------------------------------------
  // Search walks

  /** `a` is the walk a search for `k` takes from the root of `t`: it passes
      only nodes whose key differs from `k`, and turns left exactly where `k`
      is the smaller. */
  predicate Routes(t: Tree, a: seq<Dir>, k: int)
    decreases a
  {
    a == [] ||
    (t.Node? && k != t.val && a[0] == (if k < t.val then Left else Right) &&
     Routes(Child(t, a[0]), a[1..], k))
  }

  lemma {:induction false} RoutesIsAddress(t: Tree, a: seq<Dir>, k: int)
    requires Routes(t, a, k)
    ensures IsAddress(t, a)
    decreases a
  {
    if a != [] {
      RoutesIsAddress(Child(t, a[0]), a[1..], k);
    }
  }

  /** A search for `k` that reaches a node with a different key goes on one
      step further, in the direction the comparison picks. */
  lemma {:induction false} RoutesStep(t: Tree, a: seq<Dir>, k: int)
    requires Routes(t, a, k)
    requires IsAddress(t, a) && At(t, a).Node? && k != At(t, a).val
    ensures IsAddress(t, a + [if k < At(t, a).val then Left else Right])
    ensures Routes(t, a + [if k < At(t, a).val then Left else Right], k)
    decreases a
  {
    var d := if k < At(t, a).val then Left else Right;
    AtStep(t, a, d);
    if a == [] {
      assert a + [d] == [d];
    } else {
      assert (a + [d])[1..] == a[1..] + [d];
      RoutesStep(Child(t, a[0]), a[1..], k);
    }
  }

  /** In a search tree, the walk to a node is also the walk a search takes
      for every key below that node. */
  lemma {:induction false} RoutesToSubtreeKeys(t: Tree, a: seq<Dir>, x: int, k: int)
    requires IsBst(t) && Routes(t, a, x)
    requires IsAddress(t, a) && k in Keys(At(t, a))
    ensures Routes(t, a, k)
    decreases a
  {
    if a != [] {
      var c := Child(t, a[0]);
      RoutesToSubtreeKeys(c, a[1..], x, k);
      assert k in Keys(c);
    }
  }
}
