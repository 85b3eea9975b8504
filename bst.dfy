/** The tree handle of the source: it owns the root and runs the iterative
    operations, walking a cursor down from the root. Where the source writes
    a field through a node reference, the method writes the subtree at that
    node's address (see module Trees). */
module Bst {
  import opened Trees
  import NodeOps
  import LevelOrder
  import Removal

  class BinarySearchTree {
    var root: Tree

    constructor(root: Tree := Empty)
      ensures this.root == root
    {
      this.root := root;
    }

    /** The recursive search from the root; `None` on an empty tree. */
    function FindRecursively(val: int): (r: Option<Tree>)
      reads this
      ensures r.Some? ==> r.value.Node? && r.value.val == val
      ensures IsBst(root) ==> (r.Some? <==> val in Keys(root))
    {
      NodeOps.FindRecursivelyOnBst(root, val);
      NodeOps.FindRecursively(root, val)
    }

    /** Pre-order keys; `[]` on an empty tree. */
    function DfsPreOrder(): (r: seq<int>)
      reads this
      ensures root.Empty? ==> r == []
      ensures root.Node? ==> |r| > 0 && r[0] == root.val
      ensures multiset(r) == Elements(root)
    {
      NodeOps.DfsPreOrder(root)
    }

    /** In-order keys; `[]` on an empty tree, strictly ascending exactly when
        the tree is a search tree. */
    function DfsInOrder(): (r: seq<int>)
      reads this
      ensures root.Empty? ==> r == []
      ensures multiset(r) == Elements(root)
      ensures IsBst(root) <==> StrictlyIncreasing(r)
    {
      NodeOps.InOrderIncreasingIffBst(root);
      NodeOps.DfsInOrder(root)
    }

    /** Post-order keys; `[]` on an empty tree. */
    function DfsPostOrder(): (r: seq<int>)
      reads this
      ensures root.Empty? ==> r == []
      ensures root.Node? ==> |r| > 0 && r[|r| - 1] == root.val
      ensures multiset(r) == Elements(root)
    {
      NodeOps.DfsPostOrder(root)
    }

    /** Iterative insertion. The source loops forever when the walk meets a
        node holding `val`, so the walk must not find it. */
    method Insert(val: int)
      requires FindRecursively(val).None?
      modifies this
      ensures root == NodeOps.InsertRecursively(old(root), val)
      ensures Keys(root) == old(Keys(root)) + {val} && Size(root) == old(Size(root)) + 1
      ensures IsBst(old(root)) ==> IsBst(root)
    {
      ghost var start := root;
      ghost var _ := NodeOps.InsertRecursivelyAttachesLeaf(root, val);
      if IsBst(root) {
        NodeOps.InsertRecursivelyKeepsOrder(root, val);
      }
      if root.Empty? {
        root := Leaf(val);
        return;
      }
      var current := root;
      var addr: seq<Dir> := [];
      while true
        invariant root == start
        invariant IsAddress(root, addr) && current == At(root, addr) && current.Node?
        invariant NodeOps.FindRecursively(current, val).None?
        invariant NodeOps.InsertRecursively(root, val) ==
                  Replace(root, addr, NodeOps.InsertRecursively(current, val))
        decreases current
      {
        if val < current.val {
          if current.left.Empty? {
            ReplaceStep(root, addr, Left, Leaf(val));
            root := Replace(root, addr + [Left], Leaf(val));
            return;
          } else {
            AtStep(root, addr, Left);
            ReplaceStep(root, addr, Left, NodeOps.InsertRecursively(current.left, val));
            current, addr := current.left, addr + [Left];
          }
        } else if val > current.val {
          if current.right.Empty? {
            ReplaceStep(root, addr, Right, Leaf(val));
            root := Replace(root, addr + [Right], Leaf(val));
            return;
          } else {
            AtStep(root, addr, Right);
            ReplaceStep(root, addr, Right, NodeOps.InsertRecursively(current.right, val));
            current, addr := current.right, addr + [Right];
          }
        } else {
          assert false;
        }
      }
    }

    /** Recursive insertion: a new root leaf on an empty tree, otherwise the
        root node inserts. An equal key leaves the tree as it was. */
    method InsertRecursively(val: int)
      modifies this
      ensures root == NodeOps.InsertRecursively(old(root), val)
      ensures Keys(root) == old(Keys(root)) + {val}
      ensures IsBst(old(root)) ==> IsBst(root)
      ensures old(FindRecursively(val)).Some? ==> root == old(root)
    {
      if IsBst(root) {
        NodeOps.InsertRecursivelyKeepsOrder(root, val);
      }
      if NodeOps.FindRecursively(root, val).Some? {
        NodeOps.InsertRecursivelyDuplicate(root, val);
      }
      if root.Empty? {
        root := Leaf(val);
        return;
      }
      root := NodeOps.InsertRecursively(root, val);
    }

    /** Iterative search: it agrees with the recursive search on every tree. */
    method Find(val: int) returns (found: Option<Tree>)
      ensures found == FindRecursively(val)
      ensures found.Some? ==> found.value.Node? && found.value.val == val
      ensures IsBst(root) ==> (found.Some? <==> val in Keys(root))
    {
      if root.Empty? {
        return None;
      }
      var current := root;
      while current.Node?
        invariant NodeOps.FindRecursively(current, val) == NodeOps.FindRecursively(root, val)
        decreases current
      {
        if current.val == val {
          return Some(current);
        }
        current := if val < current.val then current.left else current.right;
      }
      return None;
    }

    /** Breadth-first traversal with a FIFO queue seeded with the root. */
    method Bfs() returns (nodes: seq<int>)
      ensures nodes == LevelOrder.LevelOrder(root)
      ensures multiset(nodes) == Elements(root) == multiset(NodeOps.DfsPreOrder(root))
      ensures root.Empty? <==> nodes == []
      ensures root.Node? ==> nodes[0] == root.val
    {
      if root.Empty? {
        return [];
      }
      var queue := [root];
      var node := root;
      nodes := [];
      ghost var all := LevelOrder.BfsQueue([root]);
      while queue != []
        invariant forall t :: t in queue ==> t.Node?
        invariant nodes + LevelOrder.BfsQueue(queue) == all
        decreases |LevelOrder.BfsQueue(queue)|
      {
        LevelOrder.BfsQueueStep(nodes, queue);
        ghost var next := queue[1..] + LevelOrder.Children(queue[0]);
        node := queue[0];
        queue := queue[1..];
        nodes := nodes + [node.val];
        if node.left.Node? {
          queue := queue + [node.left];
        }
        if node.right.Node? {
          queue := queue + [node.right];
        }
        assert queue == next;
      }
      assert nodes == all by {
        assert LevelOrder.BfsQueue(queue) == [];
        assert nodes + [] == nodes;
      }
      LevelOrder.BfsQueueFromRoot(root);
    }

    /** The leftmost node of `node`'s right subtree, or `None` when there is
        no right subtree. The source does not climb back up, so a node without
        a right child has no successor here. */
    method FindSuccessorNode(node: Tree) returns (successor: Option<Tree>)
      requires node.Node?
      ensures node.right.Empty? <==> successor.None?
      ensures node.right.Node? ==> successor == Some(Removal.Leftmost(node.right))
      ensures successor.Some? ==> successor.value.Node? && successor.value.left.Empty?
      ensures successor.Some? && IsBst(node) ==>
        var s := successor.value.val;
        s in Keys(node) && node.val < s && forall k :: k in Keys(node) && node.val < k ==> s <= k
    {
      if node.right.Empty? {
        return None;
      }
      var current := node.right;
      while current.left.Node?
        invariant current.Node? && Removal.Leftmost(current) == Removal.Leftmost(node.right)
        decreases current
      {
        current := current.left;
      }
      if IsBst(node) {
        Removal.SuccessorIsNextLarger(node);
      }
      return Some(current);
    }

    /** Removes the node holding `val`, walking down with a trailing parent as
        a search does. The source dereferences null when the key is absent,
        and in the two-children case it removes the successor key by a fresh
        walk from the root, which lands in the right subtree only on a search
        tree. Returns the node it unlinked, or, in the two-children case, the
        node that stayed and now holds the successor's key. */
    method Remove(val: int) returns (removed: Tree)
      requires IsBst(root) && val in Keys(root)
      modifies this
      ensures root == Removal.Removed(old(root), val)
      ensures IsBst(root) && Keys(root) == old(Keys(root)) - {val}
      ensures Size(root) == old(Size(root)) - 1
      ensures match old(FindRecursively(val))
        case None => false
        case Some(target) =>
          if Removal.HasTwoChildren(target)
          then removed == Node(target.left, Removal.Leftmost(target.right).val,
                               Removal.Removed(target.right, Removal.Leftmost(target.right).val))
          else removed == target
      decreases match NodeOps.FindRecursively(root, val)
        case Some(target) => if Removal.HasTwoChildren(target) then 1 else 0
        case None => 0
    {
      ghost var start := root;
      Removal.RemovedKeepsOrder(root, val);
      var remove := root;
      // The trailing `parent` of the source is the node at `addr` without
      // its last step; that last step says which of its slots holds `remove`.
      var addr: seq<Dir> := [];
      while remove.val != val
        invariant root == start
        invariant IsAddress(root, addr) && remove == At(root, addr)
        invariant Routes(root, addr, val)
        invariant IsBst(remove) && val in Keys(remove)
        decreases remove
      {
        RoutesStep(root, addr, val);
        AtStep(root, addr, if val < remove.val then Left else Right);
        if val < remove.val {
          addr := addr + [Left];
          remove := remove.left;
        } else {
          addr := addr + [Right];
          remove := remove.right;
        }
      }
      Removal.RemovedAlongRoute(root, addr, val);
      NodeOps.FindAlongRoute(root, addr, val);

      if remove.left.Empty? && remove.right.Empty? {
        // No children: clear the root, or the parent's slot that holds it.
        root := Replace(root, addr, Empty);
        removed := remove;
      } else if remove.left.Node? && remove.right.Node? {
        // Two children: remove the successor's key from the whole tree, then
        // copy that key into this node, which keeps its place.
        var successor := FindSuccessorNode(remove);
        var updated := successor.value.val;
        ghost var leftmost := Removal.Leftmost(remove.right);
        assert updated == leftmost.val && val < updated;
        Removal.FindLeftmost(remove.right);
        RoutesToSubtreeKeys(root, addr, val, updated);
        NodeOps.FindAlongRoute(root, addr, updated);
        Removal.RemovedAlongRoute(root, addr, updated);
        assert NodeOps.FindRecursively(remove, updated) == Some(leftmost);
        assert NodeOps.FindRecursively(root, val) == Some(remove);
        var _ := Remove(updated);
        assert root == Replace(start, addr, Node(remove.left, val, Removal.Removed(remove.right, updated)));
        root := Replace(root, addr, At(root, addr).(val := updated));
        ReplaceTwice(start, addr, Removal.Removed(remove, updated), At(root, addr));
        removed := At(root, addr);
        assert removed == Node(remove.left, updated, Removal.Removed(remove.right, updated));
      } else {
        // One child: it takes the node's place under the parent, or as root.
        root := Replace(root, addr, if remove.right.Empty? then remove.left else remove.right);
        removed := remove;
      }
    }
  }
}
