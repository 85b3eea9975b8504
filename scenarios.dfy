/** The fixture trees of the source's test suite, built as tree values, and
    the outcomes the suite expects of them, stated as assertions about the
    model's methods (plus one agreement case of the two insert forms). */
module Scenarios {
  import opened Trees
  import Bst

  /** 10 with a right child 20. */
  function SmallTree(): Tree
  {
    Node(Empty, 10, Leaf(20))
  }

  /** 50 over 25 (10 with right child 15, and 40) and 75 (right child 100). */
  function LargeTree(): Tree
  {
    Node(Node(Node(Empty, 10, Leaf(15)), 25, Leaf(40)), 50, Node(Empty, 75, Leaf(100)))
  }

  /** The large fixture satisfies the ordering invariant. */
  lemma LargeTreeIsBst()
    ensures IsBst(LargeTree())
  {
    assert Keys(LargeTree().left) == {10, 15, 25, 40};
    assert Keys(LargeTree().right) == {75, 100};
  }

  method InsertIntoEmpty()
  {
    var t := new Bst.BinarySearchTree();
    t.Insert(15);
    assert t.root == Leaf(15);
  }

  /** Not a case of the suite: the iterative and the recursive insert build
      the same tree. */
  method InsertFormsAgree()
  {
    var a := new Bst.BinarySearchTree(LargeTree());
    var b := new Bst.BinarySearchTree(LargeTree());
    a.Insert(60);
    b.InsertRecursively(60);
    assert a.root == b.root == Node(Node(Node(Empty, 10, Leaf(15)), 25, Leaf(40)), 50,
                                    Node(Leaf(60), 75, Leaf(100)));
  }

  method PreOrder()
  {
    var t := new Bst.BinarySearchTree(SmallTree());
    assert t.DfsPreOrder() == [10, 20];
  }

  method InOrder()
  {
    var t := new Bst.BinarySearchTree(SmallTree());
    assert t.DfsInOrder() == [10, 20];
  }

  method PostOrder()
  {
    var t := new Bst.BinarySearchTree(SmallTree());
    assert t.DfsPostOrder() == [20, 10];
  }

  method BreadthFirst()
  {
    var t := new Bst.BinarySearchTree(SmallTree());
    var nodes := t.Bfs();
    assert nodes == [10, 20];
    var e := new Bst.BinarySearchTree();
    nodes := e.Bfs();
    assert nodes == [];
  }

  method FindAndSuccessor()
  {
    var t := new Bst.BinarySearchTree(SmallTree());
    var found := t.Find(10);
    assert found == Some(SmallTree());
    var successor := t.FindSuccessorNode(found.value);
    assert successor == Some(Leaf(20));
    found := t.Find(20);
    successor := t.FindSuccessorNode(found.value);
    assert successor == None;
    found := t.Find(30);
    assert found == None;
  }

  method RemoveCases()
  {
    var small := new Bst.BinarySearchTree(SmallTree());
    var removed := small.Remove(10);
    assert small.root == Leaf(20);

    var large := new Bst.BinarySearchTree(LargeTree());
    LargeTreeIsBst();
    removed := large.Remove(25);
    assert large.root == Node(Node(Node(Empty, 10, Leaf(15)), 40, Empty), 50,
                              Node(Empty, 75, Leaf(100)));
  }

  method RemoveTwoChildrenSmall()
  {
    var t := new Bst.BinarySearchTree(SmallTree());
    t.Insert(5);
    var removed := t.Remove(10);
    assert t.root == Node(Leaf(5), 20, Empty);
  }

  method RemoveTwoChildrenLarge()
  {
    var t := new Bst.BinarySearchTree(LargeTree());
    LargeTreeIsBst();
    t.Insert(60);
    t.Insert(59);
    var removed := t.Remove(50);
    assert t.root.val == 59 && t.root.right.val == 75 && t.root.right.left == Leaf(60);
  }
}
