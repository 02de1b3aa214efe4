/** The unbalanced binary search tree of `BinarySearchTree.java`.

    As for the AVL tree, every node has exactly one parent, so a subtree is
    a value and the private recursive `add`/`remove` become functions from
    the old subtree root to the new one; the tree object (`root`,
    `nodeCount`) is a class. Values are `int`, ordered as integers. */
module Bst {
  import opened Common

  /** Java's `Node`: data and children; `Nil` is a null reference. */
  datatype Tree = Nil | Node(data: int, left: Tree, right: Tree)

  ghost function Elements(t: Tree): set<int>
  {
    match t
    case Nil => {}
    case Node(v, l, r) => Elements(l) + {v} + Elements(r)
  }

  ghost function Count(t: Tree): nat
  {
    match t
    case Nil => 0
    case Node(_, l, r) => Count(l) + 1 + Count(r)
  }

  /** Strict search-tree order: smaller values to the left, larger to the
      right. */
  ghost predicate Ordered(t: Tree)
  {
    match t
    case Nil => true
    case Node(v, l, r) =>
      Ordered(l) && Ordered(r) &&
      (forall x :: x in Elements(l) ==> x < v) &&
      (forall x :: x in Elements(r) ==> v < x)
  }

  /** In an ordered tree every node holds a different value, so the
      number of nodes is the number of values. */
  lemma {:induction false} CountIsSize(t: Tree)
    requires Ordered(t)
    ensures Count(t) == |Elements(t)|
  {
    if t.Node? {
      CountIsSize(t.left);
      CountIsSize(t.right);
      var l, r := Elements(t.left), Elements(t.right);
      assert l * r == {} by {
        forall x | x in l ensures x !in r {
          assert x < t.data;
        }
      }
      assert t.data !in l + r;
      assert |l + r| == |l| + |r|;
      assert |(l + r) + {t.data}| == |l + r| + 1;
      assert Elements(t) == (l + r) + {t.data};
    }
  }

  // ---------------------------------------------------------------------
  // Search

  /** The private `contains(node, elem)`: compare and descend. */
  function ContainsNode(node: Tree, elem: int): (b: bool)
    ensures b ==> elem in Elements(node)
    ensures Ordered(node) ==> (b <==> elem in Elements(node))
  {
    match node
    case Nil => false
    case Node(v, l, r) =>
      if elem < v then ContainsNode(l, elem)
      else if elem > v then ContainsNode(r, elem)
      else true
  }

  // ---------------------------------------------------------------------
  // Insertion

  /** The private `add(node, elem)`: walk down, left when smaller and right
      otherwise, and hang a new leaf where the walk falls off the tree. */
  function AddNode(node: Tree, elem: int): (r: Tree)
    ensures r.Node?
    ensures Elements(r) == Elements(node) + {elem}
    ensures Count(r) == Count(node) + 1
    ensures Ordered(node) && elem !in Elements(node) ==> Ordered(r)
  {
    match node
    case Nil => Node(elem, Nil, Nil)
    case Node(v, l, r) =>
      if elem < v then Node(v, AddNode(l, elem), r)
      else Node(v, l, AddNode(r, elem))
  }

  /** The path the recursive `add` follows: the new value becomes a leaf,
      and every node it passes keeps its value and the child it did not
      descend into. */
  ghost predicate AddedAsLeaf(before: Tree, after: Tree, elem: int)
    decreases before
  {
    match before
    case Nil => after == Node(elem, Nil, Nil)
    case Node(v, l, r) =>
      after.Node? && after.data == v &&
      if elem < v then after.right == r && AddedAsLeaf(l, after.left, elem)
      else after.left == l && AddedAsLeaf(r, after.right, elem)
  }

  lemma {:induction false} AddNodeAddsLeaf(node: Tree, elem: int)
    ensures AddedAsLeaf(node, AddNode(node, elem), elem)
  {
    if node.Node? {
      if elem < node.data {
        AddNodeAddsLeaf(node.left, elem);
      } else {
        AddNodeAddsLeaf(node.right, elem);
      }
    }
  }

  // ---------------------------------------------------------------------
  // Removal

  /** The value of the leftmost node, the one `digLeft` stops at. */
  function MinValue(node: Tree): (v: int)
    requires node.Node?
    ensures v in Elements(node)
    ensures Ordered(node) ==> forall x :: x in Elements(node) ==> v <= x
  {
    if node.left.Nil? then node.data else MinValue(node.left)
  }

  /** Java's `digLeft`: follow left children down to the leftmost node. */
  method DigLeft(node: Tree) returns (cur: Tree)
    requires node.Node?
    ensures cur.Node? && cur.left.Nil?
    ensures cur.data == MinValue(node)
    ensures Ordered(node) ==> forall x :: x in Elements(node) ==> cur.data <= x
  {
    cur := node;
    while cur.left != Nil
      invariant cur.Node? && MinValue(cur) == MinValue(node)
      decreases cur
    {
      cur := cur.left;
    }
  }

  /** The private `remove(node, elem)`. Searching down, a node holding the
      value is replaced by its only child (or by nothing); a node with two
      children takes the smallest value of its right subtree, which is then
      removed from that subtree. On any tree, ordered or not, no value is
      added and at most one node goes. */
  function RemoveNode(node: Tree, elem: int): (r: Tree)
    ensures Elements(r) <= Elements(node)
    ensures Count(node) - 1 <= Count(r) <= Count(node)
    decreases node
  {
    match node
    case Nil => Nil
    case Node(v, l, rt) =>
      if elem < v then Node(v, RemoveNode(l, elem), rt)
      else if elem > v then Node(v, l, RemoveNode(rt, elem))
      else if l.Nil? then rt
      else if rt.Nil? then l
      else
        var m := MinValue(rt);
        Node(m, l, RemoveNode(rt, m))
  }

  /** What removing elem from an ordered tree must achieve: the result is
      ordered, holds every value but elem, and loses a node only when elem
      was there. */
  ghost predicate RemovedWell(node: Tree, elem: int, r: Tree)
  {
    Ordered(r) && Elements(r) == Elements(node) - {elem} &&
    Count(r) == Count(node) - (if elem in Elements(node) then 1 else 0)
  }

  /** Removal from an ordered tree takes exactly the one value out and
      keeps the order. */
  lemma {:induction false} RemoveNodeCorrect(node: Tree, elem: int)
    requires Ordered(node)
    ensures RemovedWell(node, elem, RemoveNode(node, elem))
    decreases node
  {
    match node
    case Nil =>
    case Node(v, l, rt) =>
      if elem < v {
        RemoveNodeCorrect(l, elem);
        RemoveLeftStep(node, elem);
      } else if elem > v {
        RemoveNodeCorrect(rt, elem);
        RemoveRightStep(node, elem);
      } else if l.Nil? {
        assert elem !in Elements(rt);
      } else if rt.Nil? {
        assert elem !in Elements(l);
      } else {
        RemoveNodeCorrect(rt, MinValue(rt));
        RemoveSuccessorStep(node);
      }
  }

  lemma RemoveLeftStep(node: Tree, elem: int)
    requires node.Node? && Ordered(node) && elem < node.data
    requires RemovedWell(node.left, elem, RemoveNode(node.left, elem))
    ensures RemovedWell(node, elem, RemoveNode(node, elem))
  {
    assert elem !in Elements(node.right);
  }

  lemma RemoveRightStep(node: Tree, elem: int)
    requires node.Node? && Ordered(node) && elem > node.data
    requires RemovedWell(node.right, elem, RemoveNode(node.right, elem))
    ensures RemovedWell(node, elem, RemoveNode(node, elem))
  {
    assert elem !in Elements(node.left);
  }

  /** A node with two children takes the smallest value on its right. */
  lemma RemoveSuccessorStep(node: Tree)
    requires node.Node? && node.left.Node? && node.right.Node? && Ordered(node)
    requires RemovedWell(node.right, MinValue(node.right), RemoveNode(node.right, MinValue(node.right)))
    ensures RemovedWell(node, node.data, RemoveNode(node, node.data))
  {
    var v, l, rt, m := node.data, node.left, node.right, MinValue(node.right);
    assert RemoveNode(node, v) == Node(m, l, RemoveNode(rt, m));
    assert v !in Elements(l) && v !in Elements(rt);
    assert Elements(RemoveNode(node, v)) == Elements(l) + {m} + (Elements(rt) - {m});
  }

  // ---------------------------------------------------------------------
  // Height

  /** The private `height(node)` as written: 0 for no node, otherwise the
      larger of the left height and the right height plus one. Only right
      edges add to the result. */
  function Height(node: Tree): (h: nat)
    ensures node.Node? ==> h >= 1
    ensures h <= IntendedHeight(node)
  {
    match node
    case Nil => 0
    case Node(_, l, r) => Max(Height(l), Height(r) + 1)
  }

  /** The height the method is evidently meant to compute: the number of
      nodes on the longest downward path, 1 + max(h(left), h(right)). */
  function IntendedHeight(node: Tree): (h: nat)
  {
    match node
    case Nil => 0
    case Node(_, l, r) => 1 + Max(IntendedHeight(l), IntendedHeight(r))
  }

  /** The intended height bounds the size from both sides: a tree of
      height h has at least h and fewer than 2^h nodes. */
  lemma {:induction false} IntendedHeightBounds(t: Tree)
    ensures IntendedHeight(t) <= Count(t) < Pow2(IntendedHeight(t))
  {
    if t.Node? {
      IntendedHeightBounds(t.left);
      IntendedHeightBounds(t.right);
      var h := IntendedHeight(t);
      Pow2Monotone(IntendedHeight(t.left), h - 1);
      Pow2Monotone(IntendedHeight(t.right), h - 1);
    }
  }

  /** The height as written breaks that bound: a root whose only child is
      a left leaf reports height 1, though it has two nodes. */
  lemma HeightMissesLeftEdges(a: int, b: int)
    requires a < b
    ensures var t := Node(b, Node(a, Nil, Nil), Nil);
      Ordered(t) && Count(t) == 2 && Height(t) == 1 && IntendedHeight(t) == 2 &&
      !(Count(t) < Pow2(Height(t)))
  {
  }

  // ---------------------------------------------------------------------
  // The tree object

  /** Java's `BinarySearchTree`. */
  class BinarySearchTree {
    var nodeCount: int
    var root: Tree

    ghost predicate Valid()
      reads this
    {
      Ordered(root) && nodeCount == Count(root)
    }

    ghost function Contents(): set<int>
      reads this
    {
      Elements(root)
    }

    constructor()
      ensures Valid() && Contents() == {}
    {
      nodeCount := 0;
      root := Nil;
    }

    /** `size()`: the number of values held. */
    function Size(): (n: int)
      reads this
      requires Valid()
      ensures n == |Contents()|
    {
      CountIsSize(root);
      nodeCount
    }

    function IsEmpty(): (b: bool)
      reads this
      requires Valid()
      ensures b <==> Contents() == {}
    {
      CountIsSize(root);
      Size() == 0
    }

    function Contains(elem: int): (b: bool)
      reads this
      requires Valid()
      ensures b <==> elem in Contents()
    {
      ContainsNode(root, elem)
    }

    /** `add(elem)`: `false` and no change when the value is already held;
        otherwise it is added as a new leaf. */
    method Add(elem: int) returns (b: bool)
      requires Valid()
      modifies this
      ensures Valid()
      ensures b <==> elem !in old(Contents())
      ensures Contents() == old(Contents()) + {elem}
      ensures !b ==> root == old(root)
      ensures b ==> AddedAsLeaf(old(root), root, elem)
      ensures nodeCount == old(nodeCount) + (if b then 1 else 0)
    {
      if ContainsNode(root, elem) {
        return false;
      }
      AddNodeAddsLeaf(root, elem);
      root := AddNode(root, elem);
      nodeCount := nodeCount + 1;
      return true;
    }

    /** `remove(elem)`: `false` and no change when the value is absent;
        otherwise it is removed. */
    method Remove(elem: int) returns (b: bool)
      requires Valid()
      modifies this
      ensures Valid()
      ensures b <==> elem in old(Contents())
      ensures Contents() == old(Contents()) - {elem}
      ensures !b ==> root == old(root)
      ensures nodeCount == old(nodeCount) - (if b then 1 else 0)
    {
      if ContainsNode(root, elem) {
        RemoveNodeCorrect(root, elem);
        root := RemoveNode(root, elem);
        nodeCount := nodeCount - 1;
        return true;
      }
      return false;
    }

    /** `height()` as written; see `Height`. */
    function TreeHeight(): (h: int)
      reads this
      ensures root.Nil? ==> h == 0
      ensures root.Node? ==> 1 <= h <= IntendedHeight(root)
    {
      Height(root)
    }
  }
}
