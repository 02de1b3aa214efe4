/** The AVL tree of `AVLTree.java`: a height-balanced binary search tree of
    unique values whose nodes cache their height and balance factor.

    Every node is owned by exactly one parent, so a subtree is modelled as a
    value: the private recursive `insert`/`remove`, the rotations and
    `balance` become functions from the old subtree root to the new one.
    The tree object itself (`root`, `nodeCount`) and its iterator are classes. */
module Avl {
  import opened Common

  /** Java's `Node`: balance factor, value, cached height and children;
      `Nil` is a null child. */
  datatype Tree = Nil | Node(bf: int, value: int, height: int, left: Tree, right: Tree)

  /** The height `update` reads for a child: its cached height, or -1 when
      the child is absent. */
  function Ht(t: Tree): int
  {
    if t.Nil? then -1 else t.height
  }

  ghost function Elements(t: Tree): set<int>
  {
    match t
    case Nil => {}
    case Node(_, v, _, l, r) => Elements(l) + {v} + Elements(r)
  }

  /** The values in the order an in-order walk visits them. */
  ghost function Inorder(t: Tree): seq<int>
  {
    match t
    case Nil => []
    case Node(_, v, _, l, r) => Inorder(l) + [v] + Inorder(r)
  }

  /** The number of nodes. */
  ghost function Count(t: Tree): nat
  {
    match t
    case Nil => 0
    case Node(_, _, _, l, r) => Count(l) + 1 + Count(r)
  }

  /** The height computed from the shape alone: edges on the longest path
      from the root down, -1 for the empty tree. */
  ghost function Depth(t: Tree): int
  {
    match t
    case Nil => -1
    case Node(_, _, _, l, r) => 1 + Max(Depth(l), Depth(r))
  }

  /** Every node caches `height = 1 + max(hL, hR)` and `bf = hR - hL`. */
  ghost predicate Cached(t: Tree)
  {
    match t
    case Nil => true
    case Node(bf, _, h, l, r) =>
      Cached(l) && Cached(r) && h >= 0 &&
      h == 1 + Max(Ht(l), Ht(r)) && bf == Ht(r) - Ht(l)
  }

  /** Strict binary-search-tree order: smaller values to the left, larger to
      the right, so no value occurs twice. */
  ghost predicate Ordered(t: Tree)
  {
    match t
    case Nil => true
    case Node(_, v, _, l, r) =>
      Ordered(l) && Ordered(r) &&
      (forall x :: x in Elements(l) ==> x < v) &&
      (forall x :: x in Elements(r) ==> v < x)
  }

  /** Every balance factor is -1, 0 or +1. */
  ghost predicate Balanced(t: Tree)
  {
    match t
    case Nil => true
    case Node(bf, _, _, l, r) => -1 <= bf <= 1 && Balanced(l) && Balanced(r)
  }

  /** The invariant every public operation of the tree restores. */
  ghost predicate IsAvl(t: Tree)
  {
    Ordered(t) && Cached(t) && Balanced(t)
  }

  ghost predicate StrictlyIncreasing(s: seq<int>)
  {
    forall i, j :: 0 <= i < j < |s| ==> s[i] < s[j]
  }

  lemma CachedHt(t: Tree)
    requires Cached(t)
    ensures Ht(t) >= -1
  {
  }

  /** The cached height of a well-formed tree is its real height. */
  lemma {:induction false} CachedHeightIsDepth(t: Tree)
    requires Cached(t)
    ensures Ht(t) == Depth(t)
  {
    if t.Node? {
      CachedHeightIsDepth(t.left);
      CachedHeightIsDepth(t.right);
    }
  }

  /** A value occurs in the in-order walk exactly when it is in the tree. */
  lemma {:induction false} InorderElements(t: Tree)
    ensures forall x :: x in Inorder(t) <==> x in Elements(t)
    ensures |Inorder(t)| == Count(t)
  {
    if t.Node? {
      InorderElements(t.left);
      InorderElements(t.right);
    }
  }

  /** A sequence split around a pivot ascends exactly when both halves do and
      the pivot separates them. */
  lemma SplitIncreasing(a: seq<int>, v: int, b: seq<int>)
    ensures StrictlyIncreasing(a + [v] + b) <==>
      StrictlyIncreasing(a) && StrictlyIncreasing(b) &&
      (forall x :: x in a ==> x < v) && (forall y :: y in b ==> v < y)
  {
    var s := a + [v] + b;
    if StrictlyIncreasing(s) {
      forall i, j | 0 <= i < j < |a| ensures a[i] < a[j] {
        assert a[i] == s[i] && a[j] == s[j];
      }
      forall i, j | 0 <= i < j < |b| ensures b[i] < b[j] {
        assert b[i] == s[|a| + 1 + i] && b[j] == s[|a| + 1 + j];
      }
      forall x | x in a ensures x < v {
        var i :| 0 <= i < |a| && a[i] == x;
        assert s[i] == x && s[|a|] == v;
      }
      forall y | y in b ensures v < y {
        var j :| 0 <= j < |b| && b[j] == y;
        assert s[|a| + 1 + j] == y && s[|a|] == v;
      }
    }
    if StrictlyIncreasing(a) && StrictlyIncreasing(b) &&
      (forall x :: x in a ==> x < v) && (forall y :: y in b ==> v < y) {
      forall i, j | 0 <= i < j < |s| ensures s[i] < s[j] {
        if j < |a| {
          assert s[i] == a[i] && s[j] == a[j];
        } else if j == |a| {
          assert s[i] == a[i] && a[i] in a && s[j] == v;
        } else if i < |a| {
          assert s[i] == a[i] && a[i] in a;
          assert s[j] == b[j - |a| - 1] && b[j - |a| - 1] in b;
        } else if i == |a| {
          assert s[i] == v && s[j] == b[j - |a| - 1] && b[j - |a| - 1] in b;
        } else {
          assert s[i] == b[i - |a| - 1] && s[j] == b[j - |a| - 1];
        }
      }
    }
  }

  /** The search-tree order is the same thing as an ascending in-order walk. */
  lemma {:induction false} OrderedIffSorted(t: Tree)
    ensures Ordered(t) <==> StrictlyIncreasing(Inorder(t))
  {
    if t.Node? {
      OrderedIffSorted(t.left);
      OrderedIffSorted(t.right);
      InorderElements(t.left);
      InorderElements(t.right);
      SplitIncreasing(Inorder(t.left), t.value, Inorder(t.right));
    }
  }

  /** Two trees with the same in-order walk are ordered alike; this is why
      rotations keep the search-tree order. */
  lemma SameInorderOrdered(a: Tree, b: Tree)
    requires Inorder(a) == Inorder(b)
    ensures Ordered(a) <==> Ordered(b)
  {
    OrderedIffSorted(a);
    OrderedIffSorted(b);
  }

  /** Two trees with the same in-order walk hold the same values and are
      ordered alike. */
  lemma SameInorderSameElements(a: Tree, b: Tree)
    requires Inorder(a) == Inorder(b)
    ensures Elements(a) == Elements(b)
    ensures Ordered(a) <==> Ordered(b)
  {
    assert Elements(a) == Elements(b) by {
      InorderElements(a);
      InorderElements(b);
      forall x ensures x in Elements(a) <==> x in Elements(b) {
        assert x in Elements(a) <==> x in Inorder(a);
        assert x in Elements(b) <==> x in Inorder(b);
      }
    }
    SameInorderOrdered(a, b);
  }

  /** An in-order walk of an ordered tree lists each of its values once, in
      strictly ascending order. */
  lemma {:induction false} InorderSorted(t: Tree)
    requires Ordered(t)
    ensures StrictlyIncreasing(Inorder(t))
    ensures forall x :: x in Inorder(t) <==> x in Elements(t)
    ensures |Inorder(t)| == Count(t) == |Elements(t)|
  {
    OrderedIffSorted(t);
    InorderElements(t);
    if t.Node? {
      InorderSorted(t.left);
      InorderSorted(t.right);
      assert t.value !in Elements(t.left) && t.value !in Elements(t.right);
      assert Elements(t.left) * Elements(t.right) == {} by {
        forall x | x in Elements(t.left) ensures x !in Elements(t.right) { }
      }
    }
  }

  // ---------------------------------------------------------------------
  // Lookup

  /** Java's recursive `contains(node, value)`: compare and descend. */
  function ContainsNode(node: Tree, value: int): (b: bool)
    ensures Ordered(node) ==> (b <==> value in Elements(node))
  {
    if node.Nil? then false
    else if value < node.value then ContainsNode(node.left, value)
    else if value > node.value then ContainsNode(node.right, value)
    else true
  }

  // ---------------------------------------------------------------------
  // Rebalance engine

  /** A fresh leaf, as `new Node(value)` leaves it: bf 0, height 0. */
  function NewNode(value: int): (r: Tree)
    ensures IsAvl(r) && Elements(r) == {value} && Ht(r) == 0
  {
    Node(0, value, 0, Nil, Nil)
  }

  /** Java's `update`: recompute the node's cached height and balance factor
      from its children's cached heights. */
  function Update(node: Tree): (r: Tree)
    requires node.Node?
    ensures r.Node? && r.value == node.value && r.left == node.left && r.right == node.right
    ensures Cached(node.left) && Cached(node.right) ==> Cached(r)
  {
    var leftNodeHeight := Ht(node.left);
    var rightNodeHeight := Ht(node.right);
    node.(height := 1 + Max(leftNodeHeight, rightNodeHeight), bf := rightNodeHeight - leftNodeHeight)
  }

  /** Java's `rightRotation`: the left child becomes the subtree root. */
  function RightRotation(node: Tree): (r: Tree)
    requires node.Node? && node.left.Node?
    ensures r.Node? && r.value == node.left.value && r.left == node.left.left
    ensures Cached(node.left) && Cached(node.right) ==> Cached(r)
  {
    var newParent := node.left;
    Update(newParent.(right := Update(node.(left := newParent.right))))
  }

  /** Java's `leftRotation`: the right child becomes the subtree root. */
  function LeftRotation(node: Tree): (r: Tree)
    requires node.Node? && node.right.Node?
    ensures r.Node? && r.value == node.right.value && r.right == node.right.right
    ensures Cached(node.left) && Cached(node.right) ==> Cached(r)
  {
    var newParent := node.right;
    Update(newParent.(left := Update(node.(right := newParent.left))))
  }

  function LeftLeftCase(node: Tree): (r: Tree)
    requires node.Node? && node.left.Node?
    ensures r.Node? && r.value == node.left.value
    ensures Cached(node.left) && Cached(node.right) ==> Cached(r)
  {
    RightRotation(node)
  }

  function LeftRightCase(node: Tree): (r: Tree)
    requires node.Node? && node.left.Node? && node.left.right.Node?
    ensures r.Node? && r.value == node.left.right.value
    ensures Cached(node.left) && Cached(node.right) ==> Cached(r)
  {
    LeftLeftCase(node.(left := LeftRotation(node.left)))
  }

  function RightRightCase(node: Tree): (r: Tree)
    requires node.Node? && node.right.Node?
    ensures r.Node? && r.value == node.right.value
    ensures Cached(node.left) && Cached(node.right) ==> Cached(r)
  {
    LeftRotation(node)
  }

  function RightLeftCase(node: Tree): (r: Tree)
    requires node.Node? && node.right.Node? && node.right.left.Node?
    ensures r.Node? && r.value == node.right.left.value
    ensures Cached(node.left) && Cached(node.right) ==> Cached(r)
  {
    RightRightCase(node.(right := RightRotation(node.right)))
  }

  /** Java's `balance`: a node with balance factor -2 or +2 is rotated by one
      of the four cases; any other node is returned unchanged. */
  function Balance(node: Tree): (r: Tree)
    requires node.Node? && Cached(node)
    ensures r.Node? && Cached(r)
  {
    CachedHt(node.left);
    CachedHt(node.right);
    if node.bf == -2 then
      if node.left.bf <= 0 then LeftLeftCase(node) else LeftRightCase(node)
    else if node.bf == 2 then
      if node.right.bf >= 0 then RightRightCase(node) else RightLeftCase(node)
    else
      node
  }

  lemma Reassoc(a: seq<int>, b: seq<int>, c: seq<int>, d: seq<int>, e: seq<int>)
    ensures a + b + (c + d + e) == (a + b + c) + d + e
  {
  }

  lemma RightRotationInorder(node: Tree)
    requires node.Node? && node.left.Node?
    ensures Inorder(RightRotation(node)) == Inorder(node)
  {
    var l := node.left;
    var n := Update(node.(left := l.right));
    assert Inorder(n) == Inorder(l.right) + [node.value] + Inorder(node.right);
    var r := Update(l.(right := n));
    assert RightRotation(node) == r;
    assert Inorder(r) == Inorder(l.left) + [l.value] + Inorder(n);
    Reassoc(Inorder(l.left), [l.value], Inorder(l.right), [node.value], Inorder(node.right));
  }

  lemma LeftRotationInorder(node: Tree)
    requires node.Node? && node.right.Node?
    ensures Inorder(LeftRotation(node)) == Inorder(node)
  {
    var rt := node.right;
    var n := Update(node.(right := rt.left));
    assert Inorder(n) == Inorder(node.left) + [node.value] + Inorder(rt.left);
    var r := Update(rt.(left := n));
    assert LeftRotation(node) == r;
    assert Inorder(r) == Inorder(n) + [rt.value] + Inorder(rt.right);
    Reassoc(Inorder(node.left), [node.value], Inorder(rt.left), [rt.value], Inorder(rt.right));
  }

  /** A right rotation keeps the in-order sequence of values, hence the set
      of values and the search-tree order. */
  lemma RightRotationKeepsOrder(node: Tree)
    requires node.Node? && node.left.Node?
    ensures Inorder(RightRotation(node)) == Inorder(node)
    ensures Elements(RightRotation(node)) == Elements(node)
    ensures Ordered(RightRotation(node)) <==> Ordered(node)
  {
    RightRotationInorder(node);
    SameInorderSameElements(node, RightRotation(node));
  }

  /** Mirror image of `RightRotationKeepsOrder`. */
  lemma LeftRotationKeepsOrder(node: Tree)
    requires node.Node? && node.right.Node?
    ensures Inorder(LeftRotation(node)) == Inorder(node)
    ensures Elements(LeftRotation(node)) == Elements(node)
    ensures Ordered(LeftRotation(node)) <==> Ordered(node)
  {
    LeftRotationInorder(node);
    SameInorderSameElements(node, LeftRotation(node));
  }

  /** `balance` keeps the in-order sequence of values, hence the set of
      values and the search-tree order. */
  lemma BalanceKeepsOrder(node: Tree)
    requires node.Node? && Cached(node)
    ensures Inorder(Balance(node)) == Inorder(node)
    ensures Elements(Balance(node)) == Elements(node)
    ensures Ordered(Balance(node)) <==> Ordered(node)
  {
    CachedHt(node.left);
    CachedHt(node.right);
    if node.bf == -2 {
      if node.left.bf <= 0 {
        RightRotationKeepsOrder(node);
      } else {
        var n := node.(left := LeftRotation(node.left));
        LeftRotationKeepsOrder(node.left);
        RightRotationKeepsOrder(n);
        SameInorderOrdered(node, n);
      }
    } else if node.bf == 2 {
      if node.right.bf >= 0 {
        LeftRotationKeepsOrder(node);
      } else {
        var n := node.(right := RightRotation(node.right));
        RightRotationKeepsOrder(node.right);
        LeftRotationKeepsOrder(n);
        SameInorderOrdered(node, n);
      }
    }
  }

  /** A right rotation of a left-heavy node whose left child is not
      right-heavy balances it, at the height of the taller child or one more. */
  lemma LeftLeftAvl(node: Tree)
    requires node.Node? && Cached(node) && node.bf == -2
    requires node.left.Node? && node.left.bf <= 0
    requires Balanced(node.left) && Balanced(node.right)
    ensures Balanced(LeftLeftCase(node))
    ensures Ht(node.left) <= Ht(LeftLeftCase(node)) <= Ht(node.left) + 1
  {
    var l, c := node.left, node.right;
    var a, b := l.left, l.right;
    CachedHt(a); CachedHt(b); CachedHt(c);
    var n := Update(node.(left := b));
    assert Ht(n) == Ht(b) + 1 && -1 <= n.bf <= 0;
    var r := Update(l.(right := n));
    assert LeftLeftCase(node) == r;
    assert 0 <= r.bf <= 1;
  }

  /** Mirror image of `LeftLeftAvl`. */
  lemma RightRightAvl(node: Tree)
    requires node.Node? && Cached(node) && node.bf == 2
    requires node.right.Node? && node.right.bf >= 0
    requires Balanced(node.left) && Balanced(node.right)
    ensures Balanced(RightRightCase(node))
    ensures Ht(node.right) <= Ht(RightRightCase(node)) <= Ht(node.right) + 1
  {
    var c, l := node.right, node.left;
    var a, b := c.right, c.left;
    CachedHt(a); CachedHt(b); CachedHt(l);
    var n := Update(node.(right := b));
    assert Ht(n) == Ht(b) + 1 && 0 <= n.bf <= 1;
    var r := Update(c.(left := n));
    assert RightRightCase(node) == r;
    assert -1 <= r.bf <= 0;
  }

  /** A double rotation of a left-heavy node whose left child is right-heavy
      balances it, at the height of its taller child. */
  lemma LeftRightAvl(node: Tree)
    requires node.Node? && Cached(node) && node.bf == -2
    requires node.left.Node? && node.left.bf > 0
    requires Balanced(node.left) && Balanced(node.right)
    ensures node.left.right.Node?
    ensures Balanced(LeftRightCase(node))
    ensures Ht(LeftRightCase(node)) == Ht(node.left)
  {
    var l, d := node.left, node.right;
    CachedHt(l.left); CachedHt(l.right); CachedHt(d);
    var q := l.right;
    var a, b, c := l.left, q.left, q.right;
    CachedHt(b); CachedHt(c);
    var l' := Update(l.(right := b));
    assert Ht(l') == Ht(a) + 1 && -1 <= l'.bf <= 0;
    var q' := Update(q.(left := l'));
    assert LeftRotation(l) == q';
    var n := Update(node.(left := c));
    assert Ht(n) == Ht(d) + 1 && 0 <= n.bf <= 1;
    var r := Update(q'.(right := n));
    assert LeftRightCase(node) == r;
    assert r.bf == 0;
  }

  /** Mirror image of `LeftRightAvl`. */
  lemma RightLeftAvl(node: Tree)
    requires node.Node? && Cached(node) && node.bf == 2
    requires node.right.Node? && node.right.bf < 0
    requires Balanced(node.left) && Balanced(node.right)
    ensures node.right.left.Node?
    ensures Balanced(RightLeftCase(node))
    ensures Ht(RightLeftCase(node)) == Ht(node.right)
  {
    var rt, d := node.right, node.left;
    CachedHt(rt.left); CachedHt(rt.right); CachedHt(d);
    var q := rt.left;
    var a, b, c := rt.right, q.right, q.left;
    CachedHt(b); CachedHt(c);
    var r' := Update(rt.(left := b));
    assert Ht(r') == Ht(a) + 1 && 0 <= r'.bf <= 1;
    var q' := Update(q.(right := r'));
    assert RightRotation(rt) == q';
    var n := Update(node.(right := c));
    assert Ht(n) == Ht(d) + 1 && -1 <= n.bf <= 0;
    var r := Update(q'.(left := n));
    assert RightLeftCase(node) == r;
    assert r.bf == 0;
  }

  /** `balance` applied to a node whose children are AVL trees and whose
      balance factor is at most 2 away from zero gives an AVL tree. A node
      already in balance is returned as it is; after a rotation the height
      is that of the taller child or one more. */
  lemma BalanceAvl(node: Tree)
    requires node.Node? && Cached(node) && Ordered(node)
    requires Balanced(node.left) && Balanced(node.right)
    requires -2 <= node.bf <= 2
    ensures IsAvl(Balance(node))
    ensures -1 <= node.bf <= 1 ==> Balance(node) == node
    ensures node.bf == 2 || node.bf == -2 ==>
      Max(Ht(node.left), Ht(node.right)) <= Ht(Balance(node)) <= Max(Ht(node.left), Ht(node.right)) + 1
  {
    CachedHt(node.left);
    CachedHt(node.right);
    BalanceKeepsOrder(node);
    if node.bf == -2 {
      if node.left.bf <= 0 { LeftLeftAvl(node); } else { LeftRightAvl(node); }
    } else if node.bf == 2 {
      if node.right.bf >= 0 { RightRightAvl(node); } else { RightLeftAvl(node); }
    }
  }

  // ---------------------------------------------------------------------
  // Insertion

  /** Java's recursive `insert(node, value)`: descend (left when smaller,
      otherwise right), hang a new leaf at the null position reached, then
      `update` and `balance` every node on the way back up. */
  function InsertNode(node: Tree, value: int): (r: Tree)
    requires Cached(node)
    ensures r.Node? && Cached(r)
    decreases node
  {
    if node.Nil? then NewNode(value)
    else if value < node.value then Balance(Update(node.(left := InsertNode(node.left, value))))
    else Balance(Update(node.(right := InsertNode(node.right, value))))
  }

  /** Insertion adds exactly the inserted value, whatever the shape of the
      tree; its in-order walk is the old one with the value placed after
      every smaller value. */
  lemma {:induction false} InsertElements(node: Tree, value: int)
    requires Cached(node)
    ensures Elements(InsertNode(node, value)) == Elements(node) + {value}
  {
    if node.Node? {
      if value < node.value {
        InsertElements(node.left, value);
        BalanceKeepsOrder(Update(node.(left := InsertNode(node.left, value))));
      } else {
        InsertElements(node.right, value);
        BalanceKeepsOrder(Update(node.(right := InsertNode(node.right, value))));
      }
    }
  }

  /** The facts `InsertAvl` proves, for one subtree and one value. */
  ghost predicate InsertedWell(node: Tree, value: int)
    requires Cached(node)
  {
    var r := InsertNode(node, value);
    IsAvl(r) && Ht(node) <= Ht(r) <= Ht(node) + 1
  }

  /** One step of `InsertAvl` back up the tree, after an insertion into the
      left subtree. */
  lemma InsertLeftStep(node: Tree, value: int)
    requires IsAvl(node) && node.Node? && value < node.value && value !in Elements(node)
    requires InsertedWell(node.left, value)
    ensures InsertedWell(node, value)
  {
    CachedHt(node.left);
    CachedHt(node.right);
    var l' := InsertNode(node.left, value);
    InsertElements(node.left, value);
    var n := Update(node.(left := l'));
    assert Ordered(n) by {
      assert forall x :: x in Elements(l') ==> x < node.value;
    }
    BalanceAvl(n);
    assert InsertNode(node, value) == Balance(n);
  }

  /** One step of `InsertAvl` back up the tree, after an insertion into the
      right subtree. */
  lemma InsertRightStep(node: Tree, value: int)
    requires IsAvl(node) && node.Node? && value > node.value && value !in Elements(node)
    requires InsertedWell(node.right, value)
    ensures InsertedWell(node, value)
  {
    CachedHt(node.left);
    CachedHt(node.right);
    var r' := InsertNode(node.right, value);
    InsertElements(node.right, value);
    var n := Update(node.(right := r'));
    assert Ordered(n) by {
      assert forall x :: x in Elements(r') ==> node.value < x;
    }
    BalanceAvl(n);
    assert InsertNode(node, value) == Balance(n);
  }

  /** Inserting a value not yet present into an AVL tree gives an AVL tree
      whose height grew by at most one. */
  lemma {:induction false} InsertAvl(node: Tree, value: int)
    requires IsAvl(node) && value !in Elements(node)
    ensures IsAvl(InsertNode(node, value))
    ensures Ht(node) <= Ht(InsertNode(node, value)) <= Ht(node) + 1
  {
    if node.Node? {
      if value < node.value {
        InsertAvl(node.left, value);
        InsertLeftStep(node, value);
      } else {
        InsertAvl(node.right, value);
        InsertRightStep(node, value);
      }
    }
  }

  // ---------------------------------------------------------------------
  // Deletion

  /** The value `findMin` returns: that of the leftmost node. */
  function MinValue(node: Tree): (v: int)
    requires node.Node?
    ensures v in Elements(node)
    ensures Ordered(node) ==> forall x :: x in Elements(node) ==> v <= x
    decreases node
  {
    if node.left.Nil? then node.value else MinValue(node.left)
  }

  /** The value `findMax` returns: that of the rightmost node. */
  function MaxValue(node: Tree): (v: int)
    requires node.Node?
    ensures v in Elements(node)
    ensures Ordered(node) ==> forall x :: x in Elements(node) ==> x <= v
    decreases node
  {
    if node.right.Nil? then node.value else MaxValue(node.right)
  }

  /** Java's `findMin`: follow left children to the leftmost node. */
  method FindMin(node: Tree) returns (v: int)
    requires node.Node?
    ensures v == MinValue(node)
    ensures v in Elements(node)
    ensures Ordered(node) ==> forall x :: x in Elements(node) ==> v <= x
  {
    var n := node;
    while n.left != Nil
      invariant n.Node? && MinValue(n) == MinValue(node)
      decreases n
    {
      n := n.left;
    }
    v := n.value;
  }

  /** Java's `findMax`: follow right children to the rightmost node. */
  method FindMax(node: Tree) returns (v: int)
    requires node.Node?
    ensures v == MaxValue(node)
    ensures v in Elements(node)
    ensures Ordered(node) ==> forall x :: x in Elements(node) ==> x <= v
  {
    var n := node;
    while n.right != Nil
      invariant n.Node? && MaxValue(n) == MaxValue(node)
      decreases n
    {
      n := n.right;
    }
    v := n.value;
  }

  /** Java's recursive `remove(node, elem)`. A found node with at most one
      child is replaced by that child. A found node with two children takes
      the largest value of its left subtree when that subtree is strictly
      taller, and otherwise the smallest value of its right subtree; that
      value is then removed from the subtree it came from. Every node on the
      way back up is updated and balanced. */
  function RemoveNode(node: Tree, elem: int): (r: Tree)
    requires Cached(node)
    ensures Cached(r)
    decreases node
  {
    if node.Nil? then Nil
    else if elem < node.value then Balance(Update(node.(left := RemoveNode(node.left, elem))))
    else if elem > node.value then Balance(Update(node.(right := RemoveNode(node.right, elem))))
    else if node.left.Nil? then node.right
    else if node.right.Nil? then node.left
    else if node.left.height > node.right.height then
      var successorValue := MaxValue(node.left);
      Balance(Update(node.(value := successorValue, left := RemoveNode(node.left, successorValue))))
    else
      var successorValue := MinValue(node.right);
      Balance(Update(node.(value := successorValue, right := RemoveNode(node.right, successorValue))))
  }

  /** The facts `RemoveAvl` proves, for one subtree and one value. */
  ghost predicate RemovedWell(node: Tree, elem: int)
    requires Cached(node)
  {
    var r := RemoveNode(node, elem);
    IsAvl(r) && Elements(r) == Elements(node) - {elem} &&
    Ht(node) - 1 <= Ht(r) <= Ht(node)
  }

  /** One step of `RemoveAvl` back up the tree, after a removal from the
      left subtree. */
  lemma RemoveLeftStep(node: Tree, elem: int)
    requires IsAvl(node) && node.Node? && elem < node.value
    requires RemovedWell(node.left, elem)
    ensures RemovedWell(node, elem)
  {
    CachedHt(node.left);
    CachedHt(node.right);
    var l' := RemoveNode(node.left, elem);
    var n := Update(node.(left := l'));
    assert Ordered(n) by {
      assert forall x :: x in Elements(l') ==> x < node.value;
    }
    BalanceAvl(n);
    BalanceKeepsOrder(n);
    assert RemoveNode(node, elem) == Balance(n);
  }

  /** One step of `RemoveAvl` back up the tree, after a removal from the
      right subtree. */
  lemma RemoveRightStep(node: Tree, elem: int)
    requires IsAvl(node) && node.Node? && elem > node.value
    requires RemovedWell(node.right, elem)
    ensures RemovedWell(node, elem)
  {
    CachedHt(node.left);
    CachedHt(node.right);
    var r' := RemoveNode(node.right, elem);
    var n := Update(node.(right := r'));
    assert Ordered(n) by {
      assert forall x :: x in Elements(r') ==> node.value < x;
    }
    BalanceAvl(n);
    BalanceKeepsOrder(n);
    assert RemoveNode(node, elem) == Balance(n);
  }

  /** Removing a node with two children whose left subtree is strictly
      taller: its value is replaced by the largest value on the left. */
  lemma RemovePredecessorStep(node: Tree)
    requires IsAvl(node) && node.Node? && node.left.Node? && node.right.Node?
    requires node.left.height > node.right.height
    requires RemovedWell(node.left, MaxValue(node.left))
    ensures RemovedWell(node, node.value)
  {
    CachedHt(node.left);
    CachedHt(node.right);
    var p := MaxValue(node.left);
    var l' := RemoveNode(node.left, p);
    var n := Update(node.(value := p, left := l'));
    assert Ordered(n) by {
      assert forall x :: x in Elements(l') ==> x < p;
      assert forall x :: x in Elements(node.right) ==> p < x;
    }
    BalanceAvl(n);
    BalanceKeepsOrder(n);
    assert RemoveNode(node, node.value) == Balance(n);
    assert node.value !in Elements(node.left) + Elements(node.right);
  }

  /** Removing a node with two children whose left subtree is not strictly
      taller: its value is replaced by the smallest value on the right. */
  lemma RemoveSuccessorStep(node: Tree)
    requires IsAvl(node) && node.Node? && node.left.Node? && node.right.Node?
    requires node.left.height <= node.right.height
    requires RemovedWell(node.right, MinValue(node.right))
    ensures RemovedWell(node, node.value)
  {
    CachedHt(node.left);
    CachedHt(node.right);
    var m := MinValue(node.right);
    var r' := RemoveNode(node.right, m);
    var n := Update(node.(value := m, right := r'));
    assert Ordered(n) by {
      assert forall x :: x in Elements(r') ==> m < x;
      assert forall x :: x in Elements(node.left) ==> x < m;
    }
    BalanceAvl(n);
    BalanceKeepsOrder(n);
    assert RemoveNode(node, node.value) == Balance(n);
    assert node.value !in Elements(node.left) + Elements(node.right);
  }

  /** Removing a value from an AVL tree gives an AVL tree without that
      value, whose height shrank by at most one. */
  lemma RemoveAvl(node: Tree, elem: int)
    requires IsAvl(node)
    ensures IsAvl(RemoveNode(node, elem))
    ensures Elements(RemoveNode(node, elem)) == Elements(node) - {elem}
    ensures Ht(node) - 1 <= Ht(RemoveNode(node, elem)) <= Ht(node)
  {
    RemovesWell(node, elem);
  }

  /** The induction behind `RemoveAvl`, one step lemma per branch of
      `RemoveNode`. */
  lemma {:induction false} RemovesWell(node: Tree, elem: int)
    requires IsAvl(node)
    ensures RemovedWell(node, elem)
  {
    if node.Nil? {
    } else if elem < node.value {
      RemovesWell(node.left, elem);
      RemoveLeftStep(node, elem);
    } else if elem > node.value {
      RemovesWell(node.right, elem);
      RemoveRightStep(node, elem);
    } else if node.left.Nil? || node.right.Nil? {
      RemoveLeafStep(node);
    } else if node.left.height > node.right.height {
      RemovesWell(node.left, MaxValue(node.left));
      RemovePredecessorStep(node);
    } else {
      RemovesWell(node.right, MinValue(node.right));
      RemoveSuccessorStep(node);
    }
  }

  /** Removing a found node with at most one child: that child replaces
      it. */
  lemma RemoveLeafStep(node: Tree)
    requires IsAvl(node) && node.Node? && (node.left.Nil? || node.right.Nil?)
    ensures RemovedWell(node, node.value)
  {
    CachedHt(node.left);
    CachedHt(node.right);
    assert node.value !in Elements(node.left) + Elements(node.right);
  }

  // ---------------------------------------------------------------------
  // Logarithmic height

  /** The reason for the balance invariant: an AVL tree of height h holds at
      least 2^((h+1)/2) - 1 nodes, so its height is logarithmic in its size. */
  lemma {:induction false} AvlHeightLogarithmic(t: Tree)
    requires Cached(t) && Balanced(t)
    ensures Ht(t) >= -1
    ensures Pow2((Ht(t) + 1) / 2) <= Count(t) + 1
  {
    if t.Node? {
      var h := Ht(t);
      AvlHeightLogarithmic(t.left);
      AvlHeightLogarithmic(t.right);
      if h >= 1 {
        Pow2Monotone((h - 1) / 2, (Ht(t.left) + 1) / 2);
        Pow2Monotone((h - 1) / 2, (Ht(t.right) + 1) / 2);
        assert (h + 1) / 2 == (h - 1) / 2 + 1;
      }
    }
  }

  function Fib(n: nat): nat
  {
    if n < 2 then n else Fib(n - 1) + Fib(n - 2)
  }

  lemma {:induction false} FibMonotone(a: nat, b: nat)
    requires a <= b
    ensures Fib(a) <= Fib(b)
    decreases b - a
  {
    if a < b {
      FibMonotone(a, b - 1);
      assert Fib(b - 1) <= Fib(b) by {
        if b >= 2 {
          assert Fib(b) == Fib(b - 1) + Fib(b - 2);
        }
      }
    }
  }

  /** The exact form of the balance guarantee: the sparsest AVL tree of
      height h has N(h) = N(h-1) + N(h-2) + 1 nodes, so every AVL tree of
      height h holds at least Fib(h + 3) - 1 of them. */
  lemma {:induction false} AvlFibonacciBound(t: Tree)
    requires Cached(t) && Balanced(t)
    ensures Ht(t) >= -1
    ensures Fib(Ht(t) + 3) <= Count(t) + 1
  {
    if t.Node? {
      var h := Ht(t);
      AvlFibonacciBound(t.left);
      AvlFibonacciBound(t.right);
      var (tall, short) := if Ht(t.left) >= Ht(t.right) then (t.left, t.right) else (t.right, t.left);
      assert Ht(tall) == h - 1 && Ht(short) >= h - 2;
      FibMonotone(h + 1, Ht(short) + 3);
      assert Fib(h + 3) == Fib(h + 2) + Fib(h + 1);
    }
  }

  function Pow(b: nat, n: nat): nat
  {
    if n == 0 then 1 else b * Pow(b, n - 1)
  }

  /** Fibonacci numbers grow at least by the ratio 8/5, a lower bound for
      the golden ratio. */
  lemma {:induction false} FibGrowth(k: nat)
    ensures Pow(8, k) <= Fib(k + 2) * Pow(5, k)
  {
    if k >= 2 {
      FibGrowth(k - 1);
      FibGrowth(k - 2);
      var p5, p8 := Pow(5, k - 2), Pow(8, k - 2);
      assert Pow(5, k) == 25 * p5 && Pow(5, k - 1) == 5 * p5;
      assert Pow(8, k) == 64 * p8 && Pow(8, k - 1) == 8 * p8;
      GrowthStep(Fib(k + 1), Fib(k), p5, p8);
    } else if k == 1 {
      assert Fib(3) == 2;
    }
  }

  /** The arithmetic of one step of `FibGrowth`: two consecutive bounds with
      ratio 8/5 give the next one, since 5 * 8 + 25 >= 64. */
  lemma GrowthStep(a: nat, b: nat, p5: nat, p8: nat)
    requires 8 * p8 <= a * (5 * p5) && p8 <= b * p5
    ensures 64 * p8 <= (a + b) * (25 * p5)
  {
    assert (a + b) * (25 * p5) == 5 * (a * (5 * p5)) + 25 * (b * p5);
  }

  /** The height bound in closed form: an AVL tree of height h with n nodes
      has (8/5)^(h+1) <= n + 1, that is h < 1.475 * log2(n + 1). */
  lemma AvlHeightBound(t: Tree)
    requires Cached(t) && Balanced(t)
    ensures Ht(t) >= -1
    ensures Pow(8, Ht(t) + 1) <= (Count(t) + 1) * Pow(5, Ht(t) + 1)
  {
    AvlFibonacciBound(t);
    var k := Ht(t) + 1;
    FibGrowth(k);
    BoundChain(Pow(8, k), Fib(k + 2), Count(t) + 1, Pow(5, k));
  }

  lemma BoundChain(x: nat, f: nat, c: nat, p: nat)
    requires x <= f * p && f <= c
    ensures x <= c * p
  {
    assert f * p <= c * p;
  }

  // ---------------------------------------------------------------------
  // Worked examples

  /** Inserting three values in descending order, as 3, 2, 1, rotates right
      once: the middle value ends at the root with the other two as leaves. */
  lemma DescendingInsertExample(a: int, b: int, c: int)
    requires a > b > c
    ensures InsertNode(InsertNode(NewNode(a), b), c) ==
      Node(0, b, 1, NewNode(c), NewNode(a))
  {
    var t := Node(-1, a, 1, NewNode(b), Nil);
    assert InsertNode(NewNode(a), b) == t by {
      assert InsertNode(Nil, b) == NewNode(b);
    }
    var l := Node(-1, b, 1, NewNode(c), Nil);
    assert InsertNode(NewNode(b), c) == l by {
      assert InsertNode(Nil, c) == NewNode(c);
    }
    var u := Node(-2, a, 2, l, Nil);
    assert Update(t.(left := l)) == u;
    assert Balance(u) == RightRotation(u);
    assert Update(u.(left := Nil)) == NewNode(a);
  }

  /** Inserting 1, 3, 2 (smallest, largest, middle) rotates twice: the
      middle value ends at the root with the other two as leaves. */
  lemma ZigZagInsertExample(a: int, b: int, c: int)
    requires a < c < b
    ensures InsertNode(InsertNode(NewNode(a), b), c) ==
      Node(0, c, 1, NewNode(a), NewNode(b))
  {
    var t := Node(1, a, 1, Nil, NewNode(b));
    assert InsertNode(NewNode(a), b) == t by {
      assert InsertNode(Nil, b) == NewNode(b);
    }
    var rt := Node(-1, b, 1, NewNode(c), Nil);
    assert InsertNode(NewNode(b), c) == rt by {
      assert InsertNode(Nil, c) == NewNode(c);
    }
    var u := Node(2, a, 2, Nil, rt);
    assert Update(t.(right := rt)) == u;
    assert Balance(u) == RightLeftCase(u);
    assert Update(rt.(left := Nil)) == NewNode(b);
    var rt' := Node(1, c, 1, Nil, NewNode(b));
    assert RightRotation(rt) == rt';
    var u' := u.(right := rt');
    assert Update(u'.(right := Nil)) == NewNode(a);
    assert LeftRotation(u') == Node(0, c, 1, NewNode(a), NewNode(b));
  }

  /** Builds the tree of inserting x2, x1, x4, x3, x5 (in this order) for
      ascending x1 < ... < x5, as 2, 1, 4, 3, 5. */
  lemma FiveInsertExample(x1: int, x2: int, x3: int, x4: int, x5: int)
    requires x1 < x2 < x3 < x4 < x5
    ensures InsertNode(InsertNode(InsertNode(InsertNode(NewNode(x2), x1), x4), x3), x5) ==
      Node(1, x2, 2, NewNode(x1), Node(0, x4, 1, NewNode(x3), NewNode(x5)))
  {
    var n1, n2, n3, n4, n5 := NewNode(x1), NewNode(x2), NewNode(x3), NewNode(x4), NewNode(x5);
    var t2 := Node(-1, x2, 1, n1, Nil);
    assert InsertNode(n2, x1) == t2 by {
      assert InsertNode(Nil, x1) == n1;
    }
    var t3 := Node(0, x2, 1, n1, n4);
    assert InsertNode(t2, x4) == t3 by {
      assert InsertNode(Nil, x4) == n4;
    }
    var r4 := Node(-1, x4, 1, n3, Nil);
    assert InsertNode(n4, x3) == r4 by {
      assert InsertNode(Nil, x3) == n3;
    }
    var t4 := Node(1, x2, 2, n1, r4);
    assert InsertNode(t3, x3) == t4 by {
      assert Update(t3.(right := r4)) == t4;
    }
    var r5 := Node(0, x4, 1, n3, n5);
    assert InsertNode(r4, x5) == r5 by {
      assert InsertNode(Nil, x5) == n5;
    }
    assert InsertNode(t4, x5) == Node(1, x2, 2, n1, r5) by {
      assert Update(t4.(right := r5)) == Node(1, x2, 2, n1, r5);
    }
  }

  /** Removing the root x2 of that tree: its subtrees are not strictly
      left-taller, so the smallest value on the right, x3, replaces it. */
  lemma RemoveRootExample(x1: int, x2: int, x3: int, x4: int, x5: int)
    requires x1 < x2 < x3 < x4 < x5
    ensures var right := Node(0, x4, 1, NewNode(x3), NewNode(x5));
      Cached(right) &&
      RemoveNode(Node(1, x2, 2, NewNode(x1), right), x2) == Node(1, x3, 2, NewNode(x1), Node(1, x4, 1, Nil, NewNode(x5)))
  {
    var n1, n3, n5 := NewNode(x1), NewNode(x3), NewNode(x5);
    var r5 := Node(0, x4, 1, n3, n5);
    var t5 := Node(1, x2, 2, n1, r5);
    assert MinValue(r5) == x3;
    var r' := Node(1, x4, 1, Nil, n5);
    assert RemoveNode(r5, x3) == r' by {
      assert RemoveNode(n3, x3) == Nil;
      assert Update(r5.(left := Nil)) == r';
    }
    var t' := Node(1, x3, 2, n1, r');
    assert Update(t5.(value := x3, right := r')) == t';
  }

  // ---------------------------------------------------------------------
  // The tree object

  /** Java's `AVLTree`: the root of the node structure and the node count. */
  class AVLTree {
    var root: Tree
    var nodeCount: int

    /** The class invariant: an AVL tree whose count is its number of nodes. */
    ghost predicate Valid()
      reads this
    {
      IsAvl(root) && nodeCount == Count(root)
    }

    /** The values the tree holds. */
    ghost function Contents(): set<int>
      reads this
    {
      Elements(root)
    }

    constructor()
      ensures Valid() && Contents() == {} && root == Nil
    {
      root := Nil;
      nodeCount := 0;
    }

    /** Edges from the root to the furthest leaf; 0 for an empty tree as for
        a single node. */
    function Height(): (h: int)
      reads this
      requires Valid()
      ensures h >= 0
      ensures root.Node? ==> h == Depth(root)
      ensures root.Nil? ==> h == 0
    {
      CachedHeightIsDepth(root);
      if root == Nil then 0 else root.height
    }

    /** The number of values held. */
    function Size(): (n: int)
      reads this
      requires Valid()
      ensures n == |Contents()|
    {
      InorderSorted(root);
      nodeCount
    }

    function IsEmpty(): (b: bool)
      reads this
      requires Valid()
      ensures b <==> Contents() == {}
    {
      InorderSorted(root);
      Size() == 0
    }

    function Contains(value: int): (b: bool)
      reads this
      requires Valid()
      ensures b <==> value in Contents()
    {
      ContainsNode(root, value)
    }

    /** Java's public `insert`: `None` (null) and values already present are
        refused with `false`; anything else is added. */
    method Insert(value: Option<int>) returns (b: bool)
      requires Valid()
      modifies this
      ensures Valid()
      ensures b <==> value.Some? && value.value !in old(Contents())
      ensures b ==> Contents() == old(Contents()) + {value.value}
      ensures !b ==> Contents() == old(Contents()) && root == old(root)
      ensures nodeCount == old(nodeCount) + (if b then 1 else 0)
    {
      if value.None? {
        return false;
      }
      if !ContainsNode(root, value.value) {
        InsertAvl(root, value.value);
        InsertElements(root, value.value);
        InsertCount(root, value.value);
        root := InsertNode(root, value.value);
        nodeCount := nodeCount + 1;
        return true;
      }
      return false;
    }

    /** Java's public `remove`: `None` (null) and absent values are refused
        with `false`; a present value is removed. */
    method Remove(elem: Option<int>) returns (b: bool)
      requires Valid()
      modifies this
      ensures Valid()
      ensures b <==> elem.Some? && elem.value in old(Contents())
      ensures b ==> Contents() == old(Contents()) - {elem.value}
      ensures !b ==> Contents() == old(Contents()) && root == old(root)
      ensures nodeCount == old(nodeCount) - (if b then 1 else 0)
    {
      if elem.None? {
        return false;
      }
      if ContainsNode(root, elem.value) {
        RemoveAvl(root, elem.value);
        InorderSorted(root);
        InorderSorted(RemoveNode(root, elem.value));
        root := RemoveNode(root, elem.value);
        nodeCount := nodeCount - 1;
        return true;
      }
      return false;
    }

    /** Java's `iterator()`: an in-order iterator over the current nodes that
        remembers the current node count. */
    method Iterator() returns (it: AvlIterator)
      requires Valid()
      ensures fresh(it) && it.tree == this && it.expectedNodeCount == nodeCount
      ensures it.Valid() && it.Pending() == Inorder(root)
      ensures StrictlyIncreasing(it.Pending())
      ensures forall x :: x in it.Pending() <==> x in Contents()
      ensures |it.Pending()| == nodeCount
    {
      it := new AvlIterator(this);
      InorderSorted(root);
    }
  }

  /** Inserting a value not present adds exactly one node. */
  lemma InsertCount(node: Tree, value: int)
    requires IsAvl(node) && value !in Elements(node)
    ensures Count(InsertNode(node, value)) == Count(node) + 1
  {
    InsertAvl(node, value);
    InsertElements(node, value);
    InorderSorted(node);
    InorderSorted(InsertNode(node, value));
  }

  // ---------------------------------------------------------------------
  // The in-order iterator

  /** What visiting a stacked node still yields once its left subtree has
      been dealt with: its own value, then its right subtree. */
  ghost function Expanded(t: Tree): seq<int>
  {
    if t.Nil? then [] else [t.value] + Inorder(t.right)
  }

  /** What the stacked nodes yield, top (the end of the sequence) first,
      when none of them is still to be expanded leftwards. */
  ghost function PendingBelow(stack: seq<Tree>): seq<int>
    decreases |stack|
  {
    if stack == [] then [] else Expanded(stack[|stack| - 1]) + PendingBelow(stack[..|stack| - 1])
  }

  /** The values an iterator in this state still yields: the top of the
      stack is yet to be expanded leftwards exactly when `trav` is that node. */
  ghost function PendingOf(stack: seq<Tree>, trav: Tree): seq<int>
  {
    if stack == [] then []
    else
      var top := stack[|stack| - 1];
      (if trav == top then Inorder(top) else Expanded(top)) + PendingBelow(stack[..|stack| - 1])
  }

  /** Pushing the left child of the unexpanded top and moving `trav` to it
      leaves the pending values unchanged. */
  lemma PushLeftKeepsPending(stack: seq<Tree>, trav: Tree)
    requires stack != [] && trav == stack[|stack| - 1] && trav.Node?
    ensures PendingOf(stack + [trav.left], trav.left) == PendingOf(stack, trav)
  {
    var s' := stack + [trav.left];
    assert s'[..|s'| - 1] == stack;
    var rest := PendingBelow(stack[..|stack| - 1]);
    assert PendingOf(s', trav.left) == Inorder(trav.left) + (Expanded(trav) + rest);
    assert PendingOf(stack, trav) == Inorder(trav.left) + [trav.value] + Inorder(trav.right) + rest;
  }

  /** Once `trav` has no left child, whether it marks the top as unexpanded
      makes no difference. */
  lemma NoLeftPending(stack: seq<Tree>, trav: Tree)
    requires trav.Nil? || trav.left.Nil?
    ensures PendingOf(stack, trav) == PendingBelow(stack)
  {
    if stack != [] && trav == stack[|stack| - 1] && trav.Node? {
      assert Inorder(trav) == Expanded(trav);
    }
  }

  /** Popping a node once `trav` has no left child yields that node's value
      first, then its right subtree, then the rest of the stack. */
  lemma PopPending(stack: seq<Tree>, trav: Tree)
    requires stack != [] && stack[|stack| - 1].Node? && (trav.Nil? || trav.left.Nil?)
    ensures PendingOf(stack, trav) ==
      [stack[|stack| - 1].value] + (Inorder(stack[|stack| - 1].right) + PendingBelow(stack[..|stack| - 1]))
  {
    NoLeftPending(stack, trav);
    var node, below := stack[|stack| - 1], stack[..|stack| - 1];
    var right, rest := Inorder(node.right), PendingBelow(below);
    assert PendingBelow(stack) == Expanded(node) + rest;
    assert Expanded(node) == [node.value] + right;
    Assoc([node.value], right, rest);
  }

  lemma Assoc(a: seq<int>, b: seq<int>, c: seq<int>)
    ensures (a + b) + c == a + (b + c)
  {
  }

  /** Pushing a node as the unexpanded top adds its whole subtree in front. */
  lemma PushPending(below: seq<Tree>, t: Tree)
    ensures PendingOf(below + [t], t) == Inorder(t) + PendingBelow(below)
  {
    assert (below + [t])[..|below|] == below;
  }

  /** A stack of nodes yields something. */
  lemma NodesPending(stack: seq<Tree>, trav: Tree)
    requires forall i | 0 <= i < |stack| :: stack[i].Node?
    ensures PendingOf(stack, trav) == [] <==> stack == []
  {
    if stack != [] {
      var top := stack[|stack| - 1];
      assert |Inorder(top)| > 0 && |Expanded(top)| > 0;
    }
  }

  /** The anonymous iterator of `AVLTree.iterator()`. Its stack holds the
      nodes whose own value and right subtree are still to be visited; Java
      pushes and pops at the same end, here the end of the sequence. */
  class AvlIterator {
    const tree: AVLTree
    const expectedNodeCount: int
    /** The tree as it was when the iterator was made. */
    ghost const snapshot: Tree
    var stack: seq<Tree>
    var trav: Tree

    ghost predicate Valid()
      reads this
    {
      expectedNodeCount == Count(snapshot) &&
      (snapshot.Nil? ==> trav.Nil? && (stack == [Nil] || stack == [])) &&
      (snapshot.Node? ==>
        (forall i | 0 <= i < |stack| :: stack[i].Node?) &&
        ((stack != [] && trav == stack[|stack| - 1]) || (trav.Node? && trav.left.Nil?)))
    }

    /** The values still to be returned, in order. */
    ghost function Pending(): seq<int>
      reads this
    {
      PendingOf(stack, trav)
    }

    constructor(t: AVLTree)
      requires t.Valid()
      ensures tree == t && expectedNodeCount == t.nodeCount && snapshot == t.root
      ensures Valid() && Pending() == Inorder(t.root)
    {
      tree := t;
      expectedNodeCount := t.nodeCount;
      snapshot := t.root;
      stack := [t.root];
      trav := t.root;
    }

    /** Java's `hasNext`: fails fast when the node count changed, and
        otherwise tells whether anything is pending. */
    function HasNext(): (r: Result<bool>)
      reads this, tree
      requires Valid() && tree.Valid()
      ensures r.Err? <==> expectedNodeCount != tree.nodeCount
      ensures r.Err? ==> r.error == ConcurrentModification
      ensures r.Ok? ==> (r.value <==> Pending() != [])
    {
      if expectedNodeCount != tree.nodeCount then Err(ConcurrentModification)
      else
        assert Pending() == [] <==> snapshot.Nil? || stack == [] by {
          if snapshot.Node? {
            NodesPending(stack, trav);
          }
        }
        assert tree.root.Nil? <==> snapshot.Nil?;
        Ok(tree.root != Nil && stack != [])
    }

    /** The loop at the start of Java's `next`: while `trav` has a left
        child, push it and move there. */
    method ExpandLeft()
      requires Valid()
      modifies this
      ensures Valid() && Pending() == old(Pending())
      ensures trav.Nil? || trav.left.Nil?
    {
      while trav != Nil && trav.left != Nil
        invariant Valid()
        invariant Pending() == old(Pending())
        decreases trav
      {
        PushLeftKeepsPending(stack, trav);
        stack := stack + [trav.left];
        trav := trav.left;
      }
    }

    /** Java's `next`: fails fast when the node count changed; otherwise
        returns the next value in order. On an exhausted iterator it throws
        `EmptyStackException` from the stack, or `NullPointerException` after
        popping the null root of an empty tree. */
    method Next() returns (r: Result<int>)
      requires Valid()
      modifies this
      ensures Valid()
      ensures expectedNodeCount != tree.nodeCount ==>
        r == Err(ConcurrentModification) && stack == old(stack) && trav == old(trav)
      ensures expectedNodeCount == tree.nodeCount ==>
        (r.Ok? <==> old(Pending()) != []) &&
        (r.Ok? ==> r.value == old(Pending())[0] && Pending() == old(Pending())[1..]) &&
        (r.Err? ==> Pending() == [] && r.error in {EmptyStack, NullPointer})
    {
      if expectedNodeCount != tree.nodeCount {
        return Err(ConcurrentModification);
      }
      ExpandLeft();
      NoLeftPending(stack, trav);
      if stack == [] {
        return Err(EmptyStack);
      }
      var node := stack[|stack| - 1];
      if node == Nil {
        stack := stack[..|stack| - 1];
        return Err(NullPointer);
      }
      var value := Pop();
      return Ok(value);
    }

    /** The end of Java's `next` once the left spine is expanded: the top
        node is popped, its right child (if any) is pushed and becomes
        `trav`, and the node's value is the first pending one. */
    method Pop() returns (value: int)
      requires Valid() && (trav.Nil? || trav.left.Nil?) && stack != [] && stack[|stack| - 1].Node?
      modifies this
      ensures Valid() && old(Pending()) != []
      ensures value == old(Pending())[0] && Pending() == old(Pending())[1..]
    {
      var node := stack[|stack| - 1];
      var below := stack[..|stack| - 1];
      PopPending(stack, trav);
      assert Pending()[1..] == Inorder(node.right) + PendingBelow(below);
      if node.right != Nil {
        PushPending(below, node.right);
        stack, trav := below + [node.right], node.right;
      } else {
        NoLeftPending(below, trav);
        stack := below;
      }
      value := node.value;
    }
  }

  /** The iterator only compares node counts: after an insertion and a
      removal made once the iterator exists, `next` still succeeds and
      returns a value that is no longer in the tree. */
  method UndetectedModification() returns (r: Result<int>, present: bool)
    ensures r == Ok(1) && !present
  {
    var t := new AVLTree();
    var _ := t.Insert(Some(1));
    var it := t.Iterator();
    assert it.Pending() == [1] by {
      assert it.Pending()[0] in it.Pending();
    }
    SwapValue(t, 1, 2);
    r := it.Next();
    present := t.Contains(1);
  }

  /** Inserting `y` and then removing `x`: the tree changes while its node
      count does not. */
  method SwapValue(t: AVLTree, x: int, y: int)
    requires t.Valid() && x in t.Contents() && y !in t.Contents()
    modifies t
    ensures t.Valid() && t.Contents() == old(t.Contents()) + {y} - {x} && t.nodeCount == old(t.nodeCount)
  {
    var added := t.Insert(Some(y));
    var removed := t.Remove(Some(x));
  }
}
