/** The doubly linked list of `DoublyLinkedList.java`: nodes with `prev`
    and `next` pointers between a `head` and a `tail`, and a `size` count.

    The list keeps two ghost fields beside its real ones: `nodes`, the
    nodes from head to tail, and `contents`, their data. `Valid()` ties
    the pointers to them. Java's `null` element is not singled out: the
    element type has Dafny equality, which plays the part of both `==`
    against `null` and `equals`. */
module LinkedLists {
  import opened Common

  /** The position of the first occurrence of x in s, or -1. */
  function FirstIndex<T(==)>(s: seq<T>, x: T): (r: int)
    ensures -1 <= r < |s|
    ensures r == -1 <==> x !in s
    ensures r >= 0 ==> s[r] == x && x !in s[..r]
  {
    if s == [] then -1
    else if s[0] == x then 0
    else
      var k := FirstIndex(s[1..], x);
      if k == -1 then -1
      else
        assert s[..k + 1] == [s[0]] + s[1..][..k];
        k + 1
  }

  /** s without its element at index k. */
  function Without<T>(s: seq<T>, k: int): (r: seq<T>)
    requires 0 <= k < |s|
    ensures |r| == |s| - 1
    ensures forall i :: 0 <= i < k ==> r[i] == s[i]
    ensures forall i :: k <= i < |r| ==> r[i] == s[i + 1]
  {
    s[..k] + s[k + 1..]
  }

  /** Java's private `Node`. */
  class Node<T> {
    var data: T
    var prev: Node?<T>
    var next: Node?<T>

    constructor(data: T, prev: Node?<T>, next: Node?<T>)
      ensures this.data == data && this.prev == prev && this.next == next
    {
      this.data := data;
      this.prev := prev;
      this.next := next;
    }
  }

  class DoublyLinkedList<T(==)> {
    var size: int
    var head: Node?<T>
    var tail: Node?<T>
    /** The nodes from head to tail. */
    ghost var nodes: seq<Node<T>>
    /** The elements from head to tail. */
    ghost var contents: seq<T>

    /** The pointers form one chain through `nodes`, head to tail, with no
        node twice, and `size` counts it. */
    ghost predicate Valid()
      reads this, nodes
    {
      |nodes| == |contents| == size &&
      (forall i :: 0 <= i < |nodes| ==> nodes[i].data == contents[i]) &&
      (forall i, j :: 0 <= i < j < |nodes| ==> nodes[i] != nodes[j]) &&
      (forall i {:trigger nodes[i].next} :: 0 <= i < |nodes| - 1 ==> nodes[i].next == nodes[i + 1]) &&
      (forall i {:trigger nodes[i].prev} :: 1 <= i < |nodes| ==> nodes[i].prev == nodes[i - 1]) &&
      if nodes == [] then head == null && tail == null
      else
        head == nodes[0] && tail == nodes[|nodes| - 1] &&
        head.prev == null && tail.next == null
    }

    constructor()
      ensures Valid() && contents == [] && nodes == []
    {
      size := 0;
      head := null;
      tail := null;
      nodes := [];
      contents := [];
    }

    /** `clear`: walk the list cutting every node's links, then forget
        head and tail. */
    method Clear()
      requires Valid()
      modifies this, nodes
      ensures Valid() && contents == [] && nodes == []
      ensures head == null && tail == null && size == 0
    {
      var trav := head;
      ghost var k := 0;
      while trav != null
        invariant 0 <= k <= |nodes|
        invariant trav == if k < |nodes| then nodes[k] else null
        invariant forall i {:trigger nodes[i].next} :: k <= i < |nodes| - 1 ==> nodes[i].next == nodes[i + 1]
        invariant k < |nodes| ==> nodes[|nodes| - 1].next == null
        modifies nodes
        decreases |nodes| - k
      {
        var next := trav.next;
        trav.prev := null;
        trav.next := null;
        trav := next;
        k := k + 1;
      }
      head := null;
      tail := null;
      size := 0;
      nodes := [];
      contents := [];
    }

    function Size(): (n: int)
      reads this, nodes
      requires Valid()
      ensures n == |contents|
    {
      size
    }

    function IsEmpty(): (b: bool)
      reads this, nodes
      requires Valid()
      ensures b <==> contents == []
    {
      Size() == 0
    }

    /** `add`: the same as `addLast`. */
    method Add(elem: T)
      requires Valid()
      modifies this, nodes
      ensures Valid() && contents == old(contents) + [elem]
      ensures |nodes| >= 1 && fresh(nodes[|nodes| - 1]) && nodes[..|nodes| - 1] == old(nodes)
    {
      AddLast(elem);
    }

    /** `addFirst`: a new node in front of the head. */
    method AddFirst(elem: T)
      requires Valid()
      modifies this, nodes
      ensures Valid() && contents == [elem] + old(contents)
      ensures |nodes| >= 1 && fresh(nodes[0]) && nodes[1..] == old(nodes)
    {
      if IsEmpty() {
        var n := new Node(elem, null, null);
        head, tail := n, n;
      } else {
        head.prev := new Node(elem, null, head);
        head := head.prev;
      }
      size := size + 1;
      nodes := [head] + nodes;
      contents := [elem] + contents;
    }

    /** `addLast`: a new node behind the tail. */
    method AddLast(elem: T)
      requires Valid()
      modifies this, nodes
      ensures Valid() && contents == old(contents) + [elem]
      ensures |nodes| >= 1 && fresh(nodes[|nodes| - 1]) && nodes[..|nodes| - 1] == old(nodes)
    {
      if IsEmpty() {
        var n := new Node(elem, null, null);
        head, tail := n, n;
      } else {
        tail.next := new Node(elem, tail, null);
        tail := tail.next;
      }
      size := size + 1;
      nodes := nodes + [tail];
      contents := contents + [elem];
    }

    /** `peekFirst`: the first element; the empty list throws. */
    function PeekFirst(): (r: Result<T>)
      reads this, nodes
      requires Valid()
      ensures r.Err? <==> contents == []
      ensures r.Err? ==> r.error == EmptyList
      ensures r.Ok? ==> r.value == contents[0]
    {
      if IsEmpty() then Err(EmptyList) else Ok(head.data)
    }

    /** `peekLast`: the last element; the empty list throws. */
    function PeekLast(): (r: Result<T>)
      reads this, nodes
      requires Valid()
      ensures r.Err? <==> contents == []
      ensures r.Err? ==> r.error == EmptyList
      ensures r.Ok? ==> r.value == contents[|contents| - 1]
    {
      if IsEmpty() then Err(EmptyList) else Ok(tail.data)
    }

    /** `removeFirst`: drop the head and return its element; an emptied
        list has neither head nor tail. */
    method RemoveFirst() returns (r: Result<T>)
      requires Valid()
      modifies this, nodes
      ensures Valid()
      ensures old(contents) == [] ==> r == Err(EmptyList) && contents == old(contents)
      ensures old(contents) != [] ==> r == Ok(old(contents)[0]) && contents == old(contents)[1..]
      ensures nodes == if old(nodes) == [] then old(nodes) else old(nodes)[1..]
      ensures contents == [] ==> head == null && tail == null
    {
      if IsEmpty() {
        return Err(EmptyList);
      }
      assert |nodes| > 1 ==> nodes[0].next == nodes[1];
      ghost var n := nodes;
      var data := head.data;
      head := head.next;
      size := size - 1;
      if size == 0 {
        tail := null;
      } else {
        head.prev := null;
      }
      nodes := nodes[1..];
      contents := contents[1..];
      forall i | 1 <= i < |nodes|
        ensures nodes[i].prev == nodes[i - 1]
      {
        assert nodes[i] == n[i + 1] && n[i + 1] != n[1];
      }
      return Ok(data);
    }

    /** `removeLast`: drop the tail and return its element; an emptied list
        has neither head nor tail. */
    method RemoveLast() returns (r: Result<T>)
      requires Valid()
      modifies this, nodes
      ensures Valid()
      ensures old(contents) == [] ==> r == Err(EmptyList) && contents == old(contents)
      ensures old(contents) != [] ==>
        r == Ok(old(contents)[|old(contents)| - 1]) && contents == old(contents)[..|old(contents)| - 1]
      ensures nodes == if old(nodes) == [] then old(nodes) else old(nodes)[..|old(nodes)| - 1]
      ensures contents == [] ==> head == null && tail == null
    {
      if IsEmpty() {
        return Err(EmptyList);
      }
      assert |nodes| > 1 ==> nodes[|nodes| - 1].prev == nodes[|nodes| - 2];
      ghost var n := nodes;
      var data := tail.data;
      tail := tail.prev;
      size := size - 1;
      if size == 0 {
        head := null;
      } else {
        tail.next := null;
      }
      nodes := nodes[..|nodes| - 1];
      contents := contents[..|contents| - 1];
      forall i | 0 <= i < |nodes| - 1
        ensures nodes[i].next == nodes[i + 1]
      {
        assert nodes[i] == n[i] && n[i] != n[|n| - 2];
      }
      return Ok(data);
    }

    /** The private `remove(node)`: the first and last nodes go through
        `removeFirst`/`removeLast`; any other node is bypassed by its
        neighbours and has its own links cut. The node's position k is a
        ghost argument. */
    method RemoveNode(node: Node<T>, ghost k: int) returns (data: T)
      requires Valid() && 0 <= k < |nodes| && nodes[k] == node
      modifies this, nodes
      ensures Valid()
      ensures data == old(contents)[k]
      ensures contents == Without(old(contents), k)
      ensures nodes == Without(old(nodes), k)
    {
      assert k > 0 ==> nodes[k].prev == nodes[k - 1];
      assert k < |nodes| - 1 ==> nodes[k].next == nodes[k + 1];
      if node.prev == null {
        var r := RemoveFirst();
        return r.value;
      }
      if node.next == null {
        var r := RemoveLast();
        return r.value;
      }
      data := Bypass(node, k);
    }

    /** The inner-node case of `remove(node)`: link the neighbours to each
        other and cut the node's own links. */
    method Bypass(node: Node<T>, ghost k: int) returns (data: T)
      requires Valid() && 0 < k < |nodes| - 1 && nodes[k] == node
      modifies this, nodes
      ensures Valid()
      ensures data == old(contents)[k]
      ensures contents == Without(old(contents), k)
      ensures nodes == Without(old(nodes), k)
    {
      ghost var n := nodes;
      var before, after := node.prev, node.next;
      assert before == n[k - 1] && after == n[k + 1];
      after.prev := before;
      before.next := after;
      data := node.data;
      node.prev := null;
      node.next := null;
      size := size - 1;
      nodes := Without(nodes, k);
      contents := Without(contents, k);
      forall i | 0 <= i < |nodes| - 1
        ensures nodes[i].next == nodes[i + 1]
      {
        if i < k - 1 {
          assert nodes[i] == n[i] && n[i] != before && n[i] != node;
        } else if i >= k {
          assert nodes[i] == n[i + 1] && n[i + 1] != before && n[i + 1] != node;
        }
      }
      forall i | 1 <= i < |nodes|
        ensures nodes[i].prev == nodes[i - 1]
      {
        if i < k {
          assert nodes[i] == n[i] && n[i] != after && n[i] != node;
        } else if i > k {
          assert nodes[i] == n[i + 1] && n[i + 1] != after && n[i + 1] != node;
        }
      }
    }

    /** `removeAt(index)` as written. An index outside [0, size) throws.
        Below size/2 the walk goes forward from the head. Otherwise it
        starts at the tail with i = size - 1 and steps backwards while
        *incrementing* i, so unless index = size - 1 it never meets the
        index, falls off the head and dereferences null, leaving the list
        as it was. */
    method RemoveAt(index: int) returns (r: Result<T>)
      requires Valid()
      modifies this, nodes
      ensures Valid()
      ensures (index < 0 || index >= |old(contents)|) ==>
        r == Err(IllegalArgument) && contents == old(contents)
      ensures 0 <= index < |old(contents)| && (index < |old(contents)| / 2 || index == |old(contents)| - 1) ==>
        r == Ok(old(contents)[index]) && contents == Without(old(contents), index)
      ensures |old(contents)| / 2 <= index < |old(contents)| - 1 ==>
        r == Err(NullPointer) && contents == old(contents)
    {
      if index < 0 || index >= size {
        return Err(IllegalArgument);
      }
      var i: int;
      var trav: Node?<T>;
      ghost var k: int;
      if index < size / 2 {
        i, trav, k := 0, head, 0;
        while i != index
          invariant 0 <= i <= index && k == i
          invariant trav == nodes[i]
        {
          trav := trav.next;
          i, k := i + 1, k + 1;
        }
      } else {
        i, trav, k := size - 1, tail, size - 1;
        while i != index
          invariant -1 <= k < |nodes|
          invariant trav == if k >= 0 then nodes[k] else null
          invariant i == 2 * (|nodes| - 1) - k
          invariant k < |nodes| - 1 ==> index < |nodes| - 1
          decreases k + 1
        {
          if trav == null {
            return Err(NullPointer);
          }
          i := i + 1;
          trav := trav.prev;
          k := k - 1;
        }
      }
      var data := RemoveNode(trav, k);
      return Ok(data);
    }

    /** `removeAt(index)` as evidently intended: from the tail side the walk
        counts i down to the index, so every index in [0, size) removes and
        returns its element. */
    method RemoveAtIntended(index: int) returns (r: Result<T>)
      requires Valid()
      modifies this, nodes
      ensures Valid()
      ensures (index < 0 || index >= |old(contents)|) ==>
        r == Err(IllegalArgument) && contents == old(contents)
      ensures 0 <= index < |old(contents)| ==>
        r == Ok(old(contents)[index]) && contents == Without(old(contents), index)
    {
      if index < 0 || index >= size {
        return Err(IllegalArgument);
      }
      var i: int;
      var trav: Node?<T>;
      if index < size / 2 {
        i, trav := 0, head;
        while i != index
          invariant 0 <= i <= index
          invariant trav == nodes[i]
        {
          trav := trav.next;
          i := i + 1;
        }
      } else {
        i, trav := size - 1, tail;
        while i != index
          invariant index <= i < |nodes|
          invariant trav == nodes[i]
        {
          trav := trav.prev;
          i := i - 1;
        }
      }
      var data := RemoveNode(trav, i);
      return Ok(data);
    }

    /** `remove(obj)`: unlink the first node holding obj and report whether
        there was one. */
    method Remove(obj: T) returns (b: bool)
      requires Valid()
      modifies this, nodes
      ensures Valid()
      ensures b <==> obj in old(contents)
      ensures b ==> contents == Without(old(contents), FirstIndex(old(contents), obj))
      ensures !b ==> contents == old(contents)
    {
      var trav := head;
      ghost var k := 0;
      while trav != null
        invariant 0 <= k <= |nodes|
        invariant trav == if k < |nodes| then nodes[k] else null
        invariant obj !in contents[..k]
        decreases |nodes| - k
      {
        if trav.data == obj {
          assert FirstIndex(contents, obj) == k by {
            FirstIndexAt(contents, obj, k);
          }
          var _ := RemoveNode(trav, k);
          return true;
        }
        assert contents[..k + 1] == contents[..k] + [contents[k]];
        trav := trav.next;
        k := k + 1;
      }
      assert contents[..k] == contents;
      return false;
    }

    /** `indexOf(obj)`: the position of the first node holding obj, or
        -1. */
    method IndexOf(obj: T) returns (index: int)
      requires Valid()
      ensures index == FirstIndex(contents, obj)
      ensures index == -1 <==> obj !in contents
      ensures index >= 0 ==> contents[index] == obj && obj !in contents[..index]
    {
      var trav := head;
      index := 0;
      while trav != null
        invariant 0 <= index <= |nodes|
        invariant trav == if index < |nodes| then nodes[index] else null
        invariant obj !in contents[..index]
        decreases |nodes| - index
      {
        if trav.data == obj {
          FirstIndexAt(contents, obj, index);
          return index;
        }
        assert contents[..index + 1] == contents[..index] + [contents[index]];
        trav := trav.next;
        index := index + 1;
      }
      assert contents[..index] == contents;
      return -1;
    }

    /** `contains(obj)`: `indexOf(obj) != -1`. */
    method Contains(obj: T) returns (b: bool)
      requires Valid()
      ensures b <==> obj in contents
    {
      var i := IndexOf(obj);
      return i != -1;
    }

    /** `iterator()`: a cursor starting at the head. */
    method Iterator() returns (it: ListIterator<T>)
      requires Valid()
      ensures fresh(it) && it.list == this && it.Valid()
      ensures it.Remaining() == contents
    {
      it := new ListIterator(this);
    }
  }

  /** The first index holding x, once nothing before k holds it and s[k]
      does, is k. */
  lemma {:induction false} FirstIndexAt<T>(s: seq<T>, x: T, k: int)
    requires 0 <= k < |s| && s[k] == x && x !in s[..k]
    ensures FirstIndex(s, x) == k
  {
    if k > 0 {
      assert s[..k][0] == s[0];
      assert s[1..][..k - 1] == s[1..k] && s[..k] == [s[0]] + s[1..k];
      FirstIndexAt(s[1..], x, k - 1);
    }
  }

  /** The anonymous iterator of `iterator()`: a cursor `trav` over the
      live nodes. The ghost `index` is the cursor's position; the list is
      not to change while the iterator is used. */
  class ListIterator<T(==)> {
    ghost const list: DoublyLinkedList<T>
    var trav: Node?<T>
    ghost var index: int

    ghost predicate Valid()
      reads this, list, list.nodes
    {
      list.Valid() && 0 <= index <= |list.nodes| &&
      trav == if index < |list.nodes| then list.nodes[index] else null
    }

    /** The elements still to come. */
    ghost function Remaining(): seq<T>
      reads this, list, list.nodes
      requires Valid()
    {
      list.contents[index..]
    }

    constructor(list: DoublyLinkedList<T>)
      requires list.Valid()
      ensures this.list == list && Valid() && index == 0
    {
      this.list := list;
      trav := list.head;
      index := 0;
    }

    /** `hasNext`: the cursor is on a node. */
    function HasNext(): (b: bool)
      reads this, list, list.nodes
      requires Valid()
      ensures b <==> Remaining() != []
    {
      trav != null
    }

    /** `next`: the cursor's element, moving on; past the tail it
        dereferences null. */
    method Next() returns (r: Result<T>)
      requires Valid()
      modifies this
      ensures Valid()
      ensures old(Remaining()) == [] ==> r == Err(NullPointer) && Remaining() == []
      ensures old(Remaining()) != [] ==> r == Ok(old(Remaining())[0]) && Remaining() == old(Remaining())[1..]
    {
      if trav == null {
        return Err(NullPointer);
      }
      var data := trav.data;
      trav := trav.next;
      index := index + 1;
      return Ok(data);
    }
  }

  /** `removeAt(2)` on a list of four elements walks from the tail with an
      index counting up from 3, never meets 2 and falls off the head. */
  method RemoveAtTailSideFails<T(==)>(a: T, b: T, c: T, d: T) returns (r: Result<T>)
    ensures r == Err(NullPointer)
  {
    var list := new DoublyLinkedList<T>();
    list.Add(a);
    assert forall n :: n in list.nodes ==> fresh(n);
    list.Add(b);
    assert forall n :: n in list.nodes ==> fresh(n);
    list.Add(c);
    assert forall n :: n in list.nodes ==> fresh(n);
    list.Add(d);
    assert forall n :: n in list.nodes ==> fresh(n);
    r := list.RemoveAt(2);
  }
}
