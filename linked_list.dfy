/**
 * The generic singly linked list of src/singly_linked_list.c: a list record
 * with a head node, a tail node, a size counter and an iteration cursor,
 * over a chain of nodes that every mutator relinks in place.
 *
 * The ghost sequence `nodes` is the chain as the list sees it, `contents`
 * the elements it holds.  `Chain()` is the shape every operation keeps;
 * `Valid()` adds that `tail` is the last node, which two operations of the
 * code fail to keep (see Insert and Remove).
 */
module SinglyLinkedList {
  import opened ListSpec

  /** One link of the chain: an element and the next node, or null after the tail. */
  class Node<T> {
    var elem: T
    var next: Node?<T>

    /** node_create */
    constructor (next: Node?<T>, elem: T)
      ensures this.elem == elem && this.next == next
    {
      this.elem := elem;
      this.next := next;
    }
  }

  class LinkedList<T> {
    var head: Node?<T>
    var tail: Node?<T>
    var size: int
    var current: Node?<T>

    /** The chain from `head`, node by node. */
    ghost var nodes: seq<Node<T>>
    /** The elements of the chain, in order. */
    ghost var contents: seq<T>
    /** The index in `nodes` of the iteration cursor `current`. */
    ghost var cursor: nat

    /** The node at index `i` of the chain, or null past either end. */
    ghost function NodeAt(i: int): Node?<T>
      reads this
    {
      if 0 <= i < |nodes| then nodes[i] else null
    }

    /**
     * `head` starts the chain, each node links to the next, the last one to
     * null, each node holds the matching element, and `size` counts them.
     */
    ghost predicate Chain()
      reads this, nodes
    {
      && size == |nodes| == |contents|
      && head == NodeAt(0)
      && (forall i {:trigger nodes[i].next} :: 0 <= i < |nodes| ==> nodes[i].next == NodeAt(i + 1))
      && (forall i :: 0 <= i < |nodes| ==> nodes[i].elem == contents[i])
    }

    /** The list invariant: a well-formed chain whose last node is `tail` (null when empty). */
    ghost predicate Valid()
      reads this, nodes
    {
      Chain() && tail == NodeAt(|nodes| - 1)
    }

    /** The position of the iteration cursor is known: `current` is the node at `cursor`. */
    ghost predicate Iterating()
      reads this
    {
      cursor <= |nodes| && current == NodeAt(cursor)
    }

    /** Two nodes at different indexes of a chain ending in null are different nodes. */
    lemma {:induction false} NoRepeat(i: int, j: int)
      requires Chain() && 0 <= i < j < |nodes|
      ensures nodes[i] != nodes[j]
      decreases |nodes| - j
    {
      assert nodes[i].next == NodeAt(i + 1) && nodes[j].next == NodeAt(j + 1);
      if j + 1 < |nodes| {
        NoRepeat(i + 1, j + 1);
      }
    }

    /** A chain ending in null has no cycle: its nodes are pairwise distinct. */
    lemma NodesDistinct()
      requires Chain()
      ensures forall i, j :: 0 <= i < j < |nodes| ==> nodes[i] != nodes[j]
    {
      forall i, j | 0 <= i < j < |nodes|
        ensures nodes[i] != nodes[j]
      {
        NoRepeat(i, j);
      }
    }

    /** The node at position `i` occurs nowhere else in the chain. */
    lemma OnlyAt(i: int)
      requires Chain() && 0 <= i < |nodes|
      ensures forall k :: 0 <= k < |nodes| && k != i ==> nodes[k] != nodes[i]
    {
      NodesDistinct();
    }

    /** list_create.  The cursor `current` is left as it is: the code never sets it. */
    constructor ()
      ensures Valid() && contents == [] && nodes == []
      ensures head == null && tail == null && size == 0
    {
      head := null;
      tail := null;
      size := 0;
      nodes := [];
      contents := [];
    }

    /** list_is_empty */
    function IsEmpty(): (b: bool)
      reads this, nodes
      requires Chain()
      ensures b <==> contents == []
    {
      size == 0
    }

    /** list_size */
    function Size(): (n: int)
      reads this, nodes
      requires Chain()
      ensures n == |contents|
    {
      size
    }

    /** list_get_first: NULL exactly when the list is empty. */
    method GetFirst() returns (r: Option<T>)
      requires Chain()
      ensures r == if contents == [] then None else Some(contents[0])
    {
      if IsEmpty() {
        return None;
      }
      return Some(head.elem);
    }

    /**
     * list_get_last: NULL exactly when the list is empty, otherwise the
     * element of `tail`, which is the last element while Valid() holds.
     */
    method GetLast() returns (r: Option<T>)
      requires Chain() && (contents != [] ==> tail != null)
      ensures Valid() ==> r == if contents == [] then None else Some(contents[|contents| - 1])
      ensures contents != [] ==> r == Some(tail.elem)
      ensures contents == [] ==> r == None
    {
      if IsEmpty() {
        return None;
      }
      return Some(tail.elem);
    }

    /** list_get: walks from the head; NULL outside 0 .. size-1. */
    method Get(position: int) returns (r: Option<T>)
      requires Chain()
      ensures r == if 0 <= position < |contents| then Some(contents[position]) else None
    {
      if position > Size() - 1 || position < 0 {
        return None;
      }
      var node := head;
      var i := 0;
      while i < position
        invariant 0 <= i <= position && node == NodeAt(i)
      {
        node := node.next;
        i := i + 1;
      }
      return Some(node.elem);
    }

    /** list_find: the first position whose element `equal(element, _)` accepts, or -1. */
    method Find(equal: (T, T) -> bool, element: T) returns (i: int)
      requires Chain()
      ensures i == FirstIndex(contents, KeyFirst(equal, element))
    {
      var node := head;
      i := 0;
      while node != null
        invariant 0 <= i <= |nodes| && node == NodeAt(i)
        invariant forall j :: 0 <= j < i ==> !equal(element, contents[j])
        decreases |nodes| - i
      {
        if equal(element, node.elem) {
          return;
        }
        node := node.next;
        i := i + 1;
      }
      return -1;
    }

    /** list_count_all: how many elements `equal(element, _)` accepts. */
    method CountAll(equal: (T, T) -> bool, element: T) returns (n: int)
      requires Chain()
      ensures n == Count(contents, KeyFirst(equal, element))
    {
      var node := head;
      n := 0;
      ghost var i := 0;
      while node != null
        invariant 0 <= i <= |nodes| && node == NodeAt(i)
        invariant n == Count(contents[..i], KeyFirst(equal, element))
        decreases |nodes| - i
      {
        assert contents[..i + 1][..i] == contents[..i];
        if equal(element, node.elem) {
          n := n + 1;
        }
        node := node.next;
        i := i + 1;
      }
      assert contents[..i] == contents;
    }

    /** list_to_array: the caller's buffer receives the elements in order. */
    method ToArray(outArray: array<T>)
      requires Chain()
      requires outArray.Length >= size
      modifies outArray
      ensures outArray[..size] == contents
      ensures outArray[size..] == old(outArray[size..])
    {
      var node := head;
      var i := 0;
      while node != null
        invariant 0 <= i <= |nodes| && node == NodeAt(i)
        invariant outArray[..i] == contents[..i]
        invariant outArray[i..] == old(outArray[i..])
        decreases |nodes| - i
      {
        outArray[i] := node.elem;
        node := node.next;
        i := i + 1;
      }
    }

    /**
     * list_wipe: walks the chain from head to tail, freeing each node; the
     * result is the elements handed to free_element, in order, when one is given.
     */
    method Wipe() returns (freed: seq<T>)
      requires Chain()
      ensures freed == contents
    {
      var node := head;
      freed := [];
      ghost var i := 0;
      while node != null
        invariant 0 <= i <= |nodes| && node == NodeAt(i)
        invariant freed == contents[..i]
        decreases |nodes| - i
      {
        freed := freed + [node.elem];
        node := node.next;
        i := i + 1;
      }
    }

    /** list_destroy: the nodes are wiped; releasing the record itself is not modelled. */
    method Destroy() returns (freed: seq<T>)
      requires Chain()
      ensures freed == contents
    {
      freed := Wipe();
    }

    /** list_make_empty: the nodes are wiped and the record reset to the empty list. */
    method MakeEmpty() returns (freed: seq<T>)
      requires Chain()
      modifies this
      ensures Valid() && contents == []
      ensures head == null && tail == null && size == 0
      ensures freed == old(contents)
      ensures current == old(current) && cursor == old(cursor)
    {
      freed := Wipe();
      head := null;
      tail := null;
      size := 0;
      nodes := [];
      contents := [];
    }

    /** list_insert_first: `tail` is only written, when the list was empty. */
    method InsertFirst(element: T)
      requires Chain()
      modifies this
      ensures Chain() && (old(Valid()) || old(contents) == [] ==> Valid())
      ensures contents == [element] + old(contents)
      ensures |nodes| == |old(nodes)| + 1 && nodes[1..] == old(nodes) && fresh(nodes[0])
      ensures tail == if old(contents) == [] then head else old(tail)
      ensures current == old(current) && cursor == old(cursor)
    {
      var node := new Node(head, element);
      head := node;
      if size == 0 {
        tail := node;
      }
      size := size + 1;
      nodes := [node] + nodes;
      contents := [element] + contents;
      forall i {:trigger nodes[i].next} {:trigger nodes[i].elem} | 0 <= i < |nodes|
        ensures nodes[i].next == NodeAt(i + 1) && nodes[i].elem == contents[i]
      {
        if i > 0 {
          assert nodes[i] == old(nodes)[i - 1] && contents[i] == old(contents)[i - 1];
        }
      }
    }

    /** list_insert_last */
    method InsertLast(element: T)
      requires Valid()
      modifies this, nodes
      ensures Valid()
      ensures contents == old(contents) + [element]
      ensures nodes == old(nodes) + [tail] && fresh(tail)
      ensures old(contents) == [] ==> head == tail
      ensures current == old(current) && cursor == old(cursor)
    {
      var node := new Node(null, element);
      if size == 0 {
        head := node;
      } else {
        OnlyAt(|nodes| - 1);
        tail.next := node;
      }
      tail := node;
      size := size + 1;
      nodes := nodes + [node];
      contents := contents + [element];
    }

    /** The relinking step of list_insert: a new node goes after `previousNode`, the node at index `i`. */
    method LinkAfter(i: nat, previousNode: Node<T>, element: T)
      requires Chain() && i < |nodes| && previousNode == nodes[i]
      modifies this, nodes
      ensures Chain()
      ensures |nodes| == |old(nodes)| + 1 && fresh(nodes[i + 1])
      ensures nodes == old(nodes)[..i + 1] + [nodes[i + 1]] + old(nodes)[i + 1..]
      ensures contents == old(contents)[..i + 1] + [element] + old(contents)[i + 1..]
      ensures head == old(head) && tail == old(tail)
      ensures current == old(current) && cursor == old(cursor)
    {
      OnlyAt(i);
      var node := new Node(previousNode.next, element);
      previousNode.next := node;
      size := size + 1;
      nodes := nodes[..i + 1] + [node] + nodes[i + 1..];
      contents := contents[..i + 1] + [element] + contents[i + 1..];
      forall j {:trigger nodes[j].next} {:trigger nodes[j].elem} | 0 <= j < |nodes|
        ensures nodes[j].next == NodeAt(j + 1) && nodes[j].elem == contents[j]
      {
        if j < i + 1 {
          assert nodes[j] == old(nodes)[j] && contents[j] == old(contents)[j];
        } else if j > i + 1 {
          assert nodes[j] == old(nodes)[j - 1] && contents[j] == old(contents)[j - 1];
        }
      }
    }

    /**
     * list_insert.  Positions outside 0 .. size are ignored, 0 and size go to
     * InsertFirst and InsertLast; otherwise the walk to the predecessor starts
     * at the head's successor, so position 1 inserts at index 2 (see
     * InsertIndex).  On a 2-element list that means after the tail, and
     * `tail` is not updated: the chain stays well formed but Valid() is lost.
     */
    method Insert(element: T, position: int)
      requires Valid()
      modifies this, nodes
      ensures Chain()
      ensures contents == Inserted(old(contents), element, position)
      ensures InsertIndex(|old(nodes)|, position) == -1 ==> nodes == old(nodes)
      ensures var k := InsertIndex(|old(nodes)|, position);
        k != -1 ==> |nodes| == |old(nodes)| + 1 && nodes == InsertAt(old(nodes), nodes[k], k) && fresh(nodes[k])
      ensures Valid() <==> !(position == 1 && old(size) == 2)
      ensures 0 < position < old(size) ==> tail == old(tail)
      ensures current == old(current) && cursor == old(cursor)
    {
      if position < 0 || position > Size() {
        return;
      }
      if position == 0 {
        InsertFirst(element);
        assert contents == InsertAt(old(contents), element, 0);
        assert nodes == InsertAt(old(nodes), nodes[0], 0);
        return;
      }
      if position == Size() {
        InsertLast(element);
        assert contents == InsertAt(old(contents), element, position);
        assert nodes == InsertAt(old(nodes), nodes[position], position);
        return;
      }
      InsertWalk(element, position);
    }

    /**
     * The general path of list_insert: the predecessor is found by a walk
     * that starts at the head's successor, and the new node is linked after
     * it; `tail` is not touched.
     */
    method InsertWalk(element: T, position: int)
      requires Valid() && 0 < position < |nodes|
      modifies this, nodes
      ensures Chain()
      ensures var k := InsertIndex(|old(nodes)|, position);
        && contents == InsertAt(old(contents), element, k)
        && |nodes| == |old(nodes)| + 1 && nodes == InsertAt(old(nodes), nodes[k], k) && fresh(nodes[k])
      ensures tail == old(tail) && (Valid() <==> !(position == 1 && |old(nodes)| == 2))
      ensures current == old(current) && cursor == old(cursor)
    {
      var previousNode := head.next;
      var i := 1;
      while i < position - 1
        invariant 1 <= i <= (if position == 1 then 1 else position - 1) < |nodes|
        invariant previousNode == nodes[i]
      {
        previousNode := previousNode.next;
        i := i + 1;
      }
      LinkAfter(i, previousNode, element);
      assert i + 1 == InsertIndex(|old(contents)|, position);
      if i + 1 == |old(nodes)| {
        assert nodes[|nodes| - 1] == nodes[i + 1] != tail;
      } else {
        assert nodes[|nodes| - 1] == old(nodes)[|old(nodes)| - 1];
      }
    }

    /**
     * list_remove_first: NULL on the empty list; `tail` is only written,
     * to null when the list empties.
     */
    method RemoveFirst() returns (r: Option<T>)
      requires Chain()
      modifies this
      ensures Chain() && (old(Valid()) ==> Valid())
      ensures old(contents) == [] ==> r == None && contents == old(contents) && nodes == old(nodes)
      ensures old(contents) != [] ==>
        r == Some(old(contents)[0]) && contents == old(contents)[1..] && nodes == old(nodes)[1..]
      ensures tail == if |old(contents)| == 1 then null else old(tail)
      ensures current == old(current) && cursor == old(cursor)
    {
      if size == 0 {
        return None;
      }
      var node := head;
      var element := node.elem;
      head := node.next;
      size := size - 1;
      if size == 0 {
        tail := null;
      }
      nodes := nodes[1..];
      contents := contents[1..];
      return Some(element);
    }

    /**
     * list_remove_last: NULL on the empty list; a single element goes through
     * RemoveFirst; otherwise the penultimate node becomes the tail.
     */
    method RemoveLast() returns (r: Option<T>)
      requires Valid()
      modifies this, nodes
      ensures Valid()
      ensures old(contents) == [] ==> r == None && contents == old(contents)
      ensures old(contents) == [] ==> nodes == old(nodes)
      ensures old(contents) != [] ==>
        r == Some(old(contents)[|old(contents)| - 1]) && contents == old(contents)[..|old(contents)| - 1]
        && nodes == old(nodes)[..|old(nodes)| - 1]
      ensures |old(nodes)| >= 2 ==> tail == old(nodes)[|old(nodes)| - 2]
      ensures current == old(current) && cursor == old(cursor)
    {
      if size == 0 {
        return None;
      }
      if head.next == null {
        r := RemoveFirst();
        return;
      }
      var node := head;
      var element := tail.elem;
      ghost var i := 0;
      while node.next.next != null
        invariant 0 <= i <= |nodes| - 2 && node == nodes[i]
        decreases |nodes| - i
      {
        node := node.next;
        i := i + 1;
      }
      OnlyAt(i);
      tail := node;
      node.next := null;
      size := size - 1;
      nodes := nodes[..|nodes| - 1];
      contents := contents[..|contents| - 1];
      return Some(element);
    }

    /**
     * The relinking step of list_remove, list_remove_all and
     * list_remove_duplicates: `node`, at index `j`, leaves the chain, its
     * predecessor (or `head` when there is none) taking its successor.  The
     * callers fix `tail` themselves, or fail to.
     */
    method Unlink(ghost j: nat, previousNode: Node?<T>, node: Node<T>)
      requires Chain() && j < |nodes| && node == nodes[j] && previousNode == NodeAt(j - 1)
      modifies this, previousNode
      ensures Chain() && |nodes| == |old(nodes)| - 1
      ensures forall k :: 0 <= k < j ==> nodes[k] == old(nodes)[k]
      ensures forall k :: j <= k < |nodes| ==> nodes[k] == old(nodes)[k + 1]
      ensures contents == RemoveAt(old(contents), j)
      ensures node.next == old(node.next) == NodeAt(j)
      ensures tail == old(tail)
      ensures current == old(current) && cursor == old(cursor)
    {
      if previousNode != null {
        UnlinkAfter(j, previousNode, node);
      } else {
        UnlinkHead(node);
      }
    }

    /** `Unlink` of the first node: the head moves on to its successor. */
    method UnlinkHead(node: Node<T>)
      requires Chain() && 0 < |nodes| && node == nodes[0]
      modifies this
      ensures Chain() && |nodes| == |old(nodes)| - 1
      ensures forall k :: 0 <= k < |nodes| ==> nodes[k] == old(nodes)[k + 1]
      ensures contents == RemoveAt(old(contents), 0)
      ensures node.next == old(node.next) == NodeAt(0)
      ensures tail == old(tail)
      ensures current == old(current) && cursor == old(cursor)
    {
      head := node.next;
      size := size - 1;
      nodes := nodes[1..];
      contents := contents[1..];
      assert old(contents)[..0] + contents == contents;
      forall k {:trigger nodes[k].next} {:trigger nodes[k].elem} | 0 <= k < |nodes|
        ensures nodes[k].next == NodeAt(k + 1) && nodes[k].elem == contents[k]
      {
        assert nodes[k] == old(nodes)[k + 1] && contents[k] == old(contents)[k + 1];
      }
    }

    /** `Unlink` of a node after `previousNode`: the predecessor is relinked past it. */
    method UnlinkAfter(ghost j: nat, previousNode: Node<T>, node: Node<T>)
      requires Chain() && 0 < j < |nodes| && node == nodes[j] && previousNode == nodes[j - 1]
      modifies this, previousNode
      ensures Chain() && |nodes| == |old(nodes)| - 1
      ensures forall k :: 0 <= k < j ==> nodes[k] == old(nodes)[k]
      ensures forall k :: j <= k < |nodes| ==> nodes[k] == old(nodes)[k + 1]
      ensures contents == RemoveAt(old(contents), j)
      ensures node.next == old(node.next) == NodeAt(j) && previousNode.elem == old(previousNode.elem)
      ensures head == old(head) && tail == old(tail)
      ensures current == old(current) && cursor == old(cursor)
    {
      OnlyAt(j - 1);
      previousNode.next := node.next;
      size := size - 1;
      nodes := nodes[..j] + nodes[j + 1..];
      contents := contents[..j] + contents[j + 1..];
      forall k {:trigger nodes[k].next} {:trigger nodes[k].elem} | 0 <= k < |nodes|
        ensures nodes[k].next == NodeAt(k + 1) && nodes[k].elem == contents[k]
      {
        if k < j {
          assert nodes[k] == old(nodes)[k] && contents[k] == old(contents)[k];
        } else {
          assert nodes[k] == old(nodes)[k + 1] && contents[k] == old(contents)[k + 1];
        }
      }
      forall k | j <= k < |nodes|
        ensures nodes[k] == old(nodes)[k + 1]
      {
        assert nodes[k] == old(nodes)[j + 1..][k - j];
      }
    }

    /**
     * The removal step of list_remove_all and list_remove_duplicates: the
     * node leaves the chain, and when it was the last node its predecessor
     * becomes the tail, which repairs a stale `tail` as well.
     */
    method UnlinkAndRetail(ghost j: nat, previousNode: Node?<T>, node: Node<T>)
      requires Chain() && j < |nodes| && node == nodes[j] && previousNode == NodeAt(j - 1)
      modifies this, previousNode
      ensures Chain() && nodes == RemoveAt(old(nodes), j)
      ensures old(Valid()) || j == |old(nodes)| - 1 ==> Valid()
      ensures tail == if j == |old(nodes)| - 1 then previousNode else old(tail)
      ensures forall x :: x in nodes ==> x in old(nodes)
      ensures contents == RemoveAt(old(contents), j)
      ensures node.next == NodeAt(j) && previousNode == NodeAt(j - 1)
      ensures current == old(current) && cursor == old(cursor)
    {
      Unlink(j, previousNode, node);
      if node.next == null {
        tail := previousNode;
      }
    }

    /**
     * The general path of list_remove: the successor of `previousNode`, at
     * index `j`, is unlinked and its element returned.  `tail` is not
     * touched, so it goes stale exactly when the removed node was the last.
     */
    method UnlinkNext(ghost j: nat, previousNode: Node<T>) returns (element: T)
      requires Chain() && 0 < j < |nodes| && previousNode == nodes[j - 1]
      modifies this, previousNode
      ensures Chain() && contents == RemoveAt(old(contents), j) && nodes == RemoveAt(old(nodes), j)
      ensures element == old(contents)[j] && previousNode.elem == old(previousNode.elem)
      ensures tail == old(tail) && (old(Valid()) ==> (Valid() <==> j != |old(nodes)| - 1))
      ensures current == old(current) && cursor == old(cursor)
    {
      OnlyAt(|nodes| - 1);
      var node := previousNode.next;
      UnlinkAfter(j, previousNode, node);
      element := node.elem;
      if j == |old(nodes)| - 1 {
        assert |nodes| == 0 || nodes[|nodes| - 1] == old(nodes)[|nodes| - 1];
      } else {
        assert nodes[|nodes| - 1] == old(nodes)[|old(nodes)| - 1];
      }
    }

    /**
     * list_remove.  NULL outside 0 .. size-1; position 0 or a 1-element list
     * go to RemoveFirst; otherwise the walk to the predecessor starts at the
     * head's successor, so position 1 removes index 2 (see RemoveIndex), and
     * on a 2-element list it dereferences NULL, which the precondition
     * excludes.  Removing the last node leaves `tail` on the removed node.
     * `tail` is never read, so a stale tail does no harm here.
     */
    method Remove(position: int) returns (r: Option<T>)
      requires Chain()
      requires !(position == 1 && size == 2)
      modifies this, nodes
      ensures Chain()
      ensures var k := RemoveIndex(|old(contents)|, position);
        && (k == -1 ==> r == None && contents == old(contents) && nodes == old(nodes))
        && (k != -1 ==> r == Some(old(contents)[k]) && contents == RemoveAt(old(contents), k)
                        && nodes == RemoveAt(old(nodes), k))
      ensures var k := RemoveIndex(|old(contents)|, position);
        old(Valid()) ==> (Valid() <==> !(2 <= k == |old(contents)| - 1))
      ensures tail == if RemoveIndex(|old(contents)|, position) != -1 && |old(contents)| == 1 then null
        else old(tail)
      ensures forall i :: 0 <= i < |old(nodes)| ==> old(nodes)[i].elem == old(nodes[i].elem)
      ensures current == old(current) && cursor == old(cursor)
    {
      if position < 0 || position > Size() - 1 || IsEmpty() {
        return None;
      }
      if position == 0 || head.next == null {
        r := RemoveFirst();
        assert nodes == RemoveAt(old(nodes), 0) && contents == RemoveAt(old(contents), 0);
        return;
      }
      var previousNode := head.next;
      var i := 1;
      while i < position - 1
        invariant 1 <= i <= (if position == 1 then 1 else position - 1) < |nodes|
        invariant previousNode == nodes[i]
      {
        previousNode := previousNode.next;
        i := i + 1;
      }
      var element := UnlinkNext(i + 1, previousNode);
      assert i + 1 == RemoveIndex(|old(contents)|, position);
      return Some(element);
    }

    /**
     * list_insert as its header describes it: the new element lands at index
     * `position` for every position in 0 .. size, which a walk to the
     * predecessor that starts at the head achieves.
     */
    method InsertAtIndex(element: T, position: int)
      requires Valid()
      modifies this, nodes
      ensures Valid()
      ensures contents == if 0 <= position <= |old(contents)| then InsertAt(old(contents), element, position)
        else old(contents)
      ensures !(0 <= position <= |old(nodes)|) ==> nodes == old(nodes)
      ensures 0 <= position <= |old(nodes)| ==>
        |nodes| == |old(nodes)| + 1 && nodes == InsertAt(old(nodes), nodes[position], position) && fresh(nodes[position])
      ensures current == old(current) && cursor == old(cursor)
    {
      if position < 0 || position > Size() {
        return;
      }
      if position == 0 {
        InsertFirst(element);
        assert contents == InsertAt(old(contents), element, 0);
        assert nodes == InsertAt(old(nodes), nodes[0], 0);
        return;
      }
      if position == Size() {
        InsertLast(element);
        assert contents == InsertAt(old(contents), element, position);
        assert nodes == InsertAt(old(nodes), nodes[position], position);
        return;
      }
      var previousNode := head;
      var i := 0;
      while i < position - 1
        invariant 0 <= i <= position - 1 && previousNode == nodes[i]
      {
        previousNode := previousNode.next;
        i := i + 1;
      }
      LinkAfter(i, previousNode, element);
    }

    /**
     * list_remove as its header describes it: the element at index
     * `position` goes for every position in 0 .. size-1, its predecessor
     * found by a walk from the head, and the tail follows when the last
     * element goes.
     */
    method RemoveAtIndex(position: int) returns (r: Option<T>)
      requires Valid()
      modifies this, nodes
      ensures Valid()
      ensures !(0 <= position < |old(contents)|) ==> r == None && contents == old(contents) && nodes == old(nodes)
      ensures 0 <= position < |old(contents)| ==>
        r == Some(old(contents)[position]) && contents == RemoveAt(old(contents), position)
        && nodes == RemoveAt(old(nodes), position)
      ensures current == old(current) && cursor == old(cursor)
    {
      if position < 0 || position > Size() - 1 {
        return None;
      }
      if position == 0 {
        r := RemoveFirst();
        assert nodes == RemoveAt(old(nodes), 0);
        return;
      }
      var previousNode := head;
      var i := 0;
      while i < position - 1
        invariant 0 <= i <= position - 1 && previousNode == nodes[i]
      {
        previousNode := previousNode.next;
        i := i + 1;
      }
      var node := previousNode.next;
      UnlinkAndRetail(position, previousNode, node);
      return Some(node.elem);
    }

    /**
     * The state of a one-pass scan that drops the elements matching `m` from
     * a list that held the nodes `n0` with the elements `s0`: the first `i`
     * elements have been scanned and their survivors kept, `node` is the next
     * one to look at, at index `j` of the chain, and `previousNode` the node
     * before it.
     */
    ghost predicate Scan(m: T -> bool, s0: seq<T>, n0: seq<Node<T>>, v0: bool, i: int, j: int,
                         node: Node?<T>, previousNode: Node?<T>)
      reads this, nodes
    {
      && 0 <= i <= |s0| == |n0| && j == |Filtered(s0[..i], Not(m))|
      && contents == Filtered(s0[..i], Not(m)) + s0[i..]
      && Chain() && (v0 ==> Valid()) && (forall x :: x in nodes ==> x in n0)
      && node == NodeAt(j) && previousNode == NodeAt(j - 1)
      && (previousNode != null ==> previousNode in n0)
    }

    /** The scanned element is the one under `node`. */
    lemma ScanAt(m: T -> bool, s0: seq<T>, n0: seq<Node<T>>, v0: bool, i: int, j: int,
                 node: Node?<T>, previousNode: Node?<T>)
      requires Scan(m, s0, n0, v0, i, j, node, previousNode)
      ensures node != null <==> i < |s0|
      ensures node != null ==> node.elem == s0[i] && node in n0
    {
      if node != null {
        assert contents[j] == s0[i] && nodes[j] in nodes;
      }
    }

    /** At the end of the scan the survivors are all that is left. */
    lemma ScanDone(m: T -> bool, s0: seq<T>, n0: seq<Node<T>>, v0: bool, i: int, j: int, previousNode: Node?<T>)
      requires Scan(m, s0, n0, v0, i, j, null, previousNode)
      ensures Chain() && (v0 ==> Valid()) && i == |s0| && contents == Filtered(s0, Not(m))
      ensures i - j == Count(s0, m)
      ensures forall k :: 0 <= k < |nodes| ==> nodes[k] in n0
    {
      forall k | 0 <= k < |nodes|
        ensures nodes[k] in n0
      {
        assert nodes[k] in nodes;
      }
      ScanAt(m, s0, n0, v0, i, j, null, previousNode);
      assert s0[..i] == s0;
      assert contents == Filtered(s0, Not(m)) + [];
      CountComplement(s0, m);
    }

    /** Passing over an element that does not match keeps it, and `previousNode` moves up. */
    lemma KeepStep(m: T -> bool, s0: seq<T>, n0: seq<Node<T>>, v0: bool, i: int, j: int,
                   node: Node<T>, previousNode: Node?<T>)
      requires Scan(m, s0, n0, v0, i, j, node, previousNode) && i < |s0| && !m(s0[i])
      ensures Scan(m, s0, n0, v0, i + 1, j + 1, node.next, node)
    {
      DropStep(s0, i, m);
      ScanAt(m, s0, n0, v0, i, j, node, previousNode);
    }

    /** Dropping a matching element unlinks its node; `previousNode` stays. */
    method DropStepAt(ghost m: T -> bool, ghost s0: seq<T>, ghost n0: seq<Node<T>>, ghost v0: bool,
                      ghost i: int, ghost j: int,
                      node: Node<T>, previousNode: Node?<T>)
      requires Scan(m, s0, n0, v0, i, j, node, previousNode) && i < |s0| && m(s0[i])
      modifies this, previousNode
      ensures Scan(m, s0, n0, v0, i + 1, j, node.next, previousNode)
      ensures current == old(current) && cursor == old(cursor)
    {
      DropStep(s0, i, m);
      ScanAt(m, s0, n0, v0, i, j, node, previousNode);
      UnlinkAndRetail(j, previousNode, node);
    }

    /** One pass of the loop of list_remove_all over `node`. */
    method RemoveAllStep(equalElement: (T, T) -> bool, element: T, ghost s0: seq<T>, ghost n0: seq<Node<T>>,
                         ghost v0: bool, ghost i: int, ghost j: int, occurrences: int, node: Node<T>, previousNode: Node?<T>)
      returns (ghost i': int, ghost j': int, occurrences': int, node': Node?<T>, previousNode': Node?<T>)
      requires Scan(KeySecond(equalElement, element), s0, n0, v0, i, j, node, previousNode)
      requires occurrences == i - j
      modifies this, previousNode
      ensures Scan(KeySecond(equalElement, element), s0, n0, v0, i', j', node', previousNode')
      ensures occurrences' == i' - j' && i' == i + 1
      ensures current == old(current) && cursor == old(cursor)
    {
      ghost var m := KeySecond(equalElement, element);
      ScanAt(m, s0, n0, v0, i, j, node, previousNode);
      if equalElement(node.elem, element) {
        occurrences' := occurrences + 1;
        DropStepAt(m, s0, n0, v0, i, j, node, previousNode);
        var nextNode := node.next;
        node', previousNode' := nextNode, previousNode;
        i', j' := i + 1, j;
      } else {
        KeepStep(m, s0, n0, v0, i, j, node, previousNode);
        occurrences', previousNode' := occurrences, node;
        node' := node.next;
        i', j' := i + 1, j + 1;
      }
    }

    /**
     * list_remove_all: one pass that unlinks every node whose element
     * `equal_element(_, element)` accepts, fixing `head` and `tail` when they
     * go; returns how many went.
     */
    method RemoveAll(equalElement: (T, T) -> bool, element: T) returns (occurrences: int)
      requires Chain()
      modifies this, nodes
      ensures Chain() && (old(Valid()) ==> Valid())
      ensures occurrences == Count(old(contents), KeySecond(equalElement, element))
      ensures contents == Filtered(old(contents), Not(KeySecond(equalElement, element)))
      ensures size == old(size) - occurrences
      ensures forall k :: 0 <= k < |nodes| ==> nodes[k] in old(nodes)
      ensures current == old(current) && cursor == old(cursor)
    {
      ghost var m := KeySecond(equalElement, element);
      ghost var n0, s0, v0 := nodes, contents, Valid();
      ghost var i, j := 0, 0;
      occurrences := 0;
      var node := head;
      var previousNode: Node?<T> := null;
      while node != null
        invariant Scan(m, s0, n0, v0, i, j, node, previousNode)
        invariant occurrences == i - j
        invariant current == old(current) && cursor == old(cursor)
        decreases |s0| - i
      {
        ScanAt(m, s0, n0, v0, i, j, node, previousNode);
        i, j, occurrences, node, previousNode :=
          RemoveAllStep(equalElement, element, s0, n0, v0, i, j, occurrences, node, previousNode);
      }
      ScanDone(m, s0, n0, v0, i, j, previousNode);
    }

    /**
     * How far list_remove_duplicates has got: `occurrences` counts the
     * matches tested, the first match being tested twice (`pending` holds
     * between its two tests), and a match is never the first element.
     */
    ghost predicate Tally(m: T -> bool, s0: seq<T>, i: int, j: int, pending: bool, occurrences: int) {
      && 0 <= j <= i
      && (0 < i ==> 0 < j)
      && (pending ==> occurrences == 1 && i == j && i < |s0| && m(s0[i]))
      && (!pending ==> occurrences == if i == j then 0 else i - j + 1)
    }

    /** One pass of the loop of list_remove_duplicates over `node`. */
    method DuplicateStep(equalElement: (T, T) -> bool, element: T, ghost s0: seq<T>, ghost n0: seq<Node<T>>,
                         ghost v0: bool, ghost i: int, ghost j: int, ghost pending: bool, occurrences: int,
                         node: Node<T>, previousNode: Node?<T>)
      returns (ghost i': int, ghost j': int, ghost pending': bool, occurrences': int,
               node': Node?<T>, previousNode': Node?<T>)
      requires Scan(KeySecond(equalElement, element), s0, n0, v0, i, j, node, previousNode)
      requires Tally(KeySecond(equalElement, element), s0, i, j, pending, occurrences)
      requires i == 0 ==> !pending && !equalElement(node.elem, element)
      modifies this, previousNode
      ensures Scan(KeySecond(equalElement, element), s0, n0, v0, i', j', node', previousNode')
      ensures Tally(KeySecond(equalElement, element), s0, i', j', pending', occurrences')
      ensures i' == i + 1 || (i' == i && pending' && !pending)
      ensures current == old(current) && cursor == old(cursor)
    {
      ghost var m := KeySecond(equalElement, element);
      ScanAt(m, s0, n0, v0, i, j, node, previousNode);
      occurrences', node', previousNode' := occurrences, node, previousNode;
      i', j', pending' := i, j, pending;
      if equalElement(node.elem, element) {
        occurrences' := occurrences + 1;
        if occurrences' > 1 {
          assert previousNode != null;
          DropStepAt(m, s0, n0, v0, i, j, node, previousNode);
          var nextNode := node.next;
          node' := nextNode;
          i', pending' := i + 1, false;
        } else {
          pending' := true;
        }
      } else {
        KeepStep(m, s0, n0, v0, i, j, node, previousNode);
        previousNode' := node;
        node' := node.next;
        i', j' := i + 1, j + 1;
      }
    }

    /**
     * list_remove_duplicates.  On the first match the code neither advances
     * nor moves `previousNode`, so the same node is tested again and removed:
     * every match goes, and the result is the number of matches, or -1 when
     * there is none.  A match at the head dereferences NULL, which the
     * precondition excludes.
     */
    method RemoveDuplicates(equalElement: (T, T) -> bool, element: T) returns (result: int)
      requires Chain()
      requires contents == [] || !equalElement(contents[0], element)
      modifies this, nodes
      ensures Chain() && (old(Valid()) ==> Valid())
      ensures contents == Filtered(old(contents), Not(KeySecond(equalElement, element)))
      ensures var k := Count(old(contents), KeySecond(equalElement, element));
        result == if k == 0 then -1 else k
      ensures forall k :: 0 <= k < |nodes| ==> nodes[k] in old(nodes)
      ensures current == old(current) && cursor == old(cursor)
    {
      ghost var m := KeySecond(equalElement, element);
      ghost var n0, s0, v0 := nodes, contents, Valid();
      ghost var i, j := 0, 0;
      ghost var pending := false;
      var occurrences := 0;
      var node := head;
      var previousNode: Node?<T> := null;
      while node != null
        invariant Scan(m, s0, n0, v0, i, j, node, previousNode)
        invariant Tally(m, s0, i, j, pending, occurrences)
        invariant i == 0 ==> node == null || !equalElement(node.elem, element)
        invariant current == old(current) && cursor == old(cursor)
        decreases |s0| - i, if pending then 0 else 1
      {
        ScanAt(m, s0, n0, v0, i, j, node, previousNode);
        i, j, pending, occurrences, node, previousNode :=
          DuplicateStep(equalElement, element, s0, n0, v0, i, j, pending, occurrences, node, previousNode);
      }
      ScanDone(m, s0, n0, v0, i, j, previousNode);
      result := occurrences - 1;
    }

    /** list_iterator_start: the cursor goes to the head. */
    method IteratorStart()
      requires Chain()
      modifies this`current, this`cursor
      ensures Chain() && Iterating() && cursor == 0 && (Valid() <==> old(Valid()))
    {
      current := head;
      cursor := 0;
    }

    /** list_iterator_has_next: whether the cursor is still on a node. */
    method IteratorHasNext() returns (b: bool)
      requires Chain() && Iterating()
      ensures b <==> cursor < |contents|
    {
      b := current != null;
    }

    /**
     * list_iterator_get_next: the element under the cursor, which then moves
     * on.  The code does not check for the end; the precondition asks for
     * has_next.
     */
    method IteratorGetNext() returns (element: T)
      requires Chain() && Iterating() && cursor < |contents|
      modifies this`current, this`cursor
      ensures Chain() && Iterating() && cursor == old(cursor) + 1 && (Valid() <==> old(Valid()))
      ensures element == contents[old(cursor)]
    {
      element := current.elem;
      current := current.next;
      cursor := cursor + 1;
    }
  }

  // ---------------------------------------------------------------------
  // Lists built from other lists
  // ---------------------------------------------------------------------

  /**
   * list_join: a new list holding the elements of `list1` and then those of
   * `list2`, copied node by node with list_insert_last.  Neither argument
   * changes.
   */
  method Join<T>(list1: LinkedList<T>, list2: LinkedList<T>) returns (list: LinkedList<T>)
    requires list1.Chain() && list2.Chain()
    ensures fresh(list) && fresh(list.nodes)
    ensures list.Valid() && list.contents == list1.contents + list2.contents
  {
    list := new LinkedList();
    var node := list1.head;
    ghost var i := 0;
    while node != null
      invariant 0 <= i <= |list1.nodes| && node == list1.NodeAt(i)
      invariant fresh(list) && fresh(list.nodes)
      invariant list.Valid() && list.contents == list1.contents[..i]
      decreases |list1.nodes| - i
    {
      assert list1.contents[..i + 1] == list1.contents[..i] + [node.elem];
      list.InsertLast(node.elem);
      node := node.next;
      i := i + 1;
    }
    assert list1.contents[..i] == list1.contents;
    node := list2.head;
    i := 0;
    while node != null
      invariant 0 <= i <= |list2.nodes| && node == list2.NodeAt(i)
      invariant fresh(list) && fresh(list.nodes)
      invariant list.Valid() && list.contents == list1.contents + list2.contents[..i]
      decreases |list2.nodes| - i
    {
      assert list2.contents[..i + 1] == list2.contents[..i] + [node.elem];
      list.InsertLast(node.elem);
      node := node.next;
      i := i + 1;
    }
    assert list2.contents[..i] == list2.contents;
  }

  /**
   * list_map: a new list of `func` applied to each element, in order.  The
   * callback is modelled as a pure function.
   */
  method Map<T, U>(list: LinkedList<T>, func: T -> U) returns (newList: LinkedList<U>)
    requires list.Chain()
    ensures fresh(newList) && fresh(newList.nodes) && newList.Valid()
    ensures |newList.contents| == |list.contents|
    ensures forall k :: 0 <= k < |list.contents| ==> newList.contents[k] == func(list.contents[k])
  {
    newList := new LinkedList();
    var node := list.head;
    ghost var i := 0;
    while node != null
      invariant 0 <= i <= |list.nodes| && node == list.NodeAt(i)
      invariant fresh(newList) && fresh(newList.nodes) && newList.Valid()
      invariant |newList.contents| == i
      invariant forall k :: 0 <= k < i ==> newList.contents[k] == func(list.contents[k])
      decreases |list.nodes| - i
    {
      newList.InsertLast(func(node.elem));
      node := node.next;
      i := i + 1;
    }
  }

  /** list_filter: a new list of the elements `func` accepts, in order. */
  method Filter<T>(list: LinkedList<T>, func: T -> bool) returns (newList: LinkedList<T>)
    requires list.Chain()
    ensures fresh(newList) && fresh(newList.nodes) && newList.Valid()
    ensures newList.contents == Filtered(list.contents, func)
  {
    newList := new LinkedList();
    var node := list.head;
    ghost var i := 0;
    while node != null
      invariant 0 <= i <= |list.nodes| && node == list.NodeAt(i)
      invariant fresh(newList) && fresh(newList.nodes) && newList.Valid()
      invariant newList.contents == Filtered(list.contents[..i], func)
      decreases |list.nodes| - i
    {
      FilterStep(list.contents, i, func);
      if func(node.elem) {
        newList.InsertLast(node.elem);
      }
      node := node.next;
      i := i + 1;
    }
    assert list.contents[..i] == list.contents;
  }

  /**
   * list_get_sublist_between: NULL unless both indices are positions of the
   * list; otherwise a new list of the elements from `startIndex` to
   * `endIndex` inclusive, empty when `startIndex > endIndex`.
   */
  method GetSublistBetween<T>(list: LinkedList<T>, startIndex: int, endIndex: int) returns (newList: LinkedList?<T>)
    requires list.Chain()
    ensures newList == null <==>
      !(0 <= startIndex < |list.contents| && 0 <= endIndex < |list.contents|)
    ensures newList != null ==> fresh(newList) && fresh(newList.nodes) && newList.Valid()
    ensures newList != null ==>
      newList.contents == if startIndex <= endIndex then list.contents[startIndex..endIndex + 1] else []
  {
    if startIndex < 0 || startIndex > list.Size() - 1 || endIndex < 0 || endIndex > list.Size() - 1 {
      return null;
    }
    newList := new LinkedList();
    var node := list.head;
    var i := 0;
    while i < startIndex
      invariant 0 <= i <= startIndex && node == list.NodeAt(i)
    {
      node := node.next;
      i := i + 1;
    }
    while i <= endIndex
      invariant startIndex <= i <= (if startIndex <= endIndex then endIndex + 1 else startIndex)
      invariant node == list.NodeAt(i)
      invariant fresh(newList) && fresh(newList.nodes) && newList.Valid()
      invariant newList.contents == list.contents[startIndex..i]
    {
      assert list.contents[startIndex..i + 1] == list.contents[startIndex..i] + [node.elem];
      newList.InsertLast(node.elem);
      node := node.next;
      i := i + 1;
    }
  }

  /**
   * The first half of list_get_sublist: a zeroed presence array of `n`
   * entries in which every position among the first `count` entries of
   * `indexes` that lies within 0 .. n-1 is set.
   */
  method MarkPositions(n: nat, indexes: array<int>, count: int) returns (index: array<bool>)
    requires 0 <= count <= indexes.Length
    ensures fresh(index) && index[..] == Marks(n, indexes[..count])
  {
    index := new bool[n](_ => false);
    var i := 0;
    while i < count
      invariant 0 <= i <= count
      modifies index
      invariant forall q :: 0 <= q < n ==> (index[q] <==> q in indexes[..i])
    {
      assert indexes[..i + 1] == indexes[..i] + [indexes[i]];
      if indexes[i] >= 0 && indexes[i] <= n - 1 {
        index[indexes[i]] := true;
      }
      i := i + 1;
    }
    MarksMeaning(n, indexes[..count]);
  }

  /** One step of the copy loop of list_get_sublist: append the element of `node` when it is marked, and move on. */
  method CopyStep<T>(newList: LinkedList<T>, node: Node<T>, marked: bool, j: int) returns (next: Node?<T>, j': int)
    requires newList.Valid() && node !in newList.nodes
    modifies newList, newList.nodes
    ensures newList.Valid()
    ensures newList.contents == old(newList.contents) + (if marked then [node.elem] else [])
    ensures newList.nodes == old(newList.nodes) + (if marked then [newList.tail] else [])
    ensures marked ==> fresh(newList.tail)
    ensures next == node.next && j' == j + (if marked then 1 else 0)
  {
    next := node.next;
    j' := j;
    if marked {
      newList.InsertLast(node.elem);
      j' := j + 1;
    }
  }

  /**
   * The second half of list_get_sublist: the list is walked once, copying
   * the elements whose position is set in `index`, until the end or until
   * `count` elements have been copied, which loses nothing when no more than
   * `count` positions are set.
   */
  method CopyMarked<T>(list: LinkedList<T>, index: array<bool>, count: int) returns (newList: LinkedList<T>)
    requires list.Chain() && index.Length == |list.contents|
    requires Count(index[..], IsSet) <= count
    ensures fresh(newList) && fresh(newList.nodes) && newList.Valid()
    ensures newList.contents == Selected(list.contents, index[..])
  {
    newList := new LinkedList();
    ghost var s, m := list.contents, index[..];
    var node := list.head;
    var j := 0;
    var i := 0;
    while node != null && j < count
      invariant 0 <= i <= |s| && node == list.NodeAt(i)
      invariant fresh(newList) && fresh(newList.nodes) && newList.Valid()
      invariant index[..] == m
      invariant newList.contents == Selected(s[..i], m[..i]) && j == |newList.contents|
      decreases |s| - i
    {
      SelectedStep(s, m, i);
      node, j := CopyStep(newList, node, index[i], j);
      i := i + 1;
    }
    SelectedStop(s, m, i, count);
  }

  /**
   * list_get_sublist: a presence array marks the positions named by the
   * first `count` entries of `indexes` (entries outside the list are
   * skipped), and the marked elements are copied in list order, each once.
   */
  method GetSublist<T>(list: LinkedList<T>, indexes: array<int>, count: int) returns (newList: LinkedList<T>)
    requires list.Chain()
    requires 0 <= count <= indexes.Length
    ensures fresh(newList) && fresh(newList.nodes) && newList.Valid()
    ensures newList.contents == Selected(list.contents, Marks(|list.contents|, indexes[..count]))
  {
    var index := MarkPositions(list.Size(), indexes, count);
    MarksAtMost(list.Size(), indexes[..count]);
    newList := CopyMarked(list, index, count);
  }

  /**
   * The traversal the iterator functions are made for: start, then get_next
   * while has_next.  It yields every element once, in list order.
   */
  method Elements<T>(list: LinkedList<T>) returns (r: seq<T>)
    requires list.Chain()
    modifies list`current, list`cursor
    ensures list.Chain() && r == list.contents && (list.Valid() <==> old(list.Valid()))
  {
    list.IteratorStart();
    r := [];
    var more := list.IteratorHasNext();
    while more
      invariant list.Chain() && list.Iterating() && (list.Valid() <==> old(list.Valid()))
      invariant r == list.contents[..list.cursor]
      invariant more <==> list.cursor < |list.contents|
      decreases |list.contents| - list.cursor
    {
      var element := list.IteratorGetNext();
      r := r + [element];
      more := list.IteratorHasNext();
    }
    assert list.contents[..list.cursor] == list.contents;
  }
}
