/**
 * Sequences of list operations as the test suite of the list
 * (test/test_list.c) runs them, each against a fresh list.  They show that
 * the contracts of the mutators leave a list that further mutators accept,
 * including after `tail` has gone stale.
 */
module ListScenarios {
  import opened ListSpec
  import opened SinglyLinkedList

  /** A fresh list filled with list_insert_last, one element after the other. */
  method FromSeq<T>(s: seq<T>) returns (list: LinkedList<T>)
    ensures fresh(list) && fresh(list.nodes) && list.Valid() && list.contents == s
  {
    list := new LinkedList();
    AppendAll(list, s);
  }

  /**
   * test_list_remove: NULL for positions of the empty list; then, on six
   * elements, position 0, the last position (which leaves `tail` stale) and
   * position 2 twice give the first, the sixth, the fourth and the fifth.
   */
  method RemoveSequence<T>(e1: T, e2: T, e3: T, e4: T, e5: T, e6: T)
    returns (r0: Option<T>, r10: Option<T>, r1: Option<T>, r2: Option<T>, r3: Option<T>, r4: Option<T>)
    ensures r0 == None && r10 == None
    ensures r1 == Some(e1) && r2 == Some(e6) && r3 == Some(e4) && r4 == Some(e5)
  {
    var list := new LinkedList();
    r0 := list.Remove(0);
    r10 := list.Remove(10);
    list := FromSeq([e1, e2, e3, e4, e5, e6]);
    r1, r2 := RemoveEnds(list);
    r3, r4 := RemoveMiddle(list);
  }

  /** The first half of test_list_remove: position 0, then the last position, which leaves `tail` stale. */
  method RemoveEnds<T>(list: LinkedList<T>) returns (r1: Option<T>, r2: Option<T>)
    requires list.Valid() && |list.contents| == 6
    modifies list, list.nodes
    ensures list.Chain() && !list.Valid()
    ensures list.contents == old(list.contents)[1..5]
    ensures r1 == Some(old(list.contents)[0]) && r2 == Some(old(list.contents)[5])
    ensures forall k :: 0 <= k < |list.nodes| ==> list.nodes[k] in old(list.nodes)
  {
    ghost var n := list.nodes;
    r1 := list.Remove(0);
    RemoveAtMembers(n, 0);
    n := list.nodes;
    r2 := list.Remove(list.Size() - 1);
    RemoveAtMembers(n, 4);
  }

  /** The second half of test_list_remove: position 2 twice, on a list whose `tail` is stale. */
  method RemoveMiddle<T>(list: LinkedList<T>) returns (r3: Option<T>, r4: Option<T>)
    requires list.Chain() && |list.contents| == 4
    modifies list, list.nodes
    ensures list.Chain()
    ensures list.contents == old(list.contents)[..2]
    ensures r3 == Some(old(list.contents)[2]) && r4 == Some(old(list.contents)[3])
  {
    ghost var n := list.nodes;
    r3 := list.Remove(2);
    RemoveAtMembers(n, 2);
    r4 := list.Remove(2);
  }

  /**
   * list_insert at position 1 of a 2-element list [a, b]: the new element
   * goes last, but `tail` stays on b, so list_get_last returns b while
   * list_get at index 2 returns x.
   */
  method InsertAtOneLeavesTail<T>(a: T, b: T, x: T) returns (last: Option<T>, atTwo: Option<T>)
    ensures last == Some(b) && atTwo == Some(x)
  {
    var list := FromSeq([a, b]);
    list.Insert(x, 1);
    assert list.contents == [a, b, x];
    last := list.GetLast();
    atTwo := list.Get(2);
  }

  /**
   * test_list_insert: position 10 of the empty list is ignored; position 0
   * inserts the first element; after three appends, position 4 (the size)
   * appends, and position 3 lands at index 3.
   */
  method InsertSequence<T>(n1: T, n2: T, n3: T, s1: T, s2: T, s3: T)
    returns (size0: int, first0: Option<T>, last0: Option<T>, size1: int, first1: Option<T>,
             size2: int, last2: Option<T>, size3: int, at3: Option<T>)
    ensures size0 == 0 && first0 == None && last0 == None && size1 == 1 && first1 == Some(n1)
    ensures size2 == 5 && last2 == Some(n2) && size3 == 6 && at3 == Some(n3)
  {
    var list := new LinkedList();
    list.Insert(n1, 10);
    size0 := list.Size();
    first0 := list.GetFirst();
    last0 := list.GetLast();
    list.Insert(n1, 0);
    size1 := list.Size();
    first1 := list.GetFirst();
    AppendAll(list, [s1, s2, s3]);
    size2, last2, size3, at3 := InsertTwice(list, n2, n3);
  }

  /** The second half of test_list_insert, on the list [n1, s1, s2, s3]. */
  method InsertTwice<T>(list: LinkedList<T>, n2: T, n3: T)
    returns (size2: int, last2: Option<T>, size3: int, at3: Option<T>)
    requires list.Valid() && |list.contents| == 4
    modifies list, list.nodes
    ensures size2 == 5 && last2 == Some(n2) && size3 == 6 && at3 == Some(n3)
  {
    list.Insert(n2, 4);
    size2 := list.Size();
    last2 := list.GetLast();
    list.Insert(n3, 3);
    size3 := list.Size();
    at3 := list.Get(3);
  }

  /**
   * list_insert at the end of [a, b], then list_remove at the same
   * position: the contents are [a, b] again, but `tail` was not moved back,
   * so list_get_last still yields the removed element x, from a freed node.
   */
  method InsertRemoveLeavesTail<T>(a: T, b: T, x: T) returns (removed: Option<T>, last: Option<T>, atOne: Option<T>)
    ensures removed == Some(x) && last == Some(x) && atOne == Some(b)
  {
    var list := FromSeq([a, b]);
    list.Insert(x, 2);
    removed := list.Remove(2);
    last := list.GetLast();
    atOne := list.Get(1);
  }

  /** The insert_numbers helper of the tests: list_insert_last of each element in turn. */
  method AppendAll<T>(list: LinkedList<T>, s: seq<T>)
    requires list.Valid()
    modifies list, list.nodes
    ensures list.Valid() && list.contents == old(list.contents) + s
    ensures forall k :: 0 <= k < |list.nodes| ==> list.nodes[k] in old(list.nodes) || fresh(list.nodes[k])
  {
    var i := 0;
    while i < |s|
      invariant 0 <= i <= |s|
      invariant list.Valid() && list.contents == old(list.contents) + s[..i]
      invariant forall k :: 0 <= k < |list.nodes| ==> list.nodes[k] in old(list.nodes) || fresh(list.nodes[k])
    {
      assert s[..i + 1] == s[..i] + [s[i]];
      list.InsertLast(s[i]);
      i := i + 1;
    }
    assert s[..i] == s;
  }

  /**
   * test_list_remove_first: NULL on the empty list; a single element comes
   * back and leaves the list empty; after five more insertions the first
   * one comes back and the second becomes the first.
   */
  method RemoveFirstSequence<T>(x: T, n1: T, n2: T, n3: T, n4: T, n5: T)
    returns (r0: Option<T>, r1: Option<T>, size1: int, size5: int, first5: Option<T>,
             r2: Option<T>, size2: int, first: Option<T>)
    ensures r0 == None && r1 == Some(x) && size1 == 0
    ensures size5 == 5 && first5 == Some(n1)
    ensures r2 == Some(n1) && size2 == 4 && first == Some(n2)
  {
    var list := new LinkedList();
    r0 := list.RemoveFirst();
    AppendAll(list, [x]);
    r1 := list.RemoveFirst();
    size1 := list.Size();
    AppendAll(list, [n1, n2, n3, n4, n5]);
    size5 := list.Size();
    first5 := list.GetFirst();
    r2 := list.RemoveFirst();
    size2 := list.Size();
    first := list.GetFirst();
  }

  /**
   * test_list_remove_last: as for the first element, at the other end, with
   * list_get_last following the tail that list_remove_last moves back.
   */
  method RemoveLastSequence<T>(x: T, n1: T, n2: T, n3: T, n4: T, n5: T)
    returns (r0: Option<T>, r1: Option<T>, size1: int, size5: int, last5: Option<T>,
             r2: Option<T>, size2: int, last: Option<T>)
    ensures r0 == None && r1 == Some(x) && size1 == 0
    ensures size5 == 5 && last5 == Some(n5)
    ensures r2 == Some(n5) && size2 == 4 && last == Some(n4)
  {
    var list := new LinkedList();
    r0 := list.RemoveLast();
    AppendAll(list, [x]);
    r1 := list.RemoveLast();
    size1 := list.Size();
    AppendAll(list, [n1, n2, n3, n4, n5]);
    size5 := list.Size();
    last5 := list.GetLast();
    r2 := list.RemoveLast();
    size2 := list.Size();
    last := list.GetLast();
  }

  /**
   * The comparison of the remove_all test (strcmp on the strings "one",
   * "two" and "three"): it tells the three elements apart.
   */
  ghost predicate Discerns<T>(equal: (T, T) -> bool, s1: T, s2: T, s3: T)
  {
    && equal(s1, s1) && equal(s2, s2) && equal(s3, s3)
    && !equal(s1, s2) && !equal(s1, s3) && !equal(s2, s1)
    && !equal(s2, s3) && !equal(s3, s1) && !equal(s3, s2)
  }

  /** Removing s2 from [s1, s2, s3, s2, s3] takes two and leaves [s1, s3, s3]. */
  lemma RemoveAllTwo<T>(equal: (T, T) -> bool, s1: T, s2: T, s3: T)
    requires Discerns(equal, s1, s2, s3)
    ensures Count([s1, s2, s3, s2, s3], KeySecond(equal, s2)) == 2
    ensures Filtered([s1, s2, s3, s2, s3], Not(KeySecond(equal, s2))) == [s1, s3, s3]
  {
    var p, q := KeySecond(equal, s2), Not(KeySecond(equal, s2));
    assert !p(s1) && p(s2) && !p(s3) && q(s1) && !q(s2) && q(s3);
    assert [s1, s2, s3, s2, s3][..4] == [s1, s2, s3, s2] && [s1, s2, s3, s2][..3] == [s1, s2, s3];
    assert [s1, s2, s3][..2] == [s1, s2] && [s1, s2][..1] == [s1] && [s1][..0] == [];
    assert Count([s1], p) == 0 && Filtered([s1], q) == [s1];
    assert Count([s1, s2], p) == 1 && Filtered([s1, s2], q) == [s1];
    assert Count([s1, s2, s3], p) == 1 && Filtered([s1, s2, s3], q) == [s1, s3];
    assert Count([s1, s2, s3, s2], p) == 2 && Filtered([s1, s2, s3, s2], q) == [s1, s3];
  }

  /** Removing s3 from [s1, s3, s3] takes two and leaves [s1]. */
  lemma RemoveAllThree<T>(equal: (T, T) -> bool, s1: T, s2: T, s3: T)
    requires Discerns(equal, s1, s2, s3)
    ensures Count([s1, s3, s3], KeySecond(equal, s3)) == 2
    ensures Filtered([s1, s3, s3], Not(KeySecond(equal, s3))) == [s1]
  {
    var p, q := KeySecond(equal, s3), Not(KeySecond(equal, s3));
    assert !p(s1) && p(s3) && q(s1) && !q(s3);
    assert [s1, s3, s3][..2] == [s1, s3] && [s1, s3][..1] == [s1] && [s1][..0] == [];
    assert Count([s1], p) == 0 && Filtered([s1], q) == [s1];
    assert Count([s1, s3], p) == 1 && Filtered([s1, s3], q) == [s1];
  }

  /** Removing s1 from [s1, s3] takes one. */
  lemma RemoveAllOne<T>(equal: (T, T) -> bool, s1: T, s2: T, s3: T)
    requires Discerns(equal, s1, s2, s3)
    ensures Count([s1, s3], KeySecond(equal, s1)) == 1
  {
    var p := KeySecond(equal, s1);
    assert p(s1) && !p(s3);
    assert [s1, s3][..1] == [s1] && [s1][..0] == [];
    assert Count([s1], p) == 1;
  }

  /**
   * test_list_remove_all on [s1, s2, s3, s2, s3]: five elements, the first
   * s2 at index 1; removing s2 takes two and leaves three elements with no
   * s2 and s3 last; removing s3 takes two and leaves s1 last; after
   * appending s3, removing s1 takes one.
   */
  method RemoveAllSequence<T>(equal: (T, T) -> bool, s1: T, s2: T, s3: T)
    returns (size0: int, found0: int, c1: int, size1: int, found: int, last1: Option<T>,
             c2: int, last2: Option<T>, last3: Option<T>, c3: int)
    requires Discerns(equal, s1, s2, s3)
    ensures size0 == 5 && found0 == 1
    ensures c1 == 2 && size1 == 3 && found == -1 && last1 == Some(s3)
    ensures c2 == 2 && last2 == Some(s1) && last3 == Some(s3) && c3 == 1
  {
    var list := FromSeq([s1, s2, s3, s2, s3]);
    size0 := list.Size();
    found0 := list.Find(equal, s2);
    assert !KeyFirst(equal, s2)(s1) && KeyFirst(equal, s2)(s2);
    c1, size1, found, last1 := RemoveAllTwos(list, equal, s1, s2, s3);
    c2, last2, last3 := RemoveAllThrees(list, equal, s1, s2, s3);
    c3 := list.RemoveAll(equal, s1);
    RemoveAllOne(equal, s1, s2, s3);
  }

  /** The first stage of test_list_remove_all. */
  method RemoveAllTwos<T>(list: LinkedList<T>, equal: (T, T) -> bool, s1: T, s2: T, s3: T)
    returns (c1: int, size1: int, found: int, last1: Option<T>)
    requires Discerns(equal, s1, s2, s3)
    requires list.Valid() && list.contents == [s1, s2, s3, s2, s3]
    modifies list, list.nodes
    ensures list.Valid() && list.contents == [s1, s3, s3]
    ensures forall k :: 0 <= k < |list.nodes| ==> list.nodes[k] in old(list.nodes)
    ensures c1 == 2 && size1 == 3 && found == -1 && last1 == Some(s3)
  {
    c1 := list.RemoveAll(equal, s2);
    RemoveAllTwo(equal, s1, s2, s3);
    size1 := list.Size();
    found := list.Find(equal, s2);
    assert !KeyFirst(equal, s2)(s1) && !KeyFirst(equal, s2)(s3);
    last1 := list.GetLast();
  }

  /** The second stage of test_list_remove_all, ending with list_insert_last. */
  method RemoveAllThrees<T>(list: LinkedList<T>, equal: (T, T) -> bool, s1: T, s2: T, s3: T)
    returns (c2: int, last2: Option<T>, last3: Option<T>)
    requires Discerns(equal, s1, s2, s3)
    requires list.Valid() && list.contents == [s1, s3, s3]
    modifies list, list.nodes
    ensures list.Valid() && list.contents == [s1, s3]
    ensures forall k :: 0 <= k < |list.nodes| ==> list.nodes[k] in old(list.nodes) || fresh(list.nodes[k])
    ensures c2 == 2 && last2 == Some(s1) && last3 == Some(s3)
  {
    c2 := list.RemoveAll(equal, s3);
    RemoveAllThree(equal, s1, s2, s3);
    last2 := list.GetLast();
    list.InsertLast(s3);
    last3 := list.GetLast();
  }
}
