/**
 * The meaning of the singly linked list's operations on the sequence of
 * elements it holds: counting, filtering, searching, positional insertion
 * and removal (both as the list code performs them and as the header
 * describes them), and selection by marked positions.
 */
module ListSpec {

  /** A result that may be absent: the NULL that several list operations return. */
  datatype Option<T> = None | Some(value: T)

  // ---------------------------------------------------------------------
  // Callbacks turned into element predicates
  // ---------------------------------------------------------------------

  /** The test of list_find and list_count_all: `equal(element, x)`. */
  function KeyFirst<T>(equal: (T, T) -> bool, element: T): T -> bool
  {
    x => equal(element, x)
  }

  /** The test of list_remove_all and list_remove_duplicates: `equal_element(x, element)`. */
  function KeySecond<T>(equal: (T, T) -> bool, element: T): T -> bool
  {
    x => equal(x, element)
  }

  /** The negation of an element predicate. */
  function Not<T>(p: T -> bool): T -> bool
  {
    x => !p(x)
  }

  /** A mark in a boolean presence array, as a predicate. */
  function IsSet(b: bool): bool
  {
    b
  }

  // ---------------------------------------------------------------------
  // Counting and filtering
  // ---------------------------------------------------------------------

  /** The number of elements of `s` that satisfy `p`. */
  function Count<T>(s: seq<T>, p: T -> bool): (n: nat)
    ensures n <= |s|
  {
    if s == [] then 0
    else Count(s[..|s| - 1], p) + (if p(s[|s| - 1]) then 1 else 0)
  }

  /** A count is zero exactly when no element satisfies `p`, and is the whole length exactly when every element does. */
  lemma {:induction false} CountExtremes<T>(s: seq<T>, p: T -> bool)
    ensures Count(s, p) == 0 <==> forall i :: 0 <= i < |s| ==> !p(s[i])
    ensures Count(s, p) == |s| <==> forall i :: 0 <= i < |s| ==> p(s[i])
  {
    if s != [] {
      CountExtremes(s[..|s| - 1], p);
      assert forall i :: 0 <= i < |s| - 1 ==> s[..|s| - 1][i] == s[i];
    }
  }

  /** The elements of `s` that satisfy `p`, in their order in `s`. */
  function Filtered<T>(s: seq<T>, p: T -> bool): (r: seq<T>)
    ensures |r| == Count(s, p)
    ensures forall i :: 0 <= i < |r| ==> p(r[i])
  {
    if s == [] then []
    else Filtered(s[..|s| - 1], p) + (if p(s[|s| - 1]) then [s[|s| - 1]] else [])
  }

  lemma {:induction false} CountAppend<T>(a: seq<T>, b: seq<T>, p: T -> bool)
    ensures Count(a + b, p) == Count(a, p) + Count(b, p)
    decreases |b|
  {
    if b == [] {
      assert a + b == a;
    } else {
      var b' := b[..|b| - 1];
      assert (a + b)[..|a + b| - 1] == a + b';
      CountAppend(a, b', p);
    }
  }

  /** Counting a sequence split at `k` counts its two parts. */
  lemma CountSplit<T>(s: seq<T>, k: int, p: T -> bool)
    requires 0 <= k <= |s|
    ensures Count(s, p) == Count(s[..k], p) + Count(s[k..], p)
  {
    assert s == s[..k] + s[k..];
    CountAppend(s[..k], s[k..], p);
  }

  /** Filtering distributes over concatenation: it keeps the relative order of the survivors. */
  lemma {:induction false} FilterAppend<T>(a: seq<T>, b: seq<T>, p: T -> bool)
    ensures Filtered(a + b, p) == Filtered(a, p) + Filtered(b, p)
    decreases |b|
  {
    if b == [] {
      assert a + b == a;
    } else {
      var b' := b[..|b| - 1];
      assert (a + b)[..|a + b| - 1] == a + b';
      FilterAppend(a, b', p);
    }
  }

  /** Extending a scanned prefix by one element extends its filtering by that element if it passes. */
  lemma FilterStep<T>(s: seq<T>, i: int, p: T -> bool)
    requires 0 <= i < |s|
    ensures Filtered(s[..i + 1], p) == Filtered(s[..i], p) + (if p(s[i]) then [s[i]] else [])
  {
    assert s[..i + 1][..i] == s[..i];
  }

  /**
   * One step of a scan that drops the elements matching `m`: after the
   * prefix `s[..i]` has been filtered, the element at `i` either stays where
   * it is or is dropped from the front of the unscanned rest.
   */
  lemma DropStep<T>(s: seq<T>, i: int, m: T -> bool)
    requires 0 <= i < |s|
    ensures Count(s[..i + 1], m) == Count(s[..i], m) + (if m(s[i]) then 1 else 0)
    ensures |Filtered(s[..i + 1], Not(m))| == |Filtered(s[..i], Not(m))| + (if m(s[i]) then 0 else 1)
    ensures !m(s[i]) ==> Filtered(s[..i + 1], Not(m)) + s[i + 1..] == Filtered(s[..i], Not(m)) + s[i..]
    ensures m(s[i]) ==>
      Filtered(s[..i + 1], Not(m)) + s[i + 1..] == RemoveAt(Filtered(s[..i], Not(m)) + s[i..], |Filtered(s[..i], Not(m))|)
  {
    assert s[..i + 1][..i] == s[..i];
    assert s[i..] == [s[i]] + s[i + 1..];
  }

  /** An element survives filtering exactly when it occurs in `s` and satisfies `p`. */
  lemma {:induction false} FilterMembers<T>(s: seq<T>, p: T -> bool, x: T)
    ensures x in Filtered(s, p) <==> x in s && p(x)
  {
    if s != [] {
      var s' := s[..|s| - 1];
      assert s == s' + [s[|s| - 1]];
      FilterMembers(s', p, x);
    }
  }

  /** Filtering a sequence whose every element satisfies `p` changes nothing. */
  lemma {:induction false} FilterAll<T>(s: seq<T>, p: T -> bool)
    requires forall i :: 0 <= i < |s| ==> p(s[i])
    ensures Filtered(s, p) == s
  {
    if s != [] {
      var s' := s[..|s| - 1];
      assert s == s' + [s[|s| - 1]];
      FilterAll(s', p);
    }
  }

  /** Every element either matches or does not. */
  lemma {:induction false} CountComplement<T>(s: seq<T>, p: T -> bool)
    ensures Count(s, p) + Count(s, Not(p)) == |s|
  {
    if s != [] {
      CountComplement(s[..|s| - 1], p);
    }
  }

  // ---------------------------------------------------------------------
  // Search
  // ---------------------------------------------------------------------

  /** The least index of an element satisfying `p`, or -1 when there is none. */
  function FirstIndex<T>(s: seq<T>, p: T -> bool): (i: int)
    ensures -1 <= i < |s|
    ensures 0 <= i ==> p(s[i]) && forall j :: 0 <= j < i ==> !p(s[j])
    ensures i == -1 <==> forall j :: 0 <= j < |s| ==> !p(s[j])
  {
    if s == [] then -1
    else if p(s[0]) then 0
    else
      var k := FirstIndex(s[1..], p);
      assert forall j :: 1 <= j < |s| ==> s[1..][j - 1] == s[j];
      if k == -1 then -1 else k + 1
  }

  /** There is a first match exactly when there is a match at all. */
  lemma FirstIndexCount<T>(s: seq<T>, p: T -> bool)
    ensures FirstIndex(s, p) == -1 <==> Count(s, p) == 0
  {
    CountExtremes(s, p);
  }

  // ---------------------------------------------------------------------
  // Positions: the header's meaning
  // ---------------------------------------------------------------------

  /** `s` with `e` placed at index `k`, the elements from `k` on moving up one. */
  function InsertAt<T>(s: seq<T>, e: T, k: int): (r: seq<T>)
    requires 0 <= k <= |s|
    ensures |r| == |s| + 1 && r[k] == e
    ensures r[..k] == s[..k] && r[k + 1..] == s[k..]
  {
    s[..k] + [e] + s[k..]
  }

  /** `s` without the element at index `k`. */
  function RemoveAt<T>(s: seq<T>, k: int): (r: seq<T>)
    requires 0 <= k < |s|
    ensures |r| == |s| - 1
    ensures r[..k] == s[..k] && r[k..] == s[k + 1..]
  {
    s[..k] + s[k + 1..]
  }

  /** Removal keeps nothing that was not there. */
  lemma RemoveAtMembers<T>(s: seq<T>, k: int)
    requires 0 <= k < |s|
    ensures forall x :: x in RemoveAt(s, k) ==> x in s
  {
    forall x | x in RemoveAt(s, k)
      ensures x in s
    {
      var i :| 0 <= i < |s| - 1 && RemoveAt(s, k)[i] == x;
      assert x == if i < k then s[i] else s[i + 1];
    }
  }

  /** Removing what was just inserted at the same index gives the sequence back. */
  lemma RemoveAtInsertAt<T>(s: seq<T>, e: T, k: int)
    requires 0 <= k <= |s|
    ensures RemoveAt(InsertAt(s, e, k), k) == s
  {
    var r := InsertAt(s, e, k);
    assert r[..k] + r[k + 1..] == s[..k] + s[k..];
    assert s[..k] + s[k..] == s;
  }

  /** Putting a removed element back at its index gives the sequence back. */
  lemma InsertAtRemoveAt<T>(s: seq<T>, k: int)
    requires 0 <= k < |s|
    ensures InsertAt(RemoveAt(s, k), s[k], k) == s
  {
    var r := RemoveAt(s, k);
    assert r[..k] == s[..k];
    assert r[k..] == s[k + 1..];
    assert s == s[..k] + [s[k]] + s[k + 1..];
  }

  // ---------------------------------------------------------------------
  // Positions: what list_insert and list_remove do
  // ---------------------------------------------------------------------

  /**
   * The index at which list_insert places the new element in a list of `n`
   * elements, or -1 when it ignores the call.  From position 2 on, the walk
   * to the predecessor starts at the head's successor; at position 1 it
   * starts there too, so the element lands at index 2.
   */
  function InsertIndex(n: nat, p: int): (k: int)
    ensures k == -1 <==> p < 0 || p > n
    ensures k != -1 ==> 0 <= k <= n
  {
    if p < 0 || p > n then -1
    else if p == 1 && n >= 2 then 2
    else p
  }

  /** The contents after list_insert(e, p) on a list holding `s`. */
  function Inserted<T>(s: seq<T>, e: T, p: int): (r: seq<T>)
    ensures InsertIndex(|s|, p) == -1 ==> r == s
    ensures InsertIndex(|s|, p) != -1 ==> |r| == |s| + 1 && r[InsertIndex(|s|, p)] == e
  {
    var k := InsertIndex(|s|, p);
    if k == -1 then s else InsertAt(s, e, k)
  }

  /**
   * The index of the element list_remove(p) takes out of a list of `n`
   * elements, or -1 when it returns NULL.  Position 1 takes index 2 for the
   * same reason as in list_insert; the value `n` (only for p == 1, n == 2)
   * is the case in which the code dereferences NULL.
   */
  function RemoveIndex(n: nat, p: int): (k: int)
    ensures k == -1 <==> p < 0 || p >= n
    ensures k != -1 ==> 0 <= k <= n
    ensures k == n ==> p == 1 && n == 2
  {
    if p < 0 || p >= n then -1
    else if p == 0 || n == 1 then 0
    else if p == 1 then 2
    else p
  }

  /**
   * For every position that list_insert accepts, list_remove at the same
   * position takes the inserted element out again and restores the
   * contents, including at position 1, where both operations are off by
   * one.  The one exception is p == 1 on a 1-element list, where the insert
   * appends and the remove then dereferences NULL.  Only the contents come
   * back: for 2 <= p == |s| the insert appends and moves `tail`, but the
   * remove goes through the general path and leaves `tail` on the removed
   * node (see Remove).
   */
  lemma RemoveUndoesInsert<T>(s: seq<T>, e: T, p: int)
    requires 0 <= p <= |s|
    requires !(p == 1 && |s| == 1)
    ensures InsertIndex(|s|, p) == RemoveIndex(|s| + 1, p)
    ensures Inserted(s, e, p)[InsertIndex(|s|, p)] == e
    ensures RemoveAt(Inserted(s, e, p), InsertIndex(|s|, p)) == s
  {
    RemoveAtInsertAt(s, e, InsertIndex(|s|, p));
  }

  /** list_insert at position 1 of a list of two or more puts the element at index 2. */
  lemma InsertAtOneLandsAtTwo<T>(s: seq<T>, e: T)
    requires |s| >= 2
    ensures Inserted(s, e, 1) == InsertAt(s, e, 2)
    ensures s[1] != e ==> Inserted(s, e, 1) != InsertAt(s, e, 1)
  {
    assert InsertAt(s, e, 1)[1] == e;
    assert Inserted(s, e, 1)[1] == s[1];
  }

  /** list_remove at position 1 of a list of three or more takes out index 2. */
  lemma RemoveAtOneTakesThird<T>(s: seq<T>)
    requires |s| >= 3
    ensures RemoveIndex(|s|, 1) == 2
    ensures s[1] != s[2] ==> RemoveAt(s, 2) != RemoveAt(s, 1)
  {
    assert RemoveAt(s, 2)[1] == s[1];
    assert RemoveAt(s, 1)[1] == s[2];
  }

  // ---------------------------------------------------------------------
  // Duplicates: what the header describes
  // ---------------------------------------------------------------------

  /** `s` with its first match kept and every later match dropped. */
  function KeepFirst<T>(s: seq<T>, p: T -> bool): (r: seq<T>)
    ensures |r| <= |s|
  {
    var i := FirstIndex(s, p);
    if i == -1 then s else s[..i + 1] + Filtered(s[i + 1..], Not(p))
  }

  /** Up to and including the first match, there is one match and the rest pass `Not(p)`. */
  lemma FirstMatchPrefix<T>(s: seq<T>, p: T -> bool)
    requires FirstIndex(s, p) != -1
    ensures Count(s[..FirstIndex(s, p) + 1], p) == 1
    ensures Filtered(s[..FirstIndex(s, p) + 1], Not(p)) == s[..FirstIndex(s, p)]
  {
    var i := FirstIndex(s, p);
    var head := s[..i + 1];
    assert head[..|head| - 1] == s[..i];
    CountExtremes(s[..i], p);
    assert forall j :: 0 <= j < i ==> Not(p)(s[..i][j]);
    FilterAll(s[..i], Not(p));
  }

  /** Nothing that passed `Not(p)` matches `p`. */
  lemma NoMatchAfterFilter<T>(s: seq<T>, p: T -> bool)
    ensures Count(Filtered(s, Not(p)), p) == 0
  {
    var f := Filtered(s, Not(p));
    forall j | 0 <= j < |f| ensures !p(f[j]) {
      assert Not(p)(f[j]);
    }
    CountExtremes(f, p);
  }

  /** Keeping the first match leaves one match when there was any. */
  lemma KeepFirstCount<T>(s: seq<T>, p: T -> bool)
    ensures Count(KeepFirst(s, p), p) == (if Count(s, p) == 0 then 0 else 1)
  {
    var i := FirstIndex(s, p);
    FirstIndexCount(s, p);
    if i != -1 {
      var head, f := s[..i + 1], Filtered(s[i + 1..], Not(p));
      assert KeepFirst(s, p) == head + f;
      FirstMatchPrefix(s, p);
      NoMatchAfterFilter(s[i + 1..], p);
      CountAppend(head, f, p);
    }
  }

  /** Keeping the first match leaves it where it was. */
  lemma KeepFirstIndex<T>(s: seq<T>, p: T -> bool)
    ensures FirstIndex(KeepFirst(s, p), p) == FirstIndex(s, p)
  {
    var i := FirstIndex(s, p);
    if i != -1 {
      var r := KeepFirst(s, p);
      assert forall j :: 0 <= j <= i ==> r[j] == s[j];
    }
  }

  /** Keeping the first match leaves the non-matching elements as they were. */
  lemma KeepFirstOthers<T>(s: seq<T>, p: T -> bool)
    ensures Filtered(KeepFirst(s, p), Not(p)) == Filtered(s, Not(p))
  {
    var i := FirstIndex(s, p);
    if i != -1 {
      var head, rest := s[..i + 1], s[i + 1..];
      var f := Filtered(rest, Not(p));
      assert s == head + rest;
      FirstMatchPrefix(s, p);
      FilterAppend(head, f, Not(p));
      FilterAppend(head, rest, Not(p));
      FilterAll(f, Not(p));
    }
  }

  /**
   * Keeping the first match leaves exactly one match when there was any, at
   * the same place, and leaves the non-matching elements as they were.
   */
  lemma KeepFirstKeepsOne<T>(s: seq<T>, p: T -> bool)
    ensures Count(KeepFirst(s, p), p) == (if Count(s, p) == 0 then 0 else 1)
    ensures FirstIndex(KeepFirst(s, p), p) == FirstIndex(s, p)
    ensures Filtered(KeepFirst(s, p), Not(p)) == Filtered(s, Not(p))
  {
    KeepFirstCount(s, p);
    KeepFirstIndex(s, p);
    KeepFirstOthers(s, p);
  }

  /** Keeping the first match drops every other match. */
  lemma KeepFirstLength<T>(s: seq<T>, p: T -> bool)
    requires Count(s, p) > 0
    ensures |KeepFirst(s, p)| == |s| - Count(s, p) + 1
  {
    var i := FirstIndex(s, p);
    FirstIndexCount(s, p);
    var rest := s[i + 1..];
    assert |KeepFirst(s, p)| == i + 1 + Count(rest, Not(p));
    FirstMatchPrefix(s, p);
    CountSplit(s, i + 1, p);
    CountComplement(rest, p);
  }

  /**
   * Dropping every match (what list_remove_duplicates does) and keeping the
   * first one (what the header says) differ whenever there is a match.
   */
  lemma DroppingAllIsNotKeepingFirst<T>(s: seq<T>, p: T -> bool)
    requires Count(s, p) > 0
    ensures |KeepFirst(s, p)| == |Filtered(s, Not(p))| + 1
    ensures KeepFirst(s, p) != Filtered(s, Not(p))
  {
    KeepFirstLength(s, p);
    CountComplement(s, p);
  }

  // ---------------------------------------------------------------------
  // Selection by marked positions
  // ---------------------------------------------------------------------

  /** The presence array of list_get_sublist, `n` entries long, built position by position. */
  function Marks(n: nat, idx: seq<int>): (m: seq<bool>)
    ensures |m| == n
  {
    if n == 0 then [] else Marks(n - 1, idx) + [n - 1 in idx]
  }

  /** Position q is marked iff q occurs in `idx`. */
  lemma {:induction false} MarksMeaning(n: nat, idx: seq<int>)
    ensures forall q :: 0 <= q < n ==> (Marks(n, idx)[q] <==> q in idx)
  {
    if n > 0 {
      MarksMeaning(n - 1, idx);
    }
  }

  /** The elements of `s` at the marked positions, in the order of `s`. */
  function Selected<T>(s: seq<T>, m: seq<bool>): (r: seq<T>)
    requires |m| == |s|
    ensures |r| == Count(m, IsSet)
  {
    if s == [] then []
    else Selected(s[..|s| - 1], m[..|m| - 1]) + (if m[|m| - 1] then [s[|s| - 1]] else [])
  }

  /** Marking can only add: a position that `b` marks is marked in `a` too. */
  lemma {:induction false} CountMono(a: seq<bool>, b: seq<bool>)
    requires |a| == |b|
    requires forall j :: 0 <= j < |b| ==> (b[j] ==> a[j])
    ensures Count(b, IsSet) <= Count(a, IsSet)
  {
    if b != [] {
      CountMono(a[..|a| - 1], b[..|b| - 1]);
    }
  }

  /** One extra marked position adds at most one to the count. */
  lemma {:induction false} CountOneMore(a: seq<bool>, b: seq<bool>, q: int)
    requires |a| == |b|
    requires forall j :: 0 <= j < |b| && j != q ==> (b[j] ==> a[j])
    ensures Count(b, IsSet) <= Count(a, IsSet) + 1
  {
    if b != [] {
      var a', b' := a[..|a| - 1], b[..|b| - 1];
      if q == |b| - 1 {
        CountMono(a', b');
      } else {
        CountOneMore(a', b', q);
      }
    }
  }

  /** At most `|idx|` positions are marked, however `idx` repeats or overshoots. */
  lemma {:induction false} MarksAtMost(n: nat, idx: seq<int>)
    ensures Count(Marks(n, idx), IsSet) <= |idx|
  {
    if idx != [] {
      var idx' := idx[..|idx| - 1];
      assert idx == idx' + [idx[|idx| - 1]];
      MarksAtMost(n, idx');
      MarksMeaning(n, idx');
      MarksMeaning(n, idx);
      CountOneMore(Marks(n, idx'), Marks(n, idx), idx[|idx| - 1]);
    } else {
      MarksMeaning(n, idx);
      CountExtremes(Marks(n, idx), IsSet);
    }
  }

  /** Nothing is marked from `i` on once the first `i` positions hold every mark. */
  lemma CountPrefixFull(m: seq<bool>, i: int)
    requires 0 <= i <= |m|
    requires Count(m, IsSet) <= Count(m[..i], IsSet)
    ensures forall k :: i <= k < |m| ==> !m[k]
  {
    assert m == m[..i] + m[i..];
    CountAppend(m[..i], m[i..], IsSet);
    CountExtremes(m[i..], IsSet);
    assert forall k :: i <= k < |m| ==> m[k] == m[i..][k - i];
  }

  /** Unmarked positions at the end contribute nothing to the selection. */
  lemma {:induction false} SelectedPrefix<T>(s: seq<T>, m: seq<bool>, i: int)
    requires |m| == |s| && 0 <= i <= |s|
    requires forall k :: i <= k < |m| ==> !m[k]
    ensures Selected(s, m) == Selected(s[..i], m[..i])
    decreases |s|
  {
    if |s| > i {
      var s', m' := s[..|s| - 1], m[..|m| - 1];
      assert s'[..i] == s[..i] && m'[..i] == m[..i];
      SelectedPrefix(s', m', i);
    } else {
      assert s[..i] == s && m[..i] == m;
    }
  }

  /**
   * Stopping the copy once `count` marked elements are copied, or at the end,
   * loses nothing when no more than `count` positions are marked.
   */
  lemma SelectedStop<T>(s: seq<T>, m: seq<bool>, i: int, count: int)
    requires |m| == |s| && 0 <= i <= |s|
    requires Count(m, IsSet) <= count
    requires i == |s| || count <= |Selected(s[..i], m[..i])|
    ensures Selected(s[..i], m[..i]) == Selected(s, m)
  {
    if i < |s| {
      CountPrefixFull(m, i);
      SelectedPrefix(s, m, i);
    } else {
      assert s[..i] == s && m[..i] == m;
    }
  }

  /** Extending a scanned prefix by one position extends its selection by that element if marked. */
  lemma SelectedStep<T>(s: seq<T>, m: seq<bool>, i: int)
    requires |m| == |s| && 0 <= i < |s|
    ensures Count(m[..i + 1], IsSet) == Count(m[..i], IsSet) + (if m[i] then 1 else 0)
    ensures Selected(s[..i + 1], m[..i + 1]) == Selected(s[..i], m[..i]) + (if m[i] then [s[i]] else [])
  {
    assert s[..i + 1][..i] == s[..i] && m[..i + 1][..i] == m[..i];
  }

  /** The selection from a nonempty sequence is the selection from all but its last position, plus that element if marked. */
  lemma SelectedLast<T>(s: seq<T>, m: seq<bool>)
    requires |m| == |s| > 0
    ensures Selected(s, m) == Selected(s[..|s| - 1], m[..|m| - 1]) + (if m[|m| - 1] then [s[|s| - 1]] else [])
  {
  }

  /** Dropping the largest of strictly increasing positions leaves strictly increasing positions below it. */
  lemma SortedInit(idx: seq<int>, idx': seq<int>, n: int)
    requires forall k :: 0 <= k < |idx| ==> 0 <= idx[k] < n
    requires forall a, b :: 0 <= a < b < |idx| ==> idx[a] < idx[b]
    requires idx != [] && idx' == idx[..|idx| - 1]
    ensures forall k :: 0 <= k < |idx'| ==> 0 <= idx'[k] < idx[|idx| - 1]
    ensures forall a, b :: 0 <= a < b < |idx'| ==> idx'[a] < idx'[b]
    ensures forall q :: 0 <= q < idx[|idx| - 1] ==> (q in idx <==> q in idx')
  {
    assert idx == idx' + [idx[|idx| - 1]];
  }

  /** Elements picked at the positions before the last, followed by the last element, are the elements picked at all positions. */
  lemma PicksLast<T>(s: seq<T>, s': seq<T>, idx: seq<int>, idx': seq<int>, a: seq<T>)
    requires |s| > 0 && s' == s[..|s| - 1]
    requires idx != [] && idx' == idx[..|idx| - 1] && idx[|idx| - 1] == |s| - 1
    requires forall k :: 0 <= k < |idx'| ==> 0 <= idx'[k] < |s'|
    requires |a| == |idx'|
    requires forall k :: 0 <= k < |a| ==> a[k] == s'[idx'[k]]
    ensures forall k :: 0 <= k < |idx| ==> (a + [s[|s| - 1]])[k] == s[idx[k]]
  {
    forall k | 0 <= k < |idx|
      ensures (a + [s[|s| - 1]])[k] == s[idx[k]]
    {
      if k < |a| {
        assert idx'[k] == idx[k];
      }
    }
  }

  /**
   * For any presence array marking exactly the strictly increasing,
   * in-range positions `idx`, the selection is the elements at those
   * positions, one each, in that order.
   */
  lemma {:induction false} SelectedPositions<T>(s: seq<T>, m: seq<bool>, idx: seq<int>)
    requires |m| == |s|
    requires forall k :: 0 <= k < |idx| ==> 0 <= idx[k] < |s|
    requires forall a, b :: 0 <= a < b < |idx| ==> idx[a] < idx[b]
    requires forall q :: 0 <= q < |s| ==> (m[q] <==> q in idx)
    ensures |Selected(s, m)| == |idx|
    ensures forall k :: 0 <= k < |idx| ==> Selected(s, m)[k] == s[idx[k]]
    decreases |s|, 1
  {
    if idx == [] {
      CountExtremes(m, IsSet);
    } else if idx[|idx| - 1] == |s| - 1 {
      SelectedPositionsLast(s, m, idx);
    } else {
      SelectedPositionsBelow(s, m, idx);
    }
  }

  /** The case of `SelectedPositions` where the last position of `s` is the largest listed one. */
  lemma {:induction false} SelectedPositionsLast<T>(s: seq<T>, m: seq<bool>, idx: seq<int>)
    requires |m| == |s|
    requires forall k :: 0 <= k < |idx| ==> 0 <= idx[k] < |s|
    requires forall a, b :: 0 <= a < b < |idx| ==> idx[a] < idx[b]
    requires forall q :: 0 <= q < |s| ==> (m[q] <==> q in idx)
    requires idx != [] && idx[|idx| - 1] == |s| - 1
    ensures |Selected(s, m)| == |idx|
    ensures forall k :: 0 <= k < |idx| ==> Selected(s, m)[k] == s[idx[k]]
    decreases |s|, 0
  {
    var n := |s|;
    var s', m', idx' := s[..n - 1], m[..n - 1], idx[..|idx| - 1];
    SortedInit(idx, idx', n);
    SelectedPositions(s', m', idx');
    assert m[n - 1] by {
      assert idx[|idx| - 1] in idx;
    }
    SelectedLast(s, m);
    PicksLast(s, s', idx, idx', Selected(s', m'));
  }

  /** The case of `SelectedPositions` where every listed position lies before the last position of `s`. */
  lemma {:induction false} SelectedPositionsBelow<T>(s: seq<T>, m: seq<bool>, idx: seq<int>)
    requires |m| == |s|
    requires forall k :: 0 <= k < |idx| ==> 0 <= idx[k] < |s|
    requires forall a, b :: 0 <= a < b < |idx| ==> idx[a] < idx[b]
    requires forall q :: 0 <= q < |s| ==> (m[q] <==> q in idx)
    requires idx != [] && idx[|idx| - 1] != |s| - 1
    ensures |Selected(s, m)| == |idx|
    ensures forall k :: 0 <= k < |idx| ==> Selected(s, m)[k] == s[idx[k]]
    decreases |s|, 0
  {
    var n := |s|;
    assert forall k :: 0 <= k < |idx| ==> idx[k] < n - 1 by {
      forall k | 0 <= k < |idx| ensures idx[k] < n - 1 {
        assert idx[k] <= idx[|idx| - 1];
      }
    }
    assert !m[n - 1];
    var s', m' := s[..n - 1], m[..n - 1];
    SelectedLast(s, m);
    assert Selected(s, m) == Selected(s', m') + [];
    SelectedPositions(s', m', idx);
  }

  /**
   * For in-range, strictly increasing positions, list_get_sublist selects
   * exactly the elements at those positions, one each, in that order.
   * Since `Marks` only asks whether a position occurs, any permutation of
   * such positions, with repeats and out-of-range entries added, selects the
   * same elements.
   */
  lemma SelectedSorted<T>(s: seq<T>, idx: seq<int>)
    requires forall k :: 0 <= k < |idx| ==> 0 <= idx[k] < |s|
    requires forall a, b :: 0 <= a < b < |idx| ==> idx[a] < idx[b]
    ensures |Selected(s, Marks(|s|, idx))| == |idx|
    ensures forall k :: 0 <= k < |idx| ==> Selected(s, Marks(|s|, idx))[k] == s[idx[k]]
  {
    MarksMeaning(|s|, idx);
    SelectedPositions(s, Marks(|s|, idx), idx);
  }
}
