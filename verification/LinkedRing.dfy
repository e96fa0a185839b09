/** The circular doubly linked list of lib/list.h. */
module LinkedRing {
  import opened Sequences

  /** `struct list_node`: a list head or a list element. */
  class ListNode {
    var prev: ListNode
    var next: ListNode

    /** list_init */
    constructor ()
      ensures IsRing([this])
    {
      prev, next := this, this;
    }
  }

  function After(s: seq<ListNode>, i: nat): ListNode
    requires i < |s|
  {
    if i + 1 < |s| then s[i + 1] else s[0]
  }

  function Before(s: seq<ListNode>, i: nat): ListNode
    requires i < |s|
  {
    if i > 0 then s[i - 1] else s[|s| - 1]
  }

  /** Following `next` from `s[0]` visits the nodes of `s`, once each, and returns to `s[0]`;
      `prev` leads the other way round. */
  ghost predicate IsRing(s: seq<ListNode>)
    reads s
  {
    && s != []
    && NoDup(s)
    && (forall i {:trigger s[i].next} :: 0 <= i < |s| ==> s[i].next == After(s, i))
    && (forall i {:trigger s[i].prev} :: 0 <= i < |s| ==> s[i].prev == Before(s, i))
  }

  /** `s` is linked in itself; where its ends lead is open. */
  ghost predicate IsSegment(s: seq<ListNode>)
    reads s
  {
    && NoDup(s)
    && (forall i {:trigger s[i].next} :: 0 <= i < |s| - 1 ==> s[i].next == s[i + 1])
    && (forall i {:trigger s[i].prev} :: 0 < i < |s| ==> s[i].prev == s[i - 1])
  }

  /** A list: its head and, in order, its elements. */
  ghost predicate IsList(head: ListNode, elements: seq<ListNode>)
    reads [head] + elements
  {
    IsRing([head] + elements)
  }

  ghost predicate Apart(s: seq<ListNode>, t: seq<ListNode>) {
    forall i, j :: 0 <= i < |s| && 0 <= j < |t| ==> s[i] != t[j]
  }

  /** A ring can be entered at any of its nodes. */
  lemma Rotate(s: seq<ListNode>, t: seq<ListNode>)
    requires IsRing(s + t) && s != []
    ensures IsRing(t + s)
  {
    var a, b := s + t, t + s;
    forall i | 0 <= i < |b|
      ensures b[i].next == After(b, i) && b[i].prev == Before(b, i)
    {
      var j := if i < |t| then i + |s| else i - |t|;
      assert b[i] == a[j];
      assert a[j].next == After(a, j) && a[j].prev == Before(a, j);
    }
    assert NoDup(b) by { SwapNoDup(s, t); }
  }

  lemma SwapNoDup(s: seq<ListNode>, t: seq<ListNode>)
    requires NoDup(s + t)
    ensures NoDup(t + s) && NoDup(s) && NoDup(t) && Apart(s, t)
  {
    var a, b := s + t, t + s;
    forall i, j | 0 <= i < j < |b|
      ensures b[i] != b[j]
    {
      var i', j' := if i < |t| then i + |s| else i - |t|, if j < |t| then j + |s| else j - |t|;
      assert b[i] == a[i'] && b[j] == a[j'] && i' != j';
    }
    forall i, j | 0 <= i < |s| && 0 <= j < |t|
      ensures s[i] != t[j]
    {
      assert a[i] == s[i] && a[|s| + j] == t[j];
    }
    assert forall i :: 0 <= i < |s| ==> s[i] == a[i];
    assert forall i :: 0 <= i < |t| ==> t[i] == a[|s| + i];
  }

  /** The first half of list_splice: takes `seg` out of the ring. */
  method Detach(first: ListNode, last: ListNode, ghost seg: seq<ListNode>, ghost rest: seq<ListNode>)
    requires seg != [] && rest != [] && IsRing(seg + rest) && first == seg[0] && last == seg[|seg| - 1]
    modifies rest
    ensures IsRing(rest) && IsSegment(seg) && Apart(seg, rest)
  {
    ghost var r := seg + rest;
    SwapNoDup(seg, rest);
    assert r[0] == first && r[|seg| - 1] == last && r[|seg|] == rest[0] && r[|r| - 1] == rest[|rest| - 1];
    assert forall i {:trigger rest[i]} :: 0 <= i < |rest| ==> rest[i] == r[|seg| + i];
    assert forall i {:trigger seg[i]} :: 0 <= i < |seg| ==> seg[i] == r[i];
    first.prev.next := last.next;
    last.next.prev := first.prev;
  }

  /** The second half of list_splice: puts `seg` into a ring, just before `before`. */
  method Attach(before: ListNode, first: ListNode, last: ListNode, ghost seg: seq<ListNode>,
          ghost ring: seq<ListNode>, ghost k: nat)
    requires seg != [] && IsSegment(seg) && first == seg[0] && last == seg[|seg| - 1]
    requires IsRing(ring) && k < |ring| && ring[k] == before && Apart(seg, ring)
    modifies seg, ring
    ensures IsRing(ring[..k] + seg + ring[k..])
  {
    ghost var r := ring[..k] + seg + ring[k..];
    ghost var m := |seg|;
    assert forall i {:trigger r[i]} :: 0 <= i < |r| ==>
      r[i] == if i < k then ring[i] else if i < k + m then seg[i - k] else ring[i - m];
    InsertNoDup(seg, ring, k);
    first.prev := before.prev;
    last.next := before;
    before.prev.next := first;
    before.prev := last;
    AttachedRing(seg, ring, k);
  }

  lemma InsertNoDup(seg: seq<ListNode>, ring: seq<ListNode>, k: nat)
    requires NoDup(seg) && NoDup(ring) && Apart(seg, ring) && k <= |ring|
    ensures NoDup(ring[..k] + seg + ring[k..])
  {
    var r, m := ring[..k] + seg + ring[k..], |seg|;
    forall i, j | 0 <= i < j < |r|
      ensures r[i] != r[j]
    {
      assert r[i] == if i < k then ring[i] else if i < k + m then seg[i - k] else ring[i - m];
      assert r[j] == if j < k then ring[j] else if j < k + m then seg[j - k] else ring[j - m];
    }
  }

  /** The links that make a ring of `ring` with `seg` inserted at `k`. */
  lemma AttachedRing(seg: seq<ListNode>, ring: seq<ListNode>, k: nat)
    requires seg != [] && k < |ring| && NoDup(ring[..k] + seg + ring[k..])
    requires forall i {:trigger seg[i].next} :: 0 <= i < |seg| ==>
      seg[i].next == if i + 1 < |seg| then seg[i + 1] else ring[k]
    requires forall i {:trigger seg[i].prev} :: 0 <= i < |seg| ==>
      seg[i].prev == if i > 0 then seg[i - 1] else Before(ring, k)
    requires forall i {:trigger ring[i].next} :: 0 <= i < |ring| ==>
      ring[i].next == if ring[i] == Before(ring, k) then seg[0] else After(ring, i)
    requires forall i {:trigger ring[i].prev} :: 0 <= i < |ring| ==>
      ring[i].prev == if i == k then seg[|seg| - 1] else Before(ring, i)
    requires NoDup(ring)
    ensures IsRing(ring[..k] + seg + ring[k..])
  {
    var r, m := ring[..k] + seg + ring[k..], |seg|;
    assert forall i {:trigger r[i]} :: 0 <= i < |r| ==>
      r[i] == if i < k then ring[i] else if i < k + m then seg[i - k] else ring[i - m];
    forall i | 0 <= i < |r|
      ensures r[i].next == After(r, i) && r[i].prev == Before(r, i)
    {
      if k <= i < k + m {
        var j := i - k;
        assert seg[j].next == if j + 1 < m then seg[j + 1] else ring[k];
        assert seg[j].prev == if j > 0 then seg[j - 1] else Before(ring, k);
      } else {
        var j := if i < k then i else i - m;
        assert r[i] == ring[j];
        assert ring[j].next == if ring[j] == Before(ring, k) then seg[0] else After(ring, j);
        assert ring[j].prev == if j == k then seg[m - 1] else Before(ring, j);
        assert ring[j] == Before(ring, k) <==> j == if k > 0 then k - 1 else |ring| - 1;
      }
    }
  }

  /** list_splice: moves `seg`, the nodes from `first` up to but not including `last`, from the ring
      `seg + rest` to just before `before`, which is in `rest`, or in another ring `other`. */
  method Splice(before: ListNode, first: ListNode, last: ListNode,
                ghost seg: seq<ListNode>, ghost rest: seq<ListNode>, ghost other: seq<ListNode>, ghost k: nat)
    requires rest != [] && IsRing(seg + rest) && first == (seg + rest)[0] && last == rest[0]
    requires if other == [] then k < |rest| && rest[k] == before
             else IsRing(other) && Apart(seg + rest, other) && k < |other| && other[k] == before
    modifies seg, rest, other
    ensures other == [] ==> IsRing(rest[..k] + seg + rest[k..])
    ensures other != [] ==> IsRing(rest) && IsRing(other[..k] + seg + other[k..])
  {
    SpliceEnds(seg, rest);
    if first == last {
      assert other == [] ==> rest[..k] + seg + rest[k..] == rest;
      assert other != [] ==> other[..k] + seg + other[k..] == other;
      return;
    }
    Transplant(before, first, last.prev, seg, rest, other, k);
  }

  method Transplant(before: ListNode, first: ListNode, last: ListNode,
                    ghost seg: seq<ListNode>, ghost rest: seq<ListNode>, ghost other: seq<ListNode>, ghost k: nat)
    requires seg != [] && rest != [] && IsRing(seg + rest) && first == seg[0] && last == seg[|seg| - 1]
    requires if other == [] then k < |rest| && rest[k] == before
             else IsRing(other) && Apart(seg + rest, other) && k < |other| && other[k] == before
    modifies seg, rest, other
    ensures other == [] ==> IsRing(rest[..k] + seg + rest[k..])
    ensures other != [] ==> IsRing(rest) && IsRing(other[..k] + seg + other[k..])
  {
    ApartParts(seg, rest, other);
    Detach(first, last, seg, rest);
    Attach(before, first, last, seg, if other == [] then rest else other, k);
  }

  lemma SpliceEnds(seg: seq<ListNode>, rest: seq<ListNode>)
    requires rest != [] && IsRing(seg + rest)
    ensures (seg + rest)[0] == rest[0] <==> seg == []
    ensures seg == [] ==> seg + rest == rest
    ensures seg != [] ==> (seg + rest)[0] == seg[0] && rest[0].prev == seg[|seg| - 1]
  {
    var r := seg + rest;
    if seg == [] {
      assert r == rest;
    } else {
      assert r[|seg|] == rest[0] && r[|seg|].prev == Before(r, |seg|);
    }
  }

  lemma ApartParts(seg: seq<ListNode>, rest: seq<ListNode>, other: seq<ListNode>)
    requires Apart(seg + rest, other)
    ensures Apart(seg, other) && Apart(rest, other)
  {
    assert forall i :: 0 <= i < |seg| ==> (seg + rest)[i] == seg[i];
    assert forall i :: 0 <= i < |rest| ==> (seg + rest)[|seg| + i] == rest[i];
  }

  /** list_insert */
  method Insert(before: ListNode, elem: ListNode, ghost ring: seq<ListNode>, ghost k: nat)
    requires IsRing(ring) && k < |ring| && ring[k] == before && elem !in ring
    modifies elem, ring
    ensures IsRing(ring[..k] + [elem] + ring[k..])
  {
    elem.prev := before.prev;
    elem.next := before;
    before.prev.next := elem;
    before.prev := elem;
    InsertNoDup([elem], ring, k);
    AttachedRing([elem], ring, k);
  }

  /** list_push_front */
  method PushFront(list: ListNode, elem: ListNode, ghost elements: seq<ListNode>)
    requires IsList(list, elements) && elem !in [list] + elements
    modifies elem, [list] + elements
    ensures IsList(list, [elem] + elements)
  {
    ghost var ring := [list] + elements;
    assert ring[0].next == After(ring, 0);
    Insert(list.next, elem, ring, if elements == [] then 0 else 1);
    if elements == [] {
      assert ring[..0] + [elem] + ring[0..] == [elem] + [list];
      Rotate([elem], [list]);
      assert [list] + ([elem] + elements) == [list] + [elem];
    } else {
      assert ring[..1] + [elem] + ring[1..] == [list] + ([elem] + elements);
    }
  }

  /** list_push_back */
  method PushBack(list: ListNode, elem: ListNode, ghost elements: seq<ListNode>)
    requires IsList(list, elements) && elem !in [list] + elements
    modifies elem, [list] + elements
    ensures IsList(list, elements + [elem])
  {
    ghost var ring := [list] + elements;
    Insert(list, elem, ring, 0);
    assert ring[..0] + [elem] + ring[0..] == [elem] + ring;
    Rotate([elem], ring);
    assert ring + [elem] == [list] + (elements + [elem]);
  }

  /** list_replace: `element` takes the place of `position`. */
  method Replace(element: ListNode, position: ListNode, ghost ring: seq<ListNode>, ghost k: nat)
    requires IsRing(ring) && k < |ring| && ring[k] == position && element !in ring
    modifies element, ring
    ensures IsRing(ring[k := element])
  {
    element.next := position.next;
    element.next.prev := element;
    element.prev := position.prev;
    element.prev.next := element;
  }

  /** A ring but for node `k`, whose memory may hold anything by now. */
  ghost predicate IsRingBut(s: seq<ListNode>, k: nat)
    reads set x | x in s && k < |s| && x != s[k]
  {
    && k < |s| && NoDup(s)
    && (forall i {:trigger s[i].next} :: 0 <= i < |s| && s[i] != s[k] ==> s[i].next == After(s, i))
    && (forall i {:trigger s[i].prev} :: 0 <= i < |s| && s[i] != s[k] ==> s[i].prev == Before(s, i))
  }

  /** list_moved: `list` is a copy, at a new address, of `orig`, whose memory may have been reused: it is
      compared, but nothing of it is read or written. */
  method Moved(list: ListNode, orig: ListNode, ghost ring: seq<ListNode>, ghost k: nat)
    requires IsRingBut(ring, k) && ring[k] == orig && list !in ring
    requires list.prev == Before(ring, k) && list.next == After(ring, k)
    modifies list, set x | x in ring && x != orig
    ensures IsRing(ring[k := list])
  {
    if list.next == orig {
      list.prev, list.next := list, list;
    } else {
      list.prev.next, list.next.prev := list, list;
    }
  }

  /** list_move */
  method Move(dst: ListNode, src: ListNode, ghost elements: seq<ListNode>)
    requires IsList(src, elements) && dst !in [src] + elements
    modifies dst, [src] + elements
    ensures IsList(dst, elements)
  {
    ghost var ring := [src] + elements;
    dst.prev, dst.next := src.prev, src.next;
    Moved(dst, src, ring, 0);
    assert ring[0 := dst] == [dst] + elements;
  }

  /** list_remove: the node that followed `elem`. */
  method Remove(elem: ListNode, ghost ring: seq<ListNode>, ghost k: nat) returns (r: ListNode)
    requires IsRing(ring) && |ring| > 1 && k < |ring| && ring[k] == elem
    modifies ring
    ensures IsRing(RemoveAt(ring, k)) && r == After(ring, k)
  {
    ghost var rest := ring[k + 1..] + ring[..k];
    assert ring == ring[..k] + ring[k..];
    RotateBy(ring, k);
    assert ring[k..] + ring[..k] == [elem] + rest;
    assert rest != [];
    Detach(elem, elem, [elem], rest);
    RotateBy(rest, |ring| - k - 1);
    r := elem.next;
  }

  /** list_pop_front */
  method PopFront(list: ListNode, ghost elements: seq<ListNode>) returns (front: ListNode)
    requires IsList(list, elements) && elements != []
    modifies [list] + elements
    ensures IsList(list, elements[1..]) && front == elements[0]
  {
    ghost var ring := [list] + elements;
    assert ring[0].next == After(ring, 0);
    front := list.next;
    var next := Remove(front, ring, 1);
    assert RemoveAt(ring, 1) == [list] + elements[1..];
  }

  /** list_pop_back */
  method PopBack(list: ListNode, ghost elements: seq<ListNode>) returns (back: ListNode)
    requires IsList(list, elements) && elements != []
    modifies [list] + elements
    ensures IsList(list, elements[..|elements| - 1]) && back == elements[|elements| - 1]
  {
    ghost var ring := [list] + elements;
    assert ring[0].prev == Before(ring, 0);
    back := list.prev;
    var next := Remove(back, ring, |ring| - 1);
    assert RemoveAt(ring, |ring| - 1) == [list] + elements[..|elements| - 1];
  }

  /** list_size */
  method Size(list: ListNode, ghost elements: seq<ListNode>) returns (count: nat)
    requires IsList(list, elements)
    ensures count == |elements|
  {
    ghost var ring := [list] + elements;
    count := 0;
    assert ring[0].next == After(ring, 0);
    var e := list.next;
    while e != list
      invariant count <= |elements| && e == After(ring, count)
      decreases |elements| - count
    {
      assert ring[count + 1].next == After(ring, count + 1);
      count := count + 1;
      e := e.next;
    }
  }

  /** list_is_empty, list_is_short and list_is_singleton tell 0, at most 1 and exactly 1 element
      from the two links of the head. */
  method Tests(list: ListNode, ghost elements: seq<ListNode>) returns (isEmpty: bool, isShort: bool, isSingleton: bool)
    requires IsList(list, elements)
    ensures isEmpty <==> elements == []
    ensures isShort <==> |elements| <= 1
    ensures isSingleton <==> |elements| == 1
  {
    ghost var ring := [list] + elements;
    assert ring[0].next == After(ring, 0) && ring[0].prev == Before(ring, 0);
    isEmpty := list.next == list;
    isShort := list.next == list.prev;
    isSingleton := isShort && !isEmpty;
  }

  lemma ApartRotated(node: ListNode, s: seq<ListNode>, t: seq<ListNode>)
    requires Apart([node] + s, t)
    ensures Apart(s + [node], t)
    ensures forall i :: 0 <= i < |s| ==> s[i] == ([node] + s)[i + 1]
  {
    forall i, j | 0 <= i < |s + [node]| && 0 <= j < |t|
      ensures (s + [node])[i] != t[j]
    {
      assert (s + [node])[i] == ([node] + s)[if i < |s| then i + 1 else 0];
    }
  }

  /** The splice of list_push_back_all: `seg` moves to just before the head of the ring `to`. */
  method TakeAll(dst: ListNode, src: ListNode, ghost seg: seq<ListNode>, ghost to: seq<ListNode>)
    requires IsRing(seg + [src]) && IsRing(to) && to[0] == dst && Apart(seg + [src], to)
    requires src.next == (seg + [src])[0]
    modifies seg, [src], to
    ensures IsRing(seg + to) && IsRing([src])
  {
    Splice(dst, src.next, src, seg, [src], to, 0);
    assert to[..0] + seg + to[0..] == seg + to;
  }

  /** list_push_back_all */
  method PushBackAll(dst: ListNode, src: ListNode, ghost dstElements: seq<ListNode>, ghost srcElements: seq<ListNode>)
    requires IsList(dst, dstElements) && IsList(src, srcElements)
    requires Apart([dst] + dstElements, [src] + srcElements)
    modifies [dst] + dstElements, [src] + srcElements
    ensures IsList(dst, dstElements + srcElements) && IsList(src, [])
  {
    ghost var to, from := [dst] + dstElements, [src] + srcElements;
    assert from[0].next == After(from, 0);
    Rotate([src], srcElements);
    ApartRotated(src, srcElements, to);
    TakeAll(dst, src, srcElements, to);
    assert [src] + [] == [src];
    if srcElements == [] {
      assert srcElements + to == to && dstElements + srcElements == dstElements;
    } else {
      Rotate(srcElements, to);
      assert to + srcElements == [dst] + (dstElements + srcElements);
    }
  }

  lemma RotateBy(s: seq<ListNode>, k: nat)
    requires IsRing(s) && k <= |s|
    ensures IsRing(s[k..] + s[..k])
  {
    assert s == s[..k] + s[k..];
    if k > 0 {
      Rotate(s[..k], s[k..]);
    } else {
      assert s[k..] + s[..k] == s;
    }
  }
}
