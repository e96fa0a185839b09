/** The resumable position of hmap_at_position in lib/hmap.c. */
module Cursors {
  import opened Sequences
  import opened HashMap

  /** `struct hmap_position`: two 32-bit unsigned integers. */
  type uint32 = x: nat | x < UINT32
  const UINT32: nat := 0x1_0000_0000
  datatype Cursor = Cursor(bucket: uint32, offset: uint32)

  /** Position of the traversal that a cursor designates: the given element of its chain, or, if
      the chain is not that long, the start of the next bucket. */
  ghost function Designates<T>(chains: seq<seq<T>>, c: Cursor): nat {
    if c.bucket >= |chains| then |Flatten(chains)|
    else if c.offset < |chains[c.bucket]| then Offset(chains, c.bucket) + c.offset
    else Offset(chains, c.bucket + 1)
  }

  lemma EndBeforeStart<T>(chains: seq<seq<T>>, b: nat, d: nat)
    requires b < d <= |chains|
    ensures Offset(chains, b) + |chains[b]| <= Offset(chains, d) <= |Flatten(chains)|
  {
    FlattenSplit(chains, b);
    OffsetMonotone(chains, b + 1, d);
  }

  /** That is the first position that is in a later bucket than the cursor's, or in its bucket and not
      before its offset. */
  lemma {:induction false} DesignatesFirst<T>(chains: seq<seq<T>>, c: Cursor, b: nat, i: nat)
    requires b < |chains| && i < |chains[b]|
    ensures Designates(chains, c) <= |Flatten(chains)|
    ensures Offset(chains, b) + i >= Designates(chains, c) <==> b > c.bucket || (b == c.bucket && i >= c.offset)
  {
    EndBeforeStart(chains, b, |chains|);
    if c.bucket < |chains| {
      EndBeforeStart(chains, c.bucket, c.bucket + 1);
      if b < c.bucket {
        EndBeforeStart(chains, b, c.bucket);
      } else if b > c.bucket {
        EndBeforeStart(chains, c.bucket, b);
        OffsetMonotone(chains, c.bucket + 1, b);
      }
    } else {
      AllBefore(chains);
    }
  }

  lemma AllBefore<T>(chains: seq<seq<T>>)
    ensures Offset(chains, |chains|) == |Flatten(chains)|
  {
    assert chains[..|chains|] == chains;
  }

  /** The cursor that is left behind element `i` of chain `b`; its fields are truncated to 32 bits. */
  function CursorAfter<T>(chains: seq<seq<T>>, b: nat, i: nat): Cursor
    requires b < |chains|
  {
    if i + 1 < |chains[b]| then Cursor(b % UINT32, (i + 1) % UINT32)
    else Cursor((b + 1) % UINT32, 0)
  }

  /** The inner loop of hmap_at_position: element `offset` of a chain, and the cursor after it. */
  method AtOffset(h: Hmap, b: nat, offset: nat) returns (r: Node?, pos': Cursor)
    requires h.Valid() && b <= h.mask
    ensures r == At(h.chains[b], offset) && (r != null ==> Slot(r.hash, h.mask) == b)
    ensures pos' == if r == null then Cursor(0, 0) else CursorAfter(h.chains, b, offset)
  {
    var i: nat := 0;
    r, pos' := h.buckets[b], Cursor(0, 0);
    while r != null
      invariant i <= |h.chains[b]| && i <= offset && r == At(h.chains[b], i)
      decreases |h.chains[b]| - i
    {
      assert h.chains[b][i].next == At(h.chains[b], i + 1);
      if i == offset {
        assert Slot(h.chains[b][i].hash, h.mask) == b;
        if r.next != null {
          pos' := Cursor(Slot(r.hash, h.mask) % UINT32, (offset + 1) % UINT32);
        } else {
          pos' := Cursor((Slot(r.hash, h.mask) + 1) % UINT32, 0);
        }
        return;
      }
      i, r := i + 1, r.next;
    }
  }

  /** hmap_at_position */
  method AtPosition(h: Hmap, pos: Cursor) returns (r: Node?, pos': Cursor)
    requires h.Valid()
    ensures r == At(h.Order(), Designates(h.chains, pos))
    ensures r == null ==> pos' == Cursor(0, 0)
    ensures r != null ==> exists i: nat ::
      var b := Slot(r.hash, h.mask);
      && i < |h.chains[b]| && h.chains[b][i] == r && Offset(h.chains, b) + i == Designates(h.chains, pos)
      && pos' == CursorAfter(h.chains, b, i)
  {
    var offset: nat := pos.offset;
    var b: nat := pos.bucket;
    ghost var target := Designates(h.chains, pos);
    while b <= h.mask
      invariant b > h.mask ==> target == |h.Order()|
      invariant b <= h.mask && offset < |h.chains[b]| ==> target == Offset(h.chains, b) + offset
      invariant b <= h.mask && offset >= |h.chains[b]| ==> target == Offset(h.chains, b + 1)
      decreases h.mask + 1 - b
    {
      r, pos' := AtOffset(h, b, offset);
      if r != null {
        FlattenAt(h.chains, b, offset);
        return;
      }
      b, offset := b + 1, 0;
      if b <= h.mask {
        FlattenSplit(h.chains, b);
      } else {
        assert h.chains[..b] == h.chains;
      }
    }
    return null, Cursor(0, 0);
  }

  /** The chains are small enough for a cursor to follow the traversal. */
  ghost predicate FitsCursor<T>(chains: seq<seq<T>>) {
    forall b :: 0 <= b < |chains| && chains[b] != [] ==> b < 0xffff_ffff && |chains[b]| <= 0x1_0000_0000
  }

  lemma AdvancesIfFits<T>(chains: seq<seq<T>>, b: nat, i: nat)
    requires b < |chains| && i < |chains[b]| && b + 1 < UINT32 && |chains[b]| <= UINT32
    ensures Designates(chains, CursorAfter(chains, b, i)) == Offset(chains, b) + i + 1
  {
    assert (b + 1) % UINT32 == b + 1 && b % UINT32 == b;
    FlattenSplit(chains, b);
    if i + 1 == |chains[b]| {
      StartOfBucket(chains, b + 1);
    } else {
      assert (i + 1) % UINT32 == i + 1;
    }
  }

  lemma StartOfBucket<T>(chains: seq<seq<T>>, b: nat)
    requires b <= |chains| && b < UINT32
    ensures Designates(chains, Cursor(b, 0)) == Offset(chains, b)
  {
    if b < |chains| {
      FlattenSplit(chains, b);
    } else {
      assert chains[..b] == chains;
    }
  }

  /** A cursor whose bucket comes before `b` designates at most the start of `b`. */
  lemma EarlierBucket<T>(chains: seq<seq<T>>, c: Cursor, b: nat)
    requires c.bucket < b <= |chains|
    ensures Designates(chains, c) <= Offset(chains, b)
  {
    FlattenSplit(chains, c.bucket);
    OffsetMonotone(chains, c.bucket + 1, b);
  }

  /** A cursor left behind a node designates the node after it, or, truncated, one not after it. */
  lemma OnOrBack<T>(chains: seq<seq<T>>, b: nat, i: nat)
    requires b < |chains| && i < |chains[b]|
    ensures var q, p := Designates(chains, CursorAfter(chains, b, i)), Offset(chains, b) + i; q == p + 1 || q <= p
  {
    if b + 1 < UINT32 && |chains[b]| <= UINT32 {
      AdvancesIfFits(chains, b, i);
    } else if i + 1 == |chains[b]| {
      if b + 1 < UINT32 {
        assert (b + 1) % UINT32 == b + 1;
        FlattenSplit(chains, b);
        StartOfBucket(chains, b + 1);
      } else {
        BucketTooLarge(chains, b);
      }
    } else if b < UINT32 {
      assert b % UINT32 == b && (i + 1) % UINT32 <= i + 1;
    } else {
      EarlierBucket(chains, Cursor(b % UINT32, (i + 1) % UINT32), b);
    }
  }

  /** Past bucket number 2^32 - 1, the cursor goes back to an earlier bucket, */
  lemma BucketTooLarge<T>(chains: seq<seq<T>>, b: nat)
    requires b < |chains| && chains[b] != [] && b + 1 >= UINT32
    ensures Designates(chains, CursorAfter(chains, b, |chains[b]| - 1)) <= Offset(chains, b)
  {
    var b' := (b + 1) % UINT32;
    assert b' <= b;
    if b' < b {
      EarlierBucket(chains, Cursor(b', 0), b);
    }
  }

  /** and past element number 2^32 - 1, to the start of the same bucket. */
  lemma OffsetTooLarge<T>(chains: seq<seq<T>>, b: nat)
    requires b < |chains| && |chains[b]| > UINT32 && b < UINT32
    ensures Designates(chains, CursorAfter(chains, b, UINT32 - 1)) <= Offset(chains, b)
  {
  }

  // ---- Runs of calls ----

  /** Element `i` of chain `b` is at position `p` of the traversal. */
  ghost predicate IsPlace<T>(chains: seq<seq<T>>, p: nat, b: nat, i: nat) {
    b < |chains| && i < |chains[b]| && p == Offset(chains, b) + i
  }

  /** The cursor after a call that finds position `p` of the traversal. */
  ghost function CursorPast<T>(chains: seq<seq<T>>, p: nat): Cursor {
    if p >= |Flatten(chains)| then Cursor(0, 0) else
      assert exists b: nat, i: nat :: IsPlace(chains, p, b, i) by {
        var b, i := FlattenLocate(chains, p);
        assert IsPlace(chains, p, b, i);
      }
      var b: nat, i: nat :| IsPlace(chains, p, b, i);
      CursorAfter(chains, b, i)
  }

  /** The position that the next call finds then. */
  ghost function NextPosition<T>(chains: seq<seq<T>>, p: nat): nat {
    Designates(chains, CursorPast(chains, p))
  }

  /** The cursor moves on from every position below `m`. */
  ghost predicate MovesOnBelow<T>(chains: seq<seq<T>>, m: nat) {
    forall q: nat :: q < m ==> NextPosition(chains, q) == q + 1
  }

  /** The cursor after `k` calls, the first one with position (0, 0). */
  ghost function CursorRun<T>(chains: seq<seq<T>>, k: nat): Cursor {
    if k == 0 then Cursor(0, 0) else CursorPast(chains, Designates(chains, CursorRun(chains, k - 1)))
  }

  /** What the call number `k` finds. */
  ghost function PositionAt<T>(chains: seq<seq<T>>, k: nat): nat {
    Designates(chains, CursorRun(chains, k))
  }

  /** There is only one place at each position. */
  lemma PlaceUnique<T>(chains: seq<seq<T>>, b: nat, i: nat, d: nat, j: nat)
    requires b < |chains| && i < |chains[b]| && d < |chains| && j < |chains[d]|
    requires Offset(chains, b) + i == Offset(chains, d) + j
    ensures b == d && i == j
  {
    FlattenSplit(chains, b);
    FlattenSplit(chains, d);
    if b < d { OffsetMonotone(chains, b + 1, d); }
    if d < b { OffsetMonotone(chains, d + 1, b); }
  }

  lemma {:induction false} PastIsAfter<T>(chains: seq<seq<T>>, b: nat, i: nat)
    requires b < |chains| && i < |chains[b]|
    ensures Offset(chains, b) + i < |Flatten(chains)|
    ensures CursorPast(chains, Offset(chains, b) + i) == CursorAfter(chains, b, i)
  {
    FlattenAt(chains, b, i);
    var p := Offset(chains, b) + i;
    assert IsPlace(chains, p, b, i);
    forall d: nat, j: nat | IsPlace(chains, p, d, j)
      ensures d == b && j == i
    {
      PlaceUnique(chains, b, i, d, j);
    }
  }

  lemma {:induction false} StepOnOrBack<T>(chains: seq<seq<T>>, p: nat)
    requires p < |Flatten(chains)|
    ensures var q := NextPosition(chains, p);
      (q == p + 1 || q <= p) && (FitsCursor(chains) ==> q == p + 1)
  {
    var b, i := FlattenLocate(chains, p);
    PastIsAfter(chains, b, i);
    OnOrBack(chains, b, i);
    if FitsCursor(chains) {
      AdvancesIfFits(chains, b, i);
    }
  }

  /** A table that does not fit has a position from which the cursor does not move on. */
  lemma BackSomewhere<T>(chains: seq<seq<T>>) returns (p: nat)
    requires !FitsCursor(chains)
    ensures p < |Flatten(chains)| && NextPosition(chains, p) <= p
  {
    var b: nat :| b < |chains| && chains[b] != [] && !(b + 1 < UINT32 && |chains[b]| <= UINT32);
    if b + 1 >= UINT32 {
      BucketTooLarge(chains, b);
      PastIsAfter(chains, b, |chains[b]| - 1);
      p := Offset(chains, b) + |chains[b]| - 1;
    } else {
      OffsetTooLarge(chains, b);
      PastIsAfter(chains, b, UINT32 - 1);
      p := Offset(chains, b) + UINT32 - 1;
    }
  }

  /** The first such position that is at most `p`. */
  lemma {:induction false} FirstBack<T>(chains: seq<seq<T>>, p: nat) returns (m: nat)
    requires p < |Flatten(chains)| && NextPosition(chains, p) <= p
    ensures m <= p && NextPosition(chains, m) <= m
    ensures MovesOnBelow(chains, m)
    decreases p
  {
    if q: nat :| q < p && NextPosition(chains, q) <= q {
      m := FirstBack(chains, q);
    } else {
      m := p;
      forall q: nat | q < p
        ensures NextPosition(chains, q) == q + 1
      {
        StepOnOrBack(chains, q);
      }
    }
  }

  lemma NextRun<T>(chains: seq<seq<T>>, k: nat)
    ensures CursorRun(chains, k + 1) == CursorPast(chains, PositionAt(chains, k))
    ensures PositionAt(chains, k + 1) == NextPosition(chains, PositionAt(chains, k))
  {
  }

  /** A node's place gives the cursor after it. */
  lemma RunPast<T>(chains: seq<seq<T>>, k: nat, b: nat, i: nat)
    requires IsPlace(chains, PositionAt(chains, k), b, i)
    ensures CursorRun(chains, k + 1) == CursorAfter(chains, b, i)
  {
    NextRun(chains, k);
    PastIsAfter(chains, b, i);
  }

  lemma StartsAtZero<T>(chains: seq<seq<T>>)
    ensures PositionAt(chains, 0) == 0
  {
    if |chains| > 0 {
      StartOfBucket(chains, 0);
    }
  }

  lemma MovesOn<T>(chains: seq<seq<T>>, m: nat, p: nat)
    requires MovesOnBelow(chains, m) && p < m
    ensures NextPosition(chains, p) == p + 1
  {
  }

  /** As long as the cursor moves on, call number `k` finds position `k`. */
  lemma {:induction false} RunMovesOn<T>(chains: seq<seq<T>>, m: nat, k: nat)
    requires k <= m && MovesOnBelow(chains, m)
    ensures PositionAt(chains, k) == k
  {
    if k == 0 {
      StartsAtZero(chains);
    } else {
      RunMovesOn(chains, m, k - 1);
      NextRun(chains, k - 1);
      MovesOn(chains, m, PositionAt(chains, k - 1));
    }
  }

  lemma StaysBelow<T>(chains: seq<seq<T>>, m: nat, p: nat)
    requires MovesOnBelow(chains, m) && NextPosition(chains, m) <= m && p <= m
    ensures NextPosition(chains, p) <= m
  {
  }

  /** It never gets past a position from which it does not move on. */
  lemma {:induction false} RunStays<T>(chains: seq<seq<T>>, m: nat, k: nat)
    requires MovesOnBelow(chains, m) && NextPosition(chains, m) <= m
    ensures PositionAt(chains, k) <= m
  {
    if k == 0 {
      StartsAtZero(chains);
    } else {
      RunStays(chains, m, k - 1);
      NextRun(chains, k - 1);
      StaysBelow(chains, m, PositionAt(chains, k - 1));
    }
  }

  /** The calls find every position once, in order, then nothing, and end where they started. */
  ghost predicate RunLists<T>(chains: seq<seq<T>>) {
    && (forall k: nat :: k <= |Flatten(chains)| ==> PositionAt(chains, k) == k)
    && CursorRun(chains, |Flatten(chains)| + 1) == Cursor(0, 0)
  }

  /** The calls never find nothing, and soon find a position for the second time. */
  ghost predicate RunCircles<T>(chains: seq<seq<T>>) {
    && (forall k: nat :: PositionAt(chains, k) < |Flatten(chains)|)
    && exists j: nat, k: nat :: j < k <= |Flatten(chains)| && PositionAt(chains, j) == PositionAt(chains, k)
  }

  /** The run of calls lists the table exactly if the table fits the cursor; otherwise it goes round
      in circles for ever. */
  lemma {:induction false} CursorRuns<T>(chains: seq<seq<T>>)
    ensures if FitsCursor(chains) then RunLists(chains) else RunCircles(chains)
  {
    var n := |Flatten(chains)|;
    if FitsCursor(chains) {
      forall q: nat | q < n
        ensures NextPosition(chains, q) == q + 1
      {
        StepOnOrBack(chains, q);
      }
      forall k: nat | k <= n
        ensures PositionAt(chains, k) == k
      {
        RunMovesOn(chains, n, k);
      }
      NextRun(chains, n);
    } else {
      var p := BackSomewhere(chains);
      var m := FirstBack(chains, p);
      forall k: nat
        ensures PositionAt(chains, k) < n
      {
        RunStays(chains, m, k);
      }
      var j := NextPosition(chains, m);
      RunMovesOn(chains, m, m);
      RunMovesOn(chains, m, j);
      NextRun(chains, m);
      assert j < m + 1 <= n && PositionAt(chains, j) == PositionAt(chains, m + 1);
    }
  }

  /** Two calls lead to a table that does not fit: one that makes room for 2^33 nodes, and one that inserts
      a node with the largest 32-bit hash. */
  method TooLargeTable(h: Hmap, node: Node)
    requires h.Valid() && h.nodes == {}
    modifies h, h.one, h.buckets, node`hash, node`next
    ensures h.Valid() && h.nodes == {node} && !FitsCursor(h.chains) && RunCircles(h.chains)
  {
    ghost var moved := h.Reserve(0x2_0000_0000);
    SlotOfSmallHash(0xffff_ffff, h.mask);
    h.InsertFast(node, 0xffff_ffff);
    assert h.chains[0xffff_ffff] != [];
    CursorRuns(h.chains);
  }

  /** One call of hmap_at_position in the course of a traversal. */
  method StepCursor(h: Hmap, pos: Cursor, ghost p: nat) returns (r: Node?, pos': Cursor)
    requires h.Valid() && FitsCursor(h.chains) && Designates(h.chains, pos) == p
    ensures r == At(h.Order(), p)
    ensures if r == null then pos' == Cursor(0, 0) else Designates(h.chains, pos') == p + 1
  {
    r, pos' := AtPosition(h, pos);
    if r != null {
      ghost var b := Slot(r.hash, h.mask);
      ghost var i: nat :| i < |h.chains[b]| && Offset(h.chains, b) + i == p && pos' == CursorAfter(h.chains, b, i);
      AdvancesIfFits(h.chains, b, i);
    }
  }

  /** The loop for which hmap_at_position is made: the calls starting at position zero return each
      node once, in traversal order, then null, and leave the position at zero again. */
  method Enumerate(h: Hmap) returns (visited: seq<Node>, pos: Cursor)
    requires h.Valid() && FitsCursor(h.chains)
    ensures visited == h.Order() && pos == Cursor(0, 0)
  {
    pos := Cursor(0, 0);
    visited := [];
    ghost var order := h.Order();
    FlattenSplit(h.chains, 0);
    var node: Node?;
    node, pos := StepCursor(h, pos, 0);
    while node != null
      invariant |visited| <= |order| && (forall j :: 0 <= j < |visited| ==> visited[j] == order[j])
      invariant node == At(order, |visited|)
      invariant if node == null then pos == Cursor(0, 0) else Designates(h.chains, pos) == |visited| + 1
      decreases |order| - |visited|
    {
      visited := visited + [node];
      node, pos := StepCursor(h, pos, |visited|);
    }
  }

  /** What call number `k` of a run finds. */
  ghost function FoundAt(chains: seq<seq<Node>>, k: nat): Node? {
    At(Flatten(chains), PositionAt(chains, k))
  }

  /** What the first `n` calls find. */
  ghost function FoundBy(chains: seq<seq<Node>>, n: nat): (found: seq<Node?>)
    ensures |found| == n
  {
    if n == 0 then [] else FoundBy(chains, n - 1) + [FoundAt(chains, n - 1)]
  }

  lemma {:induction false} FoundByAt(chains: seq<seq<Node>>, n: nat)
    ensures forall k :: 0 <= k < n ==> FoundBy(chains, n)[k] == FoundAt(chains, k)
  {
    if n > 0 {
      FoundByAt(chains, n - 1);
    }
  }

  lemma AlwaysFinds(chains: seq<seq<Node>>, k: nat)
    requires !FitsCursor(chains)
    ensures FoundAt(chains, k) != null
  {
    CursorRuns(chains);
  }

  /** Call number `k` of a run. */
  method Call(h: Hmap, pos: Cursor, ghost k: nat) returns (r: Node?, pos': Cursor)
    requires h.Valid() && pos == CursorRun(h.chains, k)
    ensures r == FoundAt(h.chains, k) && pos' == CursorRun(h.chains, k + 1)
  {
    r, pos' := AtPosition(h, pos);
    ghost var p := PositionAt(h.chains, k);
    if r != null {
      ghost var b := Slot(r.hash, h.mask);
      ghost var i: nat :| i < |h.chains[b]| && Offset(h.chains, b) + i == p && pos' == CursorAfter(h.chains, b, i);
      RunPast(h.chains, k, b, i);
    } else {
      NextRun(h.chains, k);
    }
  }

  method FirstCalls(h: Hmap, n: nat) returns (found: seq<Node?>, pos: Cursor)
    requires h.Valid()
    ensures found == FoundBy(h.chains, n) && pos == CursorRun(h.chains, n)
  {
    pos, found := Cursor(0, 0), [];
    for k := 0 to n
      invariant pos == CursorRun(h.chains, k) && found == FoundBy(h.chains, k)
    {
      var r;
      r, pos := Call(h, pos, k);
      found := found + [r];
    }
  }

  /** Any number of calls, the first one with position (0, 0), on a table that does not change. */
  method Calls(h: Hmap, n: nat) returns (found: seq<Node?>, pos: Cursor)
    requires h.Valid()
    ensures |found| == n && pos == CursorRun(h.chains, n)
    ensures forall k :: 0 <= k < n ==> found[k] == At(h.Order(), PositionAt(h.chains, k))
    ensures !FitsCursor(h.chains) ==> forall k :: 0 <= k < n ==> found[k] != null
  {
    found, pos := FirstCalls(h, n);
    FoundByAt(h.chains, n);
    forall k | 0 <= k < n && !FitsCursor(h.chains)
      ensures found[k] != null
    {
      AlwaysFinds(h.chains, k);
    }
  }
}
