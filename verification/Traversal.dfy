/** Searching and traversing the hash table: the iteration functions and macros of lib/hmap.h. */
module Traversal {
  import opened Words
  import opened Sequences
  import opened HashMap

  /** The traversal order repeats no node. */
  lemma OrderNoDup(h: Hmap)
    requires h.Valid()
    ensures NoDup(h.Order())
  {
    var chains: seq<seq<Node>> := h.chains;
    forall b | 0 <= b < |chains|
      ensures NoDup(chains[b])
    {
      assert IsChain(chains[b]);
      ChainNoDup(chains[b]);
    }
    forall a, b, x: Node | 0 <= a < b < |chains| && x in chains[a]
      ensures x !in chains[b]
    {
      var i :| 0 <= i < |chains[a]| && chains[a][i] == x;
      assert Slot(chains[a][i].hash, h.mask) == a;
      forall j | 0 <= j < |chains[b]|
        ensures chains[b][j] != x
      {
        assert Slot(chains[b][j].hash, h.mask) == b;
      }
    }
    FlattenNoDup(chains);
  }

  /** The traversal order lists every node of the table, and has length `n`. */
  lemma OrderListsNodes(h: Hmap)
    requires h.Valid()
    ensures Elements(h.Order()) == h.nodes && |h.Order()| == h.n
  {
    var chains: seq<seq<Node>> := h.chains;
    OrderNoDup(h);
    forall x | x in h.Order()
      ensures x in h.nodes
    {
      var p :| 0 <= p < |h.Order()| && h.Order()[p] == x;
      var b, i := FlattenLocate(chains, p);
      FlattenAt(chains, b, i);
    }
    forall x | x in h.nodes
      ensures x in h.Order()
    {
      assert Listed(chains, x);
      var b, i :| 0 <= b < |chains| && 0 <= i < |chains[b]| && chains[b][i] == x;
      FlattenAt(chains, b, i);
    }
    NoDupCardinality(h.Order());
  }

  /** Where the node at position `p` of the traversal is. */
  lemma Located(h: Hmap, p: nat) returns (i: nat)
    requires h.Valid() && p < |h.Order()|
    ensures var node := h.Order()[p]; var b := Slot(node.hash, h.mask);
      && node in h.nodes && i < |h.chains[b]| && h.chains[b][i] == node
      && p == Offset(h.chains, b) + i && node.next == At(h.chains[b], i + 1)
      && (i + 1 < |h.chains[b]| ==> p + 1 < |h.Order()| && h.Order()[p + 1] == h.chains[b][i + 1])
      && (i + 1 == |h.chains[b]| ==> p + 1 == Offset(h.chains, b + 1))
  {
    var b;
    b, i := FlattenLocate(h.chains, p);
    FlattenAt(h.chains, b, i);
    FlattenSplit(h.chains, b);
    assert h.chains[b][i].next == At(h.chains[b], i + 1);
    assert Slot(h.chains[b][i].hash, h.mask) == b;
    if i + 1 < |h.chains[b]| {
      FlattenAt(h.chains, b, i + 1);
    }
  }

  /** hmap_next__ */
  method FirstFrom(h: Hmap, start: nat) returns (r: Node?)
    requires h.Valid() && start <= h.mask + 1
    ensures r == At(h.Order(), Offset(h.chains, start))
  {
    var i := start;
    while i <= h.mask
      invariant start <= i <= h.mask + 1
      invariant Offset(h.chains, i) == Offset(h.chains, start)
    {
      var node := h.buckets[i];
      if node != null {
        FlattenAt(h.chains, i, 0);
        return node;
      }
      FlattenSplit(h.chains, i);
      i := i + 1;
    }
    assert h.chains[..i] == h.chains;
    return null;
  }

  /** hmap_first */
  method First(h: Hmap) returns (r: Node?)
    requires h.Valid()
    ensures r == At(h.Order(), 0)
  {
    assert h.chains[..0] == [];
    r := FirstFrom(h, 0);
  }

  /** `node.next` leads to element `i` of the chain of its hash, or to its end: of a node of the table to
      the element after it, and of one that was just removed to the element that took its place. */
  ghost predicate LeadsTo(h: Hmap, node: Node, i: nat)
    reads h, node
  {
    var b := Slot(node.hash, h.mask);
    b < |h.chains| && i <= |h.chains[b]| && node.next == At(h.chains[b], i)
  }

  /** hmap_next, of a node that need not be in the table any more. */
  method Next(h: Hmap, node: Node, ghost i: nat) returns (r: Node?)
    requires h.Valid() && LeadsTo(h, node, i)
    ensures r == At(h.Order(), Offset(h.chains, Slot(node.hash, h.mask)) + i)
  {
    ghost var b := Slot(node.hash, h.mask);
    if node.next != null {
      FlattenAt(h.chains, b, i);
      return node.next;
    }
    FlattenSplit(h.chains, b);
    r := FirstFrom(h, Slot(node.hash, h.mask) + 1);
  }

  /** hmap_remove, as seen by a traversal: one position disappears, and the removed node leads to it. */
  method RemoveAtPosition(h: Hmap, node: Node, ghost p: nat) returns (ghost i: nat)
    requires h.Valid() && p < |h.Order()| && h.Order()[p] == node
    modifies h, h.buckets, h.nodes`next
    ensures h.Valid() && h.Order() == RemoveAt(old(h.Order()), p)
    ensures h.nodes == old(h.nodes) - {node} && h.mask == old(h.mask) && h.buckets == old(h.buckets)
    ensures LeadsTo(h, node, i) && Offset(h.chains, Slot(node.hash, h.mask)) + i == p
  {
    i := Located(h, p);
    ghost var b := Slot(node.hash, h.mask);
    ghost var before := h.chains;
    h.OnlyPlace(b, i);
    FlattenRemove(before, b, i);
    ghost var k := h.Remove(node);
    assert h.chains[..b] == before[..b];
  }

  /** The rest of the traversal `order`, from element `k` on, is what is still ahead in `now`,
      from position `p` on. */
  ghost predicate Ahead(order: seq<Node>, k: nat, now: seq<Node>, p: nat)
    decreases |order| - k
  {
    if k < |order| then p < |now| && now[p] == order[k] && Ahead(order, k + 1, now, p + 1)
    else k == |order| && p == |now|
  }

  lemma {:induction false} AheadAtFirst(order: seq<Node>, k: nat)
    requires k <= |order|
    ensures Ahead(order, k, order, k)
    decreases |order| - k
  {
    if k < |order| {
      AheadAtFirst(order, k + 1);
    }
  }

  lemma {:induction false} AheadAfterRemoval(order: seq<Node>, k: nat, now: seq<Node>, p: nat, gap: nat)
    requires Ahead(order, k, now, p) && gap < p
    ensures Ahead(order, k, RemoveAt(now, gap), p - 1)
    decreases |order| - k
  {
    if k < |order| {
      AheadAfterRemoval(order, k + 1, now, p + 1, gap);
    }
  }

  /** `s` is the first `k` elements of `t`. */
  ghost predicate PrefixOf(s: seq<Node>, t: seq<Node>, k: nat) {
    if k == 0 then s == []
    else |s| == k <= |t| && s[k - 1] == t[k - 1] && PrefixOf(s[..k - 1], t, k - 1)
  }

  lemma PrefixSnoc(s: seq<Node>, t: seq<Node>, k: nat)
    requires PrefixOf(s, t, k) && k < |t|
    ensures PrefixOf(s + [t[k]], t, k + 1)
  {
    assert (s + [t[k]])[..k] == s;
  }

  lemma {:induction false} PrefixAll(s: seq<Node>, t: seq<Node>, k: nat)
    requires PrefixOf(s, t, k)
    ensures k <= |t| && s == t[..k] && (k == |t| ==> s == t)
  {
    if k > 0 {
      PrefixAll(s[..k - 1], t, k - 1);
      assert s == s[..k - 1] + [s[k - 1]];
    }
  }

  /** A traversal begins. */
  lemma Begin(h: Hmap)
    requires h.Valid()
    ensures Ahead(h.Order(), 0, h.Order(), 0) && NodesFrom(h.Order(), 0, h.nodes)
  {
    var order := h.Order();
    AheadAtFirst(order, 0);
    OrderNoDup(h);
    OrderListsNodes(h);
    AllNodesFrom(order, 0);
    assert order[0..] == order;
  }

  /** What is ahead is in the table. */
  lemma AheadInTable(h: Hmap, order: seq<Node>, k: nat, p: nat)
    requires h.Valid() && Ahead(order, k, h.Order(), p) && k < |order|
    ensures order[k] in h.nodes
  {
    var i := Located(h, p);
  }

  /** hmap_next in a traversal of `order` that has reached element `k`. */
  method NextAhead(h: Hmap, node: Node, ghost order: seq<Node>, ghost k: nat, ghost p: nat) returns (r: Node?)
    requires h.Valid() && Ahead(order, k, h.Order(), p) && node == At(order, k)
    ensures r == At(order, k + 1) && Ahead(order, k + 1, h.Order(), p + 1)
  {
    ghost var i := Located(h, p);
    r := Next(h, node, i + 1);
  }

  /** hmap_remove of the current node of such a traversal. */
  method RemoveAhead(h: Hmap, node: Node, ghost order: seq<Node>, ghost k: nat, ghost p: nat) returns (ghost i: nat)
    requires h.Valid() && Ahead(order, k, h.Order(), p) && node == At(order, k)
    modifies h, h.buckets, h.nodes`next
    ensures h.Valid() && h.mask == old(h.mask) && h.buckets == old(h.buckets)
    ensures h.nodes == old(h.nodes) - {node}
    ensures Ahead(order, k + 1, h.Order(), p)
    ensures LeadsTo(h, node, i) && Offset(h.chains, Slot(node.hash, h.mask)) + i == p
  {
    AheadAfterRemoval(order, k + 1, h.Order(), p + 1, p);
    i := RemoveAtPosition(h, node, p);
  }

  /** hmap_remove of the current node of such a traversal, whose memory is then freed. */
  method FreeAhead(h: Hmap, node: Node, ghost order: seq<Node>, ghost k: nat, ghost p: nat)
    requires h.Valid() && Ahead(order, k, h.Order(), p) && node == At(order, k)
    modifies h, h.buckets, h.nodes`next, node
    ensures h.Valid() && h.nodes == old(h.nodes) - {node} && h.buckets == old(h.buckets)
    ensures Ahead(order, k + 1, h.Order(), p)
  {
    ghost var i := RemoveAhead(h, node, order, k, p);
    node.Free();
  }

  /** One round of HMAP_FOR_EACH_SAFE: the next node is fetched before the body may remove this one and
      free it. */
  method SafeRound(h: Hmap, node: Node, remove: bool, ghost order: seq<Node>, ghost k: nat, ghost p: nat)
    returns (next: Node?)
    requires h.Valid() && Ahead(order, k, h.Order(), p) && node == At(order, k)
    modifies h, h.buckets, h.nodes`next, if remove then {node} else {}
    ensures next == At(order, k + 1)
    ensures h.Valid() && h.buckets == old(h.buckets)
    ensures h.nodes == if remove then old(h.nodes) - {node} else old(h.nodes)
    ensures Ahead(order, k + 1, h.Order(), if remove then p else p + 1)
  {
    next := NextAhead(h, node, order, k, p);
    if remove {
      FreeAhead(h, node, order, k, p);
    }
  }

  /** HMAP_FOR_EACH_SAFE with a body that removes and frees the current node whenever it is in `doomed`. */
  method ForEachSafe(h: Hmap, doomed: set<Node>) returns (visited: seq<Node>)
    requires h.Valid()
    modifies h, h.buckets, h.nodes`next, h.nodes * doomed
    ensures h.Valid() && visited == old(h.Order()) && h.nodes == old(h.nodes) - doomed
  {
    ghost var order, k, p, todo := h.Order(), 0, 0, h.nodes;
    Begin(h);
    visited := [];
    var node := First(h);
    while node != null
      invariant h.Valid() && h.buckets == old(h.buckets)
      invariant Ahead(order, k, h.Order(), p) && node == At(order, k)
      invariant NodesFrom(order, k, todo) && todo <= old(h.nodes) && PrefixOf(visited, order, k)
      invariant forall x :: x in h.nodes <==> x in old(h.nodes) && (x in todo || x !in doomed)
      decreases |order| - k
    {
      PrefixSnoc(visited, order, k);
      var current: Node, remove := node, node in doomed;
      visited := visited + [current];
      node := SafeRound(h, current, remove, order, k, p);
      p, k, todo := if remove then p else p + 1, k + 1, todo - {current};
    }
    PrefixAll(visited, order, k);
  }

  /** One round of HMAP_FOR_EACH: the body may remove this node before hmap_next is asked what follows it. */
  method Round(h: Hmap, node: Node, remove: bool, ghost order: seq<Node>, ghost k: nat, ghost p: nat)
    returns (next: Node?)
    requires h.Valid() && Ahead(order, k, h.Order(), p) && node == At(order, k)
    modifies h, h.buckets, h.nodes`next
    ensures next == At(order, k + 1)
    ensures h.Valid() && h.buckets == old(h.buckets)
    ensures h.nodes == if remove then old(h.nodes) - {node} else old(h.nodes)
    ensures Ahead(order, k + 1, h.Order(), if remove then p else p + 1)
  {
    if remove {
      ghost var i := RemoveAhead(h, node, order, k, p);
      next := Next(h, node, i);
    } else {
      next := NextAhead(h, node, order, k, p);
    }
  }

  /** HMAP_FOR_EACH with a body that removes the current node whenever it is in `doomed`, but leaves its
      `next` alone: hmap_next of the removed node still gives the node that came after it. */
  method ForEach(h: Hmap, doomed: set<Node>) returns (visited: seq<Node>)
    requires h.Valid()
    modifies h, h.buckets, h.nodes`next
    ensures h.Valid() && visited == old(h.Order()) && h.nodes == old(h.nodes) - doomed
  {
    ghost var order, k, p, todo := h.Order(), 0, 0, h.nodes;
    Begin(h);
    visited := [];
    var node := First(h);
    while node != null
      invariant h.Valid() && h.buckets == old(h.buckets)
      invariant Ahead(order, k, h.Order(), p) && node == At(order, k)
      invariant NodesFrom(order, k, todo) && PrefixOf(visited, order, k)
      invariant forall x :: x in h.nodes <==> x in old(h.nodes) && (x in todo || x !in doomed)
      decreases |order| - k
    {
      PrefixSnoc(visited, order, k);
      var current: Node, remove := node, node in doomed;
      visited := visited + [current];
      node := Round(h, current, remove, order, k, p);
      p, k, todo := if remove then p else p + 1, k + 1, todo - {current};
    }
    PrefixAll(visited, order, k);
  }

  /** Removes the head of the first nonempty bucket. */
  method RemoveHead(h: Hmap, bucket: nat)
    requires h.Valid() && bucket <= h.mask && Offset(h.chains, bucket) == 0 && h.chains[bucket] != []
    modifies h, h.buckets, h.nodes`next
    ensures h.Valid() && h.mask == old(h.mask) && h.buckets == old(h.buckets)
    ensures Offset(h.chains, bucket) == 0 && old(h.Order()) != []
    ensures h.Order() == old(h.Order())[1..] && h.nodes == old(h.nodes) - {old(h.Order()[0])}
    ensures old(h.Order()[0]) == old(h.chains[bucket][0])
  {
    ghost var before := h.chains;
    FlattenAt(before, bucket, 0);
    FlattenRemove(before, bucket, 0);
    h.OnlyPlace(bucket, 0);
    assert Slot(h.chains[bucket][0].hash, h.mask) == bucket;
    ghost var k := h.Remove(h.buckets[bucket]);
    assert h.chains[..bucket] == before[..bucket];
  }

  /** hmap_pop_helper__ */
  method PopHelper(h: Hmap, bucket: nat) returns (node: Node?, bucket': nat)
    requires h.Valid() && bucket <= h.mask + 1 && Offset(h.chains, bucket) == 0
    modifies h, h.buckets, h.nodes`next
    ensures h.Valid() && h.mask == old(h.mask) && h.buckets == old(h.buckets)
    ensures bucket <= bucket' <= h.mask + 1 && Offset(h.chains, bucket') == 0
    ensures node == At(old(h.Order()), 0)
    ensures h.Order() == if node == null then [] else old(h.Order())[1..]
    ensures h.nodes == old(h.nodes) - {node}
  {
    bucket' := bucket;
    while bucket' <= h.mask && h.buckets[bucket'] == null
      modifies {}
      invariant bucket <= bucket' <= h.mask + 1 && Offset(h.chains, bucket') == 0
    {
      FlattenSplit(h.chains, bucket');
      bucket' := bucket' + 1;
    }
    if bucket' <= h.mask {
      node := h.buckets[bucket'];
      RemoveHead(h, bucket');
    } else {
      assert h.chains[..bucket'] == h.chains;
      node := null;
    }
  }

  /** The controlling expression of HMAP_FOR_EACH_POP, when `k` nodes have been popped. */
  method PopAhead(h: Hmap, bucket: nat, ghost order: seq<Node>, ghost k: nat) returns (node: Node?, bucket': nat)
    requires h.Valid() && bucket <= h.mask + 1 && Offset(h.chains, bucket) == 0
    requires Ahead(order, k, h.Order(), 0)
    modifies h, h.buckets, h.nodes`next
    ensures h.Valid() && h.mask == old(h.mask) && h.buckets == old(h.buckets) && h.nodes <= old(h.nodes)
    ensures bucket' <= h.mask + 1 && Offset(h.chains, bucket') == 0
    ensures node == At(order, k)
    ensures if node == null then h.nodes == {} && k == |order| else Ahead(order, k + 1, h.Order(), 0)
  {
    ghost var now := h.Order();
    node, bucket' := PopHelper(h, bucket);
    if node != null {
      AheadAfterRemoval(order, k + 1, now, 1, 0);
      assert now[1..] == RemoveAt(now, 0);
    } else {
      OrderListsNodes(h);
    }
  }

  /** HMAP_FOR_EACH_POP */
  method ForEachPop(h: Hmap) returns (visited: seq<Node>)
    requires h.Valid()
    modifies h, h.buckets, h.nodes`next
    ensures h.Valid() && visited == old(h.Order()) && h.nodes == {}
  {
    ghost var order, k := h.Order(), 0;
    AheadAtFirst(order, 0);
    visited := [];
    var bucket: nat := 0;
    assert h.chains[..0] == [];
    var node: Node?;
    node, bucket := PopAhead(h, bucket, order, k);
    while node != null
      invariant h.Valid() && h.buckets == old(h.buckets) && h.nodes <= old(h.nodes)
      invariant bucket <= h.mask + 1 && Offset(h.chains, bucket) == 0
      invariant PrefixOf(visited, order, k) && node == At(order, k)
      invariant if node == null then h.nodes == {} && k == |order| else Ahead(order, k + 1, h.Order(), 0)
      decreases |order| - k
    {
      PrefixSnoc(visited, order, k);
      visited, k := visited + [node], k + 1;
      node, bucket := PopAhead(h, bucket, order, k);
    }
    PrefixAll(visited, order, k);
  }

  /** hmap_next_with_hash__, from element `k` of the chain of `hash`. */
  method NextWithHashFrom(h: Hmap, start: Node?, hash: size_t, ghost k: nat) returns (r: Node?, ghost j: nat)
    requires h.Valid() && start == At(h.chains[Slot(hash, h.mask)], k) && k <= |h.chains[Slot(hash, h.mask)]|
    ensures var c := h.chains[Slot(hash, h.mask)];
      && k <= j <= |c| && r == At(c, j) && (r != null ==> r.hash == hash)
      && forall l :: k <= l < j ==> c[l].hash != hash
  {
    ghost var c := h.chains[Slot(hash, h.mask)];
    r, j := start, k;
    while r != null && r.hash != hash
      invariant k <= j <= |c| && r == At(c, j)
      invariant forall l :: k <= l < j ==> c[l].hash != hash
      decreases |c| - j
    {
      assert c[j].next == At(c, j + 1);
      r, j := r.next, j + 1;
    }
  }

  /** hmap_first_with_hash */
  method FirstWithHash(h: Hmap, hash: size_t) returns (r: Node?, ghost j: nat)
    requires h.Valid()
    ensures if r == null then forall x :: x in h.nodes ==> x.hash != hash else r in h.nodes && r.hash == hash
    ensures var c := h.chains[Slot(hash, h.mask)];
      && j <= |c| && r == At(c, j) && (r != null ==> r.hash == hash)
      && forall l :: 0 <= l < j ==> c[l].hash != hash
  {
    r, j := NextWithHashFrom(h, h.buckets[Slot(hash, h.mask)], hash, 0);
    forall x | x in h.nodes && x.hash == hash
      ensures r != null
    {
      HashedOnChain(h, x);
    }
  }

  /** hmap_next_with_hash, of a node that need not be in the table any more but leads to element `k` of
      the chain of its hash: the first node with the same hash from there on. */
  method NextWithHash(h: Hmap, node: Node, ghost k: nat) returns (r: Node?, ghost j: nat)
    requires h.Valid() && LeadsTo(h, node, k)
    ensures if r == null then forall x :: x in h.chains[Slot(node.hash, h.mask)][k..] ==> x.hash != node.hash
            else r in h.nodes && r.hash == node.hash
    ensures var c := h.chains[Slot(node.hash, h.mask)];
      && k <= j <= |c| && r == At(c, j) && (r != null ==> r.hash == node.hash)
      && forall l :: k <= l < j ==> c[l].hash != node.hash
  {
    r, j := NextWithHashFrom(h, node.next, node.hash, k);
  }

  /** Looking only at the nodes with the right hash, on the chain of that hash, loses nothing:
      whether some node of the table has a given hash does not depend on the mask. */
  lemma HashedOnChain(h: Hmap, x: Node)
    requires h.Valid()
    ensures x in h.nodes <==> x in h.chains[Slot(x.hash, h.mask)]
  {
    if x in h.nodes {
      h.OnOwnChain(x);
    }
  }

  /** Rehashing to any mask between two lookups changes no answer, although it reorders and merges chains. */
  method LookUpTwice(h: Hmap, hash: size_t, newMask: size_t) returns (before: Node?, after: Node?)
    requires h.Valid() && IsMask(newMask) && newMask <= SIZE_MAX / 2
    modifies h, h.one, h.buckets, h.nodes`hash, h.nodes`next
    ensures h.Valid() && h.mask == newMask && h.nodes == old(h.nodes)
    ensures before == null <==> after == null
    ensures before != null ==> before in h.nodes && after in h.nodes && before.hash == after.hash == hash
  {
    ghost var j;
    before, j := FirstWithHash(h, hash);
    ghost var moved := h.Resize(newMask);
    after, j := FirstWithHash(h, hash);
  }

  /** hmap_contains */
  method Contains(h: Hmap, node: Node) returns (found: bool)
    requires h.Valid()
    ensures found <==> node in h.nodes
  {
    ghost var c := h.chains[Slot(node.hash, h.mask)];
    HashedOnChain(h, node);
    var p := h.buckets[Slot(node.hash, h.mask)];
    ghost var i := 0;
    while p != null
      invariant i <= |c| && p == At(c, i) && node !in c[..i]
      decreases |c| - i
    {
      if p == node {
        return true;
      }
      assert c[i].next == At(c, i + 1);
      p, i := p.next, i + 1;
    }
    return false;
  }
}
