/** The chained intrusive hash table of lib/hmap.h and lib/hmap.c. */
module HashMap {
  import opened Words
  import opened Sequences
  import opened ByteStrings

  /** A `void *`; 0 is the null pointer. */
  type Ptr = nat
  const NULL: Ptr := 0

  /** `struct hmap_node` together with the client structure that embeds it:
      `sset_node` has only a name, `shash_node` also has `data`. */
  class Node {
    var hash: size_t
    var next: Node?
    const name: CString
    var data: Ptr

    constructor (name: CString, data: Ptr)
      ensures this.name == name && this.data == data
    {
      this.name, this.data := name, data;
    }

    /** free: the memory may be used for something else at once. */
    method Free()
      modifies this
    {
      hash, next, data := *, *, *;
    }
  }

  /** Element `i` of a chain, or null past its end. */
  function At(c: seq<Node>, i: int): Node? {
    if 0 <= i < |c| then c[i] else null
  }

  /** Mask after a request to hold `capacity` nodes. */
  function ExpandedMask(mask: nat, capacity: nat): nat {
    if MaskFor(capacity) > mask then MaskFor(capacity) else mask
  }

  function ShrunkMask(mask: nat, capacity: nat): nat {
    if MaskFor(capacity) < mask then MaskFor(capacity) else mask
  }

  /** Mask after an insertion that leaves `n` nodes. */
  function InsertMask(mask: nat, n: nat): nat {
    if n / 2 > mask then MaskFor(n) else mask
  }

  /** Bucket of `hash` in a table with the given mask: `hash & mask`. */
  function Slot(hash: nat, mask: nat): (b: nat)
    ensures b <= mask
  {
    And(hash, mask)
  }

  /** The bucket of a hash is its remainder modulo the number of buckets. */
  lemma SlotIsRemainder(hash: nat, mask: nat)
    requires IsMask(mask)
    ensures Slot(hash, mask) == hash % (mask + 1)
  {
    var k: nat :| mask == Pow2(k) - 1;
    AndMaskIsMod(hash, k);
  }

  lemma SlotOfSmallHash(hash: nat, mask: nat)
    requires IsMask(mask) && hash <= mask
    ensures Slot(hash, mask) == hash
  {
    SlotIsRemainder(hash, mask);
    DivModUnique(hash, mask + 1, 0, hash);
  }

  /** A request never takes buckets away, gives at least one bucket for two nodes, changes nothing if
      there is such a bucket already, and otherwise gives 4 buckets or no more than there are nodes. */
  lemma ExpandedMaskBounds(mask: nat, capacity: nat)
    requires IsMask(mask)
    ensures var m := ExpandedMask(mask, capacity);
      && IsMask(m) && m >= mask && m >= capacity / 2
      && (m > mask ==> m == 3 || (m > 3 && m < capacity))
      && (m > mask ==> capacity / 2 > mask || mask == 1)
  {
    MaskForIsLeast(capacity, 0);
    MaskForIsSmall(capacity);
    MaskForIfLarge(mask, capacity);
  }

  /** The same for a rehash after an insertion. */
  lemma InsertMaskBounds(mask: nat, n: nat)
    requires IsMask(mask)
    ensures var m := InsertMask(mask, n);
      && IsMask(m) && m >= mask && m >= n / 2
      && (m > mask <==> n / 2 > mask)
      && (m > mask ==> m == 3 || (m > 3 && m < n))
  {
    MaskForIsLeast(n, 0);
    MaskForIsSmall(n);
  }

  /** Shrinking never adds buckets, leaves at least one for two nodes if there were as many, leaves the
      embedded bucket alone for at most one node, and otherwise 4 buckets or no more than there are nodes. */
  lemma ShrunkMaskBounds(mask: nat, n: nat)
    requires IsMask(mask)
    ensures var m := ShrunkMask(mask, n);
      && IsMask(m) && m <= mask && (n <= 1 ==> m == 0) && (m <= 3 || m < n)
      && (m < mask ==> m >= n / 2 && m != 1)
  {
    MaskForIsLeast(n, 0);
    MaskForIsSmall(n);
    MaskForIfLarge(mask, n);
  }

  lemma MaskForIsSmall(n: nat)
    ensures n <= 1 ==> MaskFor(n) == 0
    ensures MaskFor(n) == 0 || MaskFor(n) == 3 || (MaskFor(n) > 3 && MaskFor(n) < n)
  {
    var half := n / 2;
    if half > 1 {
      var l := Len(half);
      LenMonotone(half, l - 1);
      assert Len(half / 2) >= 1;
      assert Pow2(l) == 2 * Pow2(l - 1);
      if l > 2 {
        Pow2Monotone(3, l);
        assert Pow2(3) == 8;
      } else {
        assert Pow2(2) == 4;
      }
    }
  }

  /** A mask that is large enough is at least the one computed, unless it is 1. */
  lemma MaskForIfLarge(mask: nat, n: nat)
    requires IsMask(mask)
    ensures mask >= n / 2 && mask != 1 ==> MaskFor(n) <= mask
  {
    var k: nat :| mask == Pow2(k) - 1;
    assert Pow2(1) == 2;
    MaskForIsLeast(n, k);
  }

  /** `todo` are the nodes of `s` from element `k` on, which occur once each. */
  ghost predicate NodesFrom(s: seq<Node>, k: nat, todo: set<Node>)
    decreases |s| - k
  {
    if k < |s| then s[k] in todo && NodesFrom(s, k + 1, todo - {s[k]})
    else k == |s| && todo == {}
  }

  lemma {:induction false} AllNodesFrom(s: seq<Node>, k: nat)
    requires NoDup(s) && k <= |s|
    ensures NodesFrom(s, k, Elements(s[k..]))
    decreases |s| - k
  {
    if k < |s| {
      AllNodesFrom(s, k + 1);
      assert Elements(s[k..]) - {s[k]} == Elements(s[k + 1..]);
    }
  }

  ghost predicate Listed(chains: seq<seq<Node>>, x: Node) {
    exists b, i :: 0 <= b < |chains| && 0 <= i < |chains[b]| && chains[b][i] == x
  }

  /** `nodes` are the nodes on the chains. */
  ghost predicate Covers(chains: seq<seq<Node>>, nodes: set<Node>) {
    && (forall b, i {:trigger chains[b][i]} :: 0 <= b < |chains| && 0 <= i < |chains[b]| ==> chains[b][i] in nodes)
    && (forall x {:trigger Listed(chains, x)} :: x in nodes ==> Listed(chains, x))
  }

  /** Each node's `next` leads to the following node of its chain. */
  ghost predicate Linked(chains: seq<seq<Node>>, nodes: set<Node>)
    reads nodes
  {
    forall b, i {:trigger chains[b][i].next} ::
      0 <= b < |chains| && 0 <= i < |chains[b]| && chains[b][i] in nodes ==>
        chains[b][i].next == At(chains[b], i + 1)
  }

  /** Each node is on the chain that its hash selects. */
  ghost predicate Hashed(chains: seq<seq<Node>>, nodes: set<Node>, mask: nat)
    reads nodes
  {
    forall b, i {:trigger chains[b][i].hash} ::
      0 <= b < |chains| && 0 <= i < |chains[b]| && chains[b][i] in nodes ==>
        Slot(chains[b][i].hash, mask) == b
  }

  /** `c` is a chain: following `next` from its head leads through it to null. */
  ghost predicate IsChain(c: seq<Node>)
    reads c
  {
    forall i {:trigger c[i].next} :: 0 <= i < |c| ==> c[i].next == At(c, i + 1)
  }

  /** A chain that leads to null visits no node twice. */
  lemma {:induction false} Acyclic(c: seq<Node>, i: nat, j: nat)
    requires IsChain(c) && i < j < |c|
    ensures c[i] != c[j]
    decreases |c| - j
  {
    assert c[i].next == At(c, i + 1) && c[j].next == At(c, j + 1);
    if j + 1 < |c| {
      Acyclic(c, i + 1, j + 1);
    }
  }

  lemma ChainNoDup(c: seq<Node>)
    requires IsChain(c)
    ensures NoDup(c)
  {
    forall i, j | 0 <= i < j < |c|
      ensures c[i] != c[j]
    {
      Acyclic(c, i, j);
    }
  }

  /** Unlinking: the node before element `k` of chain `b`, if any, now leads past it. */
  lemma LinkedRemove(chains: seq<seq<Node>>, nodes: set<Node>, mask: nat, b: nat, k: nat)
    requires Covers(chains, nodes) && Hashed(chains, nodes, mask) && b < |chains| && k < |chains[b]|
    requires forall d, i {:trigger chains[d][i].next} ::
      0 <= d < |chains| && 0 <= i < |chains[d]| && chains[d][i] in nodes ==>
        chains[d][i].next == if d == b && i + 1 == k then At(chains[b], k + 1) else At(chains[d], i + 1)
    ensures Linked(chains[b := RemoveAt(chains[b], k)], nodes - {chains[b][k]})
    ensures Hashed(chains[b := RemoveAt(chains[b], k)], nodes - {chains[b][k]}, mask)
  {
    var chains': seq<seq<Node>> := chains[b := RemoveAt(chains[b], k)];
    forall d, i | 0 <= d < |chains'| && 0 <= i < |chains'[d]|
      ensures chains'[d][i].next == At(chains'[d], i + 1) && Slot(chains'[d][i].hash, mask) == d
    {
      var j := if d == b && i >= k then i + 1 else i;
      assert chains'[d][i] == chains[d][j];
      assert Slot(chains[d][j].hash, mask) == d;
      assert chains[d][j].next == if d == b && j + 1 == k then At(chains[b], k + 1) else At(chains[d], j + 1);
    }
  }

  lemma LinkedReplace(chains: seq<seq<Node>>, nodes: set<Node>, mask: nat, b: nat, k: nat, node: Node)
    requires Covers(chains, nodes) && b < |chains| && k < |chains[b]| && node !in nodes
    requires Hashed(chains, nodes - {chains[b][k]}, mask) && Slot(node.hash, mask) == b
    requires forall d, i :: 0 <= d < |chains| && 0 <= i < |chains[d]| && chains[d][i] == chains[b][k] ==>
      d == b && i == k
    requires forall d, i {:trigger chains[d][i].next} ::
      0 <= d < |chains| && 0 <= i < |chains[d]| && chains[d][i] in nodes - {chains[b][k]} ==>
        chains[d][i].next == if d == b && i + 1 == k then node else At(chains[d], i + 1)
    requires node.next == At(chains[b], k + 1)
    ensures Linked(chains[b := chains[b][k := node]], nodes - {chains[b][k]} + {node})
    ensures Hashed(chains[b := chains[b][k := node]], nodes - {chains[b][k]} + {node}, mask)
  {
    var chains': seq<seq<Node>> := chains[b := chains[b][k := node]];
    forall d, i | 0 <= d < |chains'| && 0 <= i < |chains'[d]|
      ensures chains'[d][i].next == At(chains'[d], i + 1) && Slot(chains'[d][i].hash, mask) == d
    {
      assert (d != b || i != k) ==> chains'[d][i] == chains[d][i] && Slot(chains[d][i].hash, mask) == d;
    }
  }

  lemma CoversReplace(chains: seq<seq<Node>>, nodes: set<Node>, b: nat, k: nat, node: Node)
    requires Covers(chains, nodes) && b < |chains| && k < |chains[b]|
    requires forall d, i :: 0 <= d < |chains| && 0 <= i < |chains[d]| && chains[d][i] == chains[b][k] ==>
      d == b && i == k
    ensures Covers(chains[b := chains[b][k := node]], nodes - {chains[b][k]} + {node})
  {
    var chains': seq<seq<Node>> := chains[b := chains[b][k := node]];
    assert chains'[b][k] == node;
    forall x | x in nodes && x != chains[b][k]
      ensures Listed(chains', x)
    {
      assert Listed(chains, x);
      var d, i :| 0 <= d < |chains| && 0 <= i < |chains[d]| && chains[d][i] == x;
      assert chains'[d][i] == x;
    }
    forall d, i {:trigger chains'[d][i]} | 0 <= d < |chains'| && 0 <= i < |chains'[d]|
      ensures chains'[d][i] in nodes - {chains[b][k]} + {node}
    {
      assert (d != b || i != k) ==> chains'[d][i] == chains[d][i];
    }
  }

  lemma LinkedInsert(chains: seq<seq<Node>>, nodes: set<Node>, mask: nat, b: nat, node: Node)
    requires Covers(chains, nodes) && b < |chains| && node.next == At(chains[b], 0) && Slot(node.hash, mask) == b
    requires Linked(chains, nodes) && Hashed(chains, nodes, mask)
    ensures Linked(chains[b := [node] + chains[b]], nodes + {node})
    ensures Hashed(chains[b := [node] + chains[b]], nodes + {node}, mask)
  {
    var chains': seq<seq<Node>> := chains[b := [node] + chains[b]];
    forall d, i | 0 <= d < |chains'| && 0 <= i < |chains'[d]|
      ensures chains'[d][i].next == At(chains'[d], i + 1) && Slot(chains'[d][i].hash, mask) == d
    {
      var j := if d == b then i - 1 else i;
      if j >= 0 {
        assert chains'[d][i] == chains[d][j];
        assert chains[d][j].next == At(chains[d], j + 1) && Slot(chains[d][j].hash, mask) == d;
      }
    }
  }

  lemma CoversInsert(chains: seq<seq<Node>>, nodes: set<Node>, b: nat, node: Node)
    requires Covers(chains, nodes) && b < |chains|
    ensures Covers(chains[b := [node] + chains[b]], nodes + {node})
  {
    var chains': seq<seq<Node>> := chains[b := [node] + chains[b]];
    assert chains'[b][0] == node;
    forall x | x in nodes
      ensures Listed(chains', x)
    {
      assert Listed(chains, x);
      var d, i :| 0 <= d < |chains| && 0 <= i < |chains[d]| && chains[d][i] == x;
      assert chains'[d][if d == b then i + 1 else i] == x;
    }
  }

  lemma CoversRemove(chains: seq<seq<Node>>, nodes: set<Node>, b: nat, k: nat)
    requires Covers(chains, nodes) && b < |chains| && k < |chains[b]|
    requires forall d, i :: 0 <= d < |chains| && 0 <= i < |chains[d]| && chains[d][i] == chains[b][k] ==>
      d == b && i == k
    ensures Covers(chains[b := RemoveAt(chains[b], k)], nodes - {chains[b][k]})
  {
    var chains': seq<seq<Node>> := chains[b := RemoveAt(chains[b], k)];
    forall x | x in nodes && x != chains[b][k]
      ensures Listed(chains', x)
    {
      assert Listed(chains, x);
      var d, i :| 0 <= d < |chains| && 0 <= i < |chains[d]| && chains[d][i] == x;
      assert chains'[d][if d == b && i > k then i - 1 else i] == x;
    }
    forall d, i {:trigger chains'[d][i]} | 0 <= d < |chains'| && 0 <= i < |chains'[d]|
      ensures chains'[d][i] in nodes - {chains[b][k]}
    {
      var j := if d == b && i >= k then i + 1 else i;
      assert chains'[d][i] == chains[d][j] && (d != b || j != k);
    }
  }

  /** The members of `struct hmap`. */
  datatype Fields = Fields(buckets: array<Node?>, one: Node?, mask: size_t, n: size_t)

  class Hmap {
    /** The bucket embedded in the structure itself. */
    const one: array<Node?>
    var buckets: array<Node?>
    var mask: size_t
    var n: size_t

    /** The nodes of each bucket, from the head of its chain. */
    ghost var chains: seq<seq<Node>>
    ghost var nodes: set<Node>

    /** `mask + 1` buckets, a power of two; the embedded one iff there is only one. */
    ghost predicate Storage()
      reads this
    {
      && one.Length == 1
      && buckets.Length == mask + 1
      && (buckets == one <==> mask == 0)
      && mask <= SIZE_MAX / 2
      && IsMask(mask)
    }

    ghost predicate Valid()
      reads this, buckets, nodes
    {
      && Storage()
      && |chains| == mask + 1
      && Covers(chains, nodes)
      && Linked(chains, nodes)
      && Hashed(chains, nodes, mask)
      && (forall b {:trigger buckets[b]} :: 0 <= b < |chains| ==> buckets[b] == At(chains[b], 0))
      && n == |nodes|
    }

    /** The nodes in traversal order: bucket by bucket, each chain from its head. */
    ghost function Order(): seq<Node>
      reads this
    {
      Flatten(chains)
    }

    /** The two tables share no storage. */
    ghost predicate Separate(other: Hmap)
      reads this, other
    {
      && this != other
      && one != other.one && one != other.buckets && buckets != other.one && buckets != other.buckets
    }

    /** hmap_init */
    constructor ()
      ensures Valid() && nodes == {} && mask == 0
      ensures fresh(one) && fresh(buckets)
    {
      one := new Node?[1][null];
      buckets := one;
      mask := 0;
      n := 0;
      chains := [[]];
      nodes := {};
      new;
      assert Pow2(0) == 1;
    }

    /** hmap_insert_fast */
    method InsertFast(node: Node, hash: size_t)
      requires Valid() && node !in nodes && n < SIZE_MAX
      modifies this, buckets, node`hash, node`next
      ensures Valid() && node.hash == hash
      ensures mask == old(mask) && buckets == old(buckets)
      ensures chains == var b := Slot(hash, mask); old(chains)[b := [node] + old(chains)[b]]
      ensures Slot(hash, mask) == hash % (mask + 1)
      ensures nodes == old(nodes) + {node}
    {
      var b := Slot(hash, mask);
      SlotIsRemainder(hash, mask);
      CoversInsert(chains, nodes, b, node);
      node.hash, node.next := hash, buckets[b];
      buckets[b], n := node, n + 1;
      LinkedInsert(chains, nodes, mask, b, node);
      chains, nodes := chains[b := [node] + chains[b]], nodes + {node};
    }

    /** The loop `while (*bucket != node) bucket = &(*bucket)->next`: the link to `node` is the
        bucket itself if `prev` is null, and `prev.next` otherwise. */
    method FindLink(node: Node, hash: size_t) returns (prev: Node?, ghost k: nat)
      requires Valid() && node in chains[Slot(hash, mask)]
      ensures var c := chains[Slot(hash, mask)]; k < |c| && c[k] == node && prev == At(c, k - 1)
      ensures forall d, i :: 0 <= d < |chains| && 0 <= i < |chains[d]| && chains[d][i] == node ==>
        d == Slot(hash, mask) && i == k
    {
      var b := Slot(hash, mask);
      ghost var c := chains[b];
      ghost var j: nat :| j < |c| && c[j] == node;
      prev, k := null, 0;
      var cur := buckets[b];
      while cur != node
        invariant k <= j && cur == c[k]
        invariant prev == At(c, k - 1)
        decreases j - k
      {
        prev, cur, k := cur, cur.next, k + 1;
      }
      OnlyPlace(b, k);
    }

    lemma OnlyPlace(b: nat, k: nat)
      requires Valid() && b < |chains| && k < |chains[b]|
      ensures forall d, i :: 0 <= d < |chains| && 0 <= i < |chains[d]| && chains[d][i] == chains[b][k] ==>
        d == b && i == k
    {
      var c := chains[b];
      forall d, i | 0 <= d < |chains| && 0 <= i < |chains[d]| && chains[d][i] == c[k]
        ensures d == b && i == k
      {
        assert Slot(chains[d][i].hash, mask) == d && Slot(c[k].hash, mask) == b;
        assert IsChain(c);
        if i < k { Acyclic(c, i, k); }
        if k < i { Acyclic(c, k, i); }
      }
    }

    /** The assignment `*bucket = target` through the link found by FindLink. */
    method SetLink(b: nat, prev: Node?, ghost k: nat, target: Node?)
      requires Valid() && b <= mask && k < |chains[b]| && prev == At(chains[b], k - 1)
      modifies buckets, nodes`next
      ensures LinksTo(b, k, target)
    {
      if prev == null {
        buckets[b] := target;
      } else {
        OnlyPlace(b, k - 1);
        prev.next := target;
      }
    }

    /** The heap agrees with `chains`, except that the link to element `k` of chain `b` is `target`. */
    ghost predicate LinksTo(b: nat, k: nat, target: Node?)
      requires |chains| <= buckets.Length
      reads this, buckets, nodes
    {
      && (forall d {:trigger buckets[d]} :: 0 <= d < |chains| ==>
            buckets[d] == if d == b && k == 0 then target else At(chains[d], 0))
      && (forall d, i {:trigger chains[d][i].next} ::
            0 <= d < |chains| && 0 <= i < |chains[d]| && chains[d][i] in nodes ==>
              chains[d][i].next == if d == b && i + 1 == k then target else At(chains[d], i + 1))
    }

    /** A node is on the chain of the bucket its hash selects. */
    lemma OnOwnChain(node: Node)
      requires Valid() && node in nodes
      ensures node in chains[Slot(node.hash, mask)]
    {
      assert Listed(chains, node);
      var b, i :| 0 <= b < |chains| && 0 <= i < |chains[b]| && chains[b][i] == node;
      assert Slot(chains[b][i].hash, mask) == b;
    }

    /** hmap_remove; `k` is the position of `node` on its chain. */
    method Remove(node: Node) returns (ghost k: nat)
      requires Valid() && node in nodes
      modifies this, buckets, nodes`next
      ensures Valid()
      ensures mask == old(mask) && buckets == old(buckets) && node.next == old(node.next)
      ensures var b := Slot(node.hash, mask); k < |old(chains)[b]| && old(chains)[b][k] == node
      ensures chains == var b := Slot(node.hash, mask); old(chains)[b := RemoveAt(old(chains)[b], k)]
      ensures nodes == old(nodes) - {node}
    {
      OnOwnChain(node);
      var b, prev := Slot(node.hash, mask), null;
      prev, k := FindLink(node, node.hash);
      CoversRemove(chains, nodes, b, k);
      SetLink(b, prev, k, node.next);
      LinkedRemove(chains, nodes, mask, b, k);
      n, chains, nodes := n - 1, chains[b := RemoveAt(chains[b], k)], nodes - {node};
    }

    /** The assignments of hmap_replace. */
    method PutInPlace(oldNode: Node, newNode: Node, b: nat, prev: Node?, ghost k: nat)
      requires Valid() && newNode !in nodes && b <= mask && k < |chains[b]|
      requires oldNode == chains[b][k] && prev == At(chains[b], k - 1)
      modifies buckets, nodes`next, newNode`hash, newNode`next
      ensures LinksTo(b, k, newNode) && Hashed(chains, nodes, mask)
      ensures newNode.hash == oldNode.hash && newNode.next == At(chains[b], k + 1)
    {
      assert chains[b][k].next == At(chains[b], k + 1);
      SetLink(b, prev, k, newNode);
      newNode.hash, newNode.next := oldNode.hash, oldNode.next;
    }

    /** hmap_replace */
    method Replace(oldNode: Node, newNode: Node) returns (ghost k: nat)
      requires Valid() && oldNode in nodes && newNode !in nodes
      modifies this, buckets, nodes`next, newNode`hash, newNode`next
      ensures Valid() && newNode.hash == oldNode.hash
      ensures mask == old(mask) && buckets == old(buckets) && n == old(n)
      ensures var b := Slot(oldNode.hash, mask); k < |old(chains)[b]| && old(chains)[b][k] == oldNode
      ensures chains == var b := Slot(oldNode.hash, mask); old(chains)[b := old(chains)[b][k := newNode]]
      ensures nodes == old(nodes) - {oldNode} + {newNode}
    {
      OnOwnChain(oldNode);
      var b, prev := Slot(oldNode.hash, mask), null;
      prev, k := FindLink(oldNode, oldNode.hash);
      CoversReplace(chains, nodes, b, k, newNode);
      PutInPlace(oldNode, newNode, b, prev, k);
      LinkedReplace(chains, nodes, mask, b, k, newNode);
      chains, nodes := chains[b := chains[b][k := newNode]], nodes - {oldNode} + {newNode};
    }

    /** Well formed, except that the memory of `gone`, element `k` of chain `b`, may hold anything by now. */
    ghost predicate ValidBut(gone: Node, b: nat, k: nat)
      reads this, buckets, nodes - {gone}
    {
      && Storage()
      && |chains| == mask + 1
      && Covers(chains, nodes)
      && Linked(chains, nodes - {gone})
      && Hashed(chains, nodes - {gone}, mask)
      && (forall d {:trigger buckets[d]} :: 0 <= d < |chains| ==> buckets[d] == At(chains[d], 0))
      && n == |nodes|
      && b < |chains| && k < |chains[b]| && chains[b][k] == gone
      && (forall d, i :: 0 <= d < |chains| && 0 <= i < |chains[d]| && chains[d][i] == gone ==> d == b && i == k)
    }

    /** Where a node is, and that only this is needed of it before its memory is reused. */
    lemma BeforeReuse(node: Node) returns (k: nat)
      requires Valid() && node in nodes
      ensures ValidBut(node, Slot(node.hash, mask), k) && node.next == At(chains[Slot(node.hash, mask)], k + 1)
    {
      var b := Slot(node.hash, mask);
      OnOwnChain(node);
      k :| k < |chains[b]| && chains[b][k] == node;
      OnlyPlace(b, k);
      assert chains[b][k].next == At(chains[b], k + 1);
    }

    /** The loop `while (*bucket != old_node) bucket = &(*bucket)->next`, which does not read `gone`. */
    method FindLinkBut(gone: Node, b: nat, ghost k: nat) returns (prev: Node?)
      requires ValidBut(gone, b, k)
      ensures prev == At(chains[b], k - 1)
    {
      ghost var c, j: nat := chains[b], 0;
      prev := null;
      var cur := buckets[b];
      while cur != gone
        invariant j <= k && cur == c[j] && prev == At(c, j - 1)
        decreases k - j
      {
        assert chains[b][j] != gone && chains[b][j].next == At(chains[b], j + 1);
        prev, cur, j := cur, cur.next, j + 1;
      }
    }

    /** The element before `gone` is nowhere else. */
    lemma OnlyPrevious(gone: Node, b: nat, k: nat)
      requires ValidBut(gone, b, k) && k > 0
      ensures forall d, i :: 0 <= d < |chains| && 0 <= i < |chains[d]| && chains[d][i] == chains[b][k - 1] ==>
        d == b && i == k - 1
    {
      var p := chains[b][k - 1];
      assert p != gone && p.next == At(chains[b], k) && Slot(p.hash, mask) == b;
      forall d, i | 0 <= d < |chains| && 0 <= i < |chains[d]| && chains[d][i] == p
        ensures d == b && i == k - 1
      {
        assert chains[d][i].next == At(chains[d], i + 1) && Slot(chains[d][i].hash, mask) == d;
        assert chains[d][i + 1] == gone;
      }
    }

    /** The assignment `*bucket = target` through the link found by FindLinkBut. */
    method SetLinkBut(gone: Node, b: nat, ghost k: nat, prev: Node?, target: Node)
      requires ValidBut(gone, b, k) && prev == At(chains[b], k - 1)
      modifies buckets, (nodes - {gone})`next
      ensures forall d {:trigger buckets[d]} :: 0 <= d < |chains| ==>
        buckets[d] == if d == b && k == 0 then target else At(chains[d], 0)
      ensures forall d, i {:trigger chains[d][i].next} ::
        0 <= d < |chains| && 0 <= i < |chains[d]| && chains[d][i] in nodes - {gone} ==>
          chains[d][i].next == if d == b && i + 1 == k then target else At(chains[d], i + 1)
    {
      if prev == null {
        buckets[b] := target;
      } else {
        OnlyPrevious(gone, b, k);
        prev.next := target;
      }
    }

    /** hmap_node_moved: `node` is a copy, at a new address, of `oldNode`, element `k` of its chain,
        whose memory may have been reused: nothing of it is read or written. */
    method NodeMoved(oldNode: Node, node: Node, ghost k: nat)
      requires ValidBut(oldNode, Slot(node.hash, mask), k) && node !in nodes
      requires node.next == At(chains[Slot(node.hash, mask)], k + 1)
      modifies this, buckets, (nodes - {oldNode})`next
      ensures Valid()
      ensures mask == old(mask) && buckets == old(buckets) && n == old(n)
      ensures chains == var b := Slot(node.hash, mask); old(chains)[b := old(chains)[b][k := node]]
      ensures nodes == old(nodes) - {oldNode} + {node}
    {
      var b := Slot(node.hash, mask);
      var prev := FindLinkBut(oldNode, b, k);
      CoversReplace(chains, nodes, b, k, node);
      SetLinkBut(oldNode, b, k, prev, node);
      LinkedReplace(chains, nodes, mask, b, k, node);
      chains, nodes := chains[b := chains[b][k := node]], nodes - {oldNode} + {node};
    }

    /** hmap_clear */
    method Clear()
      requires Valid()
      modifies this, buckets
      ensures Valid() && nodes == {} && n == 0 && mask == old(mask) && buckets == old(buckets)
      ensures forall b :: 0 <= b <= mask ==> buckets[b] == null
    {
      if n > 0 {
        n := 0;
        forall b | 0 <= b < buckets.Length {
          buckets[b] := null;
        }
        chains, nodes := seq(mask + 1, _ => []), {};
      }
    }

    /** Storage, except that an only bucket may still be the one embedded in another structure. */
    ghost predicate MovedStorage()
      reads this
    {
      && one.Length == 1 && mask <= SIZE_MAX / 2 && IsMask(mask)
      && (mask != 0 ==> buckets.Length == mask + 1 && buckets != one)
    }

    /** hmap_moved */
    method Moved()
      requires MovedStorage()
      modifies this`buckets
      ensures Storage() && buckets == if mask == 0 then one else old(buckets)
    {
      if mask == 0 {
        buckets := one;
      }
    }

    /** `*this` as a value. */
    function Load(): Fields
      requires one.Length == 1
      reads this, one
    {
      Fields(buckets, one[0], mask, n)
    }

    /** The structure assignment `*this = f`. */
    method Store(f: Fields, ghost c: seq<seq<Node>>, ghost s: set<Node>)
      requires one.Length == 1
      modifies this, one
      ensures Load() == f && chains == c && nodes == s
    {
      buckets, mask, n, chains, nodes := f.buckets, f.mask, f.n, c, s;
      one[0] := f.one;
    }

    /** hmap_swap: the structures are copied whole, embedded buckets included, after which a
        `buckets` that designates the other structure's embedded bucket is repaired. */
    method Swap(other: Hmap)
      requires this == other || Separate(other)
      requires Storage() && other.Storage()
      modifies this, one, other, other.one
      ensures Storage() && other.Storage()
      ensures TookOver(other) && other.TookOver(this)
      ensures old(Valid()) ==> other.Valid()
      ensures old(other.Valid()) ==> Valid()
    {
      var tmp := Load();
      ghost var c, s := chains, nodes;
      Store(other.Load(), other.chains, other.nodes);
      other.Store(tmp, c, s);
      this.Moved();
      other.Moved();
      if old(Valid()) {
        other.StaysValid(this);
      }
      if old(other.Valid()) {
        StaysValid(other);
      }
    }

    /** This table now has the contents that `other` had before. */
    twostate predicate TookOver(other: Hmap)
      reads this, buckets
    {
      && mask == old(other.mask) && n == old(other.n)
      && chains == old(other.chains) && nodes == old(other.nodes)
      && buckets[..] == old(other.buckets[..])
      && (buckets == one || buckets == old(other.buckets))
    }

    twostate lemma StaysValid(other: Hmap)
      requires old(other.Valid()) && Storage() && TookOver(other)
      requires forall x :: x in nodes ==> x.next == old(x.next) && x.hash == old(x.hash)
      ensures Valid()
    {
      assert forall b {:trigger buckets[b]} :: 0 <= b <= mask ==> buckets[..][b] == buckets[b];
    }

    /** The table that resize prepares: hmap_init, then `mask + 1` null buckets unless `mask` is 0. */
    static method WithMask(mask: size_t) returns (tmp: Hmap)
      requires IsMask(mask) && mask <= SIZE_MAX / 2
      ensures fresh(tmp) && fresh(tmp.one) && fresh(tmp.buckets)
      ensures tmp.Valid() && tmp.mask == mask && tmp.nodes == {} && tmp.n == 0
    {
      tmp := new Hmap();
      if mask != 0 {
        tmp.buckets := new Node?[mask + 1](_ => null);
        tmp.mask := mask;
        tmp.chains := seq(mask + 1, _ => []);
      }
    }

    /** One step of resize. */
    method Take(node: Node) returns (next: Node?)
      requires Valid() && node !in nodes && n < SIZE_MAX
      modifies this, buckets, node`hash, node`next
      ensures Valid() && nodes == old(nodes) + {node} && n == old(n) + 1
      ensures mask == old(mask) && buckets == old(buckets)
      ensures node.hash == old(node.hash) && next == old(node.next)
    {
      next := node.next;
      InsertFast(node, node.hash);
    }

    /** The inner loop of resize: every node of a chain of another table moves to this one. */
    method TakeChain(head: Node?, ghost chain: seq<Node>, ghost members: set<Node>)
      requires Valid() && head == At(chain, 0) && n + |chain| <= SIZE_MAX
      requires NodesFrom(chain, 0, members) && members !! nodes
      requires forall i {:trigger chain[i].next} :: 0 <= i < |chain| ==> chain[i].next == At(chain, i + 1)
      modifies this, buckets, members`hash, members`next
      ensures Valid() && nodes == old(nodes) + members && n == old(n) + |chain|
      ensures mask == old(mask) && buckets == old(buckets)
      ensures forall x {:trigger x.hash} :: x in members ==> x.hash == old(x.hash)
    {
      var node := head;
      ghost var i := 0;
      ghost var left: set<Node> := members;
      while node != null
        invariant i <= |chain| && node == At(chain, i) && NodesFrom(chain, i, left) && left <= members
        invariant Valid() && n == old(n) + i
        invariant forall x {:trigger x in nodes} :: x in nodes <==> x in old(nodes) || (x in members && x !in left)
        invariant mask == old(mask) && buckets == old(buckets)
        invariant forall x {:trigger x.hash} :: x in members ==> x.hash == old(x.hash)
        invariant forall x {:trigger x.next} :: x in left ==> x.next == old(x.next)
        decreases |chain| - i
      {
        assert old(chain[i].next) == At(chain, i + 1);
        var current: Node := node;
        left := left - {current};
        node := Take(current);
        i := i + 1;
      }
    }

    /** The outer loop of resize: the nodes of this table move to `tmp`; `moved` counts them. */
    method MoveChains(tmp: Hmap) returns (ghost moved: nat)
      requires Valid() && tmp.Valid() && tmp.nodes == {} && tmp.n == 0 && Separate(tmp)
      modifies tmp, tmp.buckets, nodes`hash, nodes`next
      ensures tmp.Valid() && tmp.nodes == nodes && tmp.n == n == moved
      ensures tmp.mask == old(tmp.mask) && tmp.buckets == old(tmp.buckets)
      ensures forall x {:trigger x.hash} :: x in nodes ==> x.hash == old(x.hash)
    {
      moved := 0;
      var i := 0;
      while i <= mask
        invariant i <= mask + 1 && tmp.Valid() && tmp.n == moved
        invariant tmp.mask == old(tmp.mask) && tmp.buckets == old(tmp.buckets)
        invariant TakenBelow(i, tmp.nodes)
        invariant forall x {:trigger x.hash} :: x in nodes ==> x.hash == old(x.hash)
        invariant forall x {:trigger x.next} :: x in nodes && x !in tmp.nodes ==> x.next == old(x.next)
      {
        ghost var c := chains[i];
        forall k | 0 <= k < |c|
          ensures c[k].next == At(c, k + 1)
        {
          assert old(chains[i][k].next) == At(c, k + 1);
        }
        TakenNext(i, tmp.nodes);
        tmp.TakeChain(buckets[i], c, Elements(c));
        moved := moved + |chains[i]|;
        i := i + 1;
      }
      TakenAll(tmp.nodes);
    }

    /** resize */
    method Resize(newMask: size_t) returns (ghost moved: nat)
      requires Valid() && IsMask(newMask) && newMask <= SIZE_MAX / 2
      modifies this, one, buckets, nodes`hash, nodes`next
      ensures Valid() && mask == newMask && n == old(n) && nodes == old(nodes) && moved == n
      ensures buckets == one || fresh(buckets)
      ensures forall x :: x in nodes ==> x.hash == old(x.hash)
    {
      var tmp := WithMask(newMask);
      moved := MoveChains(tmp);
      Swap(tmp);
    }

    /** `taken` are the nodes of the first `i` chains. */
    ghost predicate TakenBelow(i: nat, taken: set<Node>)
      reads this
    {
      && taken <= nodes
      && forall b, k {:trigger chains[b][k]} :: 0 <= b < |chains| && 0 <= k < |chains[b]| ==>
           (chains[b][k] in taken <==> b < i)
    }

    lemma TakenNext(i: nat, taken: set<Node>)
      requires Covers(chains, nodes) && Hashed(chains, nodes, mask)
      requires i < |chains| && TakenBelow(i, taken) && IsChain(chains[i])
      ensures TakenBelow(i + 1, taken + Elements(chains[i]))
      ensures |taken| + |chains[i]| <= |nodes|
      ensures NodesFrom(chains[i], 0, Elements(chains[i])) && Elements(chains[i]) !! taken
    {
      var c := chains[i];
      ChainNoDup(c);
      NoDupCardinality(c);
      AllNodesFrom(c, 0);
      assert c[0..] == c;
      assert |taken + Elements(c)| == |taken| + |Elements(c)| by {
        assert taken !! Elements(c);
      }
      SubsetSize(taken + Elements(c), nodes);
      forall b, k {:trigger chains[b][k]} | 0 <= b < |chains| && 0 <= k < |chains[b]| && chains[b][k] in Elements(c)
        ensures b == i
      {
        var l :| 0 <= l < |c| && c[l] == chains[b][k];
        assert Slot(chains[b][k].hash, mask) == b && Slot(chains[i][l].hash, mask) == i;
      }
    }

    lemma TakenAll(taken: set<Node>)
      requires Covers(chains, nodes) && TakenBelow(|chains|, taken)
      ensures taken == nodes
    {
      forall x | x in nodes
        ensures x in taken
      {
        assert Listed(chains, x);
      }
    }

    /** Same nodes and hashes under a new mask; if it differs, all `n` nodes were relinked. */
    twostate predicate Rehashed(newMask: nat, moved: nat)
      reads this, buckets, nodes
    {
      && Valid() && mask == newMask && n == old(n) && nodes == old(nodes)
      && (forall x :: x in nodes ==> x.hash == old(x.hash))
      && (buckets == old(buckets) || buckets == one || fresh(buckets))
      && moved == if newMask == old(mask) then 0 else n
    }

    /** hmap_expand */
    method Expand() returns (ghost moved: nat)
      requires Valid()
      modifies this, one, buckets, nodes`hash, nodes`next
      ensures Rehashed(ExpandedMask(old(mask), n), moved)
      ensures mask >= old(mask) && mask >= n / 2
      ensures mask > old(mask) ==> mask == 3 || (mask > 3 && mask < n)
      ensures mask > old(mask) ==> n / 2 > old(mask) || old(mask) == 1
    {
      ExpandedMaskBounds(mask, n);
      var newMask := CalcMask(n);
      moved := 0;
      if newMask > mask {
        SizeOfMask(n);
        MaskForIsLeast(n, 0);
        moved := Resize(newMask);
      }
    }

    /** hmap_shrink */
    method Shrink() returns (ghost moved: nat)
      requires Valid()
      modifies this, one, buckets, nodes`hash, nodes`next
      ensures Rehashed(ShrunkMask(old(mask), n), moved)
      ensures mask <= old(mask) && (n <= 1 ==> mask == 0) && (mask <= 3 || mask < n)
      ensures mask < old(mask) ==> mask >= n / 2 && mask != 1
    {
      ShrunkMaskBounds(mask, n);
      var newMask := CalcMask(n);
      moved := 0;
      if newMask < mask {
        SizeOfMask(n);
        MaskForIsLeast(n, 0);
        moved := Resize(newMask);
      }
    }

    /** hmap_reserve */
    method Reserve(capacity: size_t) returns (ghost moved: nat)
      requires Valid()
      modifies this, one, buckets, nodes`hash, nodes`next
      ensures Rehashed(ExpandedMask(old(mask), capacity), moved)
      ensures mask >= old(mask) && mask >= capacity / 2
      ensures mask > old(mask) ==> mask == 3 || (mask > 3 && mask < capacity)
      ensures mask > old(mask) ==> capacity / 2 > old(mask) || old(mask) == 1
    {
      ExpandedMaskBounds(mask, capacity);
      var newMask := CalcMask(capacity);
      moved := 0;
      if newMask > mask {
        SizeOfMask(capacity);
        MaskForIsLeast(capacity, 0);
        moved := Resize(newMask);
      }
    }

    /** hmap_insert */
    method Insert(node: Node, hash: size_t) returns (ghost moved: nat)
      requires Valid() && node !in nodes && n < SIZE_MAX
      modifies this, one, buckets, nodes`hash, nodes`next, node`hash, node`next
      ensures Valid() && nodes == old(nodes) + {node} && n == old(n) + 1
      ensures node.hash == hash && forall x :: x in old(nodes) ==> x.hash == old(x.hash)
      ensures buckets == old(buckets) || buckets == one || fresh(buckets)
      ensures mask == InsertMask(old(mask), n) && moved == if mask == old(mask) then 0 else n
      ensures mask >= n / 2 && (mask > old(mask) <==> n / 2 > old(mask))
      ensures mask != old(mask) ==> mask > old(mask) && (mask == 3 || (mask > 3 && mask < n))
    {
      InsertMaskBounds(mask, n + 1);
      InsertFast(node, hash);
      moved := 0;
      if n / 2 > mask {
        MaskForIsLeast(n, 0);
        moved := Expand();
      }
    }
  }
}
