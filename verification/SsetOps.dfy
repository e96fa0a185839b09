/** Whole-set operations of lib/sset.c: loops over one set, or over one set with lookups in another. */
module StringSetOperations {
  import opened ByteStrings
  import opened Words
  import opened Sequences
  import opened HashMap
  import opened Traversal
  import opened StringSet

  /** sset_delete of the current node of a traversal. */
  method DeleteAhead(a: Sset, node: Node, ghost order: seq<Node>, ghost k: nat, ghost p: nat)
    requires a.Valid() && Ahead(order, k, a.table.Order(), p) && node == At(order, k)
    modifies a.table, a.table.buckets, a.table.nodes
    ensures a.Valid() && a.table.buckets == old(a.table.buckets) && a.table.nodes == old(a.table.nodes) - {node}
    ensures Ahead(order, k + 1, a.table.Order(), p)
  {
    AheadInTable(a.table, order, k, p);
    FreeAhead(a.table, node, order, k, p);
  }

  /** One round of sset_clear. */
  method DeleteRound(a: Sset, node: Node, ghost order: seq<Node>, ghost k: nat) returns (next: Node?)
    requires a.Valid() && Ahead(order, k, a.table.Order(), 0) && node == At(order, k)
    modifies a.table, a.table.buckets, a.table.nodes
    ensures a.Valid() && a.table.buckets == old(a.table.buckets) && a.table.nodes <= old(a.table.nodes)
    ensures next == At(order, k + 1) && Ahead(order, k + 1, a.table.Order(), 0)
  {
    next := NextAhead(a.table, node, order, k, 0);
    DeleteAhead(a, node, order, k, 0);
  }

  /** sset_clear */
  method Clear(a: Sset)
    requires a.Valid()
    modifies a.table, a.table.buckets, a.table.nodes
    ensures a.Valid() && a.Names() == {} && a.table.nodes == {} && a.table.buckets == old(a.table.buckets) &&
      a.table.nodes <= old(a.table.nodes)
  {
    ghost var order, k := a.table.Order(), 0;
    AheadAtFirst(order, 0);
    var node := First(a.table);
    while node != null
      invariant a.Valid() && a.table.buckets == old(a.table.buckets) && a.table.nodes <= old(a.table.nodes)
      invariant Ahead(order, k, a.table.Order(), 0) && node == At(order, k)
      decreases |order| - k
    {
      node := DeleteRound(a, node, order, k);
      k := k + 1;
    }
    OrderListsNodes(a.table);
  }

  /** One step of sset_intersect. */
  method KeepIfShared(a: Sset, b: Sset, node: Node, ghost order: seq<Node>, ghost k: nat, ghost p: nat)
    returns (next: Node?, shared: bool)
    requires a.Valid() && b.Valid() && (a == b || a.Apart(b))
    requires Ahead(order, k, a.table.Order(), p) && node == At(order, k)
    modifies a.table, a.table.buckets, a.table.nodes
    ensures next == At(order, k + 1) && (shared <==> node.name in b.Names())
    ensures b.Valid() && b.Names() == old(b.Names()) && (a == b || a.Apart(b))
    ensures a.Valid() && a.table.buckets == old(a.table.buckets)
    ensures a.table.nodes == if shared then old(a.table.nodes) else old(a.table.nodes) - {node}
    ensures Ahead(order, k + 1, a.table.Order(), if shared then p + 1 else p)
  {
    next := NextAhead(a.table, node, order, k, p);
    ghost var i := Located(a.table, p);
    shared := b.Contains(node.name);
    if !shared {
      DeleteAhead(a, node, order, k, p);
    }
  }

  /** sset_intersect has come to element `k` of `order`, which is at position `p` now; of the nodes `all`
      that were there, those before it are left whose names are among `names`. */
  ghost predicate Intersecting(a: Sset, b: Sset, order: seq<Node>, k: nat, p: nat, todo: set<Node>,
                               all: set<Node>, names: set<CString>)
    reads a, a.table, a.table.buckets, a.table.nodes, b, b.table, b.table.buckets, b.table.nodes
  {
    && a.Valid() && b.Valid() && b.Names() == names && (a == b || a.Apart(b))
    && Ahead(order, k, a.table.Order(), p) && NodesFrom(order, k, todo) && todo <= all
    && a.table.nodes == (all - NotIn(all, names)) + todo
  }

  /** One round of sset_intersect. */
  method IntersectRound(a: Sset, b: Sset, node: Node, ghost order: seq<Node>, ghost k: nat, ghost p: nat,
                        ghost todo: set<Node>, ghost all: set<Node>, ghost names: set<CString>)
    returns (next: Node?, ghost p': nat)
    requires Intersecting(a, b, order, k, p, todo, all, names) && node == At(order, k)
    modifies a.table, a.table.buckets, a.table.nodes
    ensures Intersecting(a, b, order, k + 1, p', todo - {node}, all, names) && next == At(order, k + 1)
    ensures a.table.buckets == old(a.table.buckets) && a.table.nodes <= old(a.table.nodes)
  {
    var shared;
    next, shared := KeepIfShared(a, b, node, order, k, p);
    p' := if shared then p + 1 else p;
  }

  lemma IntersectBegins(a: Sset, b: Sset)
    requires a.Valid() && b.Valid() && (a == b || a.Apart(b))
    ensures Intersecting(a, b, a.table.Order(), 0, 0, a.table.nodes, a.table.nodes, b.Names())
  {
    Begin(a.table);
  }

  /** The rounds of sset_intersect from element `k` on. */
  method IntersectFrom(a: Sset, b: Sset, node: Node?, ghost order: seq<Node>, ghost k: nat, ghost p: nat,
                       ghost todo: set<Node>, ghost all: set<Node>, ghost names: set<CString>)
    requires Intersecting(a, b, order, k, p, todo, all, names) && node == At(order, k)
    modifies a.table, a.table.buckets, a.table.nodes
    ensures a.Valid() && b.Valid() && b.Names() == names && a.table.nodes == all - NotIn(all, names)
    ensures a.table.buckets == old(a.table.buckets)
    decreases |order| - k
  {
    if node != null {
      var next, p' := IntersectRound(a, b, node, order, k, p, todo, all, names);
      IntersectFrom(a, b, next, order, k + 1, p', todo - {node}, all, names);
    }
  }

  /** sset_intersect, also of a set with itself. */
  method Intersect(a: Sset, b: Sset)
    requires a.Valid() && b.Valid() && (a == b || a.Apart(b))
    modifies a.table, a.table.buckets, a.table.nodes
    ensures a.Valid() && a.Names() == old(a.Names()) * old(b.Names())
    ensures a.table.buckets == old(a.table.buckets) && a.table.nodes <= old(a.table.nodes)
    ensures b.Valid() && b.Names() == old(b.Names())
  {
    NamesKept(a.table.nodes, b.Names());
    IntersectBegins(a, b);
    var node := First(a.table);
    IntersectFrom(a, b, node, a.table.Order(), 0, 0, a.table.nodes, a.table.nodes, b.Names());
  }

  /** The nodes whose names are not among `names`. */
  ghost function NotIn(nodes: set<Node>, names: set<CString>): set<Node> {
    set x | x in nodes && x.name !in names
  }

  lemma NamesKept(nodes: set<Node>, names: set<CString>)
    ensures NamesOf(nodes - NotIn(nodes, names)) == NamesOf(nodes) * names
  {
    forall name | name in NamesOf(nodes) * names
      ensures name in NamesOf(nodes - NotIn(nodes, names))
    {
      var x :| x in nodes && x.name == name;
      assert x in nodes - NotIn(nodes, names);
    }
  }

  /** sset_pop */
  method Pop(a: Sset) returns (name: CString)
    requires a.Valid() && a.Names() != {}
    modifies a.table, a.table.buckets, a.table.nodes
    ensures a.Valid() && name in old(a.Names()) && a.Names() == old(a.Names()) - {name}
  {
    var node := First(a.table);
    OrderListsNodes(a.table);
    assert node in Elements(a.table.Order());
    name := node.name;
    a.Delete(node);
  }

  /** The first `k` nodes of `orig`, whose traversal order is `order`, are cloned. */
  ghost predicate Cloning(a: Sset, orig: Sset, order: seq<Node>, k: nat)
    reads a, a.table, a.table.buckets, a.table.nodes, orig, orig.table, orig.table.buckets, orig.table.nodes
  {
    && a.Valid() && orig.Valid() && a.Apart(orig) && a.hashName == orig.hashName
    && orig.table.Order() == order && k <= |order| <= SIZE_MAX
    && a.table.n == k && a.Names() == NamesUpTo(order, k)
  }

  /** One round of sset_clone. */
  method CloneNode(a: Sset, orig: Sset, node: Node, ghost order: seq<Node>, ghost k: nat) returns (next: Node?)
    requires Cloning(a, orig, order, k) && k < |order| && node == order[k]
    modifies a.table, a.table.one, a.table.buckets, a.table.nodes
    ensures Cloning(a, orig, order, k + 1) && a.Grown() && next == At(order, k + 1)
  {
    AheadAtFirst(order, k);
    TraversalNames(orig.table, orig.hashName, k);
    next := NextAhead(orig.table, node, order, k, k);
    ghost var i := Located(orig.table, k);
    assert node in orig.table.nodes;
    var added := a.AddNode(node.name, node.hash);
    assert orig.Valid() == old(orig.Valid());
  }

  /** The rounds of sset_clone from element `k` of `orig` on. */
  method CloneFrom(a: Sset, orig: Sset, node: Node?, ghost order: seq<Node>, ghost k: nat)
    requires Cloning(a, orig, order, k) && node == At(order, k)
    modifies a.table, a.table.one, a.table.buckets, a.table.nodes
    ensures Cloning(a, orig, order, |order|) && a.Grown()
    decreases |order| - k
  {
    if node != null {
      var next := CloneNode(a, orig, node, order, k);
      CloneFrom(a, orig, next, order, k + 1);
    }
  }

  /** sset_clone */
  method Clone(orig: Sset) returns (a: Sset)
    requires orig.Valid()
    ensures a.Valid() && fresh(a) && fresh(a.table) && fresh(a.table.one) && fresh(a.table.buckets) &&
      a.hashName == orig.hashName
    ensures a.Names() == orig.Names() && a.table.n == orig.table.n && forall x :: x in a.table.nodes ==> fresh(x)
  {
    a := new Sset(orig.hashName);
    NamesInOrder(orig.table, orig.hashName);
    var node := First(orig.table);
    CloneFrom(a, orig, node, orig.table.Order(), 0);
  }

  /** One step of sset_equals. */
  method LookUp(a: Sset, b: Sset, node: Node, ghost order: seq<Node>, ghost k: nat) returns (next: Node?, found: bool)
    requires a.Valid() && b.Valid() && a.hashName == b.hashName && a.table.Order() == order
    requires AllAmong(order, k, b.Names()) && node == At(order, k)
    ensures if found then AllAmong(order, k + 1, b.Names()) else !(a.Names() <= b.Names())
    ensures next == At(order, k + 1)
  {
    ghost var i := Located(a.table, k);
    assert node in a.table.nodes && node.name in a.Names();
    var there := b.FindHashed(node.name, node.hash);
    next := NextAhead(a.table, node, order, k, k);
    found := there != null;
  }

  /** The loop of sset_equals: is every name of `a` in `b`? */
  method AllFound(a: Sset, b: Sset) returns (r: bool)
    requires a.Valid() && b.Valid() && a.hashName == b.hashName
    ensures r <==> a.Names() <= b.Names()
  {
    ghost var order, k := a.table.Order(), 0;
    AheadAtFirst(order, 0);
    NamesInOrder(a.table, a.hashName);
    var node := First(a.table);
    while node != null
      invariant AllAmong(order, k, b.Names()) && node == At(order, k)
      decreases |order| - k
    {
      var found;
      node, found := LookUp(a, b, node, order, k);
      if !found {
        return false;
      }
      k := k + 1;
    }
    return true;
  }

  /** sset_equals: compares the counts, then looks up the names of `a` in `b`. */
  method Equals(a: Sset, b: Sset) returns (equal: bool)
    requires a.Valid() && b.Valid() && a.hashName == b.hashName
    ensures equal <==> a.Names() == b.Names()
  {
    NamesCount(a.table.nodes, a.hashName);
    NamesCount(b.table.nodes, b.hashName);
    if a.table.n != b.table.n {
      return false;
    }
    equal := AllFound(a, b);
    if equal {
      SubsetOfSameSize(a.Names(), b.Names());
    }
  }
}
