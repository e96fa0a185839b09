/** The string set of lib/sset.c: an index of the nodes of a hash table by name. */
module StringSet {
  import opened ByteStrings
  import opened Words
  import opened Sequences
  import opened HashMap
  import opened Traversal

  /** An arbitrary function from names to hash values, as the map of all its values. */
  type HashFunction = m: imap<CString, size_t> | forall s: CString :: s in m
    ghost witness imap s: CString :: 0

  class Sset {
    const table: Hmap
    /** hash_name, an arbitrary function. */
    const hashName: HashFunction

    ghost predicate Valid()
      reads this, table, table.buckets, table.nodes
    {
      && table.Valid()
      && Indexed(table.nodes, hashName)
    }

    ghost function Names(): set<CString>
      reads table
    {
      NamesOf(table.nodes)
    }

    /** The two sets share no memory. */
    ghost predicate Apart(other: Sset)
      reads this, table, other, other.table
    {
      table.Separate(other.table) && table.nodes !! other.table.nodes
    }

    /** All memory that the set did not have before is new. */
    twostate predicate Grown()
      reads this, table
    {
      && (table.buckets == old(table.buckets) || table.buckets == table.one || fresh(table.buckets))
      && forall x {:trigger x in table.nodes} :: x in table.nodes ==> x in old(table.nodes) || fresh(x)
    }

    /** sset_init */
    constructor (hashName: HashFunction)
      ensures Valid() && Names() == {} && this.hashName == hashName && table.nodes == {}
      ensures fresh(table) && fresh(table.one) && fresh(table.buckets)
    {
      this.hashName := hashName;
      table := new Hmap();
    }

    /** sset_find__: compares the hash first, then the name. */
    method FindHashed(name: CString, hash: size_t) returns (r: Node?)
      requires Valid() && hash == hashName[name]
      ensures if name in Names() then r != null && r in table.nodes && r.name == name else r == null
    {
      ghost var c := table.chains[Slot(hash, table.mask)];
      ghost var j;
      r, j := FirstWithHash(table, hash);
      while r != null
        invariant j <= |c| && r == At(c, j) && (r != null ==> r.hash == hash)
        invariant forall l :: 0 <= l < j ==> c[l].hash != hash || c[l].name != name
        decreases |c| - j
      {
        if StrCmp(r.name, name) == 0 {
          StrCmpEqual(r.name, name);
          return;
        }
        StrCmpEqual(r.name, name);
        assert c[j].next == At(c, j + 1);
        r, j := NextWithHash(table, r, j + 1);
      }
      if name in Names() {
        var x :| x in table.nodes && x.name == name;
        HashedOnChain(table, x);
      }
    }

    /** sset_add__ */
    method AddNode(name: CString, hash: size_t) returns (r: Node)
      requires Valid() && name !in Names() && hash == hashName[name] && table.n < SIZE_MAX
      modifies table, table.one, table.buckets, table.nodes
      ensures Valid() && Grown()
      ensures fresh(r) && r.name == name && table.nodes == old(table.nodes) + {r} && table.n == old(table.n) + 1
    {
      r := new Node(name, NULL);
      ghost var moved := table.Insert(r, hash);
    }

    /** sset_add: null if `name` was there already. */
    method Add(name: CString) returns (r: Node?)
      requires Valid() && table.n < SIZE_MAX
      modifies table, table.one, table.buckets, table.nodes
      ensures Valid() && Grown()
      ensures Names() == old(Names()) + {name} && (r == null <==> name in old(Names()))
      ensures r != null ==> fresh(r) && r in table.nodes && r.name == name
      ensures table.n <= old(table.n) + 1
    {
      var found := FindHashed(name, hashName[name]);
      if found != null {
        return null;
      }
      r := AddNode(name, hashName[name]);
    }

    /** sset_delete, which frees the node. */
    method Delete(node: Node)
      requires Valid() && node in table.nodes
      modifies table, table.buckets, table.nodes
      ensures Valid() && table.buckets == old(table.buckets)
      ensures Names() == old(Names()) - {node.name} && table.nodes == old(table.nodes) - {node}
    {
      assert forall x :: x in table.nodes && SameName(x, node) ==> x == node;
      ghost var k := table.Remove(node);
      node.Free();
    }

    /** sset_find */
    method Find(name: CString) returns (r: Node?)
      requires Valid()
      ensures if name in Names() then r != null && r in table.nodes && r.name == name else r == null
    {
      r := FindHashed(name, hashName[name]);
    }

    /** sset_contains */
    method Contains(name: CString) returns (found: bool)
      requires Valid()
      ensures found <==> name in Names()
    {
      var node := Find(name);
      found := node != null;
    }

    /** sset_find_and_delete */
    method FindAndDelete(name: CString) returns (found: bool)
      requires Valid()
      modifies table, table.buckets, table.nodes
      ensures Valid() && table.buckets == old(table.buckets) && table.nodes <= old(table.nodes)
      ensures Names() == old(Names()) - {name} && (found <==> name in old(Names()))
      ensures table.n <= old(table.n)
    {
      var node := Find(name);
      if node != null {
        Delete(node);
      }
      found := node != null;
    }
  }

  /** Rehashing to any mask between two lookups of a name: both find the same node, or neither finds one. */
  method FindTwice(a: Sset, name: CString, newMask: size_t) returns (before: Node?, after: Node?)
    requires a.Valid() && IsMask(newMask) && newMask <= SIZE_MAX / 2
    modifies a.table, a.table.one, a.table.buckets, a.table.nodes`hash, a.table.nodes`next
    ensures a.Valid() && a.Names() == old(a.Names()) && a.table.mask == newMask
    ensures before == after && (before != null <==> name in a.Names())
  {
    before := a.Find(name);
    ghost var moved := a.table.Resize(newMask);
    after := a.Find(name);
    assert before != null && after != null ==> SameName(before, after);
  }

  /** The hash stored in each node is that of its name. */
  ghost predicate HashedByName(nodes: set<Node>, hashName: HashFunction)
    reads nodes
  {
    forall x {:trigger x.hash} :: x in nodes ==> x.hash == hashName[x.name]
  }

  /** Nodes hashed by name, no two with the same name. */
  ghost predicate Indexed(nodes: set<Node>, hashName: HashFunction)
    reads nodes
  {
    && HashedByName(nodes, hashName)
    && (forall x, y {:trigger SameName(x, y)} :: x in nodes && y in nodes && SameName(x, y) ==> x == y)
  }

  ghost predicate SameName(x: Node, y: Node) {
    x.name == y.name
  }

  ghost function NamesOf(nodes: set<Node>): set<CString> {
    set x | x in nodes :: x.name
  }

  lemma IndexedWith(nodes: set<Node>, hashName: HashFunction, x: Node)
    requires Indexed(nodes, hashName) && x.hash == hashName[x.name] && x.name !in NamesOf(nodes)
    ensures Indexed(nodes + {x}, hashName)
  {
    forall y | y in nodes
      ensures !SameName(x, y) && !SameName(y, x)
    {
      assert y.name in NamesOf(nodes);
    }
  }

  lemma NamesWith(nodes: set<Node>, x: Node)
    ensures NamesOf(nodes + {x}) == NamesOf(nodes) + {x.name}
  {
  }

  lemma NamesWithout(nodes: set<Node>, hashName: HashFunction, x: Node)
    requires Indexed(nodes, hashName) && x in nodes
    ensures NamesOf(nodes - {x}) == NamesOf(nodes) - {x.name}
    ensures forall y {:trigger y.name} :: y in nodes && y != x ==> y.name != x.name
  {
    assert forall y {:trigger y.name} :: y in nodes && y != x ==> !SameName(x, y);
  }

  /** Distinct nodes have distinct names, so the nodes are as many as the names. */
  lemma {:induction false} NamesCount(nodes: set<Node>, hashName: HashFunction)
    requires Indexed(nodes, hashName)
    ensures |NamesOf(nodes)| == |nodes|
  {
    if nodes != {} {
      var x :| x in nodes;
      assert forall y :: y in nodes && SameName(x, y) ==> x == y;
      NamesCount(nodes - {x}, hashName);
      assert NamesOf(nodes) == NamesOf(nodes - {x}) + {x.name};
    }
  }

  /** Names of the first `k` nodes of a traversal. */
  ghost function NamesUpTo(order: seq<Node>, k: nat): set<CString>
    requires k <= |order|
  {
    if k == 0 then {} else NamesUpTo(order, k - 1) + {order[k - 1].name}
  }

  /** The first `k` names in `order` are among `names`. */
  ghost predicate AllAmong(order: seq<Node>, k: nat, names: set<CString>) {
    Ahead(order, k, order, k) && k <= |order| && NamesUpTo(order, k) <= names
  }

  /** From element `k` on, each node has a name that none before it has. */
  ghost predicate NewNames(order: seq<Node>, k: nat)
    requires k <= |order|
    decreases |order| - k
  {
    k < |order| ==> order[k].name !in NamesUpTo(order, k) && NewNames(order, k + 1)
  }

  lemma {:induction false} NamesUpToAre(order: seq<Node>, k: nat)
    requires k <= |order|
    ensures forall s :: s in NamesUpTo(order, k) <==> exists j :: 0 <= j < k && order[j].name == s
  {
    if k > 0 {
      NamesUpToAre(order, k - 1);
    }
  }

  lemma {:induction false} TraversalNames(table: Hmap, hashName: HashFunction, k: nat)
    requires table.Valid() && Indexed(table.nodes, hashName) && k <= |table.Order()|
    ensures NewNames(table.Order(), k)
    decreases |table.Order()| - k
  {
    var order := table.Order();
    if k < |order| {
      TraversalNames(table, hashName, k + 1);
      NamesUpToAre(order, k);
      OrderNoDup(table);
      OrderListsNodes(table);
      forall j | 0 <= j < k
        ensures order[j].name != order[k].name
      {
        assert order[j] in Elements(order) && order[k] in Elements(order);
        assert !SameName(order[j], order[k]);
      }
    }
  }

  /** A traversal comes upon each name once. */
  lemma NamesInOrder(table: Hmap, hashName: HashFunction)
    requires table.Valid() && Indexed(table.nodes, hashName)
    ensures NewNames(table.Order(), 0) && NamesUpTo(table.Order(), |table.Order()|) == NamesOf(table.nodes)
    ensures |table.Order()| == table.n
  {
    var order := table.Order();
    TraversalNames(table, hashName, 0);
    NamesUpToAre(order, |order|);
    OrderListsNodes(table);
    assert forall x :: x in table.nodes <==> x in Elements(order);
    forall s | s in NamesOf(table.nodes)
      ensures s in NamesUpTo(order, |order|)
    {
      var x :| x in table.nodes && x.name == s;
      assert x in Elements(order);
      var j :| 0 <= j < |order| && order[j] == x;
      assert order[j].name == s;
    }
    forall s | s in NamesUpTo(order, |order|)
      ensures s in NamesOf(table.nodes)
    {
      var j :| 0 <= j < |order| && order[j].name == s;
      assert order[j] in Elements(order);
    }
  }
}
