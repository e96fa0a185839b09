/** The string map of lib/shash.c, for maps without duplicate names. */
module StringMap {
  import opened ByteStrings
  import opened Words
  import opened HashMap
  import opened Traversal
  import opened StringSet

  /** `entries` has the name and the data of each node, and nothing else. */
  ghost predicate Stored(nodes: set<Node>, entries: map<CString, Ptr>)
    reads nodes
  {
    && (forall x {:trigger x.name} :: x in nodes ==> x.name in entries && entries[x.name] == x.data)
    && entries.Keys == NamesOf(nodes)
  }

  lemma StoredWith(nodes: set<Node>, entries: map<CString, Ptr>, node: Node)
    requires Stored(nodes, entries) && node.name !in entries
    ensures Stored(nodes + {node}, entries[node.name := node.data])
  {
    NamesWith(nodes, node);
  }

  lemma StoredWithout(nodes: set<Node>, entries: map<CString, Ptr>, hashName: HashFunction, node: Node)
    requires Indexed(nodes, hashName) && Stored(nodes, entries) && node in nodes
    ensures Indexed(nodes - {node}, hashName) && Stored(nodes - {node}, entries - {node.name})
  {
    NamesWithout(nodes, hashName, node);
  }

  class Shash {
    const table: Hmap
    /** hash_name, an arbitrary function. */
    const hashName: HashFunction
    ghost var entries: map<CString, Ptr>

    ghost predicate Valid()
      reads this, table, table.buckets, table.nodes
    {
      && table.Valid()
      && Indexed(table.nodes, hashName)
      && Stored(table.nodes, entries)
    }

    /** What raw additions keep: several nodes may have the same name. */
    ghost predicate Sound()
      reads this, table, table.buckets, table.nodes
    {
      table.Valid() && HashedByName(table.nodes, hashName)
    }

    twostate predicate Grown()
      reads this, table
    {
      && (table.buckets == old(table.buckets) || table.buckets == table.one || fresh(table.buckets))
      && forall x {:trigger x in table.nodes} :: x in table.nodes ==> x in old(table.nodes) || fresh(x)
    }

    /** shash_init */
    constructor (hashName: HashFunction)
      ensures Valid() && entries == map[] && this.hashName == hashName && table.nodes == {}
      ensures fresh(table) && fresh(table.one) && fresh(table.buckets)
    {
      this.hashName := hashName;
      table := new Hmap();
      entries := map[];
    }

    /** shash_find__, for the `|name|` bytes of `name`: the hash, then strncmp, then the length. Among
        several nodes with that name, some one is found. */
    method FindHashed(name: CString, hash: size_t) returns (r: Node?)
      requires Sound() && hash == hashName[name]
      ensures if name in NamesOf(table.nodes) then r != null && r in table.nodes && r.name == name else r == null
    {
      ghost var c := table.chains[Slot(hash, table.mask)];
      ghost var j;
      r, j := FirstWithHash(table, hash);
      while r != null
        invariant j <= |c| && r == At(c, j) && (r != null ==> r.hash == hash)
        invariant forall l :: 0 <= l < j ==> c[l].hash != hash || c[l].name != name
        decreases |c| - j
      {
        PrefixTestIsEquality(r.name, name);
        if StrNCmpEqual(r.name + [0], name + [0], |name|) && (r.name + [0])[|name|] == 0 {
          assert c[j] in table.nodes;
          return;
        }
        assert c[j].next == At(c, j + 1);
        r, j := NextWithHash(table, r, j + 1);
      }
      if name in NamesOf(table.nodes) {
        var x :| x in table.nodes && x.name == name;
        HashedOnChain(table, x);
      }
    }

    /** shash_find; shash_find_len is the same for a name given by its length. */
    method Find(name: CString) returns (r: Node?)
      requires Sound()
      ensures if name in NamesOf(table.nodes) then r != null && r in table.nodes && r.name == name else r == null
      ensures Valid() ==> (r != null <==> name in entries) && (r != null ==> r.data == entries[name])
    {
      r := FindHashed(name, hashName[name]);
      assert r != null && Valid() ==> r.name in entries && entries[r.name] == r.data;
    }

    /** shash_find_data */
    method FindData(name: CString) returns (data: Ptr)
      requires Valid()
      ensures data == if name in entries then entries[name] else NULL
    {
      var node := Find(name);
      data := if node != null then node.data else NULL;
    }

    /** shash_add_nocopy__: one more node. If the name is new, the map gains an entry; otherwise names
        are not unique any more. */
    method AddNode(name: CString, data: Ptr, hash: size_t) returns (r: Node)
      requires Sound() && hash == hashName[name] && table.n < SIZE_MAX
      modifies this`entries, table, table.one, table.buckets, table.nodes
      ensures Sound() && Grown() && table.n == old(table.n) + 1
      ensures fresh(r) && table.nodes == old(table.nodes) + {r} && r.name == name && r.data == data
      ensures old(Valid()) && name !in old(entries) ==> Valid() && entries == old(entries)[name := data]
    {
      r := new Node(name, data);
      Attach(r, hash);
    }

    method Attach(node: Node, hash: size_t)
      requires Sound() && node !in table.nodes && hash == hashName[node.name] && table.n < SIZE_MAX
      modifies this`entries, table, table.one, table.buckets, table.nodes`hash, table.nodes`next, node`hash, node`next
      ensures Sound() && table.nodes == old(table.nodes) + {node} && table.n == old(table.n) + 1
      ensures table.buckets == old(table.buckets) || table.buckets == table.one || fresh(table.buckets)
      ensures old(Valid()) && node.name !in old(entries) ==> Valid() && entries == old(entries)[node.name := node.data]
    {
      ghost var before, isNew := table.nodes, Valid() && node.name !in entries;
      ghost var moved := table.Insert(node, hash);
      if isNew {
        Gain(before, node);
      }
    }

    /** The map gains an entry for a node that has just been inserted. */
    ghost method Gain(before: set<Node>, node: Node)
      requires table.Valid() && table.nodes == before + {node}
      requires Indexed(before, hashName) && node.hash == hashName[node.name]
      requires Stored(before, entries) && node.name !in entries
      modifies this`entries
      ensures Valid() && entries == old(entries)[node.name := node.data]
    {
      StoredWith(before, entries, node);
      IndexedWith(before, hashName, node);
      entries := entries[node.name := node.data];
    }

    /** shash_add, which does not look for the name first. */
    method Add(name: CString, data: Ptr) returns (r: Node)
      requires Sound() && table.n < SIZE_MAX
      modifies this`entries, table, table.one, table.buckets, table.nodes
      ensures Sound() && Grown() && table.n == old(table.n) + 1
      ensures fresh(r) && table.nodes == old(table.nodes) + {r} && r.name == name && r.data == data
      ensures old(Valid()) && name !in old(entries) ==> Valid() && entries == old(entries)[name := data]
    {
      r := AddNode(name, data, hashName[name]);
    }

    /** shash_add_once */
    method AddOnce(name: CString, data: Ptr) returns (added: bool)
      requires Valid() && table.n < SIZE_MAX
      modifies this`entries, table, table.one, table.buckets, table.nodes
      ensures Valid() && Grown() && table.n <= old(table.n) + 1
      ensures added <==> name !in old(entries)
      ensures entries == if added then old(entries)[name := data] else old(entries)
    {
      var found := Find(name);
      added := found == null;
      if added {
        var node := Add(name, data);
      }
    }

    /** shash_replace: the data that `name` had before, or null. */
    method Replace(name: CString, data: Ptr) returns (oldData: Ptr)
      requires Valid() && table.n < SIZE_MAX
      modifies this`entries, table, table.one, table.buckets, table.nodes
      ensures Valid() && Grown() && table.n <= old(table.n) + 1
      ensures oldData == if name in old(entries) then old(entries)[name] else NULL
      ensures entries == old(entries)[name := data]
    {
      var node := Find(name);
      if node == null {
        var added := AddNode(name, data, hashName[name]);
        oldData := NULL;
      } else {
        oldData := node.data;
        SetData(node, data);
      }
    }

    method SetData(node: Node, data: Ptr)
      requires Valid() && node in table.nodes
      modifies this`entries, node`data
      ensures Valid() && entries == old(entries)[node.name := data] && node.data == data
    {
      NamesWithout(table.nodes, hashName, node);
      node.data := data;
      entries := entries[node.name := data];
    }

    /** The map loses an entry whose node is gone. */
    ghost method Forget(name: CString)
      requires table.Valid() && Indexed(table.nodes, hashName) && Stored(table.nodes, entries - {name})
      modifies this`entries
      ensures Valid() && entries == old(entries) - {name}
    {
      entries := entries - {name};
    }

    /** shash_steal, which frees the node; shash_delete also frees the name. */
    method Steal(node: Node) returns (name: CString)
      requires Valid() && node in table.nodes
      modifies this`entries, table, table.buckets, table.nodes
      ensures Valid() && name == node.name && entries == old(entries) - {name}
      ensures table.nodes == old(table.nodes) - {node} && table.buckets == old(table.buckets) &&
        table.n == old(table.n) - 1
    {
      name := node.name;
      StoredWithout(table.nodes, entries, hashName, node);
      ghost var k := table.Remove(node);
      node.Free();
      Forget(name);
    }

    /** shash_find_and_delete */
    method FindAndDelete(name: CString) returns (data: Ptr)
      requires Valid()
      modifies this`entries, table, table.buckets, table.nodes
      ensures Valid() && entries == old(entries) - {name}
      ensures data == if name in old(entries) then old(entries)[name] else NULL
      ensures table.nodes <= old(table.nodes) && table.buckets == old(table.buckets) && table.n <= old(table.n)
    {
      var node := Find(name);
      if node != null {
        data := node.data;
        var stolen := Steal(node);
      } else {
        data := NULL;
      }
    }
  }
}
