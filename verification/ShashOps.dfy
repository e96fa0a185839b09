/** Operations of lib/shash.c on whole maps, and runs of map operations. */
module StringMapOperations {
  import opened ByteStrings
  import opened Words
  import opened Sequences
  import opened HashMap
  import opened Traversal
  import opened StringSet
  import opened StringSetText
  import opened StringMap

  /** shash_steal of the current node of a traversal. */
  method StealCurrent(a: Shash, node: Node, ghost order: seq<Node>, ghost k: nat)
    requires a.Valid() && Ahead(order, k, a.table.Order(), 0) && node == At(order, k)
    modifies a`entries, a.table, a.table.buckets, a.table.nodes
    ensures a.Valid() && a.table.buckets == old(a.table.buckets) && a.table.nodes == old(a.table.nodes) - {node}
    ensures Ahead(order, k + 1, a.table.Order(), 0)
  {
    AheadInTable(a.table, order, k, 0);
    StoredWithout(a.table.nodes, a.entries, a.hashName, node);
    FreeAhead(a.table, node, order, k, 0);
    a.Forget(node.name);
  }

  /** One round of shash_clear. */
  method StealAhead(a: Shash, node: Node, ghost order: seq<Node>, ghost k: nat) returns (next: Node?)
    requires a.Valid() && Ahead(order, k, a.table.Order(), 0) && node == At(order, k)
    modifies a`entries, a.table, a.table.buckets, a.table.nodes
    ensures a.Valid() && a.table.buckets == old(a.table.buckets) && a.table.nodes == old(a.table.nodes) - {node}
    ensures next == At(order, k + 1) && Ahead(order, k + 1, a.table.Order(), 0)
  {
    next := NextAhead(a.table, node, order, k, 0);
    StealCurrent(a, node, order, k);
  }

  /** shash_clear */
  method Clear(a: Shash)
    requires a.Valid()
    modifies a`entries, a.table, a.table.buckets, a.table.nodes
    ensures a.Valid() && a.entries == map[] && a.table.nodes == {} && a.table.n == 0
    ensures a.table.buckets == old(a.table.buckets)
  {
    ghost var order, k := a.table.Order(), 0;
    AheadAtFirst(order, 0);
    var node := First(a.table);
    while node != null
      invariant a.Valid() && a.table.buckets == old(a.table.buckets) && a.table.nodes <= old(a.table.nodes)
      invariant Ahead(order, k, a.table.Order(), 0) && node == At(order, k)
      decreases |order| - k
    {
      node := StealAhead(a, node, order, k);
      k := k + 1;
    }
    OrderListsNodes(a.table);
    assert NamesOf(a.table.nodes) == {};
  }

  /** The loop of shash_sort: the nodes in traversal order. */
  method Collect(a: Shash) returns (nodes: array<Node?>)
    requires a.Valid()
    ensures fresh(nodes) && nodes[..] == a.table.Order()
  {
    OrderListsNodes(a.table);
    ghost var order := a.table.Order();
    AheadAtFirst(order, 0);
    nodes := new Node?[a.table.n];
    var i := 0;
    var node := First(a.table);
    while node != null
      invariant Listing(nodes, order, i) && node == At(order, i)
      decreases |order| - i
    {
      node := ListNext(a.table, nodes, node, i, order);
      i := i + 1;
    }
  }

  /** shash_sort: null if the map is empty. */
  method Sort(a: Shash) returns (r: array?<Node?>, ghost sorted: seq<Node>)
    requires a.Valid()
    ensures r == null <==> a.entries == map[]
    ensures r != null ==> fresh(r) && r[..] == sorted && multiset(sorted) == multiset(a.table.Order())
    ensures StrictlySorted(NameList(sorted)) && Elements(NameList(sorted)) == a.entries.Keys
    ensures Ascending(NameList(sorted))
  {
    NamesCount(a.table.nodes, a.hashName);
    if a.table.n == 0 {
      return null, [];
    }
    r, sorted := SortAll(a);
    SortedOrder(NameList(sorted));
  }

  /** shash_sort of a map that is not empty. */
  method SortAll(a: Shash) returns (r: array<Node?>, ghost sorted: seq<Node>)
    requires a.Valid()
    ensures fresh(r) && r[..] == sorted && multiset(sorted) == multiset(a.table.Order())
    ensures StrictlySorted(NameList(sorted)) && Elements(NameList(sorted)) == NamesOf(a.table.nodes)
  {
    r := Collect(a);
    assert r[..r.Length] == r[..];
    sorted := SortNodes(r, r.Length);
    assert r[..r.Length] == r[..];
    SortedNames(a.table, a.hashName, sorted);
  }

  /** One step of shash_equal_keys. */
  method LookUp(a: Shash, b: Shash, node: Node, ghost order: seq<Node>, ghost k: nat) returns (next: Node?, found: bool)
    requires a.Valid() && b.Valid() && a.table.Order() == order
    requires AllAmong(order, k, NamesOf(b.table.nodes)) && node == At(order, k)
    ensures if found then AllAmong(order, k + 1, NamesOf(b.table.nodes))
            else !(NamesOf(a.table.nodes) <= NamesOf(b.table.nodes))
    ensures next == At(order, k + 1)
  {
    ghost var i := Located(a.table, k);
    assert node in a.table.nodes && node.name in NamesOf(a.table.nodes);
    var there := b.Find(node.name);
    next := NextAhead(a.table, node, order, k, k);
    found := there != null;
  }

  /** The loop of shash_equal_keys: is every name of `a` in `b`? */
  method AllFound(a: Shash, b: Shash) returns (r: bool)
    requires a.Valid() && b.Valid()
    ensures r <==> NamesOf(a.table.nodes) <= NamesOf(b.table.nodes)
  {
    ghost var order, k := a.table.Order(), 0;
    AheadAtFirst(order, 0);
    NamesInOrder(a.table, a.hashName);
    var node := First(a.table);
    while node != null
      invariant AllAmong(order, k, NamesOf(b.table.nodes)) && node == At(order, k)
      decreases |order| - k
    {
      var found;
      node, found := LookUp(a, b, node, order, k);
      if !found {
        return false;
      }
      k := k + 1;
    }
    return true;
  }

  /** shash_equal_keys: compares the counts, then looks up the names of `a` in `b`. */
  method EqualKeys(a: Shash, b: Shash) returns (equal: bool)
    requires a.Valid() && b.Valid()
    ensures equal <==> a.entries.Keys == b.entries.Keys
  {
    NamesCount(a.table.nodes, a.hashName);
    NamesCount(b.table.nodes, b.hashName);
    if a.table.n != b.table.n {
      return false;
    }
    equal := AllFound(a, b);
    if equal {
      SubsetOfSameSize(NamesOf(a.table.nodes), NamesOf(b.table.nodes));
    }
  }

  datatype Op = AddOnce(name: CString, data: Ptr) | Replace(name: CString, data: Ptr) | FindData(name: CString)
    | FindAndDelete(name: CString) | RemoveAll

  /** What an operation answers: a boolean or a pointer. */
  datatype Answer = Flag(b: bool) | Data(p: Ptr)

  function Get(m: map<CString, Ptr>, name: CString): Ptr {
    if name in m then m[name] else NULL
  }

  /** The operation on a finite map, */
  function Apply(m: map<CString, Ptr>, op: Op): map<CString, Ptr> {
    match op
    case AddOnce(name, data) => if name in m then m else m[name := data]
    case Replace(name, data) => m[name := data]
    case FindData(_) => m
    case FindAndDelete(name) => m - {name}
    case RemoveAll => map[]
  }

  /** and what it answers. */
  function AnswerOf(m: map<CString, Ptr>, op: Op): Answer {
    match op
    case AddOnce(name, _) => Flag(name !in m)
    case Replace(name, _) => Data(Get(m, name))
    case FindData(name) => Data(Get(m, name))
    case FindAndDelete(name) => Data(Get(m, name))
    case RemoveAll => Flag(true)
  }

  /** The map after the first `i` operations, and their answers. */
  function After(ops: seq<Op>, i: nat): map<CString, Ptr>
    requires i <= |ops|
  {
    if i == 0 then map[] else Apply(After(ops, i - 1), ops[i - 1])
  }

  function Answers(ops: seq<Op>, i: nat): seq<Answer>
    requires i <= |ops|
  {
    if i == 0 then [] else Answers(ops, i - 1) + [AnswerOf(After(ops, i - 1), ops[i - 1])]
  }

  /** One operation of lib/shash.c. */
  method Do(a: Shash, op: Op) returns (answer: Answer)
    requires a.Valid() && a.table.n < SIZE_MAX
    modifies a`entries, a.table, a.table.one, a.table.buckets, a.table.nodes
    ensures a.Valid() && a.Grown() && a.table.n <= old(a.table.n) + 1
    ensures a.entries == Apply(old(a.entries), op) && answer == AnswerOf(old(a.entries), op)
  {
    match op {
      case AddOnce(name, data) =>
        var added := a.AddOnce(name, data);
        answer := Flag(added);
      case Replace(name, data) =>
        var p := a.Replace(name, data);
        answer := Data(p);
      case FindData(name) =>
        var p := a.FindData(name);
        answer := Data(p);
      case FindAndDelete(name) =>
        var p := a.FindAndDelete(name);
        answer := Data(p);
      case RemoveAll =>
        Clear(a);
        answer := Flag(true);
    }
  }

  /** The run has come to operation `i`. */
  ghost predicate HasRun(a: Shash, ops: seq<Op>, i: nat)
    reads a, a.table, a.table.buckets, a.table.nodes
  {
    i <= |ops| <= SIZE_MAX && a.Valid() && a.table.n <= i && a.entries == After(ops, i)
  }

  /** Operation number `i` of a run. */
  method DoNext(a: Shash, ops: seq<Op>, i: nat) returns (answer: Answer)
    requires HasRun(a, ops, i) && i < |ops|
    modifies a`entries, a.table, a.table.one, a.table.buckets, a.table.nodes
    ensures HasRun(a, ops, i + 1) && a.Grown() && Answers(ops, i + 1) == Answers(ops, i) + [answer]
  {
    answer := Do(a, ops[i]);
  }

  /** The run from operation `i` on, after which all answers are there. */
  method RunFrom(a: Shash, ops: seq<Op>, i: nat, done: seq<Answer>) returns (answers: seq<Answer>)
    requires HasRun(a, ops, i) && done == Answers(ops, i)
    modifies a`entries, a.table, a.table.one, a.table.buckets, a.table.nodes
    ensures HasRun(a, ops, |ops|) && answers == Answers(ops, |ops|)
    decreases |ops| - i
  {
    if i == |ops| {
      return done;
    }
    var answer := DoNext(a, ops, i);
    answers := RunFrom(a, ops, i + 1, done + [answer]);
  }

  /** Every run on an empty map, under every hash function, answers like a finite map. */
  method Run(hashName: HashFunction, ops: seq<Op>) returns (a: Shash, answers: seq<Answer>)
    requires |ops| <= SIZE_MAX
    ensures a.Valid() && a.entries == After(ops, |ops|) && answers == Answers(ops, |ops|)
  {
    a := new Shash(hashName);
    answers := RunFrom(a, ops, 0, []);
  }
}
