/** Runs of every table operation on two tables, which hmap_swap may exchange at any time. */
module TablePairs {
  import opened Words
  import opened HashMap
  import opened TableRuns

  /** The operations of TableRuns, and those that neither count insertions nor rehash; Relocate copies
      a node to another address, after which its old memory may hold anything, and reports it to
      hmap_node_moved. */
  datatype TableOp =
    | Plain(op: Op)
    | InsertFast(node: Node, hash: size_t)
    | Replace(oldNode: Node, newNode: Node)
    | Relocate(oldNode: Node, newNode: Node)

  datatype PairOp = First(op: TableOp) | Second(op: TableOp) | Swap

  /** What a table holds, and its size. */
  datatype Table = Table(nodes: set<Node>, size: Size)

  datatype Pair = Pair(first: Table, second: Table)

  ghost function StepTable(t: Table, op: TableOp): Table {
    match op
    case Plain(op) => Table(StepNodes(t.nodes, op), Step(t.size, op))
    case InsertFast(node, _) => Table(t.nodes + {node}, t.size.(n := t.size.n + 1))
    case Replace(oldNode, newNode) => t.(nodes := t.nodes - {oldNode} + {newNode})
    case Relocate(oldNode, newNode) => t.(nodes := t.nodes - {oldNode} + {newNode})
  }

  ghost function StepPair(s: Pair, op: PairOp): Pair {
    match op
    case First(op) => s.(first := StepTable(s.first, op))
    case Second(op) => s.(second := StepTable(s.second, op))
    case Swap => Pair(s.second, s.first)
  }

  /** The node that an operation brings into a table, if any. */
  ghost function Brought(op: TableOp): set<Node> {
    match op
    case Plain(Insert(node, _)) => {node}
    case Plain(_) => {}
    case InsertFast(node, _) => {node}
    case Replace(_, newNode) => {newNode}
    case Relocate(_, newNode) => {newNode}
  }

  /** `all` has the nodes that operations bring in. */
  ghost predicate BringsFrom(op: PairOp, all: set<Node>) {
    op.Swap? || Brought(op.op) <= all
  }

  /** Nodes brought in are in neither table, nodes taken out are in this one. */
  ghost predicate LegalOn(t: Table, other: Table, op: TableOp) {
    && Brought(op) !! t.nodes && Brought(op) !! other.nodes
    && (op.Plain? && op.op.Remove? ==> op.op.node in t.nodes)
    && (op.Replace? || op.Relocate? ==> op.oldNode in t.nodes)
  }

  ghost predicate LegalStep(s: Pair, op: PairOp) {
    match op
    case First(op) => LegalOn(s.first, s.second, op)
    case Second(op) => LegalOn(s.second, s.first, op)
    case Swap => true
  }

  /** The table is well formed and is `t`. */
  ghost predicate Is(h: Hmap, t: Table)
    reads h, h.buckets, h.nodes
  {
    h.Valid() && h.nodes == t.nodes && h.n == t.size.n && h.mask == t.size.mask
  }

  /** Both tables are well formed and share neither storage nor nodes. */
  ghost predicate Are(a: Hmap, b: Hmap, s: Pair)
    reads a, a.buckets, a.nodes, b, b.buckets, b.nodes
  {
    Is(a, s.first) && Is(b, s.second) && a.Separate(b) && s.first.nodes !! s.second.nodes
  }

  /** One operation on one table. */
  method DoTable(a: Hmap, op: TableOp, ghost t: Table)
    requires Is(a, t) && LegalOn(t, t, op) && a.n < SIZE_MAX
    modifies a, a.one, a.buckets, a.nodes`hash, a.nodes`next, Brought(op)`hash, Brought(op)`next
    ensures Is(a, StepTable(t, op)) && a.n <= old(a.n) + 1
    ensures a.buckets == old(a.buckets) || a.buckets == a.one || fresh(a.buckets)
  {
    match op {
      case Plain(plain) =>
        ghost var moved := DoOp(a, plain, a.nodes + Brought(op), t.size);
      case InsertFast(node, hash) =>
        a.InsertFast(node, hash);
      case Replace(oldNode, newNode) =>
        ghost var k := a.Replace(oldNode, newNode);
      case Relocate(oldNode, newNode) =>
        ghost var k := a.BeforeReuse(oldNode);
        newNode.hash, newNode.next := oldNode.hash, oldNode.next;
        oldNode.hash, oldNode.next := *, *;
        a.NodeMoved(oldNode, newNode, k);
    }
  }

  /** The same beside another table, which is not affected. */
  method DoBeside(a: Hmap, b: Hmap, op: TableOp, ghost s: Pair)
    requires Are(a, b, s) && LegalOn(s.first, s.second, op) && a.n < SIZE_MAX
    modifies a, a.one, a.buckets, a.nodes`hash, a.nodes`next, Brought(op)`hash, Brought(op)`next
    ensures Are(a, b, StepPair(s, First(op))) && a.n <= old(a.n) + 1 && b.n == old(b.n)
    ensures a.buckets == old(a.buckets) || a.buckets == a.one || fresh(a.buckets)
    ensures b.buckets == old(b.buckets)
  {
    DoTable(a, op, s.first);
    assert b.Valid() == old(b.Valid());
  }

  /** One operation of a run. */
  method DoNext(a: Hmap, b: Hmap, op: PairOp, ghost s: Pair, ghost all: set<Node>)
    requires Are(a, b, s) && LegalStep(s, op) && a.n < SIZE_MAX && b.n < SIZE_MAX
    requires s.first.nodes <= all && s.second.nodes <= all
    requires BringsFrom(op, all)
    modifies a, a.one, a.buckets, b, b.one, b.buckets, all`hash, all`next
    ensures Are(a, b, StepPair(s, op))
    ensures StepPair(s, op).first.nodes <= all && StepPair(s, op).second.nodes <= all
    ensures a.n <= old(Larger(a.n, b.n)) + 1 && b.n <= old(Larger(a.n, b.n)) + 1
    ensures a.buckets in {old(a.buckets), old(b.buckets), a.one} || fresh(a.buckets)
    ensures b.buckets in {old(b.buckets), old(a.buckets), b.one} || fresh(b.buckets)
  {
    match op {
      case First(op) => DoBeside(a, b, op, s);
      case Second(op) => DoBeside(b, a, op, Pair(s.second, s.first));
      case Swap => a.Swap(b);
    }
  }

  function Larger(x: nat, y: nat): nat {
    if x > y then x else y
  }

  /** The two tables after the first `i` operations of a run from empty tables. */
  ghost function Pairs(ops: seq<PairOp>, i: nat): Pair
    requires i <= |ops|
  {
    if i == 0 then Pair(Table({}, Size(0, 0, 0, 0)), Table({}, Size(0, 0, 0, 0)))
    else StepPair(Pairs(ops, i - 1), ops[i - 1])
  }

  /** Operation number `k` is legal and brings in nodes of `all`. */
  ghost predicate LegalAt(ops: seq<PairOp>, k: nat, all: set<Node>)
    requires k < |ops|
  {
    LegalStep(Pairs(ops, k), ops[k]) && BringsFrom(ops[k], all)
  }

  ghost predicate LegalRun(ops: seq<PairOp>, all: set<Node>) {
    forall k: nat :: k < |ops| ==> LegalAt(ops, k, all)
  }

  /** No operation but hmap_insert adds a node. */
  ghost predicate NoFastInsert(ops: seq<PairOp>) {
    forall i :: 0 <= i < |ops| ==> ops[i].Swap? || !ops[i].op.InsertFast?
  }

  ghost predicate WithinCapacity(t: Table) {
    t.size.n <= Capacity(t.size.mask)
  }

  /** Without hmap_insert_fast, both tables stay within their capacity, whatever is swapped. */
  lemma {:induction false} PairsWithinCapacity(ops: seq<PairOp>, i: nat)
    requires i <= |ops| && NoFastInsert(ops)
    ensures WithinCapacity(Pairs(ops, i).first) && WithinCapacity(Pairs(ops, i).second)
  {
    if i > 0 {
      PairsWithinCapacity(ops, i - 1);
      match ops[i - 1] {
        case First(Plain(op)) => StepKeepsLoad(Pairs(ops, i - 1).first.size, op);
        case Second(Plain(op)) => StepKeepsLoad(Pairs(ops, i - 1).second.size, op);
        case _ =>
      }
    }
  }

  /** The bucket array is the embedded one or a new one. */
  twostate predicate Own(h: Hmap)
    reads h
  {
    h.buckets == h.one || fresh(h.buckets)
  }

  /** All nodes of both tables are among `all`. */
  ghost predicate Within(s: Pair, all: set<Node>) {
    s.first.nodes <= all && s.second.nodes <= all
  }

  /** Operation number `i` of a run. */
  method DoAt(a: Hmap, b: Hmap, ops: seq<PairOp>, i: nat, ghost all: set<Node>)
    requires i < |ops| && Are(a, b, Pairs(ops, i)) && Within(Pairs(ops, i), all) && a.n <= i && b.n <= i < SIZE_MAX
    requires LegalRun(ops, all)
    modifies a, a.one, a.buckets, b, b.one, b.buckets, all`hash, all`next
    ensures Are(a, b, Pairs(ops, i + 1)) && Within(Pairs(ops, i + 1), all) && a.n <= i + 1 && b.n <= i + 1
    ensures a.buckets in {old(a.buckets), old(b.buckets), a.one} || fresh(a.buckets)
    ensures b.buckets in {old(b.buckets), old(a.buckets), b.one} || fresh(b.buckets)
  {
    assert LegalAt(ops, i, all);
    DoNext(a, b, ops[i], Pairs(ops, i), all);
  }

  /** The run up to operation `i`. */
  method RunTo(a: Hmap, b: Hmap, ops: seq<PairOp>, i: nat, ghost all: set<Node>)
    requires Are(a, b, Pairs(ops, 0)) && i <= |ops| <= SIZE_MAX && LegalRun(ops, all)
    modifies a, a.one, b, b.one, all`hash, all`next
    ensures Are(a, b, Pairs(ops, i)) && Own(a) && Own(b) && a.n <= i && b.n <= i
    ensures Within(Pairs(ops, i), all)
    decreases i
  {
    if i > 0 {
      RunTo(a, b, ops, i - 1, all);
      DoAt(a, b, ops, i - 1, all);
    }
  }

  /** Every legal run keeps both tables well formed, with exactly the nodes it should have left in each,
      and, without hmap_insert_fast, within their capacity. */
  method Run(ops: seq<PairOp>, ghost all: set<Node>) returns (a: Hmap, b: Hmap)
    requires |ops| <= SIZE_MAX && LegalRun(ops, all)
    modifies all`hash, all`next
    ensures Are(a, b, Pairs(ops, |ops|))
    ensures NoFastInsert(ops) ==> a.n <= Capacity(a.mask) && b.n <= Capacity(b.mask)
  {
    a := new Hmap();
    b := new Hmap();
    RunTo(a, b, ops, |ops|, all);
    if NoFastInsert(ops) {
      PairsWithinCapacity(ops, |ops|);
    }
  }
}
