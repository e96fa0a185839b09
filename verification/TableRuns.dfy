/** Whole runs of table operations: load factor and total cost of rehashing. */
module TableRuns {
  import opened Words
  import opened HashMap

  datatype Op =
    | Insert(node: Node, hash: size_t)
    | Remove(node: Node)
    | Clear
    | Expand
    | Shrink
    | Reserve(capacity: size_t)

  /** Number of nodes, mask, insertions so far, and nodes relinked by rehashing so far. */
  datatype Size = Size(n: nat, mask: nat, inserts: nat, moved: nat) {
    function Remask(mask': nat): Size {
      Size(n, mask', inserts, moved + if mask' == mask then 0 else n)
    }
  }

  function Step(s: Size, op: Op): Size {
    match op
    case Insert(_, _) => Size(s.n + 1, s.mask, s.inserts + 1, s.moved).Remask(InsertMask(s.mask, s.n + 1))
    case Remove(_) => s.(n := if s.n > 0 then s.n - 1 else 0)
    case Clear => s.(n := 0)
    case Expand => s.Remask(ExpandedMask(s.mask, s.n))
    case Shrink => s.Remask(ShrunkMask(s.mask, s.n))
    case Reserve(capacity) => s.Remask(ExpandedMask(s.mask, capacity))
  }

  /** After the first `i` operations of a run that starts with an empty table. */
  function Sizes(ops: seq<Op>, i: nat): Size
    requires i <= |ops|
  {
    if i == 0 then Size(0, 0, 0, 0) else Step(Sizes(ops, i - 1), ops[i - 1])
  }

  ghost function StepNodes(nodes: set<Node>, op: Op): set<Node> {
    match op
    case Insert(node, _) => nodes + {node}
    case Remove(node) => nodes - {node}
    case Clear => {}
    case _ => nodes
  }

  ghost function NodesAfter(ops: seq<Op>, i: nat): set<Node>
    requires i <= |ops|
  {
    if i == 0 then {} else StepNodes(NodesAfter(ops, i - 1), ops[i - 1])
  }

  /** Only nodes outside the table are inserted, and only nodes of the table removed. */
  ghost predicate Legal(ops: seq<Op>) {
    forall i {:trigger ops[i]} :: 0 <= i < |ops| ==>
      && (ops[i].Insert? ==> ops[i].node !in NodesAfter(ops, i))
      && (ops[i].Remove? ==> ops[i].node in NodesAfter(ops, i))
  }

  /** hmap_capacity */
  function Capacity(mask: nat): nat {
    mask * 2 + 1
  }

  lemma StepKeepsLoad(s: Size, op: Op)
    requires s.n <= Capacity(s.mask)
    ensures Step(s, op).n <= Capacity(Step(s, op).mask)
  {
    match op
    case Insert(_, _) => MaskCovers(s.n + 1);
    case Shrink => MaskCovers(s.n);
    case _ =>
  }

  lemma MaskCovers(n: nat)
    ensures n <= Capacity(MaskFor(n))
  {
    MaskForIsLeast(n, 0);
  }

  /** The table never holds more nodes than its capacity. */
  lemma {:induction false} LoadFactor(ops: seq<Op>, i: nat)
    requires i <= |ops|
    ensures Sizes(ops, i).n <= Capacity(Sizes(ops, i).mask)
  {
    if i > 0 {
      LoadFactor(ops, i - 1);
      StepKeepsLoad(Sizes(ops, i - 1), ops[i - 1]);
    }
  }

  ghost predicate InsertsAndRemoves(ops: seq<Op>) {
    forall i :: 0 <= i < |ops| ==> ops[i].Insert? || ops[i].Remove?
  }

  /** Potential of the cost argument: how many nodes were relinked until the mask was reached. */
  function Spent(mask: nat): nat {
    if mask < 3 then 0 else 2 * (mask + 1) - 6
  }

  lemma MaskDoubles(k: nat)
    requires k >= 2
    ensures MaskFor(Pow2(k) * 2) == Pow2(k + 1) - 1
  {
    LenOfPow2(k);
    Pow2Monotone(2, k);
    assert Pow2(2) == 4;
  }

  lemma {:induction false} LenOfPow2(k: nat)
    ensures Len(Pow2(k)) == k + 1
  {
    if k > 0 {
      LenOfPow2(k - 1);
    } else {
      assert Len(1) == 1 + Len(0);
    }
  }

  /** The mask is 0, or 3 after at least two insertions, or `2^k - 1` after at least `2^k`. */
  ghost predicate Earned(mask: nat, inserts: nat) {
    mask == 0 || (mask == 3 && inserts >= 2) || (exists k: nat :: k >= 3 && mask == Pow2(k) - 1 && inserts >= Pow2(k))
  }

  lemma EarnedByMore(mask: nat, inserts: nat)
    requires Earned(mask, inserts)
    ensures Earned(mask, inserts + 1)
  {
    if mask != 0 && mask != 3 {
      var k: nat :| k >= 3 && mask == Pow2(k) - 1 && inserts >= Pow2(k);
      assert inserts + 1 >= Pow2(k);
    }
  }

  lemma FullTable(mask: nat, inserts: nat)
    requires Earned(mask, inserts)
    ensures var n := Capacity(mask) + 1;
      && (n == 2 || (n >= 8 && IsMask(n - 1)))
      && MaskFor(n) == if n == 2 then 3 else n - 1
  {
    if mask == 0 {
      assert MaskFor(2) == 3;
    } else if mask == 3 {
      assert Pow2(2) == 4 && Pow2(3) == 8;
      MaskDoubles(2);
    } else {
      var k: nat :| k >= 3 && mask == Pow2(k) - 1 && inserts >= Pow2(k);
      MaskDoubles(k);
      Pow2Monotone(3, k);
      assert Pow2(k + 1) == 2 * Pow2(k) && Pow2(3) == 8;
    }
  }

  lemma MaskEarned(mask: nat, inserts: nat, n: nat)
    requires Earned(mask, inserts) && n == Capacity(mask) + 1 && n <= inserts
    ensures Earned(MaskFor(n), inserts) && MaskFor(n) > mask
    ensures Spent(MaskFor(n)) == Spent(mask) + n
  {
    FullTable(mask, inserts);
    if n != 2 {
      var k: nat :| n - 1 == Pow2(k) - 1;
      assert Pow2(2) == 4;
      if k < 3 {
        Pow2Monotone(k, 2);
      }
    }
  }

  /** With insertions and removals only, rehashing happens when the number of nodes first
      reaches 2, 8, 16, 32, ..., and the nodes relinked so far are a function of the mask. */
  lemma {:induction false} SpentExactly(ops: seq<Op>, i: nat)
    requires i <= |ops| && InsertsAndRemoves(ops)
    ensures var s := Sizes(ops, i); s.moved == Spent(s.mask) && s.n <= s.inserts && Earned(s.mask, s.inserts)
  {
    if i > 0 {
      SpentExactly(ops, i - 1);
      LoadFactor(ops, i - 1);
      SpentStep(Sizes(ops, i - 1), ops[i - 1]);
    }
  }

  lemma SpentStep(s: Size, op: Op)
    requires (op.Insert? || op.Remove?) && s.n <= Capacity(s.mask)
    requires s.moved == Spent(s.mask) && s.n <= s.inserts && Earned(s.mask, s.inserts)
    ensures var t := Step(s, op); t.moved == Spent(t.mask) && t.n <= t.inserts && Earned(t.mask, t.inserts)
  {
    if op.Insert? {
      EarnedByMore(s.mask, s.inserts);
      if s.n == Capacity(s.mask) {
        MaskEarned(s.mask, s.inserts + 1, s.n + 1);
      }
    }
  }

  /** An insertion that leaves size `t` changes the mask exactly if it exceeds the capacity; it then
      leaves 2 nodes and the mask 3, or 2^k >= 8 nodes and the mask 2^k - 1. */
  ghost predicate Grew(mask: nat, t: Size) {
    && (t.mask != mask <==> t.n == Capacity(mask) + 1)
    && (t.mask != mask ==> t.n == 2 || (t.n >= 8 && IsMask(t.n - 1)))
    && (t.mask != mask ==> t.mask == if t.n == 2 then 3 else t.n - 1)
  }

  /** So rehashing happens with 2, 8, 16, 32, ... nodes, whenever it happens in a run. */
  lemma RehashPoints(ops: seq<Op>, i: nat)
    requires i < |ops| && InsertsAndRemoves(ops) && ops[i].Insert?
    ensures Grew(Sizes(ops, i).mask, Sizes(ops, i + 1))
  {
    LoadFactor(ops, i);
    SpentExactly(ops, i);
    RehashPoint(Sizes(ops, i), ops[i]);
  }

  lemma RehashPoint(s: Size, op: Op)
    requires op.Insert? && s.n <= Capacity(s.mask) && Earned(s.mask, s.inserts)
    ensures Grew(s.mask, Step(s, op))
  {
    if s.n == Capacity(s.mask) {
      FullTable(s.mask, s.inserts);
    }
  }

  /** Which of the first `i` operations are insertions. */
  ghost function Insertions(ops: seq<Op>, i: nat): set<nat>
    requires i <= |ops|
  {
    set k: nat | k < i && ops[k].Insert?
  }

  lemma {:induction false} InsertsCounted(ops: seq<Op>, i: nat)
    requires i <= |ops|
    ensures Sizes(ops, i).inserts == |Insertions(ops, i)|
  {
    if i > 0 {
      InsertsCounted(ops, i - 1);
      assert Insertions(ops, i) == Insertions(ops, i - 1) + if ops[i - 1].Insert? then {i - 1} else {};
    } else {
      assert Insertions(ops, 0) == {};
    }
  }

  /** Amortised cost: rehashing relinks at most two nodes for each insertion. */
  lemma AmortizedRehash(ops: seq<Op>, i: nat)
    requires i <= |ops| && InsertsAndRemoves(ops)
    ensures Sizes(ops, i).moved <= 2 * |Insertions(ops, i)|
  {
    SpentExactly(ops, i);
    InsertsCounted(ops, i);
  }

  lemma RunFacts(ops: seq<Op>)
    ensures var s := Sizes(ops, |ops|);
      s.n <= Capacity(s.mask) && (InsertsAndRemoves(ops) ==> s.moved <= 2 * |Insertions(ops, |ops|)|)
  {
    LoadFactor(ops, |ops|);
    if InsertsAndRemoves(ops) {
      AmortizedRehash(ops, |ops|);
    }
  }

  /** One operation, on a table that has size `s`. */
  method DoOp(h: Hmap, op: Op, ghost all: set<Node>, ghost s: Size) returns (ghost moved: nat)
    requires h.Valid() && h.n < SIZE_MAX && h.nodes <= all && h.n == s.n && h.mask == s.mask
    requires op.Insert? ==> op.node in all - h.nodes
    requires op.Remove? ==> op.node in h.nodes
    modifies h, h.one, h.buckets, all`hash, all`next
    ensures h.Valid() && h.nodes <= all && h.nodes == StepNodes(old(h.nodes), op) && h.n <= old(h.n) + 1
    ensures h.buckets == old(h.buckets) || h.buckets == h.one || fresh(h.buckets)
    ensures var t := Step(s, op); t.n == h.n && t.mask == h.mask && t.moved == moved
  {
    ghost var m := 0;
    match op {
      case Insert(node, hash) => m := h.Insert(node, hash);
      case Remove(node) => ghost var k := h.Remove(node);
      case Clear => h.Clear();
      case Expand => m := h.Expand();
      case Shrink => m := h.Shrink();
      case Reserve(capacity) => m := h.Reserve(capacity);
    }
    moved := s.moved + m;
  }

  /** The run has come to operation `i`, with `moved` nodes relinked so far. */
  ghost predicate HasRun(h: Hmap, ops: seq<Op>, i: nat, moved: nat)
    reads h, h.buckets, h.nodes
  {
    && i <= |ops| && h.Valid() && h.n <= i && h.nodes == NodesAfter(ops, i)
    && var s := Sizes(ops, i); h.n == s.n && h.mask == s.mask && moved == s.moved
  }

  /** The nodes that the operations insert and remove are among `all`. */
  ghost predicate DrawnFrom(ops: seq<Op>, all: set<Node>) {
    forall i :: 0 <= i < |ops| && (ops[i].Insert? || ops[i].Remove?) ==> ops[i].node in all
  }

  /** Operation number `i` of a run. */
  method DoNext(h: Hmap, ops: seq<Op>, i: nat, ghost all: set<Node>, ghost moved: nat) returns (ghost moved': nat)
    requires HasRun(h, ops, i, moved) && i < |ops| <= SIZE_MAX && h.nodes <= all
    requires Legal(ops) && DrawnFrom(ops, all)
    modifies h, h.one, h.buckets, all`hash, all`next
    ensures HasRun(h, ops, i + 1, moved') && h.nodes <= all
    ensures h.buckets == old(h.buckets) || h.buckets == h.one || fresh(h.buckets)
  {
    moved' := DoOp(h, ops[i], all, Sizes(ops, i));
  }

  /** Every legal run of table operations on an empty table. */
  method Replay(h: Hmap, ops: seq<Op>, ghost all: set<Node>) returns (ghost moved: nat)
    requires h.Valid() && h.nodes == {} && h.mask == 0
    requires Legal(ops) && DrawnFrom(ops, all) && |ops| <= SIZE_MAX
    modifies h, h.one, h.buckets, all`hash, all`next
    ensures h.Valid() && h.nodes == NodesAfter(ops, |ops|)
    ensures var s := Sizes(ops, |ops|); h.n == s.n && h.mask == s.mask && moved == s.moved
    ensures h.n <= Capacity(h.mask)
    ensures InsertsAndRemoves(ops) ==> moved <= 2 * |Insertions(ops, |ops|)|
  {
    moved := 0;
    var i := 0;
    while i < |ops|
      invariant HasRun(h, ops, i, moved) && h.nodes <= all
      invariant h.buckets == old(h.buckets) || h.buckets == h.one || fresh(h.buckets)
    {
      moved := DoNext(h, ops, i, all, moved);
      i := i + 1;
    }
    RunFacts(ops);
  }
}
