/** Runs of set operations: for every hash function, the answers are those of a set of strings. */
module StringSetRuns {
  import opened ByteStrings
  import opened Words
  import opened StringSet
  import opened StringSetOperations

  datatype Op = Add(name: CString) | Contains(name: CString) | FindAndDelete(name: CString) | Clear

  /** The operation on a set of strings, */
  function Apply(names: set<CString>, op: Op): set<CString> {
    match op
    case Add(name) => names + {name}
    case Contains(_) => names
    case FindAndDelete(name) => names - {name}
    case Clear => {}
  }

  /** and whether it reports success. */
  predicate Answer(names: set<CString>, op: Op) {
    match op
    case Add(name) => name !in names
    case Contains(name) => name in names
    case FindAndDelete(name) => name in names
    case Clear => true
  }

  /** The set after the first `i` operations, and their answers. */
  function After(ops: seq<Op>, i: nat): set<CString>
    requires i <= |ops|
  {
    if i == 0 then {} else Apply(After(ops, i - 1), ops[i - 1])
  }

  function Answers(ops: seq<Op>, i: nat): seq<bool>
    requires i <= |ops|
  {
    if i == 0 then [] else Answers(ops, i - 1) + [Answer(After(ops, i - 1), ops[i - 1])]
  }

  /** One operation of lib/sset.c. */
  method Do(a: Sset, op: Op) returns (answer: bool)
    requires a.Valid() && a.table.n < SIZE_MAX
    modifies a.table, a.table.one, a.table.buckets, a.table.nodes
    ensures a.Valid() && a.Grown() && a.table.n <= old(a.table.n) + 1
    ensures a.Names() == Apply(old(a.Names()), op) && answer == Answer(old(a.Names()), op)
  {
    match op {
      case Add(name) =>
        var r := a.Add(name);
        answer := r != null;
      case Contains(name) => answer := a.Contains(name);
      case FindAndDelete(name) => answer := a.FindAndDelete(name);
      case Clear =>
        StringSetOperations.Clear(a);
        answer := true;
    }
  }

  /** The run has come to operation `i`. */
  ghost predicate HasRun(a: Sset, ops: seq<Op>, i: nat)
    reads a, a.table, a.table.buckets, a.table.nodes
  {
    i <= |ops| <= SIZE_MAX && a.Valid() && a.table.n <= i && a.Names() == After(ops, i)
  }

  /** Operation number `i` of a run. */
  method DoNext(a: Sset, ops: seq<Op>, i: nat) returns (answer: bool)
    requires HasRun(a, ops, i) && i < |ops|
    modifies a.table, a.table.one, a.table.buckets, a.table.nodes
    ensures HasRun(a, ops, i + 1) && a.Grown() && Answers(ops, i + 1) == Answers(ops, i) + [answer]
  {
    answer := Do(a, ops[i]);
  }

  /** The run from operation `i` on, after which all answers are there. */
  method RunFrom(a: Sset, ops: seq<Op>, i: nat, done: seq<bool>) returns (answers: seq<bool>)
    requires HasRun(a, ops, i) && done == Answers(ops, i)
    modifies a.table, a.table.one, a.table.buckets, a.table.nodes
    ensures HasRun(a, ops, |ops|) && answers == Answers(ops, |ops|)
    decreases |ops| - i
  {
    if i == |ops| {
      return done;
    }
    var answer := DoNext(a, ops, i);
    answers := RunFrom(a, ops, i + 1, done + [answer]);
  }

  /** Every run on an empty set, under every hash function. */
  method Run(hashName: HashFunction, ops: seq<Op>) returns (a: Sset, answers: seq<bool>)
    requires |ops| <= SIZE_MAX
    ensures a.Valid() && a.Names() == After(ops, |ops|) && answers == Answers(ops, |ops|)
  {
    a := new Sset(hashName);
    answers := RunFrom(a, ops, 0, []);
  }
}
