/** The three-way comparison of sorted vectors, and joining: the rest of lib/svec.c. */
module StringVectorDiff {
  import opened ByteStrings
  import opened Sorting
  import opened StringVector
  import opened DynamicString
  import opened Tokens
  import opened StringSetText

  /** What svec_diff sends to each output. */
  datatype Parts = Parts(aOnly: seq<CString>, both: seq<CString>, bOnly: seq<CString>)

  /** The merge of the names from `a[i]` and from `b[j]` on. */
  ghost function Merge(a: seq<CString>, b: seq<CString>, i: nat, j: nat): Parts
    requires i <= |a| && j <= |b|
    decreases |a| - i + |b| - j
  {
    if i == |a| && j == |b| then Parts([], [], [])
    else if j == |b| || (i < |a| && StrCmp(a[i], b[j]) < 0) then
      var rest := Merge(a, b, i + 1, j);
      rest.(aOnly := [a[i]] + rest.aOnly)
    else if i == |a| || StrCmp(a[i], b[j]) > 0 then
      var rest := Merge(a, b, i, j + 1);
      rest.(bOnly := [b[j]] + rest.bOnly)
    else
      var rest := Merge(a, b, i + 1, j + 1);
      rest.(both := [a[i]] + rest.both)
  }

  lemma Absent(a: seq<CString>, x: CString, i: nat)
    requires Sorted(a) && i < |a| && StrCmp(x, a[i]) < 0
    ensures x !in a[i..]
  {
    forall k | i <= k < |a| ensures a[k] != x {
      StrCmpEqual(x, x);
      if i < k { StrCmpTransitive(x, a[i], a[k]); }
    }
  }

  lemma Tail(a: seq<CString>, i: nat)
    requires i < |a|
    ensures multiset(a[i..]) == multiset{a[i]} + multiset(a[i + 1..])
  {
    assert a[i..] == [a[i]] + a[i + 1..];
  }

  lemma OnlyInOne(x: CString, m: multiset<CString>, k: multiset<CString>)
    requires x !in k
    ensures (multiset{x} + m) - k == multiset{x} + (m - k)
    ensures (multiset{x} + m) * k == m * k && k * (multiset{x} + m) == k * m
    ensures k - (multiset{x} + m) == k - m
  {
  }

  lemma InBoth(x: CString, m: multiset<CString>, k: multiset<CString>)
    ensures (multiset{x} + m) - (multiset{x} + k) == m - k
    ensures (multiset{x} + m) * (multiset{x} + k) == multiset{x} + m * k
  {
  }

  /** The outputs are the multiset differences and the multiset intersection. */
  ghost predicate Counts(p: Parts, m: multiset<CString>, k: multiset<CString>) {
    multiset(p.aOnly) == m - k && multiset(p.both) == m * k && multiset(p.bOnly) == k - m
  }

  lemma {:induction false} MergeCounts(a: seq<CString>, b: seq<CString>, i: nat, j: nat)
    requires i <= |a| && j <= |b| && Sorted(a) && Sorted(b)
    ensures Counts(Merge(a, b, i, j), multiset(a[i..]), multiset(b[j..]))
    decreases |a| - i + |b| - j
  {
    if i == |a| && j == |b| {
    } else if j == |b| || (i < |a| && StrCmp(a[i], b[j]) < 0) {
      MergeCounts(a, b, i + 1, j);
      Tail(a, i);
      if j < |b| { Absent(b, a[i], j); }
      OnlyInOne(a[i], multiset(a[i + 1..]), multiset(b[j..]));
    } else if i == |a| || StrCmp(a[i], b[j]) > 0 {
      MergeCounts(a, b, i, j + 1);
      Tail(b, j);
      if i < |a| {
        StrCmpReverse(b[j], a[i]);
        Absent(a, b[j], i);
      }
      OnlyInOne(b[j], multiset(b[j + 1..]), multiset(a[i..]));
    } else {
      MergeCounts(a, b, i + 1, j + 1);
      StrCmpEqual(a[i], b[j]);
      Tail(a, i);
      Tail(b, j);
      InBoth(a[i], multiset(a[i + 1..]), multiset(b[j + 1..]));
      InBoth(a[i], multiset(b[j + 1..]), multiset(a[i + 1..]));
    }
  }

  lemma PrependSorted(a: seq<CString>, i: nat, s: seq<CString>)
    requires Sorted(a) && i < |a| && Sorted(s) && multiset(s) <= multiset(a[i + 1..])
    ensures Sorted([a[i]] + s)
  {
    forall k | 0 <= k < |s| ensures StrCmp(a[i], s[k]) <= 0 {
      assert s[k] in multiset(a[i + 1..]);
      var m :| 0 <= m < |a| - i - 1 && a[i + 1..][m] == s[k];
      assert s[k] == a[i + 1 + m];
    }
  }

  lemma PartsWithin(p: Parts, m: multiset<CString>, k: multiset<CString>)
    requires Counts(p, m, k)
    ensures multiset(p.aOnly) <= m && multiset(p.both) <= m && multiset(p.bOnly) <= k
  {
  }

  ghost predicate AllSorted(p: Parts) {
    Sorted(p.aOnly) && Sorted(p.both) && Sorted(p.bOnly)
  }

  lemma {:induction false} MergeSorted(a: seq<CString>, b: seq<CString>, i: nat, j: nat)
    requires i <= |a| && j <= |b| && Sorted(a) && Sorted(b)
    ensures AllSorted(Merge(a, b, i, j))
    decreases |a| - i + |b| - j
  {
    if i == |a| && j == |b| {
      return;
    }
    var nextA := j == |b| || (i < |a| && StrCmp(a[i], b[j]) <= 0);
    var nextB := i == |a| || (j < |b| && StrCmp(a[i], b[j]) >= 0);
    var i', j' := if nextA then i + 1 else i, if nextB then j + 1 else j;
    var rest := Merge(a, b, i', j');
    MergeSorted(a, b, i', j');
    MergeCounts(a, b, i', j');
    PartsWithin(rest, multiset(a[i'..]), multiset(b[j'..]));
    if nextA {
      PrependSorted(a, i, if nextB then rest.both else rest.aOnly);
    } else {
      PrependSorted(b, j, rest.bOnly);
    }
  }

  ghost function Plus(p: Parts, q: Parts): Parts {
    Parts(p.aOnly + q.aOnly, p.both + q.both, p.bOnly + q.bOnly)
  }

  /** What the outputs hold in the end, if they hold `p` when the merge is at `i` and `j`. */
  ghost function Outcome(p: Parts, s: seq<CString>, t: seq<CString>, i: nat, j: nat): Parts
    requires i <= |s| && j <= |t|
  {
    Plus(p, Merge(s, t, i, j))
  }

  /** What one round of the merging loop adds to what was `done`. */
  ghost function Advance(done: Parts, x: CString, y: CString): Parts {
    var cmp := StrCmp(x, y);
    if cmp < 0 then done.(aOnly := done.aOnly + [x])
    else if cmp > 0 then done.(bOnly := done.bOnly + [y])
    else done.(both := done.both + [x])
  }

  lemma AdvanceMerges(a: seq<CString>, b: seq<CString>, i: nat, j: nat, done: Parts)
    requires i < |a| && j < |b|
    ensures var cmp := StrCmp(a[i], b[j]);
      Plus(Advance(done, a[i], b[j]), Merge(a, b, if cmp <= 0 then i + 1 else i, if cmp >= 0 then j + 1 else j))
        == Plus(done, Merge(a, b, i, j))
  {
  }

  /** What a caller gets in an output: nothing, or exactly this. */
  ghost predicate Holds(out: Svec?, s: seq<CString>)
    reads if out == null then {} else {out, out.names}
  {
    out != null ==> out.Full() && out.Names() == s
  }

  ghost function Repr(out: Svec?): set<object>
    reads out
  {
    if out == null then {} else var o: Svec := out; {o, o.names}
  }

  /** Outputs that were asked for are different vectors, with arrays of their own. */
  ghost predicate Apart(x: Svec?, y: Svec?)
    reads x, y
  {
    x != null && y != null ==> x != y && x.names != y.names
  }

  /** Every output that was asked for holds its part. */
  ghost predicate AllHold(aOnly: Svec?, both: Svec?, bOnly: Svec?, p: Parts)
    reads Repr(aOnly), Repr(both), Repr(bOnly)
  {
    Holds(aOnly, p.aOnly) && Holds(both, p.both) && Holds(bOnly, p.bOnly)
  }

  ghost predicate AllApart(aOnly: Svec?, both: Svec?, bOnly: Svec?)
    reads aOnly, both, bOnly
  {
    Apart(aOnly, both) && Apart(aOnly, bOnly) && Apart(both, bOnly)
  }

  /** Output `out` may only have got a new array. */
  twostate predicate Kept(out: Svec?)
    reads out
  {
    out != null ==> out.names == old(out.names) || fresh(out.names)
  }

  /** `if (out) { svec_init(out); }` */
  method InitIf(out: Svec?)
    modifies out
    ensures Holds(out, []) && (out != null ==> fresh(out.names))
  {
    if out != null {
      out.Init();
    }
  }

  ghost predicate Away(a: Svec, out: Svec?)
    reads a, out
  {
    out != null ==> out != a && out.names != a.names
  }

  /** The input `a` is intact, and no output shares anything with it. */
  ghost predicate Source(a: Svec, s: seq<CString>, aOnly: Svec?, both: Svec?, bOnly: Svec?)
    reads a, a.names, aOnly, both, bOnly
  {
    a.Full() && a.Names() == s && Away(a, aOnly) && Away(a, both) && Away(a, bOnly)
  }

  /** The arguments of svec_diff; an output that is not asked for is null. */
  datatype Call = Call(a: Svec, b: Svec, aOnly: Svec?, both: Svec?, bOnly: Svec?)

  /** The inputs, holding `s` and `t`, and the outputs so far while svec_diff runs. */
  ghost predicate State(c: Call, s: seq<CString>, t: seq<CString>, p: Parts)
    reads c.a, c.a.names, c.b, c.b.names, Repr(c.aOnly), Repr(c.both), Repr(c.bOnly)
  {
    && Source(c.a, s, c.aOnly, c.both, c.bOnly) && Source(c.b, t, c.aOnly, c.both, c.bOnly)
    && AllApart(c.aOnly, c.both, c.bOnly) && AllHold(c.aOnly, c.both, c.bOnly, p)
  }

  /** The outputs may only have got new arrays. */
  twostate predicate AllKept(c: Call)
    reads c.aOnly, c.both, c.bOnly
  {
    Kept(c.aOnly) && Kept(c.both) && Kept(c.bOnly)
  }

  /** `if (a_only) { svec_add(a_only, name); }`, and the same for the other outputs. */
  method PutA(c: Call, name: CString, ghost s: seq<CString>, ghost t: seq<CString>, ghost p: Parts)
    requires State(c, s, t, p)
    modifies Repr(c.aOnly)
    ensures State(c, s, t, p.(aOnly := p.aOnly + [name])) && AllKept(c)
  {
    if c.aOnly != null {
      c.aOnly.Add(name);
    }
  }

  method PutBoth(c: Call, name: CString, ghost s: seq<CString>, ghost t: seq<CString>, ghost p: Parts)
    requires State(c, s, t, p)
    modifies Repr(c.both)
    ensures State(c, s, t, p.(both := p.both + [name])) && AllKept(c)
  {
    if c.both != null {
      c.both.Add(name);
    }
  }

  method PutB(c: Call, name: CString, ghost s: seq<CString>, ghost t: seq<CString>, ghost p: Parts)
    requires State(c, s, t, p)
    modifies Repr(c.bOnly)
    ensures State(c, s, t, p.(bOnly := p.bOnly + [name])) && AllKept(c)
  {
    if c.bOnly != null {
      c.bOnly.Add(name);
    }
  }

  /** `a->names[i]` */
  function NameAt(a: Svec, i: nat): CString
    requires a.Full() && i < a.n
    reads a, a.names
    ensures NameAt(a, i) == a.Names()[i]
  {
    assert a.names[i] == Str(a.Names()[i]);
    a.names[i].text
  }

  /** One comparison and at most one name put out. */
  method PutNext(c: Call, i: nat, j: nat, ghost s: seq<CString>, ghost t: seq<CString>, ghost p: Parts)
    returns (cmp: int)
    requires State(c, s, t, p) && i < |s| && j < |t|
    modifies Repr(c.aOnly), Repr(c.both), Repr(c.bOnly)
    ensures State(c, s, t, Advance(p, s[i], t[j])) && AllKept(c) && cmp == StrCmp(s[i], t[j])
  {
    var x, y := NameAt(c.a, i), NameAt(c.b, j);
    cmp := StrCmp(x, y);
    if cmp < 0 {
      PutA(c, x, s, t, p);
    } else if cmp > 0 {
      PutB(c, y, s, t, p);
    } else {
      PutBoth(c, x, s, t, p);
    }
  }

  /** svec_diff has come to `i` and `j`, and what it has put out so far fits what the merge is to be. */
  ghost predicate Merging(c: Call, i: nat, j: nat, s: seq<CString>, t: seq<CString>, p: Parts)
    reads c.a, c.a.names, c.b, c.b.names, Repr(c.aOnly), Repr(c.both), Repr(c.bOnly)
  {
    State(c, s, t, p) && i <= |s| && j <= |t| && Outcome(p, s, t, i, j) == Merge(s, t, 0, 0)
  }

  lemma MergeBegins(c: Call, s: seq<CString>, t: seq<CString>)
    requires State(c, s, t, Parts([], [], []))
    ensures Merging(c, 0, 0, s, t, Parts([], [], []))
  {
  }

  /** The body of the merging loop of svec_diff. */
  method MergeStep(c: Call, i: nat, j: nat, ghost s: seq<CString>, ghost t: seq<CString>, ghost p: Parts)
    returns (i': nat, j': nat, ghost p': Parts)
    requires Merging(c, i, j, s, t, p) && i < |s| && j < |t|
    modifies Repr(c.aOnly), Repr(c.both), Repr(c.bOnly)
    ensures Merging(c, i', j', s, t, p') && AllKept(c) && i + j < i' + j'
  {
    AdvanceMerges(s, t, i, j, p);
    var cmp := PutNext(c, i, j, s, t, p);
    p' := Advance(p, s[i], t[j]);
    i', j' := if cmp <= 0 then i + 1 else i, if cmp >= 0 then j + 1 else j;
  }

  /** The merging loop of svec_diff. */
  method MergeLoop(c: Call, ghost s: seq<CString>, ghost t: seq<CString>) returns (i: nat, j: nat, ghost p: Parts)
    requires State(c, s, t, Parts([], [], []))
    modifies Repr(c.aOnly), Repr(c.both), Repr(c.bOnly)
    ensures Merging(c, i, j, s, t, p) && AllKept(c) && (i == |s| || j == |t|)
  {
    i, j, p := 0, 0, Parts([], [], []);
    MergeBegins(c, s, t);
    while i < c.a.n && j < c.b.n
      invariant Merging(c, i, j, s, t, p) && AllKept(c)
      decreases |s| - i + |t| - j
    {
      i, j, p := MergeStep(c, i, j, s, t, p);
    }
  }

  /** The names of `a` from `i` on. */
  ghost function Rest(a: seq<CString>, i: nat): seq<CString>
    requires i <= |a|
    decreases |a| - i
  {
    if i == |a| then [] else [a[i]] + Rest(a, i + 1)
  }

  lemma RestOfA(a: seq<CString>, b: seq<CString>, i: nat)
    requires i <= |a|
    ensures Merge(a, b, i, |b|) == Parts(Rest(a, i), [], [])
    decreases |a| - i
  {
  }

  lemma RestOfB(a: seq<CString>, b: seq<CString>, j: nat)
    requires j <= |b|
    ensures Merge(a, b, |a|, j) == Parts([], [], Rest(b, j))
    decreases |b| - j
  {
  }


  lemma MergeIsRests(s: seq<CString>, t: seq<CString>, i: nat, j: nat, p: Parts)
    requires i <= |s| && j <= |t| && (i == |s| || j == |t|)
    ensures Plus(p, Merge(s, t, i, j)) == WithB(WithA(p, s, i), t, j)
  {
    if i == |s| { RestOfB(s, t, j); } else { RestOfA(s, t, i); }
  }

  lemma RestStep(done: seq<CString>, s: seq<CString>, i: nat)
    requires i < |s|
    ensures done + [s[i]] + Rest(s, i + 1) == done + Rest(s, i)
  {
  }

  ghost function WithA(p: Parts, s: seq<CString>, i: nat): Parts
    requires i <= |s|
  {
    p.(aOnly := p.aOnly + Rest(s, i))
  }

  /** What is left of `a`, once `b` has run out: one name, and then all. */
  method PutOneOfA(c: Call, i: nat, ghost s: seq<CString>, ghost t: seq<CString>, ghost p: Parts)
    returns (ghost q: Parts)
    requires State(c, s, t, p) && i < |s|
    modifies Repr(c.aOnly)
    ensures State(c, s, t, q) && Kept(c.aOnly)
    ensures WithA(q, s, i + 1) == WithA(p, s, i)
  {
    RestStep(p.aOnly, s, i);
    PutA(c, NameAt(c.a, i), s, t, p);
    q := p.(aOnly := p.aOnly + [s[i]]);
  }

  method PutRestOfA(c: Call, start: nat, ghost s: seq<CString>, ghost t: seq<CString>, ghost p: Parts)
    requires State(c, s, t, p) && start <= |s| && c.aOnly != null
    modifies Repr(c.aOnly)
    ensures State(c, s, t, WithA(p, s, start)) && Kept(c.aOnly)
  {
    var i := start;
    ghost var q := p;
    while i < c.a.n
      invariant i <= |s| && State(c, s, t, q) && Kept(c.aOnly)
      invariant WithA(q, s, i) == WithA(p, s, start)
      decreases |s| - i
    {
      q := PutOneOfA(c, i, s, t, q);
      i := i + 1;
    }
  }

  ghost function WithB(p: Parts, t: seq<CString>, j: nat): Parts
    requires j <= |t|
  {
    p.(bOnly := p.bOnly + Rest(t, j))
  }

  /** What is left of `b`, once `a` has run out: one name, and then all. */
  method PutOneOfB(c: Call, j: nat, ghost s: seq<CString>, ghost t: seq<CString>, ghost p: Parts)
    returns (ghost q: Parts)
    requires State(c, s, t, p) && j < |t|
    modifies Repr(c.bOnly)
    ensures State(c, s, t, q) && Kept(c.bOnly)
    ensures WithB(q, t, j + 1) == WithB(p, t, j)
  {
    RestStep(p.bOnly, t, j);
    PutB(c, NameAt(c.b, j), s, t, p);
    q := p.(bOnly := p.bOnly + [t[j]]);
  }

  method PutRestOfB(c: Call, start: nat, ghost s: seq<CString>, ghost t: seq<CString>, ghost p: Parts)
    requires State(c, s, t, p) && start <= |t| && c.bOnly != null
    modifies Repr(c.bOnly)
    ensures State(c, s, t, WithB(p, t, start)) && Kept(c.bOnly)
  {
    var j := start;
    ghost var q := p;
    while j < c.b.n
      invariant j <= |t| && State(c, s, t, q) && Kept(c.bOnly)
      invariant WithB(q, t, j) == WithB(p, t, start)
      decreases |t| - j
    {
      q := PutOneOfB(c, j, s, t, q);
      j := j + 1;
    }
  }

  /** The outputs that are asked for, before anything is put out. */
  method InitAll(c: Call, ghost s: seq<CString>, ghost t: seq<CString>)
    requires c.a.Full() && c.b.Full() && c.a.Names() == s && c.b.Names() == t
    requires c.aOnly != null ==> c.aOnly !in {c.a, c.b, c.both, c.bOnly}
    requires c.both != null ==> c.both !in {c.a, c.b, c.bOnly}
    requires c.bOnly != null ==> c.bOnly !in {c.a, c.b}
    modifies c.aOnly, c.both, c.bOnly
    ensures State(c, s, t, Parts([], [], []))
    ensures c.aOnly != null ==> fresh(c.aOnly.names)
    ensures c.both != null ==> fresh(c.both.names)
    ensures c.bOnly != null ==> fresh(c.bOnly.names)
  {
    InitIf(c.aOnly);
    InitIf(c.both);
    InitIf(c.bOnly);
  }

  /** The last two loops of svec_diff. */
  method PutRests(c: Call, i: nat, j: nat, ghost s: seq<CString>, ghost t: seq<CString>, ghost p: Parts)
    requires State(c, s, t, p) && i <= |s| && j <= |t|
    modifies Repr(c.aOnly), Repr(c.both), Repr(c.bOnly)
    ensures State(c, s, t, WithB(WithA(p, s, i), t, j))
  {
    ghost var q := WithA(p, s, i);
    if c.aOnly != null {
      PutRestOfA(c, i, s, t, p);
    }
    if c.bOnly != null {
      PutRestOfB(c, j, s, t, q);
    }
  }

  /** svec_diff after its outputs are initialised. */
  method MergeAll(c: Call, ghost s: seq<CString>, ghost t: seq<CString>)
    requires State(c, s, t, Parts([], [], []))
    modifies Repr(c.aOnly), Repr(c.both), Repr(c.bOnly)
    ensures State(c, s, t, Merge(s, t, 0, 0))
  {
    var i, j;
    ghost var p;
    i, j, p := MergeLoop(c, s, t);
    MergeIsRests(s, t, i, j, p);
    PutRests(c, i, j, s, t, p);
  }

  /** svec_diff, in terms of the merge. */
  method MergeInto(c: Call)
    requires c.a.Full() && c.b.Full()
    requires c.aOnly != null ==> c.aOnly !in {c.a, c.b, c.both, c.bOnly}
    requires c.both != null ==> c.both !in {c.a, c.b, c.bOnly}
    requires c.bOnly != null ==> c.bOnly !in {c.a, c.b}
    modifies c.aOnly, c.both, c.bOnly
    ensures State(c, old(c.a.Names()), old(c.b.Names()), Merge(old(c.a.Names()), old(c.b.Names()), 0, 0))
  {
    ghost var s, t := c.a.Names(), c.b.Names();
    InitAll(c, s, t);
    MergeAll(c, s, t);
  }

  /** The parts of two sorted vectors, and how the vectors are made up of them. */
  lemma DiffParts(s: seq<CString>, t: seq<CString>)
    requires Sorted(s) && Sorted(t)
    ensures var p := Merge(s, t, 0, 0);
      && AllSorted(p)
      && multiset(p.aOnly) == multiset(s) - multiset(t)
      && multiset(p.both) == multiset(s) * multiset(t)
      && multiset(p.bOnly) == multiset(t) - multiset(s)
      && multiset(s) == multiset(p.aOnly) + multiset(p.both)
      && multiset(t) == multiset(p.bOnly) + multiset(p.both)
  {
    assert s[0..] == s && t[0..] == t;
    MergeCounts(s, t, 0, 0);
    MergeSorted(s, t, 0, 0);
  }

  /** What a caller gets in an output: nothing, or exactly these names, in order. */
  ghost predicate Lists(out: Svec?, m: multiset<CString>)
    reads if out == null then {} else {out, out.names}
  {
    out != null ==> out.Full() && NeverDescending(out.Names()) && multiset(out.Names()) == m
  }

  lemma StateLists(c: Call, s: seq<CString>, t: seq<CString>)
    requires Sorted(s) && Sorted(t) && State(c, s, t, Merge(s, t, 0, 0))
    ensures Lists(c.aOnly, multiset(s) - multiset(t))
    ensures Lists(c.both, multiset(s) * multiset(t))
    ensures Lists(c.bOnly, multiset(t) - multiset(s))
  {
    DiffParts(s, t);
    var p := Merge(s, t, 0, 0);
    SortedOrder(p.aOnly);
    SortedOrder(p.both);
    SortedOrder(p.bOnly);
  }

  /**
    * svec_diff: the multiset differences and the multiset intersection of two sorted vectors, all of
    * them sorted. What one output holds does not depend on which others were asked for.
    */
  method Diff(c: Call)
    requires c.a.Full() && c.b.Full() && Sorted(c.a.Names()) && Sorted(c.b.Names())
    requires c.aOnly != null ==> c.aOnly !in {c.a, c.b, c.both, c.bOnly}
    requires c.both != null ==> c.both !in {c.a, c.b, c.bOnly}
    requires c.bOnly != null ==> c.bOnly !in {c.a, c.b}
    modifies c.aOnly, c.both, c.bOnly
    ensures State(c, old(c.a.Names()), old(c.b.Names()), Merge(old(c.a.Names()), old(c.b.Names()), 0, 0))
    ensures c.a.Full() && c.a.Names() == old(c.a.Names()) && c.b.Full() && c.b.Names() == old(c.b.Names())
    ensures Lists(c.aOnly, multiset(old(c.a.Names())) - multiset(old(c.b.Names())))
    ensures Lists(c.both, multiset(old(c.a.Names())) * multiset(old(c.b.Names())))
    ensures Lists(c.bOnly, multiset(old(c.b.Names())) - multiset(old(c.a.Names())))
  {
    ghost var s, t := c.a.Names(), c.b.Names();
    MergeInto(c);
    StateLists(c, s, t);
  }

  /** Swapping the inputs swaps the one-sided outputs. */
  lemma DiffSymmetric(s: seq<CString>, t: seq<CString>)
    requires Sorted(s) && Sorted(t)
    ensures var p, q := Merge(s, t, 0, 0), Merge(t, s, 0, 0);
      q == Parts(p.bOnly, p.both, p.aOnly)
  {
    DiffParts(s, t);
    DiffParts(t, s);
    var p, q := Merge(s, t, 0, 0), Merge(t, s, 0, 0);
    SortedUnique(p.aOnly, q.bOnly);
    SortedUnique(p.bOnly, q.aOnly);
    SortedUnique(p.both, q.both);
  }

  /** svec_join */
  method JoinNames(a: Svec, delimiter: CString, terminator: CString) returns (r: CString)
    requires a.Full()
    ensures r == Join(a.Names(), delimiter) + terminator
  {
    ghost var names := a.Names();
    var s := new Ds();
    var i := 0;
    while i < a.n
      invariant i <= |names| && s.Valid() && fresh(s) && (s.str == null || fresh(s.str))
      invariant s.Contents() == Join(names[..i], delimiter)
    {
      assert a.names[i] == Str(names[i]);
      PutName(s, names, i, a.names[i].text, delimiter);
      i := i + 1;
    }
    assert names[..i] == names;
    JoinIsCString(names, delimiter);
    s.PutBuffer(terminator);
    r := s.Cstr();
  }
}
