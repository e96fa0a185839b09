/** Arrays of names, joining and splitting: the text side of lib/sset.c. */
module StringSetText {
  import opened ByteStrings
  import opened Words
  import opened Sequences
  import opened HashMap
  import opened Traversal
  import opened StringSet
  import opened Sorting
  import opened DynamicString
  import opened Tokens

  /** The names of a sequence of nodes. */
  function NameList(s: seq<Node>): (names: seq<CString>)
    ensures |names| == |s| && forall i :: 0 <= i < |s| ==> names[i] == s[i].name
  {
    Keys(s, (x: Node) => x.name)
  }

  /** `r` holds the first `k` nodes of the traversal `order`. */
  ghost predicate Listing(r: array<Node?>, order: seq<Node>, k: nat)
    reads r
  {
    k <= |order| <= r.Length && Ahead(order, k, order, k) && forall j :: 0 <= j < k ==> r[j] == order[j]
  }

  /** One round of a loop that stores the nodes of a table in an array. */
  method ListNext(h: Hmap, r: array<Node?>, node: Node, i: nat, ghost order: seq<Node>) returns (next: Node?)
    requires h.Valid() && h.Order() == order && Listing(r, order, i) && node == At(order, i)
    requires r != h.buckets
    modifies r
    ensures next == At(order, i + 1) && Listing(r, order, i + 1)
    ensures r[|order|..] == old(r[|order|..])
  {
    r[i] := node;
    next := NextAhead(h, node, order, i, i);
  }

  /** sset_array: pointers to the names, that is to their nodes, and a null pointer. */
  method Array(a: Sset) returns (r: array<Node?>)
    requires a.Valid()
    ensures fresh(r) && r.Length == |a.table.Order()| + 1 && r[r.Length - 1] == null
    ensures r[..r.Length - 1] == a.table.Order()
  {
    OrderListsNodes(a.table);
    ghost var order := a.table.Order();
    AheadAtFirst(order, 0);
    r := new Node?[a.table.n + 1](_ => null);
    var i := 0;
    var node := First(a.table);
    while node != null
      invariant Listing(r, order, i) && node == At(order, i) && r[|order|..] == [null]
      decreases |order| - i
    {
      node := ListNext(a.table, r, node, i, order);
      i := i + 1;
    }
    assert r[|order|..][0] == r[|order|];
  }

  /** sset_sort */
  method Sort(a: Sset) returns (r: array<Node?>, ghost sorted: seq<Node>)
    requires a.Valid()
    ensures fresh(r) && r.Length == |sorted| + 1 && r[..r.Length - 1] == sorted && r[r.Length - 1] == null
    ensures StrictlySorted(NameList(sorted)) && Elements(NameList(sorted)) == a.Names() && |sorted| == a.table.n
    ensures Ascending(NameList(sorted))
  {
    OrderListsNodes(a.table);
    r := Array(a);
    sorted := SortNodes(r, r.Length - 1);
    SortedNames(a.table, a.hashName, sorted);
    SortedOrder(NameList(sorted));
  }

  /** qsort of the first `n` pointers, by name. */
  method SortNodes(nodes: array<Node?>, n: nat) returns (ghost sorted: seq<Node>)
    requires n <= nodes.Length && forall i :: 0 <= i < n ==> nodes[i] != null
    modifies nodes
    ensures |sorted| == n && nodes[..n] == sorted && nodes[n..] == old(nodes[n..])
    ensures multiset(nodes[..n]) == multiset(old(nodes[..n]))
    ensures Sorted(NameList(sorted))
  {
    var listed: seq<Node> := nodes[..n];
    var t := Qsort(listed, (x: Node) => x.name);
    forall i | 0 <= i < n {
      nodes[i] := t[i];
    }
    sorted := t;
    assert NameList(t) == Keys(t, (x: Node) => x.name);
  }

  lemma SortedNames(table: Hmap, hashName: HashFunction, t: seq<Node>)
    requires table.Valid() && Indexed(table.nodes, hashName) && multiset(t) == multiset(table.Order())
    requires Sorted(NameList(t))
    ensures StrictlySorted(NameList(t)) && Elements(NameList(t)) == NamesOf(table.nodes)
  {
    var order := table.Order();
    OrderListsNodes(table);
    OrderNoDup(table);
    NoDupMultiset(order);
    SameMembers(t, order);
    forall i, j | 0 <= i < j < |t|
      ensures StrCmp(t[i].name, t[j].name) < 0
    {
      DifferentNames(table, hashName, t, i, j);
      StrCmpEqual(t[i].name, t[j].name);
      assert NameList(t)[i] == t[i].name && NameList(t)[j] == t[j].name;
    }
    ListedNames(table.nodes, t);
  }

  lemma SameMembers<T>(s: seq<T>, t: seq<T>)
    requires multiset(s) == multiset(t)
    ensures Elements(s) == Elements(t)
  {
    forall x
      ensures x in s <==> x in t
    {
      assert x in s <==> x in multiset(s);
      assert x in t <==> x in multiset(t);
    }
  }

  lemma DifferentNames(table: Hmap, hashName: HashFunction, t: seq<Node>, i: nat, j: nat)
    requires table.Valid() && Indexed(table.nodes, hashName) && Elements(t) == table.nodes && i < j < |t|
    requires forall x :: multiset(t)[x] <= 1
    ensures t[i].name != t[j].name
  {
    assert t[i] in Elements(t) && t[j] in Elements(t);
    if SameName(t[i], t[j]) {
      TwiceInMultiset(t, i, j);
    }
  }

  lemma ListedNames(nodes: set<Node>, t: seq<Node>)
    requires Elements(t) == nodes
    ensures Elements(NameList(t)) == NamesOf(nodes)
  {
    forall s | s in NamesOf(nodes)
      ensures s in NameList(t)
    {
      var x :| x in nodes && x.name == s;
      assert x in Elements(t);
      var i :| 0 <= i < |t| && t[i] == x;
      assert NameList(t)[i] == s;
    }
    forall s | s in NameList(t)
      ensures s in NamesOf(nodes)
    {
      var i :| 0 <= i < |t| && NameList(t)[i] == s;
      assert t[i] in Elements(t);
    }
  }

  lemma {:induction false} NoDupMultiset<T>(s: seq<T>)
    requires NoDup(s)
    ensures forall x :: multiset(s)[x] <= 1
  {
    if s != [] {
      NoDupMultiset(s[..|s| - 1]);
      assert s == s[..|s| - 1] + [s[|s| - 1]];
      assert s[|s| - 1] !in s[..|s| - 1];
    }
  }

  lemma TwiceInMultiset<T>(s: seq<T>, i: nat, j: nat)
    requires i < j < |s| && s[i] == s[j]
    ensures multiset(s)[s[i]] >= 2
  {
    assert s == s[..i] + [s[i]] + s[i + 1..j] + [s[j]] + s[j + 1..];
  }

  /** One step of sset_join and svec_join. */
  method PutName(s: Ds, ghost names: seq<CString>, i: nat, name: CString, delimiter: CString)
    requires s.Valid() && i < |names| && name == names[i] && s.Contents() == Join(names[..i], delimiter)
    modifies s, s.str
    ensures s.Valid() && s.Grown() && s.Contents() == Join(names[..i + 1], delimiter)
  {
    JoinSnoc(names, i, delimiter);
    if i > 0 {
      s.PutBuffer(delimiter);
    }
    s.PutBuffer(name);
  }

  lemma JoinSnoc(names: seq<CString>, i: nat, delimiter: seq<byte>)
    requires i < |names|
    ensures Join(names[..i + 1], delimiter) ==
      (if i > 0 then Join(names[..i], delimiter) + delimiter else Join(names[..i], delimiter)) + names[i]
  {
    assert names[..i + 1][..i] == names[..i];
  }

  lemma {:induction false} JoinIsCString(names: seq<CString>, delimiter: CString)
    ensures 0 !in Join(names, delimiter)
  {
    if |names| > 1 {
      JoinIsCString(names[..|names| - 1], delimiter);
    }
  }

  /** The loop of sset_join, over the array of sset_sort. */
  method JoinSorted(sorted: array<Node?>, ghost nodes: seq<Node>, delimiter: CString, terminator: CString)
    returns (r: CString)
    requires sorted.Length == |nodes| + 1 && sorted[..|nodes|] == nodes
    ensures r == Join(NameList(nodes), delimiter) + terminator
  {
    ghost var names := NameList(nodes);
    assert forall j {:trigger sorted[j]} :: 0 <= j < |nodes| ==> sorted[j] == sorted[..|nodes|][j];
    var s := new Ds();
    var i := 0;
    while i < sorted.Length - 1
      invariant i <= |nodes| && s.Valid() && fresh(s) && (s.str == null || fresh(s.str))
      invariant s.Contents() == Join(names[..i], delimiter)
    {
      assert sorted[i] == nodes[i];
      PutName(s, names, i, sorted[i].name, delimiter);
      i := i + 1;
    }
    assert names[..i] == names;
    JoinIsCString(names, delimiter);
    s.PutBuffer(terminator);
    r := s.StealCstr();
  }

  /** sset_join */
  method JoinNames(a: Sset, delimiter: CString, terminator: CString) returns (r: CString, ghost names: seq<CString>)
    requires a.Valid()
    ensures StrictlySorted(names) && Ascending(names) && Elements(names) == a.Names() && |names| == a.table.n
    ensures r == Join(names, delimiter) + terminator
    ensures IsJoined(r, a.Names(), delimiter, terminator)
  {
    var sorted;
    ghost var nodes;
    sorted, nodes := Sort(a);
    names := NameList(nodes);
    r := JoinSorted(sorted, nodes, delimiter, terminator);
    forall s: seq<CString> | StrictlySorted(s) && Elements(s) == a.Names()
      ensures s == names
    {
      StrictlySortedUnique(s, names);
    }
  }

  /** `r` is the ascending list of the set `names`, joined: no other order of the names would do. */
  ghost predicate IsJoined(r: CString, names: set<CString>, delimiter: CString, terminator: CString) {
    forall s: seq<CString> | StrictlySorted(s) && Elements(s) == names :: r == Join(s, delimiter) + terminator
  }

  /** `names` and the `tokens`, added one by one. */
  ghost function Collect(names: set<CString>, tokens: seq<CString>): set<CString>
    decreases |tokens|
  {
    if tokens == [] then names else Collect(names + {tokens[0]}, tokens[1..])
  }

  lemma {:induction false} CollectTokens(names: set<CString>, tokens: seq<CString>)
    ensures Collect(names, tokens) == names + Elements(tokens)
    decreases |tokens|
  {
    if tokens != [] {
      CollectTokens(names + {tokens[0]}, tokens[1..]);
      assert tokens == [tokens[0]] + tokens[1..];
    }
  }

  /** The tokens of a C string are C strings. */
  lemma {:induction false} TokensAreCStrings(s: CString, delims: CString)
    ensures forall i :: 0 <= i < |Split(s, delims)| ==> 0 !in Split(s, delims)[i]
    decreases |s|
  {
    var t := SkipDelims(s, delims);
    SkipKeeps(s, delims);
    SkipStops(s, delims);
    if t != [] {
      TokensAreCStrings(t[Span(t, delims)..], delims);
    }
  }

  /** The tokens of `s`. */
  ghost function TokensOf(s: CString, delims: CString): seq<CString> {
    TokensAreCStrings(s, delims);
    Split(s, delims)
  }

  /** strtok_r: the next token and what is left to scan, or the empty string for a null pointer. */
  method StrTok(s: CString, delims: CString) returns (token: CString, rest: CString)
    ensures TokensOf(s, delims) == if token == [] then [] else [token] + TokensOf(rest, delims)
    ensures |token| + |rest| <= |s|
  {
    var t := SkipDelims(s, delims);
    SkipStops(s, delims);
    SkipKeeps(s, delims);
    if t == [] {
      return [], [];
    }
    var n := Span(t, delims);
    return t[..n], t[n..];
  }

  /** `token` is to be added next, unless there is none, and `rest` is still to be scanned; in the end the
      set will have the names `all`. */
  ghost predicate Adding(a: Sset, token: CString, rest: CString, delims: CString, all: set<CString>)
    reads a, a.table, a.table.buckets, a.table.nodes
  {
    && a.Valid()
    && if token == [] then a.Names() == all
       else a.table.n + 1 + |TokensOf(rest, delims)| <= SIZE_MAX &&
            Collect(a.Names() + {token}, TokensOf(rest, delims)) == all
  }

  /** The first call of strtok_r. */
  method FirstToken(a: Sset, s: CString, delims: CString) returns (token: CString, rest: CString)
    requires a.Valid() && a.table.n + |TokensOf(s, delims)| <= SIZE_MAX
    ensures Adding(a, token, rest, delims, Collect(a.Names(), TokensOf(s, delims))) && |token| + |rest| <= |s|
  {
    token, rest := StrTok(s, delims);
    assert token != [] ==> ([token] + TokensOf(rest, delims))[1..] == TokensOf(rest, delims);
  }

  /** One round: adds the token and calls strtok_r again. */
  method AddToken(a: Sset, token: CString, rest: CString, delims: CString, ghost all: set<CString>)
    returns (token': CString, rest': CString)
    requires Adding(a, token, rest, delims, all) && token != []
    modifies a.table, a.table.one, a.table.buckets, a.table.nodes
    ensures Adding(a, token', rest', delims, all) && a.Grown() && |token'| + |rest'| <= |rest|
  {
    var added := a.Add(token);
    token', rest' := FirstToken(a, rest, delims);
  }

  /** The loop of sset_from_delimited_string. */
  method AddTokens(a: Sset, s: CString, delims: CString)
    requires a.Valid() && a.table.n + |TokensOf(s, delims)| <= SIZE_MAX
    modifies a.table, a.table.one, a.table.buckets, a.table.nodes
    ensures a.Valid() && a.Grown() && a.Names() == Collect(old(a.Names()), TokensOf(s, delims))
  {
    ghost var all := Collect(a.Names(), TokensOf(s, delims));
    var token, rest := FirstToken(a, s, delims);
    while token != []
      invariant Adding(a, token, rest, delims, all) && a.Grown()
      decreases |token| + |rest|
    {
      token, rest := AddToken(a, token, rest, delims, all);
    }
  }

  /** sset_from_delimited_string */
  method FromDelimitedString(s: CString, delims: CString, hashName: HashFunction) returns (a: Sset)
    requires |Split(s, delims)| <= SIZE_MAX
    ensures a.Valid() && fresh(a) && a.hashName == hashName
    ensures a.Names() == Elements(Split(s, delims))
  {
    a := new Sset(hashName);
    CollectTokens({}, TokensOf(s, delims));
    AddTokens(a, s, delims);
  }

  lemma {:induction false} SkipKeeps(s: seq<byte>, delims: seq<byte>)
    requires 0 !in s
    ensures 0 !in SkipDelims(s, delims)
  {
    if s != [] && s[0] in delims {
      SkipKeeps(s[1..], delims);
    }
  }

  /** Splitting what was joined gives the same set, if the delimiters separate the names. */
  method RoundTrip(a: Sset, joiner: CString, terminator: CString, delims: CString) returns (b: Sset)
    requires a.Valid()
    requires forall name :: name in a.Names() ==> name != [] && NoDelims(name, delims)
    requires joiner != [] && OnlyDelims(joiner, delims) && OnlyDelims(terminator, delims)
    ensures b.Valid() && b.Names() == a.Names()
  {
    var text;
    ghost var names;
    text, names := JoinNames(a, joiner, terminator);
    forall i | 0 <= i < |names|
      ensures names[i] != [] && NoDelims(names[i], delims)
    {
      assert names[i] in Elements(names);
    }
    SplitJoin(names, joiner, terminator, delims);
    b := FromDelimitedString(text, delims, a.hashName);
  }
}
