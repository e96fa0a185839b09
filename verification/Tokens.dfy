/** Joining strings with a delimiter, and splitting a string at delimiters as strtok_r does. */
module Tokens {
  import opened ByteStrings

  /** All bytes of `s` are delimiters. */
  predicate OnlyDelims(s: seq<byte>, delims: seq<byte>) {
    forall i :: 0 <= i < |s| ==> s[i] in delims
  }

  predicate NoDelims(s: seq<byte>, delims: seq<byte>) {
    forall i :: 0 <= i < |s| ==> s[i] !in delims
  }

  /** strspn: drop the leading delimiters. */
  function SkipDelims(s: seq<byte>, delims: seq<byte>): (r: seq<byte>)
    ensures |r| <= |s|
  {
    if s != [] && s[0] in delims then SkipDelims(s[1..], delims) else s
  }

  /** strcspn: the length of the leading run of other bytes. */
  function Span(s: seq<byte>, delims: seq<byte>): (n: nat)
    ensures n <= |s| && NoDelims(s[..n], delims) && (n < |s| ==> s[n] in delims)
  {
    if s == [] || s[0] in delims then 0 else
      var n := Span(s[1..], delims);
      assert s[..n + 1] == [s[0]] + s[1..][..n];
      n + 1
  }

  /** The tokens that strtok_r finds: the maximal runs without a delimiter. */
  function Split(s: seq<byte>, delims: seq<byte>): seq<seq<byte>>
    decreases |s|
  {
    var t := SkipDelims(s, delims);
    if t == [] then [] else
      var n := Span(t, delims);
      assert n > 0 by { SkipStops(s, delims); }
      [t[..n]] + Split(t[n..], delims)
  }

  lemma {:induction false} SkipStops(s: seq<byte>, delims: seq<byte>)
    ensures var t := SkipDelims(s, delims); t == [] || t[0] !in delims
  {
    if s != [] && s[0] in delims {
      SkipStops(s[1..], delims);
    }
  }

  // ---- What the tokens are ----

  /** The bytes from index `i` up to `j`. */
  datatype Run = Run(i: nat, j: nat)

  /** A nonempty stretch without delimiters that cannot be extended on either side. */
  ghost predicate MaximalRun(s: seq<byte>, delims: seq<byte>, r: Run) {
    && r.i < r.j <= |s| && (forall k :: r.i <= k < r.j ==> s[k] !in delims)
    && (r.i == 0 || s[r.i - 1] in delims) && (r.j == |s| || s[r.j] in delims)
  }

  /** `from` is not inside a run. */
  predicate Boundary(s: seq<byte>, delims: seq<byte>, from: nat) {
    from == 0 || from >= |s| || s[from - 1] in delims || s[from] in delims
  }

  /** The first index from `from` on that is not a delimiter, or the length. */
  function Start(s: seq<byte>, delims: seq<byte>, from: nat): nat {
    |s| - |SkipDelims(if from <= |s| then s[from..] else [], delims)|
  }

  /** The first index from `i` on that is a delimiter, or the length. */
  function End(s: seq<byte>, delims: seq<byte>, i: nat): nat {
    i + Span(if i <= |s| then s[i..] else [], delims)
  }

  lemma {:induction false} SkipIsDrop(s: seq<byte>, delims: seq<byte>)
    ensures var n := |s| - |SkipDelims(s, delims)|;
      OnlyDelims(s[..n], delims) && SkipDelims(s, delims) == s[n..]
  {
    if s != [] && s[0] in delims {
      SkipIsDrop(s[1..], delims);
      var m := |s[1..]| - |SkipDelims(s[1..], delims)|;
      assert s[..m + 1] == [s[0]] + s[1..][..m];
    }
  }

  lemma StartSkips(s: seq<byte>, delims: seq<byte>, from: nat)
    requires from <= |s|
    ensures var i := Start(s, delims, from);
      && from <= i <= |s| && SkipDelims(s[from..], delims) == s[i..]
      && (forall k :: from <= k < i ==> s[k] in delims) && (i < |s| ==> s[i] !in delims)
  {
    var u, i := s[from..], Start(s, delims, from);
    SkipIsDrop(u, delims);
    SkipStops(u, delims);
    assert u[i - from..] == s[i..];
    forall k | from <= k < i ensures s[k] in delims {
      assert u[..i - from][k - from] == s[k];
    }
  }

  lemma {:induction false} EndStops(s: seq<byte>, delims: seq<byte>, i: nat)
    requires i <= |s|
    ensures var j := End(s, delims, i);
      && i <= j <= |s| && (forall k :: i <= k < j ==> s[k] !in delims) && (j < |s| ==> s[j] in delims)
  {
    var u, n := s[i..], Span(s[i..], delims);
    forall k | i <= k < i + n ensures s[k] !in delims {
      assert u[..n][k - i] == s[k];
    }
  }

  /** The tokens of `s` from index `from` on, by where they are. */
  ghost function Runs(s: seq<byte>, delims: seq<byte>, from: nat): seq<Run>
    requires from <= |s|
    decreases |s| - from
  {
    StartSkips(s, delims, from);
    var i := Start(s, delims, from);
    if i == |s| then [] else
      EndStops(s, delims, i);
      var j := End(s, delims, i);
      [Run(i, j)] + Runs(s, delims, j)
  }

  lemma SplitFirst(s: seq<byte>, delims: seq<byte>, from: nat)
    requires from <= |s|
    ensures var i := Start(s, delims, from); var j := End(s, delims, i);
      && from <= i <= j <= |s|
      && Split(s[from..], delims) == if i == |s| then [] else [s[i..j]] + Split(s[j..], delims)
  {
    var u := s[from..];
    var i, t := Start(s, delims, from), SkipDelims(u, delims);
    var n := Span(t, delims);
    StartSkips(s, delims, from);
    assert t == s[i..];
    if i < |s| {
      assert Split(u, delims) == [t[..n]] + Split(t[n..], delims);
      assert t[..n] == s[i..i + n] && t[n..] == s[i + n..];
    }
  }

  /** `tokens` are the texts of the runs `r`. */
  ghost predicate AreTexts(s: seq<byte>, r: seq<Run>, tokens: seq<seq<byte>>) {
    |r| == |tokens| && forall k :: 0 <= k < |r| ==> r[k].i <= r[k].j <= |s| && tokens[k] == s[r[k].i..r[k].j]
  }

  lemma OneMoreText(s: seq<byte>, x: Run, rest: seq<Run>, tokens: seq<seq<byte>>)
    requires x.i <= x.j <= |s| && AreTexts(s, rest, tokens)
    ensures AreTexts(s, [x] + rest, [s[x.i..x.j]] + tokens)
  {
  }

  lemma {:induction false} SplitIsRuns(s: seq<byte>, delims: seq<byte>, from: nat)
    requires from <= |s|
    ensures AreTexts(s, Runs(s, delims, from), Split(s[from..], delims))
    decreases |s| - from
  {
    SplitFirst(s, delims, from);
    StartSkips(s, delims, from);
    if Start(s, delims, from) < |s| {
      var i, j, rest := RunsFirst(s, delims, from);
      SplitIsRuns(s, delims, j);
      OneMoreText(s, Run(i, j), rest, Split(s[j..], delims));
    }
  }

  lemma FirstIsMaximal(s: seq<byte>, delims: seq<byte>, from: nat)
    requires from <= |s| && Boundary(s, delims, from) && Start(s, delims, from) < |s|
    ensures var i := Start(s, delims, from); var j := End(s, delims, i);
      MaximalRun(s, delims, Run(i, j)) && from <= i < j <= |s| && Boundary(s, delims, j)
  {
    var i := Start(s, delims, from);
    StartSkips(s, delims, from);
    EndStops(s, delims, i);
  }

  /** The runs are maximal, and each ends before the next one starts. */
  lemma {:induction false} RunsAreMaximal(s: seq<byte>, delims: seq<byte>, from: nat, k: nat)
    requires from <= |s| && Boundary(s, delims, from) && k < |Runs(s, delims, from)|
    ensures MaximalRun(s, delims, Runs(s, delims, from)[k]) && Runs(s, delims, from)[k].i >= from
    ensures k > 0 ==> Runs(s, delims, from)[k - 1].j < Runs(s, delims, from)[k].i
    decreases |s| - from
  {
    var i, j, rest := RunsFirst(s, delims, from);
    FirstIsMaximal(s, delims, from);
    if k > 0 {
      RunsAreMaximal(s, delims, j, k - 1);
      RunApart(s, delims, Run(i, j), rest[k - 1]);
    }
  }

  /** The first run, and those after it. */
  lemma {:induction false} RunsFirst(s: seq<byte>, delims: seq<byte>, from: nat)
    returns (i: nat, j: nat, rest: seq<Run>)
    requires from <= |s| && Runs(s, delims, from) != []
    ensures i == Start(s, delims, from) && j == End(s, delims, i) && from <= i < |s| && i <= j <= |s|
    ensures rest == Runs(s, delims, j) && Runs(s, delims, from) == [Run(i, j)] + rest
    ensures j < |s| ==> s[j] in delims
  {
    i := Start(s, delims, from);
    j := End(s, delims, i);
    StartSkips(s, delims, from);
    EndStops(s, delims, i);
    rest := Runs(s, delims, j);
  }

  /** A run that starts no earlier than another ends starts after its end. */
  lemma RunApart(s: seq<byte>, delims: seq<byte>, x: Run, y: Run)
    requires MaximalRun(s, delims, x) && MaximalRun(s, delims, y) && y.i >= x.j
    ensures y.i > x.j
  {
    assert s[y.i] !in delims;
  }

  /** No maximal run is missing. */
  lemma {:induction false} RunsAreAll(s: seq<byte>, delims: seq<byte>, from: nat, x: Run)
    requires from <= |s| && MaximalRun(s, delims, x) && x.i >= from
    ensures x in Runs(s, delims, from)
    decreases |s| - from
  {
    var i := Start(s, delims, from);
    var j := End(s, delims, i);
    StartSkips(s, delims, from);
    EndStops(s, delims, i);
    assert s[x.i] !in delims;
    assert i <= x.i;
    if i == x.i {
      assert forall k :: i <= k < x.j ==> s[k] !in delims;
      assert forall k :: i <= k < j ==> s[k] !in delims;
      assert (x.j == |s| || s[x.j] in delims) && (j == |s| || s[j] in delims);
      assert x.j == j;
    } else {
      assert s[x.i - 1] in delims;
      RunsAreAll(s, delims, j, x);
    }
  }

  /** The tokens of a string are its maximal runs without delimiters: all of them, in order. */
  lemma TokensAreMaximalRuns(s: seq<byte>, delims: seq<byte>)
    ensures var r, tokens := Runs(s, delims, 0), Split(s, delims);
      && |r| == |tokens|
      && (forall k :: 0 <= k < |r| ==> MaximalRun(s, delims, r[k]) && tokens[k] == s[r[k].i..r[k].j])
      && (forall k :: 0 < k < |r| ==> r[k - 1].j < r[k].i)
      && (forall x: Run :: MaximalRun(s, delims, x) ==> x in r)
  {
    var r := Runs(s, delims, 0);
    assert s[0..] == s;
    SplitIsRuns(s, delims, 0);
    forall k: nat | k < |r|
      ensures MaximalRun(s, delims, r[k]) && (k > 0 ==> r[k - 1].j < r[k].i)
    {
      RunsAreMaximal(s, delims, 0, k);
    }
    forall x: Run | MaximalRun(s, delims, x)
      ensures x in r
    {
      RunsAreAll(s, delims, 0, x);
    }
  }

  /** The strings in order, each separated from the next by `delimiter`. */
  function Join(names: seq<seq<byte>>, delimiter: seq<byte>): seq<byte> {
    if names == [] then []
    else if |names| == 1 then names[0]
    else Join(names[..|names| - 1], delimiter) + delimiter + names[|names| - 1]
  }

  /** One delimiter, and nothing else, comes between two parts that are joined, wherever they are taken apart. */
  lemma {:induction false} JoinAppend(s: seq<seq<byte>>, t: seq<seq<byte>>, delimiter: seq<byte>)
    ensures s != [] && t != [] ==> Join(s + t, delimiter) == Join(s, delimiter) + delimiter + Join(t, delimiter)
    ensures |s| == 1 ==> Join(s, delimiter) == s[0]
    ensures s == [] ==> Join(s, delimiter) == []
    decreases |t|
  {
    if s != [] && t != [] {
      var l := |t| - 1;
      assert (s + t)[..|s + t| - 1] == s + t[..l];
      if l == 0 {
        assert s + t[..0] == s;
      } else {
        JoinAppend(s, t[..l], delimiter);
      }
    }
  }

  lemma {:induction false} SkipLeading(d: seq<byte>, s: seq<byte>, delims: seq<byte>)
    requires OnlyDelims(d, delims)
    ensures SkipDelims(d + s, delims) == SkipDelims(s, delims)
  {
    if d == [] {
      assert d + s == s;
    } else {
      assert (d + s)[1..] == d[1..] + s;
      SkipLeading(d[1..], s, delims);
    }
  }

  lemma {:induction false} SpanOf(a: seq<byte>, s: seq<byte>, delims: seq<byte>)
    requires NoDelims(a, delims) && (s == [] || s[0] in delims)
    ensures Span(a + s, delims) == |a|
  {
    if a == [] {
      assert a + s == s;
    } else {
      assert (a + s)[1..] == a[1..] + s;
      SpanOf(a[1..], s, delims);
    }
  }

  /** A leading token is split off. */
  lemma SplitToken(d: seq<byte>, a: seq<byte>, s: seq<byte>, delims: seq<byte>)
    requires OnlyDelims(d, delims) && a != [] && NoDelims(a, delims) && (s == [] || s[0] in delims)
    ensures Split(d + a + s, delims) == [a] + Split(s, delims)
  {
    var t := d + a + s;
    assert t == d + (a + s);
    SkipLeading(d, a + s, delims);
    assert (a + s)[0] == a[0];
    assert SkipDelims(a + s, delims) == a + s;
    SpanOf(a, s, delims);
    assert (a + s)[..|a|] == a && (a + s)[|a|..] == s;
  }

  /** Names that `delims` cannot disturb. */
  predicate Splittable(names: seq<seq<byte>>, delims: seq<byte>) {
    forall i :: 0 <= i < |names| ==> names[i] != [] && NoDelims(names[i], delims)
  }

  /** Splitting undoes joining. */
  lemma SplitJoin(names: seq<seq<byte>>, joiner: seq<byte>, rest: seq<byte>, delims: seq<byte>)
    requires Splittable(names, delims)
    requires joiner != [] && OnlyDelims(joiner, delims) && OnlyDelims(rest, delims)
    ensures Split(Join(names, joiner) + rest, delims) == names
  {
    SplitJoinOnto(names, joiner, rest, delims);
    SkipLeading(rest, [], delims);
    assert rest + [] == rest;
    assert Split(rest, delims) == [];
  }

  lemma {:induction false} SplitJoinOnto(names: seq<seq<byte>>, joiner: seq<byte>, rest: seq<byte>, delims: seq<byte>)
    requires Splittable(names, delims)
    requires joiner != [] && OnlyDelims(joiner, delims)
    requires rest == [] || rest[0] in delims
    ensures Split(Join(names, joiner) + rest, delims) == names + Split(rest, delims)
    decreases |names|
  {
    if names == [] {
      assert [] + rest == rest;
    } else {
      var l := |names| - 1;
      var last := names[l];
      assert names == names[..l] + [last];
      if l == 0 {
        assert [] + last + rest == last + rest;
        SplitToken([], last, rest, delims);
      } else {
        RegroupFour(Join(names[..l], joiner), joiner, last, rest);
        SplitJoinOnto(names[..l], joiner, joiner + last + rest, delims);
        SplitToken(joiner, last, rest, delims);
        Regroup(names[..l], last, Split(rest, delims));
      }
    }
  }

  lemma Regroup<T>(a: seq<T>, x: T, b: seq<T>)
    ensures a + ([x] + b) == (a + [x]) + b
  {
  }

  lemma RegroupFour(a: seq<byte>, b: seq<byte>, c: seq<byte>, d: seq<byte>)
    ensures (a + b + c) + d == a + (b + c + d)
  {
  }
}
