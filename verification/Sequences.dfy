/** Sequences without repetition, and the concatenation of a sequence of sequences:
    the order in which a hash table with chained buckets is traversed. */
module Sequences {

  ghost predicate NoDup<T>(s: seq<T>) {
    forall i, j :: 0 <= i < j < |s| ==> s[i] != s[j]
  }

  ghost function Elements<T>(s: seq<T>): set<T> {
    set x | x in s
  }

  lemma Reassociate<T>(a: seq<T>, b: seq<T>, c: seq<T>)
    ensures a + (b + c) == (a + b) + c
  {
  }

  /** `s` without its element number `k`. */
  function RemoveAt<T>(s: seq<T>, k: nat): seq<T>
    requires k < |s|
  {
    s[..k] + s[k + 1..]
  }

  ghost function Flatten<T>(c: seq<seq<T>>): seq<T> {
    if c == [] then [] else Flatten(c[..|c| - 1]) + c[|c| - 1]
  }

  /** Position in `Flatten(c)` at which part `b` starts. */
  ghost function Offset<T>(c: seq<seq<T>>, b: nat): nat
    requires b <= |c|
  {
    |Flatten(c[..b])|
  }

  lemma {:induction false} FlattenSplit<T>(c: seq<seq<T>>, b: nat)
    requires b < |c|
    ensures Flatten(c) == Flatten(c[..b]) + c[b] + Flatten(c[b + 1..])
    ensures Offset(c, b + 1) == Offset(c, b) + |c[b]|
  {
    var l := |c| - 1;
    assert c[..b + 1][..b] == c[..b];
    if b < l {
      FlattenSplit(c[..l], b);
      assert c[..l][..b] == c[..b];
      assert c[b + 1..][..|c[b + 1..]| - 1] == c[..l][b + 1..];
    }
  }

  lemma FlattenAt<T>(c: seq<seq<T>>, b: nat, i: nat)
    requires b < |c| && i < |c[b]|
    ensures Offset(c, b) + i < |Flatten(c)|
    ensures Flatten(c)[Offset(c, b) + i] == c[b][i]
  {
    FlattenSplit(c, b);
  }

  lemma FlattenRemove<T>(c: seq<seq<T>>, b: nat, i: nat)
    requires b < |c| && i < |c[b]|
    ensures Offset(c, b) + i < |Flatten(c)|
    ensures Flatten(c[b := RemoveAt(c[b], i)]) == RemoveAt(Flatten(c), Offset(c, b) + i)
  {
    var d := c[b := RemoveAt(c[b], i)];
    FlattenSplit(c, b);
    FlattenSplit(d, b);
    assert d[..b] == c[..b] && d[b + 1..] == c[b + 1..];
    RemoveInside(Flatten(c[..b]), c[b], Flatten(c[b + 1..]), i);
  }

  lemma RemoveInside<T>(p: seq<T>, q: seq<T>, r: seq<T>, i: nat)
    requires i < |q|
    ensures RemoveAt(p + q + r, |p| + i) == p + RemoveAt(q, i) + r
  {
  }

  /** Every position of the flattened sequence lies in one of its parts. */
  lemma {:induction false} FlattenLocate<T>(c: seq<seq<T>>, p: nat) returns (b: nat, i: nat)
    requires p < |Flatten(c)|
    ensures b < |c| && i < |c[b]| && p == Offset(c, b) + i
  {
    var l := |c| - 1;
    if p < |Flatten(c[..l])| {
      b, i := FlattenLocate(c[..l], p);
      assert c[..l][..b] == c[..b];
    } else {
      b, i := l, p - |Flatten(c[..l])|;
    }
  }

  lemma {:induction false} OffsetMonotone<T>(c: seq<seq<T>>, a: nat, b: nat)
    requires a <= b <= |c|
    ensures Offset(c, a) <= Offset(c, b) <= |Flatten(c)|
    decreases b - a, |c| - b
  {
    if a < b {
      OffsetMonotone(c, a, b - 1);
      FlattenSplit(c, b - 1);
    } else if b < |c| {
      FlattenSplit(c, b);
    }
    if b < |c| {
      FlattenSplit(c, b);
    } else {
      assert c[..b] == c;
    }
  }

  /** Parts without repetition that are pairwise disjoint flatten to a sequence without repetition. */
  lemma {:induction false} FlattenNoDup<T>(c: seq<seq<T>>)
    requires forall b :: 0 <= b < |c| ==> NoDup(c[b])
    requires forall a, b, x :: 0 <= a < b < |c| && x in c[a] ==> x !in c[b]
    ensures NoDup(Flatten(c))
  {
    if c != [] {
      var l := |c| - 1;
      FlattenNoDup(c[..l]);
      forall p | 0 <= p < |Flatten(c[..l])|
        ensures Flatten(c[..l])[p] !in c[l]
      {
        var b, i := FlattenLocate(c[..l], p);
        FlattenAt(c[..l], b, i);
        assert c[b][i] in c[b];
      }
    }
  }

  lemma {:induction false} NoDupCardinality<T>(s: seq<T>)
    requires NoDup(s)
    ensures |Elements(s)| == |s|
  {
    if s != [] {
      var t, last := s[..|s| - 1], s[|s| - 1];
      NoDupCardinality(t);
      assert s == t + [last];
      assert last !in Elements(t);
      assert Elements(s) == Elements(t) + {last};
    }
  }

  lemma SubsetSize<T>(a: set<T>, b: set<T>)
    requires a <= b
    ensures |a| <= |b|
  {
    assert b == a + (b - a);
  }

  /** Pigeonhole: a subset with as many elements is the whole set. */
  lemma SubsetOfSameSize<T>(a: set<T>, b: set<T>)
    requires a <= b && |a| >= |b|
    ensures a == b
  {
    assert |b - a| == |b| - |a|;
  }
}
