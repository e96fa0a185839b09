/** The contract of qsort with a strcmp comparison. */
module Sorting {
  import opened ByteStrings
  import opened Sequences

  function Keys<T>(s: seq<T>, key: T -> CString): (r: seq<CString>)
    ensures |r| == |s| && forall i :: 0 <= i < |s| ==> r[i] == key(s[i])
  {
    seq(|s|, i requires 0 <= i < |s| => key(s[i]))
  }

  /** Some permutation sorted by key; qsort itself is not modelled. */
  method Qsort<T>(s: seq<T>, key: T -> CString) returns (r: seq<T>)
    ensures Sorted(Keys(r, key)) && multiset(r) == multiset(s) && |r| == |s|
    decreases |s|
  {
    if s == [] {
      return [];
    }
    var t := Qsort(s[1..], key);
    assert s == [s[0]] + s[1..];
    var x, k := s[0], 0;
    while k < |t| && StrCmp(key(t[k]), key(x)) <= 0
      invariant k <= |t| && (k > 0 ==> StrCmp(key(t[k - 1]), key(x)) <= 0)
    {
      k := k + 1;
    }
    InsertSorted(Keys(t, key), k, key(x));
    r := t[..k] + [x] + t[k..];
    KeysInsert(t, k, x, key);
    assert t == t[..k] + t[k..];
  }

  lemma KeysInsert<T>(t: seq<T>, k: nat, x: T, key: T -> CString)
    requires k <= |t|
    ensures Keys(t[..k] + [x] + t[k..], key) == Keys(t, key)[..k] + [key(x)] + Keys(t, key)[k..]
  {
  }

  lemma InsertSorted(t: seq<CString>, k: nat, x: CString)
    requires Sorted(t) && k <= |t|
    requires k > 0 ==> StrCmp(t[k - 1], x) <= 0
    requires k < |t| ==> StrCmp(t[k], x) > 0
    ensures Sorted(t[..k] + [x] + t[k..])
  {
    var r := t[..k] + [x] + t[k..];
    forall i | 0 <= i < k
      ensures StrCmp(t[i], x) <= 0
    {
      if i < k - 1 {
        StrCmpTransitive(t[i], t[k - 1], x);
      }
    }
    forall i | k <= i < |t|
      ensures StrCmp(x, t[i]) <= 0
    {
      StrCmpReverse(x, t[k]);
      if k < i {
        StrCmpTransitive(x, t[k], t[i]);
      }
    }
    forall i, j | 0 <= i < j < |r|
      ensures StrCmp(r[i], r[j]) <= 0
    {
      var i', j' := if i <= k then i else i - 1, j - 1;
      assert i != k ==> r[i] == t[i'];
      assert j > k ==> r[j] == t[j'];
    }
  }

  lemma LeastFirst(a: seq<CString>, x: CString)
    requires Sorted(a) && x in a
    ensures StrCmp(a[0], x) <= 0
  {
    StrCmpEqual(a[0], a[0]);
    var i :| 0 <= i < |a| && a[i] == x;
    assert i == 0 || StrCmp(a[0], a[i]) <= 0;
  }

  lemma SameLeast(a: seq<CString>, b: seq<CString>)
    requires Sorted(a) && Sorted(b) && a != [] && b != []
    requires a[0] in b && b[0] in a
    ensures a[0] == b[0]
  {
    LeastFirst(a, b[0]);
    LeastFirst(b, a[0]);
    StrCmpReverse(a[0], b[0]);
    StrCmpEqual(a[0], b[0]);
  }

  lemma DropFirst(a: seq<CString>)
    requires Sorted(a) && a != []
    ensures Sorted(a[1..]) && multiset(a[1..]) == multiset(a) - multiset{a[0]}
  {
    assert a == [a[0]] + a[1..];
  }

  /** The contract of qsort leaves no choice for strings. */
  lemma {:induction false} SortedUnique(a: seq<CString>, b: seq<CString>)
    requires Sorted(a) && Sorted(b) && multiset(a) == multiset(b)
    ensures a == b
    decreases |a|
  {
    assert |multiset(a)| == |a| && |multiset(b)| == |b|;
    if a != [] {
      assert a[0] in multiset(b) && b[0] in multiset(a);
      SameLeast(a, b);
      DropFirst(a);
      DropFirst(b);
      SortedUnique(a[1..], b[1..]);
      assert [a[0]] + a[1..] == [b[0]] + b[1..];
    }
  }

  lemma NoElements<T>(s: seq<T>)
    ensures Elements(s) == {} <==> s == []
  {
    if s != [] {
      assert s[0] in Elements(s);
    }
  }

  lemma DropLeast(a: seq<CString>)
    requires StrictlySorted(a) && a != []
    ensures StrictlySorted(a[1..]) && Elements(a[1..]) == Elements(a) - {a[0]}
  {
    forall x | x in a[1..]
      ensures x != a[0]
    {
      var i :| 0 <= i < |a| - 1 && a[1..][i] == x;
      assert StrCmp(a[0], a[i + 1]) < 0;
      StrCmpEqual(a[0], a[0]);
    }
    assert a == [a[0]] + a[1..];
  }

  /** A set of strings has one strictly ascending list. */
  lemma {:induction false} StrictlySortedUnique(a: seq<CString>, b: seq<CString>)
    requires StrictlySorted(a) && StrictlySorted(b) && Elements(a) == Elements(b)
    ensures a == b
    decreases |a|
  {
    NoElements(a);
    NoElements(b);
    if a != [] {
      assert a[0] in Elements(b);
      assert b[0] in Elements(a);
      SameLeast(a, b);
      DropLeast(a);
      DropLeast(b);
      StrictlySortedUnique(a[1..], b[1..]);
      assert [a[0]] + a[1..] == [b[0]] + b[1..];
    }
  }

  /** Adjacent comparisons suffice. */
  lemma {:induction false} AdjacentlySorted(s: seq<CString>, i: nat, j: nat)
    requires forall k :: 0 < k < |s| ==> StrCmp(s[k - 1], s[k]) <= 0
    requires i < j < |s|
    ensures StrCmp(s[i], s[j]) <= 0
    decreases j
  {
    assert StrCmp(s[j - 1], s[j]) <= 0;
    if i < j - 1 {
      AdjacentlySorted(s, i, j - 1);
      StrCmpTransitive(s[i], s[j - 1], s[j]);
    }
  }
}
