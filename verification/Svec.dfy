/** The growing vector of strings of lib/svec.c. */
module StringVector {
  import opened ByteStrings
  import opened Words
  import opened Sequences
  import opened Sorting

  /** A `char *`. */
  datatype Pointer = Null | Str(text: CString)

  ghost predicate AllStrings(s: seq<Pointer>) {
    forall i :: 0 <= i < |s| ==> s[i].Str?
  }

  ghost function Texts(s: seq<Pointer>): (r: seq<CString>)
    requires AllStrings(s)
    ensures |r| == |s| && forall i :: 0 <= i < |s| ==> r[i] == s[i].text
  {
    if s == [] then [] else Texts(s[..|s| - 1]) + [s[|s| - 1].text]
  }

  /** The pointers that are not null, in order. */
  ghost function NonNull(s: seq<Pointer>): (r: seq<Pointer>)
    ensures AllStrings(r) && |r| <= |s|
  {
    if s == [] then []
    else NonNull(s[..|s| - 1]) + if s[|s| - 1].Null? then [] else [s[|s| - 1]]
  }

  /** The order is kept. */
  lemma {:induction false} NonNullAppend(s: seq<Pointer>, t: seq<Pointer>)
    ensures NonNull(s + t) == NonNull(s) + NonNull(t)
    decreases |t|
  {
    if t == [] {
      assert s + t == s;
    } else {
      var l := |t| - 1;
      assert (s + t)[..|s + t| - 1] == s + t[..l];
      NonNullAppend(s, t[..l]);
    }
  }

  lemma {:induction false} NonNullKeeps(s: seq<Pointer>)
    ensures multiset(NonNull(s)) == multiset(s)[Null := 0]
  {
    if s != [] {
      var l := |s| - 1;
      NonNullKeeps(s[..l]);
      assert s == s[..l] + [s[l]];
      assert multiset(s) == multiset(s[..l]) + multiset{s[l]};
    }
  }

  class Svec {
    /** names.Length is `allocated` in the source. */
    var names: array<Pointer>
    var n: nat

    ghost predicate Valid()
      reads this
    {
      n <= names.Length
    }

    ghost function Contents(): seq<Pointer>
      requires Valid()
      reads this, names
    {
      names[..n]
    }

    /** No null pointer is among the names; comparing names needs this. */
    ghost predicate Full()
      reads this, names
    {
      Valid() && AllStrings(Contents())
    }

    ghost function Names(): (s: seq<CString>)
      requires Full()
      reads this, names
      ensures |s| == n && forall i {:trigger s[i]} :: 0 <= i < n ==> names[i] == Str(s[i])
    {
      Texts(Contents())
    }

    twostate predicate Grown()
      reads this
    {
      names == old(names) || fresh(names)
    }

    /** svec_init */
    constructor ()
      ensures Full() && Names() == [] && fresh(names)
    {
      names, n := new Pointer[0], 0;
    }

    /** svec_init on an existing vector */
    method Init()
      modifies this
      ensures Full() && Names() == [] && fresh(names)
    {
      names, n := new Pointer[0], 0;
    }

    /** svec_expand, with the doubling of x2nrealloc. */
    method Expand()
      requires Valid()
      modifies this`names
      ensures Valid() && Grown() && n < names.Length && Contents() == old(Contents())
      ensures names != old(names) <==> n == old(names.Length)
      ensures names != old(names) ==> names.Length == if n == 0 then 1 else 2 * n
    {
      if n >= names.Length {
        var bigger := new Pointer[if names.Length == 0 then 1 else 2 * names.Length](_ => Null);
        forall i | 0 <= i < n {
          bigger[i] := names[i];
        }
        names := bigger;
      }
    }

    /** svec_add_nocopy */
    method AddNocopy(name: Pointer)
      requires Valid()
      modifies this, names
      ensures Valid() && Grown() && Contents() == old(Contents()) + [name]
    {
      Expand();
      names[n] := name;
      n := n + 1;
    }

    /** svec_terminate: a null pointer after the names, which is not one of them. */
    method Terminate()
      requires Valid()
      modifies this, names
      ensures Valid() && Grown() && Contents() == old(Contents())
      ensures n < names.Length && names[n] == Null
    {
      Expand();
      names[n] := Null;
    }

    /** svec_add */
    method Add(name: CString)
      requires Full()
      modifies this, names
      ensures Full() && Grown() && Names() == old(Names()) + [name]
    {
      AddNocopy(Str(name));
    }

    /** svec_append */
    method Append(other: Svec)
      requires Full() && other.Full() && other != this && other.names != names
      modifies this, names
      ensures Full() && Grown() && Names() == old(Names()) + other.Names()
    {
      ghost var before, added := Names(), other.Names();
      for i := 0 to other.n
        invariant Full() && Grown() && other.names != names && Names() == before + added[..i]
      {
        Add(other.names[i].text);
        assert before + added[..i] + [added[i]] == before + added[..i + 1];
      }
      assert added[..other.n] == added;
    }

    /** svec_is_sorted */
    method IsSorted() returns (r: bool)
      requires Full()
      ensures r <==> Sorted(Names())
    {
      ghost var s := Names();
      var i := 1;
      while i < n
        invariant 1 <= i && forall k :: 0 < k < i && k < n ==> StrCmp(s[k - 1], s[k]) <= 0
      {
        if StrCmp(names[i - 1].text, names[i].text) > 0 {
          assert StrCmp(s[i - 1], s[i]) > 0;
          return false;
        }
        i := i + 1;
      }
      forall i, j | 0 <= i < j < |s|
        ensures StrCmp(s[i], s[j]) <= 0
      {
        AdjacentlySorted(s, i, j);
      }
      return true;
    }

    /** svec_sort */
    method Sort()
      requires Full()
      modifies names
      ensures Full() && Sorted(Names()) && multiset(Names()) == multiset(old(Names()))
      ensures NeverDescending(Names())
    {
      if n > 0 {
        var strings := Strings();
        var sorted := Qsort(strings, (x: CString) => x);
        assert Keys(sorted, (x: CString) => x) == sorted;
        forall i | 0 <= i < n {
          names[i] := Str(sorted[i]);
        }
        assert Names() == sorted;
      }
      SortedOrder(Names());
    }

    /** The names as a value, to hand to a library function. */
    method Strings() returns (r: seq<CString>)
      requires Full()
      ensures r == Names()
    {
      r := [];
      for i := 0 to n
        invariant r == Names()[..i]
      {
        r := r + [names[i].text];
      }
    }

    /** svec_compact */
    method Compact()
      requires Valid()
      modifies this`n, names
      ensures Full() && names == old(names) && Contents() == NonNull(old(Contents()))
    {
      ghost var was := Contents();
      var i, j := 0, 0;
      while i < n
        invariant j <= i <= n == old(n) && names == old(names)
        invariant names[..j] == NonNull(was[..i])
        invariant forall k :: i <= k < n ==> names[k] == was[k]
      {
        assert was[..i + 1][..i] == was[..i];
        if names[i].Str? {
          names[j] := names[i];
          j := j + 1;
        }
        i := i + 1;
      }
      assert was[..i] == was;
      n := j;
    }

    /** svec_find, which is bsearch's contract: some index of the name, or SIZE_MAX. */
    method Find(name: CString) returns (r: nat)
      requires Full() && Sorted(Names()) && n < SIZE_MAX
      ensures if r == SIZE_MAX then name !in Names() else r < n && Names()[r] == name
    {
      ghost var s := Names();
      var lo, hi := 0, n;
      while lo < hi
        invariant lo <= hi <= n
        invariant forall k :: 0 <= k < lo ==> StrCmp(s[k], name) < 0
        invariant forall k :: hi <= k < n ==> StrCmp(s[k], name) > 0
      {
        var mid := (lo + hi) / 2;
        assert names[mid] == Str(s[mid]);
        var cmp := StrCmp(names[mid].text, name);
        if cmp == 0 {
          StrCmpEqual(s[mid], name);
          return mid;
        } else if cmp < 0 {
          forall k | 0 <= k <= mid ensures StrCmp(s[k], name) < 0 {
            if k < mid { StrCmpTransitive(s[k], s[mid], name); }
          }
          lo := mid + 1;
        } else {
          forall k | mid <= k < n ensures StrCmp(s[k], name) > 0 {
            StrCmpReverse(name, s[mid]);
            if mid < k { StrCmpTransitive(name, s[mid], s[k]); }
            StrCmpReverse(name, s[k]);
          }
          hi := mid;
        }
      }
      StrCmpEqual(name, name);
      return SIZE_MAX;
    }

    /** svec_contains */
    method Contains(name: CString) returns (r: bool)
      requires Full() && Sorted(Names()) && n < SIZE_MAX
      ensures r <==> name in Names()
    {
      var offset := Find(name);
      r := offset != SIZE_MAX;
    }

    /** The memmove of svec_del. */
    method MoveDown(offset: nat)
      requires Full() && offset < n
      modifies this`n, names
      ensures Full() && names == old(names) && Names() == RemoveAt(old(Names()), offset)
    {
      ghost var s := Names();
      forall i | offset <= i < n - 1 {
        names[i] := names[i + 1];
      }
      n := n - 1;
      forall k | 0 <= k < n ensures names[k] == Str(RemoveAt(s, offset)[k]) {
      }
    }

    /** svec_del: one occurrence of the name goes, if there is one. */
    method Del(name: CString)
      requires Full() && Sorted(Names()) && n < SIZE_MAX
      modifies this`n, names
      ensures Full() && names == old(names) && Sorted(Names())
      ensures multiset(Names()) == multiset(old(Names())) - multiset{name}
    {
      ghost var s := Names();
      var offset := Find(name);
      if offset != SIZE_MAX {
        RemoveOne(s, offset);
        MoveDown(offset);
      }
    }

    /** svec_get_duplicate */
    method GetDuplicate() returns (r: Pointer)
      requires Full() && Sorted(Names())
      ensures r.Null? <==> StrictlySorted(Names())
      ensures r.Str? ==> multiset(Names())[r.text] >= 2
    {
      ghost var s := Names();
      var i := 1;
      while i < n
        invariant 1 <= i && forall k :: 0 < k < i && k < n ==> s[k - 1] != s[k]
      {
        StrCmpEqual(s[i - 1], s[i]);
        assert names[i - 1] == Str(s[i - 1]) && names[i] == Str(s[i]);
        if StrCmp(names[i - 1].text, names[i].text) == 0 {
          assert s == s[..i - 1] + [s[i - 1]] + [s[i]] + s[i + 1..];
          return names[i];
        }
        i := i + 1;
      }
      NeighboursDiffer(s);
      return Null;
    }

    /** svec_is_unique */
    method IsUnique() returns (r: bool)
      requires Full() && Sorted(Names())
      ensures r <==> StrictlySorted(Names())
    {
      var d := GetDuplicate();
      r := d.Null?;
    }

    /** svec_swap */
    method Swap(other: Svec)
      modifies this, other
      ensures names == old(other.names) && n == old(other.n)
      ensures other.names == old(names) && other.n == old(n)
    {
      names, n, other.names, other.n := other.names, other.n, names, n;
    }

    /** One step of svec_unique. */
    method AddIfNew(previous: CString, name: CString)
      requires Full()
      modifies this, names
      ensures Full() && Grown() && Names() == old(Names()) + if previous != name then [name] else []
    {
      StrCmpEqual(previous, name);
      if StrCmp(previous, name) != 0 {
        Add(name);
      }
    }

    /** svec_unique has put the distinct names among the first `i` of `other` here. */
    ghost predicate Keeping(other: Svec, i: nat)
      reads this, names, other, other.names
    {
      && Full() && other.Full() && i <= other.n && Kept(other.Names(), i) == Names()
      && this != other && names != other.names
    }

    /** One round of svec_unique. */
    method KeepNext(other: Svec, i: nat)
      requires Keeping(other, i) && 0 < i < other.n
      modifies this, names
      ensures Keeping(other, i + 1) && Grown()
    {
      ghost var s := other.Names();
      assert other.names[i - 1] == Str(s[i - 1]) && other.names[i] == Str(s[i]);
      AddIfNew(other.names[i - 1].text, other.names[i].text);
    }

    /** The loop of svec_unique. */
    method KeepDistinct() returns (tmp: Svec)
      requires Full() && n > 0
      ensures tmp.Full() && fresh(tmp) && fresh(tmp.names) && tmp.Names() == Kept(Names(), n)
    {
      tmp := new Svec();
      tmp.Add(names[0].text);
      var i := 1;
      while i < n
        invariant fresh(tmp) && fresh(tmp.names) && i > 0 && tmp.Keeping(this, i)
      {
        tmp.KeepNext(this, i);
        i := i + 1;
      }
    }

    /** svec_unique */
    method Unique()
      requires Full() && Sorted(Names())
      modifies this
      ensures Full() && Grown()
      ensures StrictlySorted(Names()) && Ascending(Names()) && Elements(Names()) == Elements(old(Names()))
    {
      ghost var s := Names();
      if n > 1 {
        KeptIsStrict(s, n);
        KeptElements(s, n);
        assert s[..n] == s;
        var tmp := KeepDistinct();
        tmp.Swap(this);
      }
      SortedOrder(Names());
    }

    /** svec_sort_unique */
    method SortUnique()
      requires Full()
      modifies this, names
      ensures Full() && Grown()
      ensures StrictlySorted(Names()) && Ascending(Names()) && Elements(Names()) == Elements(old(Names()))
    {
      ghost var s := Names();
      Sort();
      assert forall x :: x in Names() <==> x in s by {
        assert forall x :: x in Names() <==> x in multiset(Names());
      }
      Unique();
    }
  }

  lemma RemoveOne(s: seq<CString>, k: nat)
    requires Sorted(s) && k < |s|
    ensures Sorted(RemoveAt(s, k)) && multiset(RemoveAt(s, k)) == multiset(s) - multiset{s[k]}
  {
    assert s == s[..k] + [s[k]] + s[k + 1..];
    var r := RemoveAt(s, k);
    forall i, j | 0 <= i < j < |r| ensures StrCmp(r[i], r[j]) <= 0 {
      var i', j' := if i < k then i else i + 1, if j < k then j else j + 1;
      assert r[i] == s[i'] && r[j] == s[j'];
    }
  }

  lemma NeighboursDiffer(s: seq<CString>)
    requires Sorted(s) && forall k :: 0 < k < |s| ==> s[k - 1] != s[k]
    ensures StrictlySorted(s)
  {
    forall i, j | 0 <= i < j < |s|
      ensures StrCmp(s[i], s[j]) < 0
    {
      StrCmpEqual(s[j - 1], s[j]);
      if i < j - 1 {
        StrCmpTransitive(s[i], s[j - 1], s[j]);
      }
    }
  }

  /** Of the first `i` names, those that differ from the one before. */
  ghost function Kept(s: seq<CString>, i: nat): seq<CString>
    requires i <= |s|
  {
    if i == 0 then [] else Kept(s, i - 1) + if i == 1 || s[i - 2] != s[i - 1] then [s[i - 1]] else []
  }

  lemma {:induction false} KeptIsStrict(s: seq<CString>, i: nat)
    requires Sorted(s) && 0 < i <= |s|
    ensures var r := Kept(s, i); StrictlySorted(r) && r != [] && r[|r| - 1] == s[i - 1]
  {
    if i > 1 {
      KeptIsStrict(s, i - 1);
      var r := Kept(s, i - 1);
      if s[i - 2] != s[i - 1] {
        StrCmpEqual(s[i - 2], s[i - 1]);
        forall k | 0 <= k < |r| ensures StrCmp(r[k], s[i - 1]) < 0 {
          if k < |r| - 1 { StrCmpTransitive(r[k], s[i - 2], s[i - 1]); }
        }
      }
    }
  }

  lemma {:induction false} KeptElements(s: seq<CString>, i: nat)
    requires i <= |s|
    ensures Elements(Kept(s, i)) == Elements(s[..i])
  {
    if i > 0 {
      KeptElements(s, i - 1);
      assert s[..i] == s[..i - 1] + [s[i - 1]];
      if i > 1 && s[i - 2] == s[i - 1] {
        assert s[i - 1] in s[..i - 1] by { assert s[..i - 1][i - 2] == s[i - 1]; }
      }
      forall x ensures x in Kept(s, i) <==> x in s[..i] {
        assert x in Kept(s, i - 1) <==> x in Elements(Kept(s, i - 1));
        assert x in s[..i - 1] <==> x in Elements(s[..i - 1]);
      }
    }
  }

  /** svec_equal */
  method Equal(a: Svec, b: Svec) returns (r: bool)
    requires a.Full() && b.Full()
    ensures r <==> a.Names() == b.Names()
  {
    if a.n != b.n {
      return false;
    }
    ghost var s, t := a.Names(), b.Names();
    for i := 0 to a.n
      invariant forall k :: 0 <= k < i ==> s[k] == t[k]
    {
      StrCmpEqual(s[i], t[i]);
      assert a.names[i] == Str(s[i]) && b.names[i] == Str(t[i]);
      if StrCmp(a.names[i].text, b.names[i].text) != 0 {
        return false;
      }
    }
    return true;
  }
}
