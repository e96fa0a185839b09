/** C strings: contents and order. */
module ByteStrings {

  type byte = x: int | 0 <= x < 0x100

  /** The contents of a C string: bytes up to, and without, the terminating zero. */
  type CString = s: seq<byte> | 0 !in s witness []

  /** strcmp: the sign of the first difference; a proper prefix comes first. */
  function StrCmp(a: seq<byte>, b: seq<byte>): int {
    if a == [] then (if b == [] then 0 else -1)
    else if b == [] then 1
    else if a[0] != b[0] then a[0] - b[0]
    else StrCmp(a[1..], b[1..])
  }

  lemma {:induction false} StrCmpEqual(a: seq<byte>, b: seq<byte>)
    ensures StrCmp(a, b) == 0 <==> a == b
  {
    if a != [] && b != [] && a[0] == b[0] {
      StrCmpEqual(a[1..], b[1..]);
      assert a == [a[0]] + a[1..] && b == [b[0]] + b[1..];
    }
  }

  lemma {:induction false} StrCmpReverse(a: seq<byte>, b: seq<byte>)
    ensures StrCmp(a, b) < 0 <==> StrCmp(b, a) > 0
  {
    if a != [] && b != [] && a[0] == b[0] {
      StrCmpReverse(a[1..], b[1..]);
    }
  }

  lemma {:induction false} StrCmpTransitive(a: seq<byte>, b: seq<byte>, c: seq<byte>)
    requires StrCmp(a, b) <= 0 && StrCmp(b, c) <= 0
    ensures StrCmp(a, c) <= 0
    ensures StrCmp(a, b) < 0 || StrCmp(b, c) < 0 ==> StrCmp(a, c) < 0
  {
    if a != [] && b != [] && c != [] && a[0] == b[0] == c[0] {
      StrCmpTransitive(a[1..], b[1..], c[1..]);
    }
  }

  /** `a` and `b` agree on their first `k` bytes; there `a` ends, or has the smaller byte. */
  ghost predicate DiffersAt(a: seq<byte>, b: seq<byte>, k: nat) {
    k <= |a| && k < |b| && a[..k] == b[..k] && (k == |a| || a[k] < b[k])
  }

  /** `a` comes before `b` in a dictionary whose letters are the byte values. */
  ghost predicate Precedes(a: seq<byte>, b: seq<byte>) {
    exists k: nat :: DiffersAt(a, b, k)
  }

  lemma {:induction false} FirstDifference(a: seq<byte>, b: seq<byte>, k: nat)
    requires DiffersAt(a, b, k)
    ensures StrCmp(a, b) < 0
  {
    if k > 0 {
      assert a[0] == a[..k][0] && b[0] == b[..k][0];
      assert a[1..][..k - 1] == a[..k][1..] && b[1..][..k - 1] == b[..k][1..];
      FirstDifference(a[1..], b[1..], k - 1);
    }
  }

  lemma {:induction false} DifferenceFrom(a: seq<byte>, b: seq<byte>) returns (k: nat)
    requires StrCmp(a, b) < 0
    ensures DiffersAt(a, b, k)
  {
    if a == [] || a[0] != b[0] {
      k := 0;
    } else {
      var j := DifferenceFrom(a[1..], b[1..]);
      k := j + 1;
      assert a[..k] == [a[0]] + a[1..][..j] && b[..k] == [b[0]] + b[1..][..j];
    }
  }

  /** strcmp is negative exactly if its first argument comes first in the dictionary. */
  lemma StrCmpOrder(a: seq<byte>, b: seq<byte>)
    ensures StrCmp(a, b) < 0 <==> Precedes(a, b)
  {
    if StrCmp(a, b) < 0 {
      var k := DifferenceFrom(a, b);
    }
    forall k: nat | DiffersAt(a, b, k)
      ensures StrCmp(a, b) < 0
    {
      FirstDifference(a, b, k);
    }
  }

  /** strncmp on the first `n` bytes of two zero-terminated arrays, for the equality it is used for. */
  predicate StrNCmpEqual(a: seq<byte>, b: seq<byte>, n: nat)
    requires 0 in a && 0 in b
  {
    n == 0 || (a[0] == b[0] && (a[0] == 0 || StrNCmpEqual(a[1..], b[1..], n - 1)))
  }

  /** The test `!strncmp(x, name, len) && !x[len]` of shash_find__, with `x` and `name` stored
      zero-terminated, reads `x` only up to its terminator and decides `x == name`. */
  lemma {:induction false} PrefixTestIsEquality(x: CString, name: CString)
    ensures StrNCmpEqual(x + [0], name + [0], |name|) ==> |name| <= |x|
    ensures (StrNCmpEqual(x + [0], name + [0], |name|) && (x + [0])[|name|] == 0) <==> x == name
    decreases |name|
  {
    if name != [] && x != [] && x[0] == name[0] {
      var x': CString, name': CString := x[1..], name[1..];
      PrefixTestIsEquality(x', name');
      assert (x + [0])[1..] == x' + [0] && (name + [0])[1..] == name' + [0];
      assert x == [x[0]] + x' && name == [name[0]] + name';
      assert x[0] != 0;
    }
  }

  ghost predicate Sorted(s: seq<CString>) {
    forall i, j :: 0 <= i < j < |s| ==> StrCmp(s[i], s[j]) <= 0
  }

  ghost predicate StrictlySorted(s: seq<CString>) {
    forall i, j :: 0 <= i < j < |s| ==> StrCmp(s[i], s[j]) < 0
  }

  /** Each string comes before all that follow it. */
  ghost predicate Ascending(s: seq<CString>) {
    forall i, j :: 0 <= i < j < |s| ==> Precedes(s[i], s[j])
  }

  /** No string comes before one that it follows. */
  ghost predicate NeverDescending(s: seq<CString>) {
    forall i, j :: 0 <= i < j < |s| ==> !Precedes(s[j], s[i])
  }

  /** What sorting by strcmp means for the order of the strings. */
  lemma SortedOrder(s: seq<CString>)
    ensures StrictlySorted(s) <==> Ascending(s)
    ensures Sorted(s) <==> NeverDescending(s)
  {
    forall i, j | 0 <= i < j < |s|
      ensures StrCmp(s[i], s[j]) < 0 <==> Precedes(s[i], s[j])
      ensures StrCmp(s[i], s[j]) > 0 <==> Precedes(s[j], s[i])
    {
      StrCmpOrder(s[i], s[j]);
      StrCmpOrder(s[j], s[i]);
      StrCmpReverse(s[j], s[i]);
    }
  }
}
