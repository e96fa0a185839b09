/** The growing string buffer of lib/dynamic-string.h and lib/dynamic-string.c. */
module DynamicString {
  import opened ByteStrings

  function Max(a: nat, b: nat): nat {
    if a > b then a else b
  }

  class Ds {
    var str: array?<byte>
    var length: nat
    /** `allocated` in the source. */
    var capacity: nat

    /** `capacity` bytes and one for the terminator are there, or nothing is allocated. */
    ghost predicate Valid()
      reads this
    {
      if str == null then length == 0 && capacity == 0
      else str.Length == capacity + 1 && length <= capacity
    }

    ghost function Contents(): seq<byte>
      requires Valid()
      reads this, str
    {
      if str == null then [] else str[..length]
    }

    ghost predicate Terminated()
      requires Valid()
      reads this, str
    {
      str != null && str[length] == 0
    }

    /** The buffer is the same one or a new one. */
    twostate predicate Grown()
      reads this
    {
      str == old(str) || fresh(str)
    }

    /** ds_init */
    constructor ()
      ensures Valid() && Contents() == [] && str == null
    {
      str, length, capacity := null, 0, 0;
    }

    /** ds_clear */
    method Clear()
      requires Valid()
      modifies this`length
      ensures Valid() && Contents() == []
    {
      length := 0;
    }

    /** ds_truncate */
    method Truncate(newLength: nat)
      requires Valid()
      modifies this`length, str
      ensures Valid()
      ensures Contents() == if newLength < |old(Contents())| then old(Contents())[..newLength] else old(Contents())
      ensures old(length) > newLength ==> Terminated()
    {
      if length > newLength {
        length := newLength;
        str[newLength] := 0;
      }
    }

    /** ds_reserve */
    method Reserve(minLength: nat)
      requires Valid()
      modifies this
      ensures Valid() && Grown() && str != null && capacity >= minLength
      ensures length == old(length) && Contents() == old(Contents())
      ensures str == old(str) <==> old(str) != null && minLength <= old(capacity)
      ensures str != old(str) ==> capacity >= 8 && capacity >= 2 * old(capacity)
      ensures str != old(str) ==> capacity in {8, 2 * old(capacity), old(capacity) + minLength}
    {
      if minLength > capacity || str == null {
        capacity := capacity + Max(minLength, capacity);
        capacity := Max(8, capacity);
        var bigger := new byte[capacity + 1];
        if str != null {
          forall i | 0 <= i < length {
            bigger[i] := str[i];
          }
        }
        str := bigger;
      }
    }

    /** ds_put_uninit: `n` more bytes, not yet filled in, from offset `start`. */
    method PutUninit(n: nat) returns (start: nat)
      requires Valid()
      modifies this, str
      ensures Valid() && Grown() && Terminated()
      ensures start == old(length) && length == start + n && str[..start] == old(Contents())
    {
      Reserve(length + n);
      start := length;
      length := length + n;
      str[length] := 0;
    }

    /** ds_put_char, whose fast path avoids ds_put_char__. */
    method PutChar(c: byte)
      requires Valid()
      modifies this, str
      ensures Valid() && Grown() && Terminated() && Contents() == old(Contents()) + [c]
    {
      if length < capacity {
        str[length] := c;
        length := length + 1;
        str[length] := 0;
      } else {
        var start := PutUninit(1);
        str[start] := c;
      }
    }

    /** ds_put_buffer; ds_put_cstr is the same for the bytes of a C string. */
    method PutBuffer(s: seq<byte>)
      requires Valid()
      modifies this, str
      ensures Valid() && Grown() && Terminated() && Contents() == old(Contents()) + s
    {
      var start := PutUninit(|s|);
      forall i | 0 <= i < |s| {
        str[start + i] := s[i];
      }
      assert str[start..length] == s;
      assert str[..length] == str[..start] + str[start..length];
    }

    /** vsnprintf into the `available` bytes from `length` on: as much of `out` as fits, terminated. */
    method Vsnprintf(available: nat, out: seq<byte>) returns (needed: nat)
      requires Valid() && (if str == null then available == 0 else available == capacity - length + 1)
      modifies str
      ensures Valid() && needed == |out| && Contents() == old(Contents())
      ensures needed < available ==> str[length..length + needed] == out && str[length + needed] == 0
    {
      if available > 0 {
        var k := if |out| < available then |out| else available - 1;
        forall i | 0 <= i < k {
          str[length + i] := out[i];
        }
        str[length + k] := 0;
      }
      needed := |out|;
    }

    /** ds_put_format, for a format whose expansion is `out`: a first attempt in the space there is,
        and a second one after growing if that was not enough. */
    method PutFormat(out: seq<byte>)
      requires Valid()
      modifies this, str
      ensures Valid() && Grown() && Terminated() && Contents() == old(Contents()) + out
    {
      var available := if str != null then capacity - length + 1 else 0;
      var needed := Vsnprintf(available, out);
      if needed >= available {
        Reserve(length + needed);
        available := capacity - length + 1;
        needed := Vsnprintf(available, out);
      }
      assert str[..length + needed] == str[..length] + str[length..length + needed];
      length := length + needed;
    }

    /** ds_cstr */
    method Cstr() returns (s: seq<byte>)
      requires Valid()
      modifies this, str
      ensures Valid() && Grown() && Terminated() && Contents() == old(Contents()) && s == Contents()
    {
      if str == null {
        Reserve(0);
      }
      str[length] := 0;
      s := str[..length];
    }

    /** ds_steal_cstr */
    method StealCstr() returns (s: seq<byte>)
      requires Valid()
      modifies this, str
      ensures Valid() && s == old(Contents()) && Contents() == [] && str == null
    {
      s := Cstr();
      str, length, capacity := null, 0, 0;
    }

    /** ds_last; -1 stands for EOF. */
    method Last() returns (c: int)
      requires Valid()
      ensures c == if Contents() == [] then -1 else Contents()[|Contents()| - 1]
    {
      c := if length > 0 then str[length - 1] else -1;
    }

    /** ds_chomp */
    method Chomp(c: byte) returns (removed: bool)
      requires Valid()
      modifies this`length, str
      ensures Valid() && removed == (old(Contents()) != [] && old(Contents()[|Contents()| - 1]) == c)
      ensures Contents() == Chomped(old(Contents()), c)
      ensures Contents() == if removed then old(Contents())[..|old(Contents())| - 1] else old(Contents())
      ensures removed ==> Terminated()
    {
      removed := length > 0 && str[length - 1] == c;
      if removed {
        length := length - 1;
        str[length] := 0;
      }
    }

    /** ds_clone */
    method Clone(source: Ds)
      requires source != this && source.Valid() && source.str != null
      modifies this
      ensures Valid() && fresh(str) && Contents() == source.Contents() && capacity == length
    {
      length := source.length;
      capacity := length;
      str := new byte[capacity + 1];
      forall i | 0 <= i <= capacity {
        str[i] := source.str[i];
      }
    }
  }

  /** `s` without a final `c`. */
  function Chomped(s: seq<byte>, c: byte): seq<byte> {
    if s != [] && s[|s| - 1] == c then s[..|s| - 1] else s
  }
}
