/** ds_put_printable and ds_put_hex of lib/dynamic-string.c, and readers that undo them. */
module Printers {
  import opened ByteStrings
  import opened DynamicString
  import opened Sequences

  // ---- Escaping ----

  const BACKSLASH: byte := 0x5c
  const QUOTE: byte := 0x22

  /** `%03o` of a byte. */
  function Octal3(c: byte): seq<byte> {
    [0x30 + c / 64, 0x30 + c / 8 % 8, 0x30 + c % 8]
  }

  predicate Escaped(c: byte) {
    c < 0x20 || c > 0x7e || c == BACKSLASH || c == QUOTE
  }

  function Escape(c: byte): seq<byte> {
    if Escaped(c) then [BACKSLASH] + Octal3(c) else [c]
  }

  function EscapeAll(s: seq<byte>): seq<byte> {
    if s == [] then [] else Escape(s[0]) + EscapeAll(s[1..])
  }

  lemma {:induction false} EscapeNext(before: seq<byte>, s: seq<byte>, i: nat)
    requires i < |s|
    ensures before + EscapeAll(s[i..]) == before + Escape(s[i]) + EscapeAll(s[i + 1..])
  {
    assert s[i..][1..] == s[i + 1..];
    Reassociate(before, Escape(s[i]), EscapeAll(s[i + 1..]));
  }

  /** ds_put_printable */
  method PutPrintable(ds: Ds, s: seq<byte>)
    requires ds.Valid()
    modifies ds, ds.str
    ensures ds.Valid() && ds.Grown() && ds.Contents() == old(ds.Contents()) + EscapeAll(s)
  {
    ghost var before := ds.Contents();
    ds.Reserve(ds.length + |s|);
    for i := 0 to |s|
      invariant ds.Valid() && ds.Grown()
      invariant ds.Contents() + EscapeAll(s[i..]) == before + EscapeAll(s)
    {
      var c := s[i];
      EscapeNext(ds.Contents(), s, i);
      if c < 0x20 || c > 0x7e || c == BACKSLASH || c == QUOTE {
        ds.PutFormat([BACKSLASH] + Octal3(c));
      } else {
        ds.PutChar(c);
      }
    }
  }

  predicate OctalDigit(c: byte) {
    0x30 <= c <= 0x37
  }

  /** Undoes escaping: a backslash and three octal digits stand for a byte, any other byte for itself. */
  function Unescape(t: seq<byte>): seq<int> {
    if t == [] then []
    else if t[0] == 0x5c && |t| >= 4 && OctalDigit(t[1]) && OctalDigit(t[2]) && OctalDigit(t[3])
    then [(t[1] - 0x30) as int * 64 + (t[2] - 0x30) as int * 8 + (t[3] - 0x30) as int] + Unescape(t[4..])
    else [t[0]] + Unescape(t[1..])
  }

  lemma OctalValue(c: byte)
    ensures var d := Octal3(c);
      && OctalDigit(d[0]) && OctalDigit(d[1]) && OctalDigit(d[2])
      && (d[0] - 0x30) as int * 64 + (d[1] - 0x30) as int * 8 + (d[2] - 0x30) as int == c
  {
  }

  lemma UnescapeOne(c: byte, t: seq<byte>)
    ensures Unescape(Escape(c) + t) == [c] + Unescape(t)
  {
    var e := Escape(c) + t;
    if Escaped(c) {
      OctalValue(c);
      assert e[0] == 0x5c && e[1] == Octal3(c)[0] && e[2] == Octal3(c)[1] && e[3] == Octal3(c)[2];
      assert e[4..] == t;
    } else {
      assert e[0] == c && e[1..] == t;
    }
  }

  /** The unescaper recovers every byte string, so escaping is injective. */
  lemma {:induction false} UnescapeEscape(s: seq<byte>)
    ensures Unescape(EscapeAll(s)) == s
  {
    if s != [] {
      UnescapeOne(s[0], EscapeAll(s[1..]));
      UnescapeEscape(s[1..]);
      assert s == [s[0]] + s[1..];
    }
  }

  predicate Printable(c: byte) {
    0x20 <= c <= 0x7e && c != 0x22
  }

  /** Each byte is escaped or not, whatever its neighbours are. */
  lemma {:induction false} EscapeAllAppend(s: seq<byte>, t: seq<byte>)
    ensures EscapeAll(s + t) == EscapeAll(s) + EscapeAll(t)
    decreases |s|
  {
    if s == [] {
      assert s + t == t;
    } else {
      assert (s + t)[1..] == s[1..] + t;
      EscapeAllAppend(s[1..], t);
      Reassociate(Escape(s[0]), EscapeAll(s[1..]), EscapeAll(t));
    }
  }

  /** Only printable bytes come out, no quotes, and between one and four for each that went in. A string comes
      out unchanged exactly if it is printable ASCII without a backslash or a quotation mark. */
  lemma {:induction false} EscapeAllIsPrintable(s: seq<byte>)
    ensures forall i :: 0 <= i < |EscapeAll(s)| ==> Printable(EscapeAll(s)[i])
    ensures |s| <= |EscapeAll(s)| <= 4 * |s|
    ensures EscapeAll(s) == s <==> forall i :: 0 <= i < |s| ==>
      0x20 <= s[i] <= 0x7e && s[i] != 0x5c && s[i] != 0x22
  {
    if s != [] {
      EscapeAllIsPrintable(s[1..]);
      assert s == [s[0]] + s[1..];
      var t := EscapeAll(s);
      assert t[|Escape(s[0])|..] == EscapeAll(s[1..]);
      if Escaped(s[0]) {
        assert |t| > |s|;
      } else {
        assert t == s <==> EscapeAll(s[1..]) == s[1..];
      }
    }
  }

  // ---- Hexadecimal numbers ----

  /** A lower-case hexadecimal digit. */
  function Digit(d: nat): byte
    requires d < 16
  {
    if d < 10 then 0x30 + d else 0x57 + d
  }

  predicate IsDigit(c: byte) {
    0x30 <= c <= 0x39 || 0x61 <= c <= 0x66
  }

  function DigitValue(c: byte): nat
    requires IsDigit(c)
  {
    if c <= 0x39 then c - 0x30 else c - 0x57
  }

  /** `%x` */
  function Hex(v: nat): (t: seq<byte>)
    ensures t != [] && forall i :: 0 <= i < |t| ==> IsDigit(t[i])
  {
    if v < 16 then [Digit(v)] else Hex(v / 16) + [Digit(v % 16)]
  }

  /** `%02x` of a byte. */
  function Hex2(c: byte): seq<byte> {
    [Digit(c / 16), Digit(c % 16)]
  }

  /** The number whose digits are those of `value` followed by the bytes of `t`. */
  function HexValue(value: nat, t: seq<byte>): nat
    requires forall i :: 0 <= i < |t| ==> IsDigit(t[i])
    decreases |t|
  {
    if t == [] then value else HexValue(value * 16 + DigitValue(t[0]), t[1..])
  }

  lemma {:induction false} HexValueSnoc(value: nat, t: seq<byte>, c: byte)
    requires IsDigit(c) && forall i :: 0 <= i < |t| ==> IsDigit(t[i])
    ensures HexValue(value, t + [c]) == HexValue(value, t) * 16 + DigitValue(c)
    decreases |t|
  {
    if t == [] {
      assert t + [c] == [c];
    } else {
      assert (t + [c])[1..] == t[1..] + [c];
      HexValueSnoc(value * 16 + DigitValue(t[0]), t[1..], c);
    }
  }

  /** Reading a hexadecimal number gives the number. */
  lemma {:induction false} HexValueHex(v: nat)
    ensures HexValue(0, Hex(v)) == v
    decreases v
  {
    if v >= 16 {
      HexValueHex(v / 16);
      HexValueSnoc(0, Hex(v / 16), Digit(v % 16));
    } else {
      assert Hex(v)[1..] == [];
    }
  }

  /** The bytes of `buf` as one number, most significant first. */
  function BigEndian(buf: seq<byte>): nat {
    if buf == [] then 0 else BigEndian(buf[..|buf| - 1]) * 0x100 + buf[|buf| - 1]
  }

  /** `%#x`, with `0` for zero. */
  function Number(v: nat): seq<byte> {
    if v == 0 then [0x30] else [0x30, 0x78] + Hex(v)
  }

  function Power(base: nat, k: nat): nat {
    if k == 0 then 1 else base * Power(base, k - 1)
  }

  /** Every further byte at the front is worth 256 times as much as the one after it. */
  lemma {:induction false} BigEndianCons(c: byte, buf: seq<byte>)
    ensures BigEndian([c] + buf) == c * Power(0x100, |buf|) + BigEndian(buf)
    decreases |buf|
  {
    var t := [c] + buf;
    if buf == [] {
      assert t[..0] == [];
      assert BigEndian([]) == 0 && BigEndian(t) == BigEndian(t[..0]) * 0x100 + c;
    } else {
      var l := |buf| - 1;
      assert t[..|t| - 1] == [c] + buf[..l];
      BigEndianCons(c, buf[..l]);
      Distribute(c, Power(0x100, l), BigEndian(buf[..l]));
    }
  }

  lemma Distribute(c: nat, p: nat, v: nat)
    ensures (c * p + v) * 0x100 == c * (0x100 * p) + v * 0x100
  {
  }

  /** The first digit of a number is not zero. */
  lemma {:induction false} HexLeads(v: nat)
    ensures v > 0 ==> Hex(v)[0] != 0x30
    decreases v
  {
    if v >= 16 {
      HexLeads(v / 16);
    }
  }

  /** Zero is "0"; any other number is "0x" and lower-case digits that spell it, the first of them not zero. */
  lemma NumberIs(v: nat)
    ensures v == 0 ==> Number(v) == [0x30]
    ensures v > 0 ==> Number(v) == [0x30, 0x78] + Hex(v) && HexValue(0, Hex(v)) == v && Hex(v)[0] != 0x30
    ensures forall i :: 0 <= i < |Hex(v)| ==> 0x30 <= Hex(v)[i] <= 0x39 || 0x61 <= Hex(v)[i] <= 0x66
  {
    HexValueHex(v);
    HexLeads(v);
  }

  /** The bytes 0, 0x1f and 0xa0 print as "0x1fa0". */
  lemma HexExample()
    ensures Number(BigEndian([0, 0x1f, 0xa0])) == [0x30, 0x78, 0x31, 0x66, 0x61, 0x30]
  {
    var t: seq<byte> := [0, 0x1f, 0xa0];
    assert t[..2] == [0, 0x1f] && t[..2][..1] == [0] && t[..1][..0] == [];
    assert BigEndian([0]) == 0 && BigEndian([0, 0x1f]) == 0x1f;
    assert BigEndian(t) == 0x1fa0;
    assert Hex(0x1) == [0x31] && Hex(0x1f) == [0x31] + [0x66];
    assert Hex(0x1fa) == Hex(0x1f) + [0x61] && Hex(0x1fa0) == Hex(0x1fa) + [0x30];
  }

  lemma HexByte(v: nat, c: byte)
    ensures v > 0 ==> Hex(v * 0x100 + c) == Hex(v) + Hex2(c)
  {
    var w := v * 0x100 + c;
    assert w / 16 == v * 16 + c / 16 && w % 16 == c % 16;
    assert (v * 16 + c / 16) / 16 == v && (v * 16 + c / 16) % 16 == c / 16;
  }

  /** What ds_put_hex has printed when the bytes so far make up `v`: no leading zeros. */
  function Printed(v: nat): seq<byte> {
    if v == 0 then [] else Number(v)
  }

  /** One more byte. */
  lemma PrintedByte(v: nat, c: byte)
    ensures v > 0 ==> Printed(v * 0x100 + c) == Printed(v) + Hex2(c)
    ensures v == 0 && c != 0 ==> Printed(v * 0x100 + c) == [0x30, 0x78] + Hex(c)
  {
    HexByte(v, c);
  }

  lemma {:induction false} BigEndianSnoc(buf: seq<byte>, i: nat)
    requires i < |buf|
    ensures BigEndian(buf[..i + 1]) == BigEndian(buf[..i]) * 0x100 + buf[i]
  {
    assert buf[..i + 1][..i] == buf[..i];
  }

  /** The body of the loop of ds_put_hex. */
  method PutHexByte(ds: Ds, val: byte, printed: bool, ghost v: nat, ghost before: seq<byte>) returns (printed': bool)
    requires ds.Valid() && (printed <==> v > 0) && ds.Contents() == before + Printed(v)
    modifies ds, ds.str
    ensures ds.Valid() && ds.Grown() && (printed' <==> v * 0x100 + val > 0)
    ensures ds.Contents() == before + Printed(v * 0x100 + val)
  {
    PrintedByte(v, val);
    printed' := printed;
    if val != 0 || printed {
      if !printed {
        ds.PutFormat([0x30, 0x78] + Hex(val));
      } else {
        ds.PutFormat(Hex2(val));
      }
      printed' := true;
    }
  }

  /** ds_put_hex: the whole buffer as one number. */
  method PutHex(ds: Ds, buf: seq<byte>)
    requires ds.Valid() && |buf| <= 0x7fff_ffff
    modifies ds, ds.str
    ensures ds.Valid() && ds.Grown() && ds.Contents() == old(ds.Contents()) + Number(BigEndian(buf))
  {
    ghost var before := ds.Contents();
    ghost var v: nat := 0;
    var printed := false;
    for i := 0 to |buf|
      invariant ds.Valid() && ds.Grown() && v == BigEndian(buf[..i]) && (printed <==> v > 0)
      invariant ds.Contents() == before + Printed(v)
    {
      BigEndianSnoc(buf, i);
      printed := PutHexByte(ds, buf[i], printed, v, before);
      v := v * 0x100 + buf[i];
    }
    assert buf[..|buf|] == buf;
    if !printed {
      ds.PutChar(0x30);
    }
  }

  /** The text determines the number. */
  lemma NumberInjective(v: nat, w: nat)
    ensures Number(v) == Number(w) <==> v == w
  {
    HexValueHex(v);
    HexValueHex(w);
    assert v > 0 ==> Number(v)[2..] == Hex(v);
    assert w > 0 ==> Number(w)[2..] == Hex(w);
  }
}
