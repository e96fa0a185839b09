/** ds_put_utf8 of lib/dynamic-string.c, against the grammar of RFC 3629. */
module Utf8 {
  import opened ByteStrings
  import opened DynamicString
  import opened Sequences
  import opened Words

  /** The bytes ds_put_utf8 appends. A negative `uc` is cut to its low byte; what is no code point
      becomes the replacement character U+FFFD. */
  function Encode(uc: int): seq<byte> {
    if uc < 0 then [uc % 0x100]
    else if uc <= 0x7f then [uc]
    else if uc <= 0x7ff then [0xc0 + uc / 0x40, 0x80 + uc % 0x40]
    else if uc <= 0xffff then [0xe0 + uc / 0x1000, 0x80 + uc / 0x40 % 0x40, 0x80 + uc % 0x40]
    else if uc <= 0x10ffff then
      [0xf0 + uc / 0x40000, 0x80 + uc / 0x1000 % 0x40, 0x80 + uc / 0x40 % 0x40, 0x80 + uc % 0x40]
    else [0xef, 0xbf, 0xbd]
  }

  function EncodeAll(ucs: seq<int>): seq<byte> {
    if ucs == [] then [] else Encode(ucs[0]) + EncodeAll(ucs[1..])
  }

  // ---- The code's bit operations ----

  lemma {:induction false} ShrIsDiv(x: nat, k: nat)
    ensures Shr(x, k) == x / Pow2(k)
    decreases k
  {
    if k > 0 {
      ShrIsDiv(x / 2, k - 1);
      HalfDiv(x, Pow2(k - 1));
    }
  }

  lemma HalfDiv(x: nat, m: nat)
    requires m > 0
    ensures x / 2 / m == x / (2 * m)
  {
    var q, r := x / 2 / m, x / 2 % m;
    var t := m * q;
    assert x / 2 == t + r;
    assert (2 * m) * q == 2 * t;
    DivModUnique(x, 2 * m, q, 2 * r + x % 2);
  }

  /** Or-ing bits in where there are none adds them. */
  lemma {:induction false} OrIsPlus(high: nat, x: nat, k: nat)
    requires x < Pow2(k)
    ensures Or(high * Pow2(k), x) == high * Pow2(k) + x
    decreases k
  {
    if k == 0 {
      OrWithZero(high);
    } else {
      var m := Pow2(k - 1);
      assert high * Pow2(k) == 2 * (high * m);
      OrIsPlus(high, x / 2, k - 1);
    }
  }

  lemma Powers()
    ensures Pow2(3) == 8 && Pow2(4) == 0x10 && Pow2(5) == 0x20 && Pow2(6) == 0x40
    ensures Pow2(12) == 0x1000 && Pow2(18) == 0x40000
  {
    assert Pow2(5) == 2 * Pow2(4) && Pow2(4) == 2 * Pow2(3) && Pow2(3) == 2 * Pow2(2) && Pow2(2) == 2 * Pow2(1);
    assert Pow2(1) == 2 * Pow2(0);
    Pow2Add(6, 6);
    Pow2Add(6, 12);
  }

  /** `tag | (uc >> k)`, for a tag whose low `m` bits are free. */
  method LeadByte(tag: nat, uc: nat, k: nat, ghost high: nat, ghost m: nat) returns (b: nat)
    requires tag == high * Pow2(m) && uc / Pow2(k) < Pow2(m)
    ensures b == tag + uc / Pow2(k)
  {
    ShrIsDiv(uc, k);
    OrIsPlus(high, uc / Pow2(k), m);
    b := Or(tag, Shr(uc, k));
  }

  /** `0x80 | ((uc >> k) & 0x3f)` */
  method TailByte(uc: nat, k: nat) returns (b: byte)
    ensures b == 0x80 + uc / Pow2(k) % 0x40
  {
    ShrIsDiv(uc, k);
    Powers();
    AndMaskIsMod(uc / Pow2(k), 6);
    OrIsPlus(2, uc / Pow2(k) % 0x40, 6);
    b := Or(0x80, And(Shr(uc, k), 0x3f));
  }

  method PutTwo(s: Ds, b0: byte, b1: byte)
    requires s.Valid()
    modifies s, s.str
    ensures s.Valid() && s.Grown() && s.Contents() == old(s.Contents()) + [b0, b1]
  {
    s.PutChar(b0);
    s.PutChar(b1);
  }

  method PutThree(s: Ds, b0: byte, b1: byte, b2: byte)
    requires s.Valid()
    modifies s, s.str
    ensures s.Valid() && s.Grown() && s.Contents() == old(s.Contents()) + [b0, b1, b2]
  {
    PutTwo(s, b0, b1);
    s.PutChar(b2);
  }

  method PutFour(s: Ds, b0: byte, b1: byte, b2: byte, b3: byte)
    requires s.Valid()
    modifies s, s.str
    ensures s.Valid() && s.Grown() && s.Contents() == old(s.Contents()) + [b0, b1, b2, b3]
  {
    PutThree(s, b0, b1, b2);
    s.PutChar(b3);
  }

  /** The bytes of the branches for two, three and four bytes, as ds_put_utf8 computes them. */
  method TwoBytes(uc: nat) returns (b0: byte, b1: byte)
    requires 0x7f < uc <= 0x7ff
    ensures [b0, b1] == Encode(uc)
  {
    Powers();
    b0 := LeadByte(0xc0, uc, 6, 6, 5);
    b1 := TailByte(uc, 0);
  }

  method ThreeBytes(uc: nat) returns (b0: byte, b1: byte, b2: byte)
    requires 0x7ff < uc <= 0xffff
    ensures [b0, b1, b2] == Encode(uc)
  {
    Powers();
    b0 := LeadByte(0xe0, uc, 12, 0xe, 4);
    b1 := TailByte(uc, 6);
    b2 := TailByte(uc, 0);
  }

  method FourBytes(uc: nat) returns (b0: byte, b1: byte, b2: byte, b3: byte)
    requires 0xffff < uc <= 0x10ffff
    ensures [b0, b1, b2, b3] == Encode(uc)
  {
    Powers();
    b0 := LeadByte(0xf0, uc, 18, 0x1e, 3);
    b1 := TailByte(uc, 12);
    b2 := TailByte(uc, 6);
    b3 := TailByte(uc, 0);
  }

  /** ds_put_utf8 */
  method PutUtf8(s: Ds, uc: int)
    requires s.Valid()
    modifies s, s.str
    ensures s.Valid() && s.Grown() && s.Contents() == old(s.Contents()) + Encode(uc)
    ensures uc < 0 ==> s.Contents() == old(s.Contents()) + [uc % 0x100]
    ensures uc > 0x10ffff ==> s.Contents() == old(s.Contents()) + [0xef, 0xbf, 0xbd]
    decreases uc > 0x10ffff
  {
    if uc <= 0x7f {
      s.PutChar(uc % 0x100);
    } else if uc <= 0x7ff {
      var b0, b1 := TwoBytes(uc);
      PutTwo(s, b0, b1);
    } else if uc <= 0xffff {
      var b0, b1, b2 := ThreeBytes(uc);
      PutThree(s, b0, b1, b2);
    } else if uc <= 0x10ffff {
      var b0, b1, b2, b3 := FourBytes(uc);
      PutFour(s, b0, b1, b2, b3);
    } else {
      PutUtf8(s, 0xfffd);
    }
  }

  // ---- Decoding, by the table of RFC 3629, section 4 ----

  datatype Decoded = Invalid | Char(uc: nat, len: nat)

  /** The octets UTF8-tail of the grammar. */
  predicate Tail(s: seq<byte>, i: nat) {
    i < |s| && 0x80 <= s[i] <= 0xbf
  }

  /** The number that the payload bits of a sequence spell, most significant first. */
  function Join2(a: int, b: int): int {
    a * 0x40 + (b - 0x80)
  }

  /** The first character of `s`, if `s` starts with a sequence that the grammar allows. */
  function DecodeFirst(s: seq<byte>): Decoded {
    if s == [] then Invalid
    else if s[0] <= 0x7f then Char(s[0], 1)
    else if 0xc2 <= s[0] <= 0xdf then
      if Tail(s, 1) then Char(Join2(s[0] - 0xc0, s[1]), 2) else Invalid
    else if 0xe0 <= s[0] <= 0xef then
      if Tail(s, 1) && Tail(s, 2) && (s[0] == 0xe0 ==> 0xa0 <= s[1]) && (s[0] == 0xed ==> s[1] <= 0x9f)
      then Char(Join2(Join2(s[0] - 0xe0, s[1]), s[2]), 3) else Invalid
    else if 0xf0 <= s[0] <= 0xf4 then
      if Tail(s, 1) && Tail(s, 2) && Tail(s, 3) && (s[0] == 0xf0 ==> 0x90 <= s[1]) && (s[0] == 0xf4 ==> s[1] <= 0x8f)
      then Char(Join2(Join2(Join2(s[0] - 0xf0, s[1]), s[2]), s[3]), 4) else Invalid
    else Invalid
  }

  datatype Result = Failure | Text(ucs: seq<int>)

  function Decode(s: seq<byte>): Result
    decreases |s|
  {
    if s == [] then Text([]) else
      var first := DecodeFirst(s);
      if first.Invalid? || first.len > |s| || first.len == 0 then Failure else
        match Decode(s[first.len..])
        case Failure => Failure
        case Text(ucs) => Text([first.uc] + ucs)
  }

  predicate Surrogate(uc: int) {
    0xd800 <= uc <= 0xdfff
  }

  ghost predicate NoSurrogate(ucs: seq<int>) {
    forall i :: 0 <= i < |ucs| ==> !Surrogate(ucs[i])
  }

  /** A Unicode scalar value. */
  predicate Scalar(uc: int) {
    0 <= uc <= 0x10ffff && !Surrogate(uc)
  }

  function Replaced(uc: int): int {
    if uc > 0x10ffff then 0xfffd else uc
  }

  function ReplacedAll(ucs: seq<int>): (r: seq<int>)
    ensures |r| == |ucs|
  {
    if ucs == [] then [] else [Replaced(ucs[0])] + ReplacedAll(ucs[1..])
  }

  lemma Digits(uc: nat)
    ensures uc == Join2(uc / 0x40, 0x80 + uc % 0x40)
    ensures uc / 0x40 == Join2(uc / 0x1000, 0x80 + uc / 0x40 % 0x40)
    ensures uc / 0x1000 == Join2(uc / 0x40000, 0x80 + uc / 0x1000 % 0x40)
  {
  }

  /** Encoding one scalar value is undone; a surrogate makes the bytes undecodable. */
  lemma DecodeEncoded(uc: nat, rest: seq<byte>)
    ensures DecodeFirst(Encode(uc) + rest) == if Surrogate(uc) then Invalid else Char(Replaced(uc), |Encode(uc)|)
  {
    Digits(uc);
    var s := Encode(uc) + rest;
    assert forall i :: 0 <= i < |Encode(uc)| ==> s[i] == Encode(uc)[i];
  }

  lemma Undigits(a: int, b: byte)
    requires 0 <= a && 0x80 <= b <= 0xbf
    ensures Join2(a, b) / 0x40 == a && Join2(a, b) % 0x40 == b - 0x80
  {
  }

  /** Dividing by 0x40 one step at a time. */
  lemma Shorten(uc: nat)
    ensures uc / 0x1000 == uc / 0x40 / 0x40 && uc / 0x40000 == uc / 0x1000 / 0x40
  {
  }

  lemma Encode2(a: int, b: byte)
    requires 2 <= a <= 0x1f && 0x80 <= b <= 0xbf
    ensures var uc := Join2(a, b); 0x7f < uc <= 0x7ff && Encode(uc) == [0xc0 + a, b]
  {
    Undigits(a, b);
  }

  lemma Encode3(a: int, b: byte, c: byte)
    requires 0 <= a <= 0xf && 0x80 <= b <= 0xbf && 0x80 <= c <= 0xbf && (a == 0 ==> 0xa0 <= b)
    ensures var uc := Join2(Join2(a, b), c); 0x7ff < uc <= 0xffff && Encode(uc) == [0xe0 + a, b, c]
    ensures Surrogate(Join2(Join2(a, b), c)) <==> a == 0xd && b >= 0xa0
  {
    var x := Join2(a, b);
    var uc := Join2(x, c);
    Undigits(a, b);
    Undigits(x, c);
    Shorten(uc);
    assert uc / 0x1000 == a;
    assert 0x20 <= x <= 0x3ff;
  }

  lemma Encode4(a: int, b: byte, c: byte, d: byte)
    requires 0 <= a <= 4 && 0x80 <= b <= 0xbf && 0x80 <= c <= 0xbf && 0x80 <= d <= 0xbf
    requires (a == 0 ==> 0x90 <= b) && (a == 4 ==> b <= 0x8f)
    ensures var uc := Join2(Join2(Join2(a, b), c), d); 0xffff < uc <= 0x10ffff && Encode(uc) == [0xf0 + a, b, c, d]
  {
    var x := Join2(a, b);
    var y := Join2(x, c);
    var uc := Join2(y, d);
    Undigits(a, b);
    Undigits(x, c);
    Undigits(y, d);
    Shorten(uc);
    assert uc / 0x1000 == x && uc / 0x40000 == a;
    assert 0xffff < uc <= 0x10ffff by {
      assert 0x10 <= x <= 0x10f;
    }
  }

  lemma EncodeDecoded2(s: seq<byte>)
    requires DecodeFirst(s).Char? && 0x7f < s[0] <= 0xdf
    ensures var uc := DecodeFirst(s).uc; Scalar(uc) && DecodeFirst(s).len == 2 <= |s| && Encode(uc) == [s[0], s[1]]
  {
    Encode2(s[0] - 0xc0, s[1]);
  }

  lemma EncodeDecoded3(s: seq<byte>)
    requires DecodeFirst(s).Char? && 0xdf < s[0] <= 0xef
    ensures var uc := DecodeFirst(s).uc;
      Scalar(uc) && DecodeFirst(s).len == 3 <= |s| && Encode(uc) == [s[0], s[1], s[2]]
  {
    Encode3(s[0] - 0xe0, s[1], s[2]);
  }

  lemma EncodeDecoded4(s: seq<byte>)
    requires DecodeFirst(s).Char? && 0xef < s[0]
    ensures var uc := DecodeFirst(s).uc;
      Scalar(uc) && DecodeFirst(s).len == 4 <= |s| && Encode(uc) == [s[0], s[1], s[2], s[3]]
  {
    Encode4(s[0] - 0xf0, s[1], s[2], s[3]);
  }

  /** What the grammar allows is what encoding its scalar value gives. */
  lemma EncodeDecoded(s: seq<byte>)
    requires DecodeFirst(s).Char?
    ensures var c := DecodeFirst(s); Scalar(c.uc) && 0 < c.len <= |s| && Encode(c.uc) == s[..c.len]
  {
    if s[0] <= 0x7f {
    } else if s[0] <= 0xdf {
      EncodeDecoded2(s);
    } else if s[0] <= 0xef {
      EncodeDecoded3(s);
    } else {
      EncodeDecoded4(s);
    }
  }

  /** Decoding what starts with an encoded code point. */
  lemma DecodeCons(uc: nat, rest: seq<byte>)
    ensures Decode(Encode(uc) + rest) ==
      if Surrogate(uc) || Decode(rest).Failure? then Failure else Text([Replaced(uc)] + Decode(rest).ucs)
  {
    var head := Encode(uc);
    DecodeEncoded(uc, rest);
    assert (head + rest)[|head|..] == rest;
  }

  /**
    * Decoding what was put gives the code points back, with what is no code point replaced, exactly
    * if no surrogate was put. (ds_put_utf8 encodes surrogates, which RFC 3629 forbids.)
    */
  lemma {:induction false} DecodeEncodeAll(ucs: seq<int>)
    requires forall i :: 0 <= i < |ucs| ==> ucs[i] >= 0
    ensures Decode(EncodeAll(ucs)) == if NoSurrogate(ucs) then Text(ReplacedAll(ucs)) else Failure
  {
    if ucs != [] {
      DecodeEncodeAll(ucs[1..]);
      DecodeCons(ucs[0], EncodeAll(ucs[1..]));
      assert ucs == [ucs[0]] + ucs[1..];
    }
  }

  lemma {:induction false} DecodeSplits(s: seq<byte>)
    requires s != [] && Decode(s).Text?
    ensures var c := DecodeFirst(s);
      && c.Char? && 0 < c.len <= |s| && Scalar(c.uc) && s == Encode(c.uc) + s[c.len..]
      && Decode(s[c.len..]).Text? && Decode(s).ucs == [c.uc] + Decode(s[c.len..]).ucs
  {
    var first := DecodeFirst(s);
    assert first.Char?;
    EncodeDecoded(s);
    assert s == s[..first.len] + s[first.len..];
  }

  /** The other way: bytes that decode are what encoding their scalar values gives. */
  lemma {:induction false} EncodeDecodeAll(s: seq<byte>)
    requires Decode(s).Text?
    ensures var ucs := Decode(s).ucs; EncodeAll(ucs) == s && forall i :: 0 <= i < |ucs| ==> Scalar(ucs[i])
    decreases |s|
  {
    if s != [] {
      DecodeSplits(s);
      var c := DecodeFirst(s);
      EncodeDecodeAll(s[c.len..]);
      assert Decode(s).ucs[1..] == Decode(s[c.len..]).ucs;
    }
  }

  lemma {:induction false} DecodeAfter(ucs: seq<int>, t: seq<byte>)
    requires forall i :: 0 <= i < |ucs| ==> Scalar(ucs[i])
    ensures Decode(EncodeAll(ucs) + t) == if Decode(t).Failure? then Failure else Text(ucs + Decode(t).ucs)
  {
    if ucs == [] {
      assert EncodeAll(ucs) + t == t;
    } else {
      var rest := EncodeAll(ucs[1..]);
      Reassociate(Encode(ucs[0]), rest, t);
      DecodeAfter(ucs[1..], t);
      DecodeCons(ucs[0], rest + t);
      if Decode(t).Text? {
        Reassociate([ucs[0]], ucs[1..], Decode(t).ucs);
        assert ucs == [ucs[0]] + ucs[1..];
      }
    }
  }

  /** Text that decodes, followed by anything, decodes to its characters followed by those of the rest. */
  lemma {:induction false} DecodeAppend(s: seq<byte>, t: seq<byte>)
    requires Decode(s).Text?
    ensures Decode(s + t) == if Decode(t).Failure? then Failure else Text(Decode(s).ucs + Decode(t).ucs)
  {
    EncodeDecodeAll(s);
    DecodeAfter(Decode(s).ucs, t);
  }

  /** ds_put_utf8 for each of a sequence of code points. */
  method PutAll(s: Ds, ucs: seq<int>)
    requires s.Valid()
    modifies s, s.str
    ensures s.Valid() && s.Grown() && s.Contents() == old(s.Contents()) + EncodeAll(ucs)
  {
    ghost var before := s.Contents();
    for i := 0 to |ucs|
      invariant s.Valid() && s.Grown() && s.Contents() + EncodeAll(ucs[i..]) == before + EncodeAll(ucs)
    {
      ghost var was, rest := s.Contents(), EncodeAll(ucs[i + 1..]);
      assert ucs[i..][1..] == ucs[i + 1..];
      assert was + (Encode(ucs[i]) + rest) == was + Encode(ucs[i]) + rest;
      PutUtf8(s, ucs[i]);
    }
  }

  /** If a buffer decodes to `had`, then after any code points are put it decodes to `had` followed by
      them, what is no code point replaced, exactly if none of them is a surrogate; it does not decode
      at all otherwise. */
  method PutText(s: Ds, ucs: seq<int>, ghost had: seq<int>)
    requires s.Valid() && Decode(s.Contents()) == Text(had)
    requires forall i :: 0 <= i < |ucs| ==> ucs[i] >= 0
    modifies s, s.str
    ensures s.Valid() && s.Grown()
    ensures Decode(s.Contents()) == if NoSurrogate(ucs) then Text(had + ReplacedAll(ucs)) else Failure
  {
    DecodeAppend(s.Contents(), EncodeAll(ucs));
    DecodeEncodeAll(ucs);
    PutAll(s, ucs);
  }
}
