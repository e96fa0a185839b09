/** ds_put_hex_dump of lib/dynamic-string.c, and a reader of dumps. */
module HexDump {
  import opened ByteStrings
  import opened DynamicString
  import opened Printers
  import opened Sequences

  const UINTPTR_RANGE := 0x1_0000_0000_0000_0000

  /** Arithmetic of `uintptr_t`. */
  function Wrap(x: nat): nat {
    x % UINTPTR_RANGE
  }

  lemma WrapAdd(x: nat, k: nat)
    ensures Wrap(Wrap(x) + k) == Wrap(x + k) && Wrap(x) < UINTPTR_RANGE
    ensures x < UINTPTR_RANGE ==> Wrap(x) == x
  {
  }

  const SPACE: byte := 0x20
  const DASH: byte := 0x2d
  const DOT: byte := 0x2e
  const BAR: byte := 0x7c
  const NEWLINE: byte := 0x0a

  /** `%08x` */
  function Hex8(v: nat): seq<byte> {
    Padded(Hex(v))
  }

  function Padded(t: seq<byte>): (r: seq<byte>)
    decreases 8 - |t|
  {
    if |t| >= 8 then t else Padded([0x30] + t)
  }

  /** `n` times `t`. */
  function Repeat(t: seq<byte>, n: nat): seq<byte> {
    if n == 0 then [] else t + Repeat(t, n - 1)
  }

  /** The cell of byte `c` in column `col`. */
  function Cell(c: byte, col: nat): seq<byte> {
    Hex2(c) + [if col == 7 then DASH else SPACE]
  }

  /** The cells of `row` from column `col` on. */
  function Cells(row: seq<byte>, col: nat): seq<byte> {
    if row == [] then [] else Cell(row[0], col) + Cells(row[1..], col + 1)
  }

  /** The ASCII column: each printable byte as itself, any other as a dot. */
  function Ascii(row: seq<byte>): seq<byte> {
    if row == [] then [] else [if 32 <= row[0] < 127 then row[0] else DOT] + Ascii(row[1..])
  }

  const BLANK: seq<byte> := [SPACE, SPACE, SPACE]

  /** The label, the blank columns and the cells of a line. */
  function Head(row: seq<byte>, ofs: nat): seq<byte> {
    Hex8(ofs / 16 * 16) + [SPACE, SPACE] + (Repeat(BLANK, ofs % 16) + Cells(row, ofs % 16))
  }

  /** The bytes of a line as characters, under their columns. */
  function Chars(row: seq<byte>, start: nat): seq<byte>
    requires start + |row| <= 16
  {
    Repeat([SPACE], start) + (Ascii(row) + Repeat([SPACE], 16 - start - |row|))
  }

  /** What follows the cells with `ascii`: the columns left over, and the characters between bars. */
  function Art(row: seq<byte>, start: nat): seq<byte>
    requires start + |row| <= 16
  {
    Repeat(BLANK, 16 - start - |row|) + ([BAR] + (Chars(row, start) + [BAR]))
  }

  /** One line, up to the newline. */
  function Line(row: seq<byte>, ofs: nat, ascii: bool): seq<byte>
    requires ofs % 16 + |row| <= 16
  {
    if ascii then Head(row, ofs) + Art(row, ofs % 16) else Chomped(Head(row, ofs), SPACE)
  }

  /** How many bytes go on the line of offset `ofs`. */
  function RowLength(size: nat, ofs: nat): nat {
    if 16 - ofs % 16 > size then size else 16 - ofs % 16
  }

  function Dump(buf: seq<byte>, ofs: nat, ascii: bool): seq<byte>
    decreases |buf|, 1
  {
    if buf == [] then [] else FirstLine(buf, ofs, ascii, RowLength(|buf|, ofs))
  }

  /** The line of the first `n` bytes, and the dump of the others. */
  function FirstLine(buf: seq<byte>, ofs: nat, ascii: bool, n: nat): seq<byte>
    requires 0 < n <= |buf| && ofs % 16 + n <= 16
    decreases |buf|, 0
  {
    Line(buf[..n], ofs, ascii) + [NEWLINE] + Dump(buf[n..], Wrap(ofs + n), ascii)
  }

  // ---- The code ----

  /** `for (; i < to; i++) ds_put_format(ds, t);` */
  method PutRepeat(ds: Ds, t: seq<byte>, from: nat, to: nat)
    requires ds.Valid() && from <= to
    modifies ds, ds.str
    ensures ds.Valid() && ds.Grown() && ds.Contents() == old(ds.Contents()) + Repeat(t, to - from)
  {
    ghost var before := ds.Contents();
    for i := from to to
      invariant ds.Valid() && ds.Grown()
      invariant ds.Contents() + Repeat(t, to - i) == before + Repeat(t, to - from)
    {
      ghost var was := ds.Contents();
      assert was + (t + Repeat(t, to - i - 1)) == was + t + Repeat(t, to - i - 1);
      ds.PutFormat(t);
    }
  }

  method PutCells(ds: Ds, row: seq<byte>, start: nat)
    requires ds.Valid()
    modifies ds, ds.str
    ensures ds.Valid() && ds.Grown() && ds.Contents() == old(ds.Contents()) + Cells(row, start)
  {
    ghost var before := ds.Contents();
    for i := start to start + |row|
      invariant ds.Valid() && ds.Grown()
      invariant ds.Contents() + Cells(row[i - start..], i) == before + Cells(row, start)
    {
      ghost var was, rest := ds.Contents(), row[i - start..];
      assert rest[1..] == row[i + 1 - start..];
      assert was + (Cell(rest[0], i) + Cells(rest[1..], i + 1)) == was + Cell(rest[0], i) + Cells(rest[1..], i + 1);
      ds.PutFormat(Hex2(row[i - start]) + [if i == 16 / 2 - 1 then DASH else SPACE]);
    }
  }

  lemma {:induction false} AsciiNext(before: seq<byte>, row: seq<byte>, i: nat)
    requires i < |row|
    ensures before + Ascii(row[i..]) ==
      before + [if 32 <= row[i] < 127 then row[i] else DOT] + Ascii(row[i + 1..])
  {
    assert row[i..][1..] == row[i + 1..];
    Reassociate(before, [if 32 <= row[i] < 127 then row[i] else DOT], Ascii(row[i + 1..]));
  }

  method PutAscii(ds: Ds, row: seq<byte>)
    requires ds.Valid()
    modifies ds, ds.str
    ensures ds.Valid() && ds.Grown() && ds.Contents() == old(ds.Contents()) + Ascii(row)
  {
    ghost var before := ds.Contents();
    for i := 0 to |row|
      invariant ds.Valid() && ds.Grown()
      invariant ds.Contents() + Ascii(row[i..]) == before + Ascii(row)
    {
      var c := row[i];
      AsciiNext(ds.Contents(), row, i);
      ds.PutChar(if c >= 32 && c < 127 then c else DOT);
    }
  }

  method PutHead(ds: Ds, row: seq<byte>, ofs: nat)
    requires ds.Valid()
    modifies ds, ds.str
    ensures ds.Valid() && ds.Grown() && ds.Contents() == old(ds.Contents()) + Head(row, ofs)
  {
    ghost var before := ds.Contents();
    var start := ofs % 16;
    var prefix := Hex8(ofs / 16 * 16) + [SPACE, SPACE];
    ds.PutFormat(prefix);
    PutRepeat(ds, BLANK, 0, start);
    PutCells(ds, row, start);
    Reassociate(before, prefix, Repeat(BLANK, start) + Cells(row, start));
    Reassociate(before + prefix, Repeat(BLANK, start), Cells(row, start));
  }

  method PutChars(ds: Ds, row: seq<byte>, start: nat)
    requires ds.Valid() && start + |row| <= 16
    modifies ds, ds.str
    ensures ds.Valid() && ds.Grown() && ds.Contents() == old(ds.Contents()) + Chars(row, start)
  {
    ghost var before, left, right := ds.Contents(), Repeat([SPACE], start), Repeat([SPACE], 16 - start - |row|);
    Reassociate(before, left, Ascii(row) + right);
    Reassociate(before + left, Ascii(row), right);
    PutRepeat(ds, [SPACE], 0, start);
    PutAscii(ds, row);
    PutRepeat(ds, [SPACE], start + |row|, 16);
  }

  method PutArt(ds: Ds, row: seq<byte>, start: nat)
    requires ds.Valid() && start + |row| <= 16
    modifies ds, ds.str
    ensures ds.Valid() && ds.Grown() && ds.Contents() == old(ds.Contents()) + Art(row, start)
  {
    ghost var before, blanks, chars := ds.Contents(), Repeat(BLANK, 16 - start - |row|), Chars(row, start);
    Reassociate(before, blanks, [BAR] + (chars + [BAR]));
    Reassociate(before + blanks, [BAR], chars + [BAR]);
    Reassociate(before + blanks + [BAR], chars, [BAR]);
    PutRepeat(ds, BLANK, start + |row|, 16);
    ds.PutFormat([BAR]);
    PutChars(ds, row, start);
    ds.PutFormat([BAR]);
  }

  /** The body of the outer loop of ds_put_hex_dump. */
  method PutLine(ds: Ds, row: seq<byte>, ofs: nat, ascii: bool)
    requires ds.Valid() && ofs % 16 + |row| <= 16
    modifies ds, ds.str
    ensures ds.Valid() && ds.Grown() && ds.Contents() == old(ds.Contents()) + (Line(row, ofs, ascii) + [NEWLINE])
  {
    ghost var before, head := ds.Contents(), Head(row, ofs);
    PutHead(ds, row, ofs);
    if ascii {
      Reassociate(before, head, Art(row, ofs % 16));
      PutArt(ds, row, ofs % 16);
    } else {
      ChompTail(before, head, SPACE);
      var removed := ds.Chomp(SPACE);
    }
    Reassociate(before, Line(row, ofs, ascii), [NEWLINE]);
    ds.PutFormat([NEWLINE]);
  }

  lemma {:induction false} DumpStep(before: seq<byte>, buf: seq<byte>, ofs: nat, ascii: bool, n: nat)
    requires buf != [] && n == RowLength(|buf|, ofs)
    ensures ofs % 16 + n <= 16 && before + FirstLine(buf, ofs, ascii, n) ==
      before + (Line(buf[..n], ofs, ascii) + [NEWLINE]) + Dump(buf[n..], Wrap(ofs + n), ascii)
  {
    Reassociate(before, Line(buf[..n], ofs, ascii) + [NEWLINE], Dump(buf[n..], Wrap(ofs + n), ascii));
  }

  /** ds_put_hex_dump */
  method PutHexDump(ds: Ds, buf: seq<byte>, offset: nat, ascii: bool)
    requires ds.Valid() && offset < UINTPTR_RANGE
    modifies ds, ds.str
    ensures ds.Valid() && ds.Grown() && ds.Contents() == old(ds.Contents()) + Dump(buf, offset, ascii)
  {
    ghost var before := ds.Contents();
    var rest, ofs: nat := buf, offset;
    while rest != []
      invariant ds.Valid() && ds.Grown()
      invariant ds.Contents() + Dump(rest, ofs, ascii) == before + Dump(buf, offset, ascii)
      decreases |rest|
    {
      var start, end := ofs % 16, 16;
      if end - start > |rest| {
        end := start + |rest|;
      }
      var n := end - start;
      DumpStep(ds.Contents(), rest, ofs, ascii, n);
      PutLine(ds, rest[..n], ofs, ascii);
      rest, ofs := rest[n..], Wrap(ofs + n);
    }
  }

  lemma ChompTail(a: seq<byte>, b: seq<byte>, c: byte)
    requires b != []
    ensures Chomped(a + b, c) == a + Chomped(b, c)
  {
  }

  // ---- Reading a dump ----

  /** Where a reader is in a line: in the label, worth `value` so far, before column `col`, or past the cells. */
  datatype Place = InLabel(value: nat) | AtColumn(start: nat, col: nat) | InArt

  /** A byte found on line number `line`, which has the given label, in column `col`. */
  datatype Found = Found(line: nat, start: nat, col: nat, c: byte)

  /**
    * The bytes of a dump, each with the line it is on, the label of the line and its column. A line is
    * a label, two spaces and up to sixteen cells of two digits and a separator; a blank cell is a
    * column without a byte. A newline ends the line, also in place of a separator.
    */
  function Read(t: seq<byte>, line: nat, at: Place): seq<Found>
    decreases |t|
  {
    if t == [] then []
    else if t[0] == 0x0a then Read(t[1..], line + 1, InLabel(0))
    else match at
      case InLabel(value) =>
        if IsDigit(t[0]) then Read(t[1..], line, InLabel(value * 16 + DigitValue(t[0])))
        else if |t| < 2 then [] else Read(t[2..], line, AtColumn(value, 0))
      case AtColumn(start, col) =>
        if col >= 16 then Read(t[1..], line, InArt)
        else if |t| < 3 then []
        else if t[0] == 0x20 then Read(t[3..], line, AtColumn(start, col + 1))
        else if IsDigit(t[0]) && IsDigit(t[1]) then
          [Found(line, start, col, ByteOf(t[0], t[1]))] + Read(AfterCell(t), line, AtColumn(start, col + 1))
        else []
      case InArt => Read(t[1..], line, InArt)
  }

  /** The byte with these digits. */
  function ByteOf(high: byte, low: byte): byte
    requires IsDigit(high) && IsDigit(low)
  {
    DigitValue(high) * 16 + DigitValue(low)
  }

  function AfterCell(t: seq<byte>): (r: seq<byte>)
    requires |t| >= 3
    ensures |r| < |t|
  {
    if t[2] == 0x0a then t[2..] else t[3..]
  }

  /**
    * Where the bytes belong: each in the column of its address modulo 16, on the line labelled with its
    * address rounded down to 16, all bytes with the same label on one line and the next label on the
    * next. Addresses wrap around as `uintptr_t` does.
    */
  function Located(buf: seq<byte>, ofs: nat, line: nat): seq<Found> {
    if buf == [] then [] else
      [Found(line, ofs / 16 * 16, ofs % 16, buf[0])]
        + Located(buf[1..], (ofs + 1) % 0x1_0000_0000_0000_0000, if ofs % 16 == 15 then line + 1 else line)
  }

  /** The bytes of one line, from column `col` on. */
  function OnLine(row: seq<byte>, line: nat, start: nat, col: nat): seq<Found> {
    if row == [] then [] else [Found(line, start, col, row[0])] + OnLine(row[1..], line, start, col + 1)
  }

  /** One byte, at the end of a line or not. */
  lemma {:induction false} LocatedLast(row: seq<byte>, rest: seq<byte>, ofs: nat, line: nat)
    requires |row| == 1
    ensures Located(row + rest, ofs, line) ==
      OnLine(row, line, ofs / 16 * 16, ofs % 16)
        + Located(rest, Wrap(ofs + 1), if ofs % 16 + 1 == 16 then line + 1 else line)
  {
    assert (row + rest)[1..] == rest && (row + rest)[0] == row[0];
    assert OnLine(row[1..], line, ofs / 16 * 16, ofs % 16 + 1) == [];
  }

  /** As many bytes as belong on one line are there. */
  lemma {:induction false} LocatedOnLine(row: seq<byte>, rest: seq<byte>, ofs: nat, line: nat)
    requires row != [] && ofs < UINTPTR_RANGE && ofs % 16 + |row| <= 16
    ensures Located(row + rest, ofs, line) ==
      OnLine(row, line, ofs / 16 * 16, ofs % 16)
        + Located(rest, Wrap(ofs + |row|), if ofs % 16 + |row| == 16 then line + 1 else line)
    decreases |row|
  {
    var start, col := ofs / 16 * 16, ofs % 16;
    var after := Located(rest, Wrap(ofs + |row|), if col + |row| == 16 then line + 1 else line);
    assert (row + rest)[1..] == row[1..] + rest;
    if |row| == 1 {
      LocatedLast(row, rest, ofs, line);
    } else {
      NextColumn(ofs);
      LocatedOnLine(row[1..], rest, ofs + 1, line);
      Reassociate([Found(line, start, col, row[0])], OnLine(row[1..], line, start, col + 1), after);
    }
  }

  lemma NextColumn(ofs: nat)
    requires ofs < UINTPTR_RANGE && ofs % 16 < 15
    ensures ofs + 1 < UINTPTR_RANGE && Wrap(ofs + 1) == ofs + 1
    ensures (ofs + 1) / 16 * 16 == ofs / 16 * 16 && (ofs + 1) % 16 == ofs % 16 + 1
  {
  }

  lemma {:induction false} OnLineSnoc(row: seq<byte>, c: byte, line: nat, start: nat, col: nat)
    ensures OnLine(row + [c], line, start, col) == OnLine(row, line, start, col) + [Found(line, start, col + |row|, c)]
    decreases |row|
  {
    if row == [] {
      assert row + [c] == [c] && [c][1..] == [];
    } else {
      assert (row + [c])[1..] == row[1..] + [c];
      OnLineSnoc(row[1..], c, line, start, col + 1);
    }
  }

  // Labels

  lemma {:induction false} ReadDigits(d: seq<byte>, u: seq<byte>, line: nat, value: nat)
    requires forall i :: 0 <= i < |d| ==> IsDigit(d[i])
    ensures Read(d + u, line, InLabel(value)) == Read(u, line, InLabel(HexValue(value, d)))
    decreases |d|
  {
    if d == [] {
      assert d + u == u;
    } else {
      assert (d + u)[1..] == d[1..] + u && (d + u)[0] == d[0];
      ReadDigits(d[1..], u, line, value * 16 + DigitValue(d[0]));
    }
  }

  lemma {:induction false} PaddedValue(t: seq<byte>)
    requires forall i :: 0 <= i < |t| ==> IsDigit(t[i])
    ensures forall i :: 0 <= i < |Padded(t)| ==> IsDigit(Padded(t)[i])
    ensures HexValue(0, Padded(t)) == HexValue(0, t)
    decreases 8 - |t|
  {
    if |t| < 8 {
      PaddedValue([0x30] + t);
      assert ([0x30] + t)[1..] == t;
    }
  }

  lemma ReadLabel(v: nat, u: seq<byte>, line: nat)
    ensures Read(Hex8(v) + [SPACE, SPACE] + u, line, InLabel(0)) == Read(u, line, AtColumn(v, 0))
  {
    HexValueHex(v);
    PaddedValue(Hex(v));
    var gap := [SPACE, SPACE] + u;
    Reassociate(Hex8(v), [SPACE, SPACE], u);
    ReadDigits(Hex8(v), gap, line, 0);
    assert gap[0] == SPACE && gap[2..] == u;
  }

  // Columns

  lemma ReadBlank(u: seq<byte>, line: nat, start: nat, col: nat)
    requires col < 16
    ensures Read(BLANK + u, line, AtColumn(start, col)) == Read(u, line, AtColumn(start, col + 1))
  {
    assert (BLANK + u)[0] == BLANK[0] && (BLANK + u)[3..] == u;
  }

  lemma {:induction false} ReadBlanks(n: nat, u: seq<byte>, line: nat, start: nat, col: nat)
    requires col + n <= 16
    ensures Read(Repeat(BLANK, n) + u, line, AtColumn(start, col)) == Read(u, line, AtColumn(start, col + n))
    decreases n
  {
    if n == 0 {
      assert [] + u == u;
    } else {
      Reassociate(BLANK, Repeat(BLANK, n - 1), u);
      ReadBlank(Repeat(BLANK, n - 1) + u, line, start, col);
      ReadBlanks(n - 1, u, line, start, col + 1);
    }
  }

  lemma DigitRead(d: nat)
    requires d < 16
    ensures IsDigit(Digit(d)) && DigitValue(Digit(d)) == d
    ensures Digit(d) != SPACE && Digit(d) != NEWLINE
  {
  }

  lemma ReadCell(c: byte, u: seq<byte>, line: nat, start: nat, col: nat)
    requires col < 16
    ensures Read(Cell(c, col) + u, line, AtColumn(start, col)) ==
      [Found(line, start, col, c)] + Read(u, line, AtColumn(start, col + 1))
  {
    DigitRead(c / 16);
    DigitRead(c % 16);
    var t := Cell(c, col) + u;
    assert t[..3] == Cell(c, col) && t[3..] == u && t[0] == t[..3][0] && t[1] == t[..3][1] && t[2] == t[..3][2];
    ReadTwo(t, line, start, col);
  }

  /** The last cell of a line may have lost its separator. */
  lemma ReadLastCell(c: byte, u: seq<byte>, line: nat, start: nat, col: nat)
    requires col < 16
    ensures Read(Hex2(c) + ([NEWLINE] + u), line, AtColumn(start, col)) ==
      [Found(line, start, col, c)] + Read(u, line + 1, InLabel(0))
  {
    DigitRead(c / 16);
    DigitRead(c % 16);
    var t := Hex2(c) + ([NEWLINE] + u);
    assert t[0] == Digit(c / 16) && t[1] == Digit(c % 16) && t[2] == NEWLINE && t[2..] == [NEWLINE] + u;
    ReadTwo(t, line, start, col);
    ReadNewline(u, line, AtColumn(start, col + 1));
  }

  lemma ReadNewline(u: seq<byte>, line: nat, at: Place)
    ensures Read([NEWLINE] + u, line, at) == Read(u, line + 1, InLabel(0))
  {
    assert ([NEWLINE] + u)[1..] == u;
  }

  lemma ReadTwo(t: seq<byte>, line: nat, start: nat, col: nat)
    requires col < 16 && |t| >= 3 && IsDigit(t[0]) && IsDigit(t[1])
    ensures Read(t, line, AtColumn(start, col)) ==
      [Found(line, start, col, ByteOf(t[0], t[1]))] + Read(AfterCell(t), line, AtColumn(start, col + 1))
  {
  }

  /** A cell before text in which `found`, and then `more`, is read. */
  lemma ReadFirstCell(c: byte, rest: seq<byte>, line: nat, start: nat, col: nat, found: seq<Found>, more: seq<Found>)
    requires col < 16 && Read(rest, line, AtColumn(start, col + 1)) == found + more
    ensures Read(Cell(c, col) + rest, line, AtColumn(start, col)) == [Found(line, start, col, c)] + found + more
  {
    ReadCell(c, rest, line, start, col);
    Reassociate([Found(line, start, col, c)], found, more);
  }

  lemma CellsFirst(cells: seq<byte>, u: seq<byte>, col: nat)
    requires cells != []
    ensures Cells(cells, col) + u == Cell(cells[0], col) + (Cells(cells[1..], col + 1) + u)
  {
    Reassociate(Cell(cells[0], col), Cells(cells[1..], col + 1), u);
  }

  lemma {:induction false} ReadCells(cells: seq<byte>, u: seq<byte>, line: nat, start: nat, col: nat)
    requires col + |cells| <= 16
    ensures Read(Cells(cells, col) + u, line, AtColumn(start, col)) ==
      OnLine(cells, line, start, col) + Read(u, line, AtColumn(start, col + |cells|))
    decreases |cells|
  {
    if cells == [] {
      assert Cells(cells, col) + u == u;
    } else {
      CellsFirst(cells, u, col);
      ReadCells(cells[1..], u, line, start, col + 1);
      ReadFirstCell(cells[0], Cells(cells[1..], col + 1) + u, line, start, col,
        OnLine(cells[1..], line, start, col + 1), Read(u, line, AtColumn(start, col + |cells|)));
    }
  }

  lemma {:induction false} CellsSnoc(cells: seq<byte>, c: byte, col: nat)
    ensures Cells(cells + [c], col) == Cells(cells, col) + Cell(c, col + |cells|)
    decreases |cells|
  {
    if cells == [] {
      assert cells + [c] == [c];
    } else {
      assert (cells + [c])[1..] == cells[1..] + [c];
      CellsSnoc(cells[1..], c, col + 1);
    }
  }

  lemma {:induction false} ReadArt(s: seq<byte>, u: seq<byte>, line: nat)
    requires NEWLINE !in s
    ensures Read(s + ([NEWLINE] + u), line, InArt) == Read(u, line + 1, InLabel(0))
    decreases |s|
  {
    if s == [] {
      assert [] + ([NEWLINE] + u) == [NEWLINE] + u;
      ReadNewline(u, line, InArt);
    } else {
      assert (s + ([NEWLINE] + u))[1..] == s[1..] + ([NEWLINE] + u);
      ReadArt(s[1..], u, line);
    }
  }

  // Lines

  lemma ReadHead(row: seq<byte>, ofs: nat, u: seq<byte>, line: nat)
    requires ofs % 16 + |row| <= 16
    ensures Read(Head(row, ofs) + u, line, InLabel(0)) ==
      OnLine(row, line, ofs / 16 * 16, ofs % 16) + Read(u, line, AtColumn(ofs / 16 * 16, ofs % 16 + |row|))
  {
    var col, start := ofs % 16, ofs / 16 * 16;
    var prefix, blanks, cells := Hex8(start) + [SPACE, SPACE], Repeat(BLANK, col), Cells(row, col);
    Reassociate(prefix, blanks + cells, u);
    Reassociate(blanks, cells, u);
    ReadLabel(start, blanks + (cells + u), line);
    ReadBlanks(col, cells + u, line, start, 0);
    ReadCells(row, u, line, start, col);
  }

  lemma HeadSnoc(row: seq<byte>, c: byte, ofs: nat)
    ensures Head(row + [c], ofs) == Head(row, ofs) + Cell(c, ofs % 16 + |row|)
  {
    var col := ofs % 16;
    var prefix, blanks, cells := Hex8(ofs / 16 * 16) + [SPACE, SPACE], Repeat(BLANK, col), Cells(row, col);
    CellsSnoc(row, c, col);
    Reassociate(blanks, cells, Cell(c, col + |row|));
    Reassociate(prefix, blanks + cells, Cell(c, col + |row|));
  }

  /** The separator of the last cell is dropped if it is a space; the one after column 7 stays. */
  lemma ChompHead(front: seq<byte>, c: byte, ofs: nat)
    requires ofs % 16 + |front| < 16
    ensures Chomped(Head(front + [c], ofs), SPACE) ==
      if ofs % 16 + |front| == 7 then Head(front + [c], ofs) else Head(front, ofs) + Hex2(c)
  {
    HeadSnoc(front, c, ofs);
  }

  lemma ReadPlainLine(row: seq<byte>, ofs: nat, u: seq<byte>, line: nat)
    requires row != [] && ofs % 16 + |row| <= 16
    ensures Read(Chomped(Head(row, ofs), SPACE) + ([NEWLINE] + u), line, InLabel(0)) ==
      OnLine(row, line, ofs / 16 * 16, ofs % 16) + Read(u, line + 1, InLabel(0))
  {
    var l := |row| - 1;
    assert row == row[..l] + [row[l]];
    ChompHead(row[..l], row[l], ofs);
    if ofs % 16 + l == 7 {
      ReadHead(row, ofs, [NEWLINE] + u, line);
      ReadNewline(u, line, AtColumn(ofs / 16 * 16, 8));
    } else {
      ReadChomped(row[..l], row[l], ofs, u, line);
    }
  }

  lemma ReadChomped(front: seq<byte>, c: byte, ofs: nat, u: seq<byte>, line: nat)
    requires ofs % 16 + |front| < 16
    ensures Read((Head(front, ofs) + Hex2(c)) + ([NEWLINE] + u), line, InLabel(0)) ==
      OnLine(front + [c], line, ofs / 16 * 16, ofs % 16) + Read(u, line + 1, InLabel(0))
  {
    var start, col := ofs / 16 * 16, ofs % 16;
    Reassociate(Head(front, ofs), Hex2(c), [NEWLINE] + u);
    ReadHead(front, ofs, Hex2(c) + ([NEWLINE] + u), line);
    ReadLastCell(c, u, line, start, col + |front|);
    OnLineSnoc(front, c, line, start, col);
    Reassociate(OnLine(front, line, start, col), [Found(line, start, col + |front|, c)], Read(u, line + 1, InLabel(0)));
  }

  lemma {:induction false} NoNewline(row: seq<byte>, n: nat)
    ensures NEWLINE !in Ascii(row) && NEWLINE !in Repeat([SPACE], n)
    decreases |row| + n
  {
    if row != [] { NoNewline(row[1..], n); }
    if n > 0 { NoNewline(row, n - 1); }
  }

  lemma ReadArtTail(row: seq<byte>, start: nat, col: nat, u: seq<byte>, line: nat)
    requires col + |row| <= 16
    ensures Read(Art(row, col) + ([NEWLINE] + u), line, AtColumn(start, col + |row|)) == Read(u, line + 1, InLabel(0))
  {
    var left := 16 - col - |row|;
    var blanks, chars, end := Repeat(BLANK, left), Chars(row, col) + [BAR], [NEWLINE] + u;
    Reassociate(blanks, [BAR] + chars, end);
    Reassociate([BAR], chars, end);
    ReadBlanks(left, [BAR] + (chars + end), line, start, col + |row|);
    ReadBar(chars + end, line, start);
    NoNewline(row, col);
    NoNewline(row, left);
    ReadArt(chars, u, line);
  }

  lemma ReadArtLine(row: seq<byte>, ofs: nat, u: seq<byte>, line: nat)
    requires ofs % 16 + |row| <= 16
    ensures Read((Head(row, ofs) + Art(row, ofs % 16)) + ([NEWLINE] + u), line, InLabel(0)) ==
      OnLine(row, line, ofs / 16 * 16, ofs % 16) + Read(u, line + 1, InLabel(0))
  {
    Reassociate(Head(row, ofs), Art(row, ofs % 16), [NEWLINE] + u);
    ReadHead(row, ofs, Art(row, ofs % 16) + ([NEWLINE] + u), line);
    ReadArtTail(row, ofs / 16 * 16, ofs % 16, u, line);
  }

  lemma ReadBar(u: seq<byte>, line: nat, start: nat)
    ensures Read([BAR] + u, line, AtColumn(start, 16)) == Read(u, line, InArt)
  {
    assert ([BAR] + u)[1..] == u;
  }

  lemma ReadLine(row: seq<byte>, ofs: nat, ascii: bool, u: seq<byte>, line: nat)
    requires row != [] && ofs % 16 + |row| <= 16
    ensures Read((Line(row, ofs, ascii) + [NEWLINE]) + u, line, InLabel(0)) ==
      OnLine(row, line, ofs / 16 * 16, ofs % 16) + Read(u, line + 1, InLabel(0))
  {
    Reassociate(Line(row, ofs, ascii), [NEWLINE], u);
    if ascii {
      ReadArtLine(row, ofs, u, line);
    } else {
      ReadPlainLine(row, ofs, u, line);
    }
  }

  lemma ReadFirstLine(t: seq<byte>, buf: seq<byte>, ofs: nat, ascii: bool, n: nat, u: seq<byte>, line: nat)
    requires ofs < UINTPTR_RANGE && 0 < n <= |buf| && ofs % 16 + n <= 16 && (n < |buf| ==> ofs % 16 + n == 16)
    requires t == Line(buf[..n], ofs, ascii) + [NEWLINE] + u
    requires Read(u, line + 1, InLabel(0)) == Located(buf[n..], Wrap(ofs + n), line + 1)
    ensures Read(t, line, InLabel(0)) == Located(buf, ofs, line)
  {
    ReadLine(buf[..n], ofs, ascii, u, line);
    LocatedOnLine(buf[..n], buf[n..], ofs, line);
    assert buf == buf[..n] + buf[n..];
  }

  lemma {:induction false} DumpFirst(buf: seq<byte>, ofs: nat, ascii: bool) returns (n: nat, rest: seq<byte>)
    requires buf != []
    ensures 0 < n <= |buf| && ofs % 16 + n <= 16 && (n < |buf| ==> ofs % 16 + n == 16)
    ensures rest == Dump(buf[n..], Wrap(ofs + n), ascii)
    ensures Dump(buf, ofs, ascii) == Line(buf[..n], ofs, ascii) + [NEWLINE] + rest
  {
    n := RowLength(|buf|, ofs);
    rest := Dump(buf[n..], Wrap(ofs + n), ascii);
  }

  lemma ReadNothing(ofs: nat, ascii: bool, line: nat)
    ensures Read(Dump([], ofs, ascii), line, InLabel(0)) == Located([], ofs, line)
  {
  }

  /** A dump holds every byte once, in order, in the column of its address modulo 16 on the line labelled
      with its address rounded down to 16, and has one line for each label; for any first address, with or
      without characters. */
  lemma {:induction false} ReadDump(buf: seq<byte>, ofs: nat, ascii: bool, line: nat)
    requires ofs < UINTPTR_RANGE
    ensures Read(Dump(buf, ofs, ascii), line, InLabel(0)) == Located(buf, ofs, line)
    decreases |buf|
  {
    if buf == [] {
      ReadNothing(ofs, ascii, line);
    } else {
      var n, rest := DumpFirst(buf, ofs, ascii);
      WrapAdd(ofs + n, 0);
      ReadDump(buf[n..], Wrap(ofs + n), ascii, line + 1);
      ReadFirstLine(Dump(buf, ofs, ascii), buf, ofs, ascii, n, rest, line);
    }
  }

  /** So the text determines both the bytes and the first address. */
  lemma DumpDetermines(buf: seq<byte>, ofs: nat, ascii: bool, buf': seq<byte>,
          ofs': nat, ascii': bool)
    requires ofs < UINTPTR_RANGE && ofs' < UINTPTR_RANGE && buf != []
    requires Dump(buf, ofs, ascii) == Dump(buf', ofs', ascii')
    ensures buf == buf' && ofs == ofs'
  {
    ReadDump(buf, ofs, ascii, 0);
    ReadDump(buf', ofs', ascii', 0);
    LocatedDetermines(buf, ofs, buf', ofs', 0);
  }

  lemma {:induction false} LocatedDetermines(buf: seq<byte>, ofs: nat, buf': seq<byte>, ofs': nat, line: nat)
    requires Located(buf, ofs, line) == Located(buf', ofs', line)
    ensures buf == buf' && (buf != [] ==> ofs == ofs')
    decreases |buf|
  {
    if buf != [] && buf' != [] {
      var a, b := Located(buf, ofs, line), Located(buf', ofs', line);
      assert a[0] == b[0] && a[1..] == b[1..];
      assert ofs == ofs / 16 * 16 + ofs % 16 && ofs' == ofs' / 16 * 16 + ofs' % 16;
      var next := if ofs % 16 == 15 then line + 1 else line;
      assert a[1..] == Located(buf[1..], Wrap(ofs + 1), next) && b[1..] == Located(buf'[1..], Wrap(ofs + 1), next);
      LocatedDetermines(buf[1..], Wrap(ofs + 1), buf'[1..], Wrap(ofs + 1), next);
      assert buf == [buf[0]] + buf[1..] && buf' == [buf'[0]] + buf'[1..];
    }
  }
}
