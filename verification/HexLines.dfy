/** What the lines of ds_put_hex_dump look like, byte by byte. */
module HexLines {
  import opened ByteStrings
  import opened DynamicString
  import opened HexDump
  import opened Printers
  import opened Sequences

  lemma {:induction false} PaddedLength(t: seq<byte>)
    ensures |Padded(t)| == if |t| < 8 then 8 else |t|
    decreases 8 - |t|
  {
    if |t| < 8 {
      PaddedLength([0x30] + t);
    }
  }

  lemma {:induction false} HexLength(v: nat, n: nat)
    requires n > 0 && v < Power(16, n)
    ensures |Hex(v)| <= n
    decreases n
  {
    if v >= 16 {
      assert Power(16, 1) == 16 * Power(16, 0);
      HexLength(v / 16, n - 1);
    }
  }

  /** `t` spells `v` in hexadecimal digits: eight of them, unless the number needs more. */
  ghost predicate IsLabel(t: seq<byte>, v: nat) {
    && |t| >= 8 && (v < 0x1_0000_0000 ==> |t| == 8)
    && (forall i :: 0 <= i < |t| ==> IsDigit(t[i])) && HexValue(0, t) == v
  }

  lemma LabelIs(v: nat)
    ensures IsLabel(Hex8(v), v)
  {
    HexValueHex(v);
    PaddedValue(Hex(v));
    PaddedLength(Hex(v));
    if v < 0x1_0000_0000 {
      Power16Of8();
      HexLength(v, 8);
    }
  }

  lemma Power16Of8()
    ensures Power(16, 8) == 0x1_0000_0000
  {
    assert Power(16, 4) == 0x1_0000;
    assert Power(16, 8) == 16 * (16 * (16 * (16 * Power(16, 4))));
  }

  /** `t` is the cell of byte `c` in column `col`: two digits and a separator. */
  ghost predicate IsCell(t: seq<byte>, c: byte, col: nat) {
    && |t| == 3 && IsDigit(t[0]) && IsDigit(t[1]) && DigitValue(t[0]) * 16 + DigitValue(t[1]) == c
    && t[2] == if col == 7 then 0x2d else 0x20
  }

  lemma CellIs(c: byte, col: nat)
    ensures IsCell(Cell(c, col), c, col)
  {
    DigitRead(c / 16);
    DigitRead(c % 16);
  }

  lemma {:induction false} BlanksAre(n: nat, j: nat)
    ensures |Repeat(BLANK, n)| == 3 * n
    ensures j < n ==> Repeat(BLANK, n)[3 * j..3 * j + 3] == [0x20, 0x20, 0x20]
    decreases n
  {
    if n > 0 {
      BlanksAre(n - 1, if j > 0 then j - 1 else 0);
      if j == 0 {
        SliceBefore(BLANK, Repeat(BLANK, n - 1), 0, 3);
      } else if j < n {
        SliceAfter(BLANK, Repeat(BLANK, n - 1), 3 * (j - 1), 3 * (j - 1) + 3);
      }
    }
  }

  lemma {:induction false} SpacesAre(n: nat, j: nat)
    ensures |Repeat([SPACE], n)| == n && (j < n ==> Repeat([SPACE], n)[j] == 0x20)
    decreases n
  {
    if n > 0 {
      SpacesAre(n - 1, if j > 0 then j - 1 else 0);
    }
  }

  lemma SliceBefore(a: seq<byte>, b: seq<byte>, i: nat, j: nat)
    requires i <= j <= |a|
    ensures (a + b)[i..j] == a[i..j]
  {
  }

  lemma SliceAfter(a: seq<byte>, b: seq<byte>, i: nat, j: nat)
    requires i <= j <= |b|
    ensures (a + b)[|a| + i..|a| + j] == b[i..j]
  {
  }

  lemma {:induction false} CellsAre(row: seq<byte>, col: nat, j: nat)
    ensures |Cells(row, col)| == 3 * |row|
    ensures j < |row| ==> IsCell(Cells(row, col)[3 * j..3 * j + 3], row[j], col + j)
    decreases |row|
  {
    if row != [] {
      var cell, rest := Cell(row[0], col), Cells(row[1..], col + 1);
      CellsAre(row[1..], col + 1, if j > 0 then j - 1 else 0);
      if j == 0 {
        CellIs(row[0], col);
        assert (cell + rest)[0..3] == cell;
      } else if j < |row| {
        SliceAfter(cell, rest, 3 * (j - 1), 3 * (j - 1) + 3);
      }
    }
  }

  /** The sixteen columns of a line: a byte of `row` in each from `start` on, and blanks in the others. */
  ghost predicate IsColumn(t: seq<byte>, row: seq<byte>, start: nat, j: nat)
    requires |t| == 48 && j < 16
  {
    if start <= j < start + |row| then IsCell(t[3 * j..3 * j + 3], row[j - start], j)
    else t[3 * j..3 * j + 3] == [0x20, 0x20, 0x20]
  }

  /** The blank columns before, the cells, and the blank columns after. */
  function Columns(row: seq<byte>, start: nat): seq<byte>
    requires start + |row| <= 16
  {
    Repeat(BLANK, start) + (Cells(row, start) + Repeat(BLANK, 16 - start - |row|))
  }

  /** Three bytes from index `i` on, in the part that they lie in. */
  lemma SliceOfThree(a: seq<byte>, b: seq<byte>, c: seq<byte>, i: nat)
    ensures i + 3 <= |a| ==> (a + (b + c))[i..i + 3] == a[i..i + 3]
    ensures |a| <= i && i + 3 <= |a| + |b| ==> (a + (b + c))[i..i + 3] == b[i - |a|..i - |a| + 3]
    ensures |a| + |b| <= i && i + 3 <= |a| + |b| + |c| ==>
      (a + (b + c))[i..i + 3] == c[i - |a| - |b|..i - |a| - |b| + 3]
  {
  }

  lemma ColumnsLength(row: seq<byte>, start: nat)
    requires start + |row| <= 16
    ensures |Columns(row, start)| == 48 && |Repeat(BLANK, start)| == 3 * start && |Cells(row, start)| == 3 * |row|
  {
    BlanksAre(start, 0);
    CellsAre(row, start, 0);
    BlanksAre(16 - start - |row|, 0);
  }

  lemma ColumnOf(left: seq<byte>, cells: seq<byte>, right: seq<byte>, row: seq<byte>, start: nat, j: nat)
    requires start + |row| <= 16 && j < 16
    requires |left| == 3 * start && |cells| == 3 * |row| && |right| == 3 * (16 - start - |row|)
    requires if start <= j < start + |row| then IsCell(cells[3 * (j - start)..3 * (j - start) + 3], row[j - start], j)
             else if j < start then left[3 * j..3 * j + 3] == [0x20, 0x20, 0x20]
             else right[3 * (j - start - |row|)..3 * (j - start - |row|) + 3] == [0x20, 0x20, 0x20]
    ensures |left + (cells + right)| == 48 && IsColumn(left + (cells + right), row, start, j)
  {
    SliceOfThree(left, cells, right, 3 * j);
  }

  lemma {:induction false} ColumnsAre(row: seq<byte>, start: nat, j: nat)
    requires start + |row| <= 16 && j < 16
    ensures |Columns(row, start)| == 48 && IsColumn(Columns(row, start), row, start, j)
  {
    var n := 16 - start - |row|;
    ColumnsLength(row, start);
    BlanksAre(start, j);
    CellsAre(row, start, if j >= start then j - start else 0);
    BlanksAre(n, if j >= start + |row| then j - start - |row| else 0);
    ColumnOf(Repeat(BLANK, start), Cells(row, start), Repeat(BLANK, n), row, start, j);
  }

  lemma {:induction false} AsciiIs(row: seq<byte>, j: nat)
    ensures |Ascii(row)| == |row|
    ensures j < |row| ==> Ascii(row)[j] == if 0x20 <= row[j] <= 0x7e then row[j] else 0x2e
    decreases |row|
  {
    if row != [] {
      AsciiIs(row[1..], if j > 0 then j - 1 else 0);
    }
  }

  /** Under each column stands its byte, if it is printable ASCII, or a dot; a blank if it has no byte. */
  lemma CharsAre(row: seq<byte>, start: nat, j: nat)
    requires start + |row| <= 16 && j < 16
    ensures |Chars(row, start)| == 16
    ensures Chars(row, start)[j] ==
      if !(start <= j < start + |row|) then 0x20
      else if 0x20 <= row[j - start] <= 0x7e then row[j - start]
      else 0x2e
  {
    var n := 16 - start - |row|;
    SpacesAre(start, j);
    AsciiIs(row, if j >= start then j - start else 0);
    SpacesAre(n, if j >= start + |row| then j - start - |row| else 0);
  }

  /** A line with characters: the label, two spaces, the columns, and the characters between bars. */
  lemma LineParts(row: seq<byte>, ofs: nat)
    requires ofs % 16 + |row| <= 16
    ensures Line(row, ofs, true) ==
      Hex8(ofs / 16 * 16) + [0x20, 0x20] + (Columns(row, ofs % 16) + ([0x7c] + (Chars(row, ofs % 16) + [0x7c])))
  {
    var start := ofs % 16;
    var prefix := Hex8(ofs / 16 * 16) + [SPACE, SPACE];
    var left, cells, right := Repeat(BLANK, start), Cells(row, start), Repeat(BLANK, 16 - start - |row|);
    var chars := [BAR] + (Chars(row, start) + [BAR]);
    Reassociate(prefix, left + cells, right + chars);
    Reassociate(left + cells, right, chars);
    Reassociate(left, cells, right);
  }

  /** What comes before the last separator of a line without characters, and that separator. */
  lemma HeadEnds(row: seq<byte>, ofs: nat)
    requires row != [] && ofs % 16 + |row| <= 16
    ensures |Head(row, ofs)| == |Hex8(ofs / 16 * 16)| + 2 + 3 * (ofs % 16 + |row|)
    ensures Head(row, ofs)[|Head(row, ofs)| - 1] == if ofs % 16 + |row| == 8 then 0x2d else 0x20
  {
    var start, l := ofs % 16, |row| - 1;
    var cells := Cells(row, start);
    BlanksAre(start, 0);
    CellsAre(row, start, l);
    assert cells[3 * l..3 * l + 3][2] == cells[|cells| - 1];
  }

  /** A line without characters: the same up to its last cell, whose separator stays only after column 7. */
  lemma PlainLine(row: seq<byte>, ofs: nat)
    requires row != [] && ofs % 16 + |row| <= 16
    ensures var n := |Hex8(ofs / 16 * 16)| + 2 + 3 * (ofs % 16 + |row|);
      && n <= |Line(row, ofs, true)|
      && Line(row, ofs, false) == Line(row, ofs, true)[..if ofs % 16 + |row| == 8 then n else n - 1]
  {
    HeadEnds(row, ofs);
    ChompedPrefix(Head(row, ofs), Art(row, ofs % 16));
  }

  lemma ChompedPrefix(a: seq<byte>, b: seq<byte>)
    requires a != []
    ensures Chomped(a, SPACE) == (a + b)[..if a[|a| - 1] == 0x20 then |a| - 1 else |a|]
  {
  }
}
