/** The text-mode display writer: attribute-byte packing, and a cursor that
    stores (character, attribute) byte pairs into a caller-supplied buffer. */
module VgaBuffer {
  import opened Colors

  /** A possibly-absent argument; the source passes a nullable pointer. */
  datatype Option<T> = None | Some(value: T)

  /** The character code of a blank cell, ASCII space. */
  const Blank: bv8 := 0x20

  /** Columns and rows of the text screen. */
  const Width: nat := 80
  const Height: nat := 25

  // ---------------------------------------------------------------------
  // Attribute bytes

  /** Packs a foreground and a background colour into one attribute byte:
      the foreground in the low nibble, the background in the high nibble. */
  function NewColorCode(fg: Color, bg: Color): (code: bv8)
    ensures (code & 0x0F) as int == ColorValue(fg)
    ensures (code >> 4) as int == ColorValue(bg)
    ensures code as int == 16 * ColorValue(bg) + ColorValue(fg)
  {
    (ColorValue(bg) as bv8 << 4) | ColorValue(fg) as bv8
  }

  /** The foreground colour an attribute byte encodes. */
  function Foreground(code: bv8): (c: Color)
    ensures ColorValue(c) == (code & 0x0F) as int
  {
    ColorOf((code & 0x0F) as nat)
  }

  /** The background colour an attribute byte encodes. */
  function Background(code: bv8): (c: Color)
    ensures ColorValue(c) == (code >> 4) as int
  {
    ColorOf((code >> 4) as nat)
  }

  /** Decoding a packed attribute gives back both colours. */
  lemma ColorCodeRoundTrip(fg: Color, bg: Color)
    ensures Foreground(NewColorCode(fg, bg)) == fg
    ensures Background(NewColorCode(fg, bg)) == bg
  {
  }

  /** Every byte is the packing of the colours it decodes to, so packing is
      a bijection between colour pairs and bytes. */
  lemma ColorCodeSurjective(code: bv8)
    ensures NewColorCode(Foreground(code), Background(code)) == code
  {
  }

  /** Different colour pairs pack into different bytes. */
  lemma NewColorCodeInjective(fg1: Color, bg1: Color, fg2: Color, bg2: Color)
    ensures NewColorCode(fg1, bg1) == NewColorCode(fg2, bg2) ==> fg1 == fg2 && bg1 == bg2
  {
    ColorCodeRoundTrip(fg1, bg1);
    ColorCodeRoundTrip(fg2, bg2);
  }

  /** The attribute `init` falls back to when no colour is supplied:
      black on white. */
  function InitColor(cc: Option<bv8>): (code: bv8)
    ensures cc.Some? ==> code == cc.value
    ensures cc.None? ==> code == 0xF0 && Foreground(code) == Black && Background(code) == White
  {
    if cc.Some? then cc.value else NewColorCode(Black, White)
  }

  /** The attribute `fill_screen` paints with when no colour is supplied:
      white on white. */
  function FillColor(cc: Option<bv8>): (code: bv8)
    ensures cc.Some? ==> code == cc.value
    ensures cc.None? ==> code == 0xFF && Foreground(code) == White && Background(code) == White
  {
    if cc.Some? then cc.value else NewColorCode(White, White)
  }

  // ---------------------------------------------------------------------
  // Buffer contents

  /** The byte offset the writer stores a character at. The row is scaled by
      80 and the column is added unscaled; the column itself moves two bytes
      per character. So each row is a band of 80 bytes, and a column below 80
      is the byte position inside its row's band. */
  function CellOffset(row: nat, column: nat): (off: nat)
    ensures column < Width ==> off / Width == row && off % Width == column
  {
    row * Width + column
  }

  /** The buffer `s` after storing `chars` one after another from offset `off`,
      each character followed by the attribute `cc`. */
  function WriteCells(s: seq<bv8>, off: nat, chars: seq<bv8>, cc: bv8): (r: seq<bv8>)
    requires off + 2 * |chars| <= |s|
    ensures |r| == |s|
    decreases chars
  {
    if chars == [] then s
    else WriteCells(s[off := chars[0]][off + 1 := cc], off + 2, chars[1..], cc)
  }

  /** Character i lands at offset off + 2i, its attribute right after it. */
  lemma {:induction false} WriteCellsStores(s: seq<bv8>, off: nat, chars: seq<bv8>, cc: bv8, i: nat)
    requires off + 2 * |chars| <= |s|
    requires i < |chars|
    ensures WriteCells(s, off, chars, cc)[off + 2 * i] == chars[i]
    ensures WriteCells(s, off, chars, cc)[off + 2 * i + 1] == cc
    decreases chars
  {
    var s' := s[off := chars[0]][off + 1 := cc];
    if i == 0 {
      WriteCellsFrame(s', off + 2, chars[1..], cc, off);
      WriteCellsFrame(s', off + 2, chars[1..], cc, off + 1);
    } else {
      WriteCellsStores(s', off + 2, chars[1..], cc, i - 1);
    }
  }

  /** Bytes outside [off, off + 2|chars|) keep their value. */
  lemma {:induction false} WriteCellsFrame(s: seq<bv8>, off: nat, chars: seq<bv8>, cc: bv8, k: nat)
    requires off + 2 * |chars| <= |s|
    requires k < |s| && (k < off || off + 2 * |chars| <= k)
    ensures WriteCells(s, off, chars, cc)[k] == s[k]
    decreases chars
  {
    if chars != [] {
      var s' := s[off := chars[0]][off + 1 := cc];
      WriteCellsFrame(s', off + 2, chars[1..], cc, k);
    }
  }

  /** Writing a + b is writing a, then writing b where a left off. */
  lemma {:induction false} WriteCellsAppend(s: seq<bv8>, off: nat, a: seq<bv8>, b: seq<bv8>, cc: bv8)
    requires off + 2 * (|a| + |b|) <= |s|
    ensures WriteCells(s, off, a + b, cc)
         == WriteCells(WriteCells(s, off, a, cc), off + 2 * |a|, b, cc)
    decreases a
  {
    if a == [] {
      assert a + b == b;
    } else {
      var s' := s[off := a[0]][off + 1 := cc];
      assert (a + b)[0] == a[0];
      assert (a + b)[1..] == a[1..] + b;
      WriteCellsAppend(s', off + 2, a[1..], b, cc);
    }
  }

  /** Nothing wraps: from the origin, the 41st character lands on the byte
      that row 1, column 0 addresses, which is byte 80 of the buffer. */
  lemma RowOverflowAliases(s: seq<bv8>, chars: seq<bv8>, cc: bv8)
    requires 40 < |chars| && 2 * |chars| <= |s|
    ensures CellOffset(1, 0) == 80
    ensures WriteCells(s, CellOffset(0, 0), chars, cc)[CellOffset(1, 0)] == chars[40]
  {
    WriteCellsStores(s, 0, chars, cc, 40);
  }

  /** Row r + 1 addresses the same bytes as row r shifted 80 columns on. */
  lemma RowStride(row: nat, column: nat)
    ensures CellOffset(row + 1, column) == CellOffset(row, column + Width)
  {
  }

  // ---------------------------------------------------------------------
  // The writer

  /** Cursor, current attribute and the display buffer it writes into. */
  class Writer {
    var row: nat
    var column: nat
    var colorCode: bv8
    var buffer: array<bv8>

    /** Points the writer at `buf`, puts the cursor at the origin and takes
        `cc` as the attribute, or black on white without one. */
    constructor Init(buf: array<bv8>, cc: Option<bv8>)
      ensures buffer == buf
      ensures row == 0 && column == 0
      ensures cc.Some? ==> colorCode == cc.value
      ensures cc.None? ==> colorCode == NewColorCode(Black, White)
    {
      buffer := buf;
      row, column := 0, 0;
      colorCode := InitColor(cc);
    }

    /** Stores `ch` and the current attribute at the cursor's offset and
        moves the cursor two bytes on. */
    method WriteByte(ch: bv8)
      requires CellOffset(row, column) + 1 < buffer.Length
      modifies this`column, buffer
      ensures row == old(row) && colorCode == old(colorCode)
      ensures column == old(column) + 2
      ensures buffer[CellOffset(row, old(column))] == ch
      ensures buffer[CellOffset(row, old(column)) + 1] == colorCode
      ensures forall k :: 0 <= k < buffer.Length &&
                (k < CellOffset(row, old(column)) || CellOffset(row, old(column)) + 1 < k)
                ==> buffer[k] == old(buffer[k])
    {
      var addr := CellOffset(row, column);
      buffer[addr] := ch;
      buffer[addr + 1] := colorCode;
      column := column + 2;
    }

    /** Writes the first `len` characters of `str` from the cursor on, with
        no wrapping, each as a (character, attribute) pair. */
    method WriteString(str: seq<bv8>, len: nat)
      requires len <= |str|
      requires CellOffset(row, column) + 2 * len <= buffer.Length
      modifies this`column, buffer
      ensures row == old(row) && colorCode == old(colorCode)
      ensures column == old(column) + 2 * len
      ensures buffer[..] == WriteCells(old(buffer[..]), CellOffset(row, old(column)), str[..len], colorCode)
      ensures forall i :: 0 <= i < len ==>
                buffer[CellOffset(row, old(column)) + 2 * i] == str[i] &&
                buffer[CellOffset(row, old(column)) + 2 * i + 1] == colorCode
      ensures forall k :: 0 <= k < buffer.Length &&
                (k < CellOffset(row, old(column)) || CellOffset(row, old(column)) + 2 * len <= k)
                ==> buffer[k] == old(buffer[k])
    {
      ghost var start := old(buffer[..]);
      ghost var off := CellOffset(row, column);
      var i: nat := 0;
      while i < len
        invariant i <= len
        invariant column == old(column) + 2 * i
        invariant buffer[..] == WriteCells(start, off, str[..i], colorCode)
      {
        ghost var before := buffer[..];
        WriteByte(str[i]);
        assert buffer[..] == WriteCells(before, off + 2 * i, [str[i]], colorCode);
        WriteCellsAppend(start, off, str[..i], [str[i]], colorCode);
        assert str[..i + 1] == str[..i] + [str[i]];
        i := i + 1;
      }
      forall i | 0 <= i < len
        ensures buffer[off + 2 * i] == str[i] && buffer[off + 2 * i + 1] == colorCode
      {
        WriteCellsStores(start, off, str[..len], colorCode, i);
      }
      forall k | 0 <= k < buffer.Length && (k < off || off + 2 * len <= k)
        ensures buffer[k] == start[k]
      {
        WriteCellsFrame(start, off, str[..len], colorCode, k);
      }
    }

    /** Paints a blank with the fill attribute (white on white without one)
        into each of 80 * 25 * 2 byte pairs from offset 0, which covers the
        first 8000 bytes. The cursor and the current attribute stay. */
    method FillScreen(cc: Option<bv8>)
      requires 2 * (Width * Height * 2) <= buffer.Length
      modifies buffer
      ensures row == old(row) && column == old(column) && colorCode == old(colorCode)
      ensures forall k :: 0 <= k < 8000 ==>
                buffer[k] == if k % 2 == 0 then Blank else FillColor(cc)
      ensures forall k :: 8000 <= k < buffer.Length ==> buffer[k] == old(buffer[k])
    {
      var fill := FillColor(cc);
      var i := 0;
      var addr := 0;
      while i < Width * Height * 2
        invariant i <= Width * Height * 2
        invariant addr == 2 * i
        invariant forall k :: 0 <= k < addr ==> buffer[k] == if k % 2 == 0 then Blank else fill
        invariant forall k :: addr <= k < buffer.Length ==> buffer[k] == old(buffer[k])
      {
        buffer[addr] := Blank;
        buffer[addr + 1] := fill;
        addr := addr + 2;
        i := i + 1;
      }
    }
  }
}
