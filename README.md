# Text-mode display writer

A Dafny model of the display writer of a small bare-metal kernel. The writer
keeps a cursor (`row`, `column`), a current attribute byte (`color_code`) and a
byte buffer. It packs two 4-bit colours into an attribute byte, stores
(character, attribute) byte pairs at the cursor, and floods the screen with
blank cells.

- `colors.dfy`, module `Colors`: the sixteen named colours of `vga_buffer.h`
  and their fixed values 0..15.
- `vga_buffer.dfy`, module `VgaBuffer`: `new_color_code` and its decoders, the
  `Writer` record as a class with `init`, `write_byte`, `write_string` and
  `fill_screen`, and the buffer function `WriteCells` that `write_string` is
  proved against.

The buffer is an `array<bv8>` handed to the writer instead of the fixed
hardware address. The C code writes without bounds checks, so each method
requires the buffer to be long enough for the bytes it touches.

The writer targets the VGA text screen at the start of video memory
(`vga_buffer.c:11`). In that layout each of the 80 x 25 cells takes 2 bytes
(character, then attribute), a screen row is 160 bytes, and the whole screen
is 4000 bytes. The model follows what the code computes, which differs from
that layout in three places:

- The code stores a character at byte `row * 80 + column` and advances the
  column by two (`vga_buffer.c:24`, `vga_buffer.c:27`). So the column is a
  byte offset inside the row, and rows are 80 bytes apart instead of 160.
  Row 1, column 0 is byte 80, the middle of the first screen line
  (`CellOffset`, `RowStride`).
- Nothing wraps: writing from the origin, the 41st character lands on byte
  80, the byte that row 1, column 0 addresses (`RowOverflowAliases`).
- The fill loop runs 80 * 25 * 2 = 4000 iterations of two bytes each
  (`vga_buffer.c:41-44`), so it writes bytes 0..7999, twice the 4000-byte
  screen. `FillScreen` therefore requires a buffer of at least 8000 bytes.

## Model

| member | source | states |
|---|---|---|
| `Colors.ColorValue` | vga_buffer.h:4-21 | every colour stands for a 4-bit value, below 16 |
| `Colors.ColorOf` | vga_buffer.h:4-21 | every value 0..15 is the value of some colour |
| `Colors.ColorOfValue` | vga_buffer.h:4-21 | mapping a colour to its value and back gives the same colour |
| `Colors.ColorValueInjective` | vga_buffer.h:4-21 | two colours with the same value are the same colour |
| `Colors.AllColorsEnumerated` | vga_buffer.h:4-21 | there are exactly sixteen colours, the i-th of them has value i, and every colour is among them |
| `Colors.DefaultHues` | vga_buffer.h:5-20 | Black is 0 and White is 15 |
| `VgaBuffer.NewColorCode` | vga_buffer.c:3-8 | the low nibble of the attribute is the foreground's value, the high nibble the background's; as a number it is 16 * bg + fg |
| `VgaBuffer.Foreground` | vga_buffer.c:3-8 | decodes the colour held in an attribute's low nibble |
| `VgaBuffer.Background` | vga_buffer.c:3-8 | decodes the colour held in an attribute's high nibble |
| `VgaBuffer.ColorCodeRoundTrip` | vga_buffer.c:3-8 | decoding a packed attribute gives back both the foreground and the background |
| `VgaBuffer.ColorCodeSurjective` | vga_buffer.c:3-8 | every byte is the packing of the two colours it decodes to |
| `VgaBuffer.NewColorCodeInjective` | vga_buffer.c:3-8 | two colour pairs that pack to the same byte are equal |
| `VgaBuffer.InitColor` | vga_buffer.c:17-20 | the supplied attribute is taken as is; without one it is 0xF0, black on white |
| `VgaBuffer.FillColor` | vga_buffer.c:40 | the supplied fill attribute is taken as is; without one it is 0xFF, white on white |
| `VgaBuffer.CellOffset` | vga_buffer.c:24 | the offset splits into 80-byte rows: for a column below 80, offset / 80 is the row and offset % 80 the column |
| `VgaBuffer.WriteCells` | vga_buffer.c:30-35 | writing a run of characters into the buffer keeps its length |
| `VgaBuffer.WriteCellsStores` | vga_buffer.c:23-35 | the i-th character of a run lands at offset start + 2i and the attribute at the next offset |
| `VgaBuffer.WriteCellsFrame` | vga_buffer.c:23-35 | bytes outside the 2 * length bytes from the start offset keep their value |
| `VgaBuffer.WriteCellsAppend` | vga_buffer.c:30-35 | writing a + b equals writing a, then b from the offset where a ended |
| `VgaBuffer.RowOverflowAliases` | vga_buffer.c:24-27 | nothing wraps: from the origin the 41st character lands on byte 80, the byte row 1 column 0 addresses |
| `VgaBuffer.RowStride` | vga_buffer.c:24 | row r + 1 addresses the same byte as row r with the column 80 further on |
| `VgaBuffer.Writer.Init` | vga_buffer.c:14-21 | the cursor is at (0, 0), the buffer is the given one, and the attribute is the supplied one or black on white |
| `VgaBuffer.Writer.WriteByte` | vga_buffer.c:23-28 | the character goes to offset row * 80 + column and the attribute to the next byte; every other byte is unchanged; the column grows by 2; row and attribute stay |
| `VgaBuffer.Writer.WriteString` | vga_buffer.c:30-35 | after writing len characters the column grew by 2 * len and the row and attribute stay; character i sits at the start offset + 2i with the attribute after it; every other byte is unchanged, so len = 0 changes nothing |
| `VgaBuffer.Writer.FillScreen` | vga_buffer.c:37-46 | every even offset below 8000 holds a blank and every odd one the fill attribute; bytes from 8000 on, the cursor and the attribute are unchanged |

## Left out

- The fixed base address `0xb8000` and the hardware effect of writing to it: the buffer is an array the caller passes to `Init`.
- `Init` is a constructor, so calling `init` a second time on the same writer is modelled as building a new writer; since `init` overwrites every field, the resulting state is the same.
- C's signed `char`: `new_color_code` shifts a background of 8 or more into a signed char, which is implementation-defined in C. The model treats every byte as an unsigned `bv8`, which gives the same bit pattern.
- `int` and `unsigned` overflow of `row * 80 + column` and of the column: cursor values and offsets are unbounded naturals.
- Out-of-bounds writes, which the C code does not check: they become `requires` clauses on the buffer length (and, for `WriteString`, on `len` not exceeding the string).
- WriteString: `str` is taken as a snapshot value (`seq<bv8>`), while the C code reads `str[i]` only after the earlier characters are stored. A `str` that overlaps the buffer, where an earlier store changes a later character, is not modelled; the only caller passes a string literal (`cmain.c:4`, `cmain.c:10`).
- The entry point in `cmain.c`: it only builds a writer, fills the screen, prints a greeting and spins forever.
