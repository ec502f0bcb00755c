/** Font descriptors and styled-character values.

    `Font` stands for java.awt.Font as the editor uses it: a family name, a style
    bit mask (bit 0 bold, bit 1 italic) and an integer point size. The two pieces
    of library behaviour the core depends on are written out here:
    the three-argument constructor turns a style outside 0..3 into PLAIN, and
    `deriveFont(int)` on such a font normalises its argument the same way. */
module Styles {

  const PLAIN: int := 0
  const BOLD: int := 1
  const ITALIC: int := 2

  datatype Font = Font(name: string, style: int, size: int)

  /** The value a StyledChar object holds at one moment: its character and its font. */
  datatype Cell = Cell(character: char, font: Font)

  /** The baseline font: Monospaced, plain, 14 points. */
  const DefaultFont: Font := Font("Monospaced", PLAIN, 14)

  /** Bit 0 of a Java int. For a two's-complement int, `x & 1` equals Dafny's
      Euclidean `x % 2`, and `(x >> 1) & 1` equals `(x / 2) % 2`. */
  predicate IsBold(style: int) { style % 2 == 1 }

  /** Bit 1 of a Java int. */
  predicate IsItalic(style: int) { (style / 2) % 2 == 1 }

  /** The style value with exactly the given bold and italic bits. */
  function StyleOf(bold: bool, italic: bool): (style: int)
    ensures 0 <= style <= 3
    ensures IsBold(style) == bold && IsItalic(style) == italic
  {
    (if bold then BOLD else PLAIN) + (if italic then ITALIC else PLAIN)
  }

  /** `new Font(name, style, size)`: a style with a bit outside bits 0 and 1 becomes PLAIN. */
  function NewFont(name: string, style: int, size: int): (f: Font)
    ensures f.name == name && f.size == size
    ensures 0 <= f.style <= 3
    ensures 0 <= style <= 3 ==> f.style == style
  {
    Font(name, if 0 <= style <= 3 then style else PLAIN, size)
  }

  /** `f.deriveFont(style)`: same family and size, with the new style, which becomes PLAIN
      when it has a bit outside bits 0 and 1, as in the Font constructor. */
  function DeriveFont(f: Font, style: int): (g: Font)
    ensures g == NewFont(f.name, style, f.size)
    ensures 0 <= style <= 3 ==> IsBold(g.style) == IsBold(style) && IsItalic(g.style) == IsItalic(style)
  {
    f.(style := if 0 <= style <= 3 then style else PLAIN)
  }

  /** The font after `deriveFont(turnOn ? style | mask : style & ~mask)`, for a mask within
      bits 0 and 1, written bit by bit: the Java expression then stays in 0..3. */
  function StyleUpdated(f: Font, mask: int, turnOn: bool): Font
  {
    if turnOn then
      DeriveFont(f, StyleOf(IsBold(f.style) || IsBold(mask), IsItalic(f.style) || IsItalic(mask)))
    else
      DeriveFont(f, StyleOf(IsBold(f.style) && !IsBold(mask), IsItalic(f.style) && !IsItalic(mask)))
  }
}
