/** The colour palette and `hexColor` (src/colours.hpp): a packed 0xRRGGBB
    value split into its three bytes plus an alpha byte. */
module Colours {

  /** An `sf::Color`: four channels, each a byte. */
  datatype Color = Color(r: int, g: int, b: int, a: int)

  type Byte = x: int | 0 <= x < 0x100
  type U32 = x: int | 0 <= x < 0x1_0000_0000

  // The `Material` palette.
  const Background: U32          := 0x263238
  const Foreground: U32          := 0xB0BEC5
  const Text: U32                := 0x607D8B
  const SelectionBackground: U32 := 0x546E7A
  const SelectionForeground: U32 := 0xFFFFFF
  const Buttons: U32             := 0x2E3C43
  const SecondBackground: U32    := 0x32424A
  const Disabled: U32            := 0x415967
  const Contrast: U32            := 0x1E272C
  const Active: U32              := 0x314549
  const Border: U32              := 0x2A373E
  const Highlight: U32           := 0x425B67
  const Notifications: U32       := 0x1E272C
  const Accent: U32              := 0x009688
  const Excluded: U32            := 0x2E3C43
  const Green: U32               := 0xC3E88D
  const Yellow: U32              := 0xFFCB6B
  const Blue: U32                := 0x82AAFF
  const Red: U32                 := 0xF07178
  const Purple: U32              := 0xC792EA
  const Orange: U32              := 0xF78C6C
  const Cyan: U32                := 0x89DDFF
  const Gray: U32                := 0x546E7A
  const Error: U32               := 0xFF5370
  const Comments: U32            := 0x546E7A
  const Variables: U32           := 0xEEFFFF
  const Links: U32               := 0x80CBC4
  const Functions: U32           := 0x82AAFF
  const Keywords: U32            := 0xC792EA
  const Tags: U32                := 0xF07178
  const Strings: U32             := 0xC3E88D
  const Operators: U32           := 0x89DDFF
  const Attributes: U32          := 0xFFCB6B
  const Numbers: U32             := 0xF78C6C
  const Parameters: U32          := 0xF78C6C

  /** Bits 16-23, 8-15 and 0-7 of `hex` become red, green and blue; `alpha`
      is passed through. Every channel is a byte and the three colour
      channels put back together give the low 24 bits of `hex`. */
  function HexColor(hex: U32, alpha: Byte := 0xFF): (c: Color)
    ensures 0 <= c.r < 0x100 && 0 <= c.g < 0x100 && 0 <= c.b < 0x100
    ensures c.a == alpha
    ensures c.r * 0x1_0000 + c.g * 0x100 + c.b == hex % 0x100_0000
  {
    var c := Color((hex / 0x1_0000) % 0x100, (hex / 0x100) % 0x100, hex % 0x100, alpha);
    Recombine(hex);
    c
  }

  /** The three shifted-and-masked bytes of `h` put back together. */
  lemma Recombine(h: nat)
    ensures ((h / 0x1_0000) % 0x100) * 0x1_0000 + ((h / 0x100) % 0x100) * 0x100 + h % 0x100
            == h % 0x100_0000
  {
    var lo := h % 0x100;
    var q := h / 0x100;
    assert h == q * 0x100 + lo;
    var mid := q % 0x100;
    var q2 := q / 0x100;
    assert q == q2 * 0x100 + mid;
    assert h / 0x1_0000 == q2 by {
      assert h == q2 * 0x1_0000 + (mid * 0x100 + lo);
      assert 0 <= mid * 0x100 + lo < 0x1_0000;
    }
    var hi := q2 % 0x100;
    assert h == (q2 / 0x100) * 0x100_0000 + (hi * 0x1_0000 + mid * 0x100 + lo);
    assert 0 <= hi * 0x1_0000 + mid * 0x100 + lo < 0x100_0000;
  }

  /** Only the low 24 bits matter: two values give the same colour exactly
      when they agree in those bits, so bits 24-31 are ignored and
      `HexColor(hex) == HexColor(hex & 0xFFFFFF)`. */
  lemma SameColorIffLowBitsAgree(h1: U32, h2: U32, alpha: Byte)
    ensures HexColor(h1, alpha) == HexColor(h2, alpha) <==> h1 % 0x100_0000 == h2 % 0x100_0000
    ensures HexColor(h1, alpha) == HexColor(h1 % 0x100_0000, alpha)
  {
    var c1, c2 := HexColor(h1, alpha), HexColor(h2, alpha);
    if h1 % 0x100_0000 == h2 % 0x100_0000 {
      ChannelsDetermined(c1, c2);
    }
    var low := h1 % 0x100_0000;
    assert low % 0x100_0000 == low;
    ChannelsDetermined(c1, HexColor(low, alpha));
  }

  /** Two byte triples with the same packed value are the same triple. */
  lemma ChannelsDetermined(c1: Color, c2: Color)
    requires 0 <= c1.r < 0x100 && 0 <= c1.g < 0x100 && 0 <= c1.b < 0x100
    requires 0 <= c2.r < 0x100 && 0 <= c2.g < 0x100 && 0 <= c2.b < 0x100
    requires c1.a == c2.a
    requires c1.r * 0x1_0000 + c1.g * 0x100 + c1.b == c2.r * 0x1_0000 + c2.g * 0x100 + c2.b
    ensures c1 == c2
  {
  }

  /** The palette as test vectors: the background colour used for the window
      and for the honeycomb cells is (0x26, 0x32, 0x38, 0xFF). */
  lemma PaletteVectors()
    ensures HexColor(Background) == Color(0x26, 0x32, 0x38, 0xFF)
    ensures HexColor(Blue) == Color(0x82, 0xAA, 0xFF, 0xFF)
    ensures HexColor(Purple) == Color(0xC7, 0x92, 0xEA, 0xFF)
    ensures HexColor(Error, 0x80) == Color(0xFF, 0x53, 0x70, 0x80)
  {
  }
}
