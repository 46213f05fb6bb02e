/** Unicode text in its two encodings, written out: what bytes and 16-bit units of text are made of. */
module Unicode {
  import opened Machine

  /** A character: any code point that is not half of a pair. */
  type scalar = x: int | 0 <= x < 0x11_0000 && !(0xd800 <= x < 0xe000)

  function Utf8Of(c: scalar): seq<byte> {
    if c < 0x80 then [c]
    else if c < 0x800 then [0xc0 + c / 0x40, 0x80 + c % 0x40]
    else if c < 0x1_0000 then [0xe0 + c / 0x1000, 0x80 + c / 0x40 % 0x40, 0x80 + c % 0x40]
    else [0xf0 + c / 0x4_0000, 0x80 + c / 0x1000 % 0x40, 0x80 + c / 0x40 % 0x40, 0x80 + c % 0x40]
  }

  function Utf8(text: seq<scalar>): seq<byte> {
    if text == [] then [] else Utf8Of(text[0]) + Utf8(text[1..])
  }

  function Utf16Of(c: scalar): seq<u16> {
    if c < 0x1_0000 then [c] else [0xd800 + (c - 0x1_0000) / 0x400, 0xdc00 + (c - 0x1_0000) % 0x400]
  }

  function Utf16(text: seq<scalar>): seq<u16> {
    if text == [] then [] else Utf16Of(text[0]) + Utf16(text[1..])
  }
}
