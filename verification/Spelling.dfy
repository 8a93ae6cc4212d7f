// How a string literal may be spelled (section 7 of RFC 8259), and the shortest
// spelling.
module Spelling {
  import opened Bytes
  import opened Escapes
  import Utf8

  predicate IsShort(b: byte, c: char) {
    || (b == 0x22 && c == '"') || (b == 0x5C && c == '\\') || (b == 0x2F && c == '/')
    || (b == 0x62 && c == 0x08 as char) || (b == 0x66 && c == 0x0C as char) || (b == 0x6E && c == 0x0A as char)
    || (b == 0x72 && c == 0x0D as char) || (b == 0x74 && c == 0x09 as char)
  }

  // One character: as it is, if it needs no escape, or by a short escape, or by
  // its UTF-16 form in hex.
  predicate SpellsChar(w: bytes, c: char) {
    || (w == Utf8.Encode(c) && c as int >= 0x20 && c != '"' && c != '\\')
    || (|w| == 2 && w[0] == BACKSLASH && IsShort(w[1], c))
    || (|w| > 2 && w[0] == BACKSLASH && w[1] == LETTER_U && SpellsEscape(w[2..], c))
  }

  ghost predicate SpellsChars(w: bytes, text: string)
    decreases |text|
  {
    if text == "" then w == []
    else exists k: nat :: 1 <= k <= |w| && SpellsChar(w[..k], text[0]) && SpellsChars(w[k..], text[1..])
  }

  ghost predicate SpellsString(w: bytes, text: string) {
    |w| >= 2 && w[0] == QUOTE && w[|w| - 1] == QUOTE && SpellsChars(w[1..|w| - 1], text)
  }

  // ---- The shortest spelling ----

  // Escaped UTF-16 in hex digits of lower case.
  predicate LowerHex(w: bytes) {
    |w| > 2 && w[1] == LETTER_U ==> forall i :: 2 <= i < |w| ==> !(0x41 <= w[i] <= 0x46)
  }

  // No spelling of c is shorter, and there is no capital among its hex digits.
  ghost predicate ShortestChar(w: bytes, c: char) {
    SpellsChar(w, c) && LowerHex(w) && forall u: bytes :: SpellsChar(u, c) ==> |w| <= |u|
  }

  ghost predicate ShortestChars(w: bytes, text: string)
    decreases |text|
  {
    if text == "" then w == []
    else exists k: nat :: 1 <= k <= |w| && ShortestChar(w[..k], text[0]) && ShortestChars(w[k..], text[1..])
  }

  // Between quotes, every character in its shortest spelling.
  ghost predicate ShortestString(w: bytes, text: string) {
    |w| >= 2 && w[0] == QUOTE && w[|w| - 1] == QUOTE && ShortestChars(w[1..|w| - 1], text)
  }
}
