// Bytes, the optional value, and how sequences of bytes split and join.
module Bytes {
  type byte = b: int | 0 <= b < 256
  type bytes = seq<byte>

  datatype Option<+T> = None | Some(value: T)

  const QUOTE: byte := 0x22
  const BACKSLASH: byte := 0x5C
  const SLASH: byte := 0x2F
  const STAR: byte := 0x2A
  const NEWLINE: byte := 0x0A
  const RETURN: byte := 0x0D
  const TAB: byte := 0x09
  const SPACE: byte := 0x20
  const COMMA: byte := 0x2C
  const COLON: byte := 0x3A
  const OPEN_BRACE: byte := 0x7B
  const CLOSE_BRACE: byte := 0x7D
  const OPEN_BRACKET: byte := 0x5B
  const CLOSE_BRACKET: byte := 0x5D
  const MINUS: byte := 0x2D
  const PLUS: byte := 0x2B
  const DOT: byte := 0x2E
  const ZERO: byte := 0x30
  const LETTER_U: byte := 0x75

  const TEXT_NULL: bytes := [0x6E, 0x75, 0x6C, 0x6C]
  const TEXT_TRUE: bytes := [0x74, 0x72, 0x75, 0x65]
  const TEXT_FALSE: bytes := [0x66, 0x61, 0x6C, 0x73, 0x65]

  predicate IsDigit(b: byte) { 0x30 <= b <= 0x39 }

  // RFC 8259, section 2: space, horizontal tab, line feed, carriage return.
  predicate IsSpace(b: byte) { b == SPACE || b == TAB || b == NEWLINE || b == RETURN }

  // Text in front of text: what is taken and what is left.
  lemma DropAppend(a: bytes, b: bytes)
    ensures (a + b)[|a|..] == b
    ensures (a + b)[..|a|] == a
  {}

  lemma DropDrop(s: bytes, i: nat, j: nat)
    requires i + j <= |s|
    ensures s[i..][j..] == s[i + j..]
  {}

  lemma Assoc(a: bytes, b: bytes, c: bytes)
    ensures a + b + c == a + (b + c)
  {}

  lemma TakeSplit(s: bytes, i: nat, j: nat)
    requires i + j <= |s|
    ensures s[..i + j] == s[..i] + s[i..][..j]
  {}

  // A prefix of s continues where the prefix a of it ends.
  lemma PrefixSplit(a: bytes, b: bytes, s: bytes)
    requires a + b <= s
    ensures a <= s && b <= s[|a|..]
  {
    assert s[..|a|] == (a + b)[..|a|] == a;
    assert s[|a|..][..|b|] == s[..|a + b|][|a|..] == b;
  }
}
