// Unicode escapes and string characters: what the readers accept, exactly, and
// that they look no further than what they consume.
module Escapes {
  import opened Bytes
  import opened Errors
  import opened Lexical
  import Utf8

  // ---- Four hex digits ----

  predicate IsQuad(w: bytes) {
    |w| == 4 && HexDigit(w[0]).Some? && HexDigit(w[1]).Some? && HexDigit(w[2]).Some? && HexDigit(w[3]).Some?
  }

  // The number four hex digits of either case denote, most significant first.
  function QuadValue(w: bytes): (n: nat)
    requires IsQuad(w)
    ensures n < 0x1_0000
  {
    HexDigit(w[0]).value * 4096 + HexDigit(w[1]).value * 256 + HexDigit(w[2]).value * 16 + HexDigit(w[3]).value
  }

  lemma {:induction false} ReadHexDigit(s: bytes, k: nat, val: nat)
    requires k > 0 && s != [] && HexDigit(s[0]).Some?
    ensures var r := ReadHex(s[1..], k - 1, val * 16 + HexDigit(s[0]).value);
            && ReadHex(s, k, val).Ok? == r.Ok?
            && (r.Ok? ==> ReadHex(s, k, val) == Ok(r.value, r.len + 1))
  {}

  lemma ReadQuad(s: bytes)
    ensures ReadHex(s, 4, 0).Ok? <==> |s| >= 4 && IsQuad(s[..4])
    ensures |s| >= 4 && IsQuad(s[..4]) ==> ReadHex(s, 4, 0) == Ok(QuadValue(s[..4]), 4)
  {
    hide HexDigit, ReadHex;
    if |s| >= 4 && IsQuad(s[..4]) {
      ReadQuadDigits(s);
    } else if ReadHex(s, 4, 0).Ok? {
      ReadHexAll(s, 4, 0);
    }
  }

  lemma {:induction false} ReadHexAll(s: bytes, k: nat, val: nat)
    requires ReadHex(s, k, val).Ok?
    ensures k <= |s| && forall i :: 0 <= i < k ==> HexDigit(s[i]).Some?
    decreases k
  {
    hide HexDigit;
    if k > 0 {
      ReadHexAll(s[1..], k - 1, val * 16 + HexDigit(s[0]).value);
      assert forall i :: 1 <= i < k ==> s[i] == s[1..][i - 1];
    }
  }

  lemma ReadQuadDigits(s: bytes)
    requires |s| >= 4 && IsQuad(s[..4])
    ensures ReadHex(s, 4, 0) == Ok(QuadValue(s[..4]), 4)
  {
    hide HexDigit, ReadHex;
    var a, b, c, d := HexDigit(s[0]).value, HexDigit(s[1]).value, HexDigit(s[2]).value, HexDigit(s[3]).value;
    ReadHexDigit(s, 4, 0);
    ReadHexDigit(s[1..], 3, a);
    assert s[1..][1..] == s[2..];
    ReadHexDigit(s[2..], 2, a * 16 + b);
    assert s[2..][1..] == s[3..];
    ReadHexDigit(s[3..], 1, (a * 16 + b) * 16 + c);
    assert ReadHex(s[3..][1..], 0, ((a * 16 + b) * 16 + c) * 16 + d) == Ok(((a * 16 + b) * 16 + c) * 16 + d, 0) by {
      ReadHexNone(s[3..][1..], ((a * 16 + b) * 16 + c) * 16 + d);
    }
  }

  lemma ReadHexNone(s: bytes, val: nat)
    ensures ReadHex(s, 0, val) == Ok(val, 0)
  {}

  // The sixteen digits, in either case.
  const LOWER_DIGITS: bytes := [0x30, 0x31, 0x32, 0x33, 0x34, 0x35, 0x36, 0x37, 0x38, 0x39,
                                0x61, 0x62, 0x63, 0x64, 0x65, 0x66]
  const UPPER_DIGITS: bytes := [0x30, 0x31, 0x32, 0x33, 0x34, 0x35, 0x36, 0x37, 0x38, 0x39,
                                0x41, 0x42, 0x43, 0x44, 0x45, 0x46]

  lemma HexDigitExactly(b: byte, d: nat)
    ensures HexDigit(b) == Some(d) <==> d < 16 && (b == LOWER_DIGITS[d] || b == UPPER_DIGITS[d])
  {}

  // Four hex digits are four of them, and worth what they say in base 16.
  lemma QuadExactly(w: bytes, a: nat, b: nat, c: nat, d: nat)
    requires |w| == 4 && a < 16 && b < 16 && c < 16 && d < 16
    ensures IsQuad(w) && HexDigit(w[0]) == Some(a) && HexDigit(w[1]) == Some(b)
            && HexDigit(w[2]) == Some(c) && HexDigit(w[3]) == Some(d)
            <==> && w[0] in [LOWER_DIGITS[a], UPPER_DIGITS[a]] && w[1] in [LOWER_DIGITS[b], UPPER_DIGITS[b]]
                 && w[2] in [LOWER_DIGITS[c], UPPER_DIGITS[c]] && w[3] in [LOWER_DIGITS[d], UPPER_DIGITS[d]]
    ensures && w[0] in [LOWER_DIGITS[a], UPPER_DIGITS[a]] && w[1] in [LOWER_DIGITS[b], UPPER_DIGITS[b]]
            && w[2] in [LOWER_DIGITS[c], UPPER_DIGITS[c]] && w[3] in [LOWER_DIGITS[d], UPPER_DIGITS[d]]
            ==> IsQuad(w) && QuadValue(w) == ((a * 16 + b) * 16 + c) * 16 + d
  {
    hide HexDigit;
    HexDigitExactly(w[0], a);
    HexDigitExactly(w[1], b);
    HexDigitExactly(w[2], c);
    HexDigitExactly(w[3], d);
  }

  // ---- Escaped UTF-16 (section 2.1 of RFC 2781) ----

  function Utf16(c: char): (units: seq<nat>)
    ensures 1 <= |units| <= 2
    ensures |units| == 1 ==> !IsHigh(units[0]) && !IsLow(units[0])
    ensures |units| == 2 ==> IsHigh(units[0]) && IsLow(units[1])
  {
    var n := c as int;
    if n < 0x1_0000 then [n] else [0xD800 + (n - 0x1_0000) / 1024, 0xDC00 + (n - 0x1_0000) % 1024]
  }

  // w is what follows "\u" in an escape of c, in either hex case.
  predicate SpellsEscape(w: bytes, c: char) {
    if |w| == 4 then IsQuad(w) && Utf16(c) == [QuadValue(w)]
    else
      && |w| == 10 && IsQuad(w[..4]) && w[4] == BACKSLASH && w[5] == LETTER_U && IsQuad(w[6..])
      && Utf16(c) == [QuadValue(w[..4]), QuadValue(w[6..])]
  }

  // Pairing surrogates inverts splitting a scalar value, and the number it
  // gives is always a scalar value: the conversion fallbacks are never taken.
  lemma PairValue(high: nat, low: nat)
    requires IsHigh(high) && IsLow(low)
    ensures FromU32(0x1_0000 + (high - 0xD800) * 1024 + (low - 0xDC00)).Some?
    ensures Utf16(FromU32(0x1_0000 + (high - 0xD800) * 1024 + (low - 0xDC00)).value) == [high, low]
  {}

  lemma SingleValue(n: nat)
    requires n < 0x1_0000 && !IsHigh(n) && !IsLow(n)
    ensures FromU32(n).Some? && Utf16(FromU32(n).value) == [n]
  {}

  lemma Utf16Injective(c: char, d: char)
    requires Utf16(c) == Utf16(d)
    ensures c == d
  {
    var m, n := c as int, d as int;
    if |Utf16(c)| == 2 {
      assert (m - 0x1_0000) / 1024 == (n - 0x1_0000) / 1024;
      assert (m - 0x1_0000) % 1024 == (n - 0x1_0000) % 1024;
    }
  }

  // The escape reader accepts exactly the escapes of scalar values: so it
  // inverts escaping, and rejects every lone or mispaired surrogate.
  lemma EscapeExactly(s: bytes, c: char, n: nat)
    ensures ReadUnicodeEscape(s) == Ok(c, n) <==> n <= |s| && SpellsEscape(s[..n], c)
  {
    hide ReadHex, HexDigit, QuadValue, Utf16, FromU32;
    ReadQuad(s);
    if n <= |s| && SpellsEscape(s[..n], c) {
      assert s[..n][..4] == s[..4];
      SpelledIsRead(s, c, n);
    } else if ReadUnicodeEscape(s) == Ok(c, n) {
      ReadIsSpelled(s, c, n);
    }
  }

  lemma JoinExactly(s: bytes, high: nat)
    requires IsHigh(high)
    ensures JoinLow(s, high).Ok? <==>
            && |s| >= 6 && s[0] == BACKSLASH && s[1] == LETTER_U
            && IsQuad(s[2..6]) && IsLow(QuadValue(s[2..6]))
    ensures JoinLow(s, high).Ok? ==>
            Utf16(JoinLow(s, high).value) == [high, QuadValue(s[2..6])] && JoinLow(s, high).len == 6
  {
    hide ReadHex, HexDigit, QuadValue, Utf16, FromU32;
    if |s| >= 2 {
      ReadQuad(s[2..]);
      if |s| >= 6 {
        assert s[2..][..4] == s[2..6];
        if IsQuad(s[2..6]) && IsLow(QuadValue(s[2..6])) {
          PairValue(high, QuadValue(s[2..6]));
        }
      }
    }
  }

  lemma SpelledIsRead(s: bytes, c: char, n: nat)
    requires n <= |s| && SpellsEscape(s[..n], c)
    ensures ReadUnicodeEscape(s) == Ok(c, n)
  {
    hide ReadHex, HexDigit, QuadValue, Utf16, FromU32, JoinLow;
    var w := s[..n];
    ReadQuad(s);
    if n == 4 {
      assert s[..4] == w;
      var v := QuadValue(w);
      assert Utf16(c)[0] == v;
      SingleValue(v);
      Utf16Injective(c, FromU32(v).value);
    } else {
      assert s[..4] == w[..4] && s[4..][2..6] == w[6..];
      var high, low := QuadValue(w[..4]), QuadValue(w[6..]);
      assert Utf16(c)[0] == high && Utf16(c)[1] == low;
      JoinExactly(s[4..], high);
      Utf16Injective(c, JoinLow(s[4..], high).value);
    }
  }

  lemma ReadIsSpelled(s: bytes, c: char, n: nat)
    requires ReadUnicodeEscape(s) == Ok(c, n)
    ensures n <= |s| && SpellsEscape(s[..n], c)
  {
    hide ReadHex, HexDigit, QuadValue, Utf16, FromU32, JoinLow;
    ReadQuad(s);
    var high := QuadValue(s[..4]);
    if IsHigh(high) {
      JoinExactly(s[4..], high);
      assert n == 10;
      var w := s[..10];
      assert w[..4] == s[..4] && w[6..] == s[4..][2..6];
    } else {
      SingleValue(high);
      assert n == 4;
    }
  }

  // ---- One character, locally ----

  lemma UnicodeEscapeLocal(s: bytes, t: bytes, c: char, n: nat)
    requires ReadUnicodeEscape(s) == Ok(c, n) && n <= |t| && t[..n] == s[..n]
    ensures ReadUnicodeEscape(t) == Ok(c, n)
  {
    EscapeExactly(s, c, n);
    EscapeExactly(t, c, n);
  }

  // A character is read from its own bytes only.
  lemma CharLocal(s: bytes, t: bytes, c: char, n: nat)
    requires s != [] && ReadChar(s) == Ok(c, n) && n <= |t| && t[..n] == s[..n]
    ensures t != [] && ReadChar(t) == Ok(c, n)
  {
    hide ReadUnicodeEscape, Utf8.FromUtf8;
    assert t[0] == t[..n][0] == s[0];
    if s[0] == BACKSLASH {
      assert t[1] == t[..n][1] == s[1];
      if s[1] == LETTER_U {
        assert t[2..][..n - 2] == t[..n][2..] == s[2..][..n - 2];
        UnicodeEscapeLocal(s[2..], t[2..], c, n - 2);
      }
    } else if s[0] >= 0x80 {
      assert s[..n][..Utf8.LeadLength(s[0])] == t[..n][..Utf8.LeadLength(s[0])];
    }
  }

  // A string is read from its own bytes only, wherever it starts.
  lemma {:induction false} BodyLocal(s: bytes, from: int, t: bytes, other: int, text: string, n: nat)
    requires from < 0 && other < 0
    requires ReadBody(s, from) == Ok(text, n) && n <= |t| && t[..n] == s[..n]
    ensures ReadBody(t, other) == Ok(text, n)
    decreases |s|
  {
    hide ReadChar;
    assert t[0] == t[..n][0] == s[0];
    if s[0] != QUOTE {
      var r := ReadChar(s);
      var k := r.len;
      var rest := ReadBody(s[k..], from - k);
      assert n == k + rest.len;
      assert t[..k] == t[..n][..k] == s[..k];
      CharLocal(s, t, r.value, k);
      assert t[k..][..n - k] == t[..n][k..] == s[k..][..n - k];
      BodyLocal(s[k..], from - k, t[k..], other - k, rest.value, n - k);
    }
  }

  lemma StringLocal(s: bytes, t: bytes, text: string, n: nat)
    requires s != [] && ReadString(s) == Ok(text, n) && n <= |t| && t[..n] == s[..n]
    ensures t != [] && ReadString(t) == Ok(text, n)
  {
    var body := ReadBody(s[1..], -1);
    assert t[1..][..n - 1] == t[..n][1..] == s[1..][..n - 1];
    BodyLocal(s[1..], -1, t[1..], -1, body.value, n - 1);
  }
}
