// UTF-8 (section 4 of RFC 3629), one scalar value at a time.
module Utf8 {
  import opened Bytes
  import opened Errors

  predicate IsTail(b: byte) { 0x80 <= b <= 0xBF }

  function Encode(c: char): (w: bytes)
    ensures 1 <= |w| <= 4
    ensures forall i :: 1 <= i < |w| ==> IsTail(w[i])
    ensures !IsTail(w[0])
    ensures w[0] < 0x80 <==> |w| == 1
  {
    var n := c as int;
    if n < 0x80 then [n]
    else if n < 0x800 then [0xC0 + n / 64, 0x80 + n % 64]
    else if n < 0x1_0000 then [0xE0 + n / 4096, 0x80 + n / 64 % 64, 0x80 + n % 64]
    else [0xF0 + n / 262144, 0x80 + n / 4096 % 64, 0x80 + n / 64 % 64, 0x80 + n % 64]
  }

  // Length of the sequence a lead byte announces; 0 when it cannot lead.
  function LeadLength(b: byte): nat {
    if b <= 0x7F then 1
    else if 0xC2 <= b <= 0xDF then 2
    else if 0xE0 <= b <= 0xEF then 3
    else if 0xF0 <= b <= 0xF4 then 4
    else 0
  }

  // Six payload bits of a continuation byte.
  function Tail(b: byte): (r: int)
    ensures IsTail(b) ==> 0 <= r < 64
  {
    b as int - 0x80
  }

  // The one scalar value a slice of the announced length spells, if any.
  function FromUtf8(w: bytes): Option<char>
    requires |w| > 0 && |w| == LeadLength(w[0])
  {
    if |w| == 1 then Some(w[0] as char)
    else if |w| == 2 then
      if IsTail(w[1]) then Some(((w[0] as int - 0xC0) * 64 + Tail(w[1])) as char) else None
    else if |w| == 3 then
      if && IsTail(w[1]) && IsTail(w[2])
         && (w[0] == 0xE0 ==> 0xA0 <= w[1])
         && (w[0] == 0xED ==> w[1] <= 0x9F)
      then Some(((w[0] as int - 0xE0) * 4096 + Tail(w[1]) * 64 + Tail(w[2])) as char)
      else None
    else
      if && IsTail(w[1]) && IsTail(w[2]) && IsTail(w[3])
         && (w[0] == 0xF0 ==> 0x90 <= w[1])
         && (w[0] == 0xF4 ==> w[1] <= 0x8F)
      then Some(((w[0] as int - 0xF0) * 262144 + Tail(w[1]) * 4096 + Tail(w[2]) * 64 + Tail(w[3])) as char)
      else None
  }

  function ReadUtf8Char(s: bytes): (r: Lex<char>)
    requires s != []
    ensures r.Ok? ==> 1 <= r.len <= |s|
    ensures r.Err? ==> r.at == 0
  {
    var len := LeadLength(s[0]);
    if len == 0 || len > |s| then Err(InvalidUtf8, 0)
    else match FromUtf8(s[..len])
      case None => Err(InvalidUtf8, 0)
      case Some(c) => Ok(c, len)
  }

  // Splitting into groups of six bits and joining them again.
  lemma SplitJoin(n: int, h: int, a: int, b: int)
    requires 0 <= a < 64 && 0 <= b < 64
    ensures (n == h * 4096 + a * 64 + b) <==> (h == n / 4096 && a == n / 64 % 64 && b == n % 64)
  {
    assert n / 4096 == n / 64 / 64;
    if n == h * 4096 + a * 64 + b {
      assert n / 64 == h * 64 + a;
    }
  }

  lemma DecodeEncode(c: char)
    ensures |Encode(c)| == LeadLength(Encode(c)[0])
    ensures FromUtf8(Encode(c)) == Some(c)
  {
    var n := c as int;
    var w := Encode(c);
    if 0x800 <= n < 0x1_0000 {
      SplitJoin(n, n / 4096, n / 64 % 64, n % 64);
      assert (w[0] as int - 0xE0) * 4096 + Tail(w[1]) * 64 + Tail(w[2]) == n;
    } else if 0x1_0000 <= n {
      SplitJoin(n, n / 4096, n / 64 % 64, n % 64);
      assert n / 262144 == n / 4096 / 64;
      assert (w[0] as int - 0xF0) * 262144 + Tail(w[1]) * 4096 + Tail(w[2]) * 64 + Tail(w[3]) == n;
    }
  }

  lemma EncodeDecode(w: bytes)
    requires |w| > 0 && |w| == LeadLength(w[0])
    requires FromUtf8(w).Some?
    ensures Encode(FromUtf8(w).value) == w
  {
    var n := FromUtf8(w).value as int;
    if |w| == 3 {
      SplitJoin(n, w[0] as int - 0xE0, Tail(w[1]), Tail(w[2]));
    } else if |w| == 4 {
      var h := (w[0] as int - 0xF0) * 64 + Tail(w[1]);
      SplitJoin(n, h, Tail(w[2]), Tail(w[3]));
      assert n / 262144 == n / 4096 / 64;
    }
  }

  // Reading inverts encoding, whatever follows; and only encodings are read.
  lemma ReadEncoded(c: char, rest: bytes)
    ensures ReadUtf8Char(Encode(c) + rest) == Ok(c, |Encode(c)|)
  {
    DecodeEncode(c);
    var s := Encode(c) + rest;
    assert s[..|Encode(c)|] == Encode(c);
  }

  lemma ReadIsEncoded(s: bytes)
    requires s != [] && ReadUtf8Char(s).Ok?
    ensures s[..ReadUtf8Char(s).len] == Encode(ReadUtf8Char(s).value)
  {
    EncodeDecode(s[..LeadLength(s[0])]);
  }

  // The byte sequences of section 4 of RFC 3629, and the numbers they carry.
  predicate Carries(w: bytes, n: int) {
    || (|w| == 1 && w[0] <= 0x7F && n == w[0])
    || (|w| == 2 && 0xC2 <= w[0] <= 0xDF && Six(w[1])
        && n == (w[0] as int - 0xC0) * 64 + (w[1] as int - 0x80))
    || (|w| == 3 && 0xE0 <= w[0] <= 0xEF && Six(w[1]) && Six(w[2])
        && (w[0] == 0xE0 ==> 0xA0 <= w[1]) && (w[0] == 0xED ==> w[1] <= 0x9F)
        && n == (w[0] as int - 0xE0) * 4096 + (w[1] as int - 0x80) * 64 + (w[2] as int - 0x80))
    || (|w| == 4 && 0xF0 <= w[0] <= 0xF4 && Six(w[1]) && Six(w[2]) && Six(w[3])
        && (w[0] == 0xF0 ==> 0x90 <= w[1]) && (w[0] == 0xF4 ==> w[1] <= 0x8F)
        && n == (w[0] as int - 0xF0) * 262144 + (w[1] as int - 0x80) * 4096 + (w[2] as int - 0x80) * 64
                + (w[3] as int - 0x80))
  }

  // A byte with six bits of the number.
  predicate Six(b: byte) { 0x80 <= b <= 0xBF }

  // A character is encoded as the one sequence that carries its number.
  lemma EncodeExactly(c: char, w: bytes)
    ensures w == Encode(c) <==> Carries(w, c as int)
  {
    hide Encode, FromUtf8, Carries;
    if w == Encode(c) {
      DecodeEncode(c);
      DecodedCarries(w, c);
    }
    if Carries(w, c as int) {
      CarriesDecoded(w, c);
      EncodeDecode(w);
    }
  }

  lemma DecodedCarries(w: bytes, c: char)
    requires |w| > 0 && |w| == LeadLength(w[0]) && FromUtf8(w) == Some(c)
    ensures Carries(w, c as int)
  {}

  lemma CarriesDecoded(w: bytes, c: char)
    requires Carries(w, c as int)
    ensures |w| > 0 && |w| == LeadLength(w[0]) && FromUtf8(w) == Some(c)
  {}
}
