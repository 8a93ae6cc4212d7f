// Which error a text that starts with no token is refused with.
module LexErrors {
  import opened Bytes
  import opened Errors
  import opened Numbers
  import opened Values
  import opened Lexical
  import opened NumberReading
  import opened Escapes
  import opened Spelling
  import opened Documents
  import opened Decimals
  import opened Streams
  import opened Tokenising
  import Utf8

  // ---- Escapes ----

  // How many of the first four bytes are hex digits, before one that is not.
  function HexRun(h: bytes): (d: nat)
    ensures d <= 4 && d <= |h|
  {
    if h == [] || HexDigit(h[0]).None? then 0
    else if |h| == 1 || HexDigit(h[1]).None? then 1
    else if |h| == 2 || HexDigit(h[2]).None? then 2
    else if |h| == 3 || HexDigit(h[3]).None? then 3
    else 4
  }

  // Fewer than four hex digits: the text ends there, or another byte stands there.
  function HexError(h: bytes): Kind {
    if HexRun(h) == |h| then UnexpectedEof else InvalidUnicodeEscape
  }

  // What is wrong after "\\u", if something is: too few digits, there or in the
  // second escape of a pair; a low surrogate by itself; or a high one without a
  // low one after it.
  function EscapeError(h: bytes): Option<Kind> {
    if HexRun(h) < 4 then Some(HexError(h))
    else
      var v := QuadValue(h[..4]);
      if 0xDC00 <= v <= 0xDFFF then Some(InvalidSurrogatePair)
      else if !(0xD800 <= v <= 0xDBFF) then None
      else if !(|h| >= 6 && h[4] == BACKSLASH && h[5] == LETTER_U) then Some(InvalidSurrogatePair)
      else if HexRun(h[6..]) < 4 then Some(HexError(h[6..]))
      else if 0xDC00 <= QuadValue(h[6..][..4]) <= 0xDFFF then None
      else Some(InvalidSurrogatePair)
  }

  lemma {:induction false} ReadHexError(h: bytes, k: nat, val: nat)
    requires k <= 4
    ensures ReadHex(h, k, val).Ok? <==> HexRun(h) >= k
    ensures HexRun(h) < k ==> ReadHex(h, k, val) == Err(HexError(h), 0)
    decreases k
  {
    hide HexDigit;
    if k > 0 && h != [] && HexDigit(h[0]).Some? {
      HexRunTail(h);
      ReadHexError(h[1..], k - 1, val * 16 + HexDigit(h[0]).value);
    }
  }

  lemma HexRunTail(h: bytes)
    requires h != [] && HexDigit(h[0]).Some?
    ensures HexRun(h) == 4 || HexRun(h) == 1 + HexRun(h[1..])
    ensures HexRun(h) == 4 ==> HexRun(h[1..]) >= 3
    ensures HexRun(h) < 4 ==> HexError(h) == HexError(h[1..])
  {
    hide HexDigit;
  }

  lemma EscapeErrorExactly(h: bytes)
    ensures ReadUnicodeEscape(h).Err? <==> EscapeError(h).Some?
    ensures EscapeError(h).Some? ==> ReadUnicodeEscape(h) == Err(EscapeError(h).value, 0)
  {
    hide ReadHex, HexDigit, QuadValue, FromU32;
    ReadHexError(h, 4, 0);
    if HexRun(h) == 4 {
      ReadQuad(h);
      var v := ReadHex(h, 4, 0).value;
      if IsHigh(v) {
        LowError(h[4..], v);
        assert |h| >= 6 ==> h[4..][2..] == h[6..] && h[4..][0] == h[4] && h[4..][1] == h[5];
      } else if !IsLow(v) {
        SingleValue(v);
      }
    }
  }

  // The second escape of a pair.
  lemma LowError(s: bytes, high: nat)
    requires IsHigh(high)
    ensures var r := JoinLow(s, high);
            if !(|s| >= 2 && s[0] == BACKSLASH && s[1] == LETTER_U) then r == Err(InvalidSurrogatePair, 0)
            else if HexRun(s[2..]) < 4 then r == Err(HexError(s[2..]), 0)
            else if 0xDC00 <= QuadValue(s[2..][..4]) <= 0xDFFF then r.Ok?
            else r == Err(InvalidSurrogatePair, 0)
  {
    hide ReadHex, HexDigit, QuadValue, FromU32;
    if |s| >= 2 {
      ReadHexError(s[2..], 4, 0);
      if HexRun(s[2..]) == 4 {
        ReadQuad(s[2..]);
        var low := ReadHex(s[2..], 4, 0).value;
        if IsLow(low) {
          PairValue(high, low);
        }
      }
    }
  }

  // ---- Strings ----

  // Some character in UTF-8 leads u.
  ghost predicate Encoded(u: bytes) {
    exists c: char :: Utf8.Encode(c) <= u
  }

  // What is wrong with the character at the head of u, if something is.
  ghost function CharError(u: bytes): Option<Kind>
    requires u != []
  {
    if u[0] < 0x20 then Some(UnexpectedChar(u[0]))
    else if u[0] == BACKSLASH then
      if |u| == 1 then Some(UnexpectedEof)
      else if u[1] == LETTER_U then EscapeError(u[2..])
      else if u[1] in [0x22, 0x5C, 0x2F, 0x62, 0x66, 0x6E, 0x72, 0x74] then None
      else Some(InvalidEscape)
    else if Encoded(u) then None
    else Some(InvalidUtf8)
  }

  lemma EncodedExactly(u: bytes)
    requires u != []
    ensures Utf8.ReadUtf8Char(u).Ok? <==> Encoded(u)
    ensures Utf8.ReadUtf8Char(u).Err? ==> Utf8.ReadUtf8Char(u) == Err(InvalidUtf8, 0)
    ensures u[0] < 0x80 ==> Encoded(u)
  {
    hide Utf8.Encode;
    if Utf8.ReadUtf8Char(u).Ok? {
      Utf8.ReadIsEncoded(u);
      var r := Utf8.ReadUtf8Char(u);
      assert Utf8.Encode(r.value) <= u;
    }
    if c: char :| Utf8.Encode(c) <= u {
      Utf8.ReadEncoded(c, u[|Utf8.Encode(c)|..]);
      assert u == Utf8.Encode(c) + u[|Utf8.Encode(c)|..];
    }
  }

  lemma CharErrorExactly(u: bytes)
    requires u != [] && u[0] != QUOTE
    ensures ReadChar(u).Err? <==> CharError(u).Some?
    ensures CharError(u).Some? ==> ReadChar(u) == Err(CharError(u).value, 0)
  {
    hide EscapeError, ReadUnicodeEscape, Encoded, Utf8.ReadUtf8Char;
    EncodedExactly(u);
    if |u| > 2 || u[0] == BACKSLASH {
      if |u| > 1 {
        EscapeErrorExactly(u[2..]);
      }
    }
  }

  // The literal at the head of s goes wrong at place k: it ends there, which is
  // reported at its opening quote; or the character there is wrong.
  ghost predicate WrongAt(s: bytes, k: nat, text: string, kind: Kind, at: int) {
    && 1 <= k <= |s| && SpellsChars(s[1..k], text)
    && if k == |s| then kind == UnexpectedEof && at == 0
       else s[k] != QUOTE && CharError(s[k..]) == Some(kind) && at == k
  }

  lemma {:induction false} BodyAfter(s: bytes, start: int, k: nat, text: string)
    requires start < 0 && k <= |s| && SpellsChars(s[..k], text)
    ensures ReadBody(s, start) == After(text, k, ReadBody(s[k..], start - k))
    decreases |text|
  {
    hide ReadChar, SpellsChar, ReadBody;
    var w := s[..k];
    if text == "" {
      assert s[0..] == s;
      AfterNothing(ReadBody(s, start));
    } else {
      var m: nat :| 1 <= m <= |w| && SpellsChar(w[..m], text[0]) && SpellsChars(w[m..], text[1..]);
      assert s[..m] == w[..m] && s[m..][..k - m] == w[m..] && s[m..][k - m..] == s[k..];
      SpelledHead(w[..m], text[0]);
      CharExactly(s, text[0], m);
      BodyAfter(s[m..], start - m, k - m, text[1..]);
      BodyUnfolds(s, start, text[0], m);
      AfterTwice([text[0]], m, text[1..], k - m, ReadBody(s[k..], start - k));
      assert [text[0]] + text[1..] == text;
    }
  }

  lemma BodyUnfolds(s: bytes, start: int, c: char, m: nat)
    requires start < 0 && s != [] && s[0] != QUOTE && ReadChar(s) == Ok(c, m)
    ensures ReadBody(s, start) == After([c], m, ReadBody(s[m..], start - m))
  {
    hide ReadChar;
  }

  lemma AfterNothing(r: Lex<string>)
    ensures After("", 0, r) == r
  {
    if r.Ok? {
      assert "" + r.value == r.value;
    }
  }

  lemma AfterTwice(a: string, i: nat, b: string, j: nat, r: Lex<string>)
    ensures After(a, i, After(b, j, r)) == After(a + b, i + j, r)
  {
    if r.Ok? {
      assert a + (b + r.value) == a + b + r.value;
    }
  }

  lemma {:induction false} BodyWrong(s: bytes, start: int) returns (k: nat, text: string)
    requires start < 0 && ReadBody(s, start).Err?
    ensures k <= |s| && SpellsChars(s[..k], text)
    ensures k < |s| ==> s[k] != QUOTE && ReadChar(s[k..]).Err?
    decreases |s|
  {
    hide ReadChar, SpellsChar;
    if s == [] || ReadChar(s).Err? {
      k, text := 0, "";
      assert s[0..] == s;
    } else {
      var m, c := ReadChar(s).len, ReadChar(s).value;
      CharExactly(s, c, m);
      var j, more := BodyWrong(s[m..], start - m);
      k, text := m + j, [c] + more;
      assert s[..k][..m] == s[..m] && s[..k][m..] == s[m..][..j] && s[m..][j..] == s[k..];
      assert text[1..] == more;
      SpellsMore(s[..k], m, text);
    }
  }

  // A literal is refused exactly at the first place where it goes wrong.
  lemma StringErrorExactly(s: bytes, kind: Kind, at: int)
    requires s != [] && s[0] == QUOTE
    ensures ReadString(s) == Err(kind, at) <==> exists k: nat, text: string :: WrongAt(s, k, text, kind, at)
  {
    hide ReadBody, ReadChar, SpellsChars, CharError;
    if ReadString(s).Err? {
      var k, text := BodyWrong(s[1..], -1);
      assert s[1..][..k] == s[1..k + 1] && s[1..][k..] == s[k + 1..];
      assert k < |s[1..]| ==> s[1..][k] == s[k + 1];
      WrongBody(s, k + 1, text);
      var r := ReadString(s);
      assert WrongAt(s, k + 1, text, r.kind, r.at);
    }
    if k: nat, text: string :| WrongAt(s, k, text, kind, at) {
      if k < |s| {
        CharErrorExactly(s[k..]);
      }
      WrongBody(s, k, text);
    }
  }

  lemma WrongBody(s: bytes, k: nat, text: string)
    requires s != [] && s[0] == QUOTE && 1 <= k <= |s| && SpellsChars(s[1..k], text)
    requires k < |s| ==> s[k] != QUOTE && ReadChar(s[k..]).Err?
    ensures k == |s| ==> ReadString(s) == Err(UnexpectedEof, 0)
    ensures k < |s| ==> CharError(s[k..]).Some? && ReadString(s) == Err(CharError(s[k..]).value, k)
  {
    hide ReadChar, SpellsChars, CharError;
    assert s[1..][..k - 1] == s[1..k] && s[1..][k - 1..] == s[k..];
    BodyAfter(s[1..], -1, k - 1, text);
    if k < |s| {
      CharErrorExactly(s[k..]);
    }
  }

  // ---- Numbers ----

  // The lexeme l leads s, and nothing after it carries it on.
  predicate Leads(l: Lexeme, s: bytes) {
    l.Valid() && l.Text() <= s && Ended(l, s[|l.Text()|..])
  }

  // l is worth 2^1024 - 2^970 or more.
  predicate Beyond(l: Lexeme)
    requires l.Valid()
  {
    Written(l) * Pow10(Raised(l)) >= (Pow2(1024) - Pow2(970)) * Pow10(Lowered(l))
  }

  // A number is refused because no lexeme leads the text, or because the one
  // that does is out of range.
  lemma NumberErrorExactly(s: bytes, kind: Kind, at: int)
    ensures ReadNumber(s) == Err(kind, at) <==>
            && at == 0
            && ((kind == InvalidNumber && !exists l: Lexeme :: Leads(l, s))
                || (kind == NumberOutOfRange && exists l: Lexeme :: Leads(l, s) && Beyond(l)))
  {
    hide ReadNumber, Beyond, Lexeme.Valid, Lexeme.Text, Ended;
    if l: Lexeme :| Leads(l, s) {
      LeadRead(l, s);
      forall k: Lexeme | Leads(k, s)
        ensures k == l
      {
        OneLeads(k, l, s);
      }
    } else {
      NoneLeads(s);
    }
  }

  lemma LeadRead(l: Lexeme, s: bytes)
    requires Leads(l, s)
    ensures l.Valid()
    ensures if Beyond(l) then ReadNumber(s) == Err(NumberOutOfRange, 0) else ReadNumber(s).Ok?
  {
    hide ReadNumber, Lexeme.Valid, Lexeme.Text, Ended, Pow10, Pow2, Written, Raised, Lowered;
    assert s == l.Text() + s[|l.Text()|..];
    RangeExactly(l, s[|l.Text()|..]);
  }

  lemma OneLeads(k: Lexeme, l: Lexeme, s: bytes)
    requires Leads(k, s) && Leads(l, s)
    ensures k == l
  {
    hide ScanNumber, Lexeme.Valid, Lexeme.Text, Ended;
    assert s == k.Text() + s[|k.Text()|..] && s == l.Text() + s[|l.Text()|..];
    ScanComplete(k, s[|k.Text()|..]);
    ScanComplete(l, s[|l.Text()|..]);
  }

  lemma NoneLeads(s: bytes)
    requires !exists l: Lexeme :: Leads(l, s)
    ensures ReadNumber(s) == Err(InvalidNumber, 0)
  {
    hide Leads, Lexeme.Valid;
    if ScanNumber(s).Ok? {
      ScannedLeads(s);
    }
  }

  lemma ScannedLeads(s: bytes)
    requires ScanNumber(s).Ok?
    ensures Leads(ScanNumber(s).value, s)
  {
    hide ScanNumber, Lexeme.Valid, Lexeme.Text, Ended;
    ScanSound(s);
    ScanEnded(s);
  }

  // ---- Tokens ----

  // What a text that starts with no token is refused with, by its first byte.
  lemma TokenErrorExactly(s: bytes, kind: Kind, at: int)
    requires s != []
    ensures Next(s) == Err(kind, at) <==>
            if s[0] in [0x7B, 0x7D, 0x5B, 0x5D, 0x3A, 0x2C] then false
            else if s[0] == 0x22 then exists k: nat, text: string :: WrongAt(s, k, text, kind, at)
            else if s[0] == 0x74 then !(TEXT_TRUE <= s) && kind == InvalidLiteral && at == 0
            else if s[0] == 0x66 then !(TEXT_FALSE <= s) && kind == InvalidLiteral && at == 0
            else if s[0] == 0x6E then !(TEXT_NULL <= s) && kind == InvalidLiteral && at == 0
            else if s[0] == 0x2D || 0x30 <= s[0] <= 0x39 then ReadNumber(s) == Err(kind, at)
            else kind == UnexpectedChar(s[0]) && at == 0
  {
    hide ReadString, ReadNumber, WrongAt;
    if s[0] == QUOTE {
      StringErrorExactly(s, kind, at);
    }
  }

  // ---- Texts ----

  // The offset after these tokens, which start at o.
  function Reached(ts: seq<PositionedToken>, o: nat): nat {
    if ts == [] then o else ts[|ts| - 1].end.offset
  }

  // The error of a text is that of what follows its last token and the spaces
  // after it, at the offset where that goes wrong.
  lemma {:induction false} ScanErrorIs(s: bytes, o: nat)
    requires o <= |s| && ScanAt(s, o).error.Some?
    ensures var e, r := ScanAt(s, o).error.value, Reached(ScanAt(s, o).tokens, o);
            && r <= |s|
            && var i := r + SkipSpace(s[r..]);
            i < |s| && Next(s[i..]) == Err(e.kind, e.pos.offset - i) && e.pos == PosAt(s, e.pos.offset)
    decreases |s| - o
  {
    hide Next, SkipSpace, PosAt, Prepend, ScanAt;
    var i := o + SkipSpace(s[o..]);
    if i == |s| {
      ScanDone(s, o);
      assert false;
    } else {
      var r := Next(s[i..]);
      ScanStep(s, o, i, r);
      if r.Ok? {
        var t := PositionedToken(r.value, PosAt(s, i), PosAt(s, i + r.len));
        PrependIs(t, ScanAt(s, i + r.len));
        ScanErrorIs(s, i + r.len);
      }
    }
  }

  lemma PrependIs(t: PositionedToken, r: Scan)
    ensures Prepend([t], r).error == r.error
    ensures Reached(Prepend([t], r).tokens, 0) == Reached(r.tokens, t.end.offset)
    ensures Prepend([t], r).tokens != []
  {}
}
