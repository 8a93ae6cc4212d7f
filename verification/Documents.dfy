// The grammar of JSON over bytes (RFC 8259): a text is parsed to a value
// exactly when it spells that value.
module Documents {
  import opened Bytes
  import opened Errors
  import opened Numbers
  import opened Values
  import opened Lexical
  import opened NumberReading
  import opened Escapes
  import opened Spelling
  import opened Streams
  import opened Parsing
  import opened RoundTrip
  import opened Prefix
  import opened MinifyMeaning
  import Utf8

  // ---- Strings (section 7) ----

  lemma CharExactly(s: bytes, c: char, n: nat)
    requires s != [] && s[0] != QUOTE
    ensures ReadChar(s) == Ok(c, n) <==> n <= |s| && SpellsChar(s[..n], c)
  {
    hide ReadUnicodeEscape, SpellsEscape, Utf8.Encode, Utf8.ReadUtf8Char;
    if s[0] == BACKSLASH {
      EscapedExactly(s, c, n);
    } else {
      RawExactly(s, c, n);
    }
  }

  lemma EscapedExactly(s: bytes, c: char, n: nat)
    requires s != [] && s[0] == BACKSLASH
    ensures ReadChar(s) == Ok(c, n) <==> n <= |s| && SpellsChar(s[..n], c)
  {
    hide ReadUnicodeEscape, SpellsEscape, Utf8.Encode, Utf8.ReadUtf8Char;
    EncodedHead(c);
    if |s| > 1 {
      if n > 2 {
        EscapeExactly(s[2..], c, n - 2);
        assert n <= |s| ==> s[..n][2..] == s[2..][..n - 2];
      }
      if ReadUnicodeEscape(s[2..]).Ok? {
        var r := ReadUnicodeEscape(s[2..]);
        EscapeExactly(s[2..], r.value, r.len);
        EscapeLength(s[2..][..r.len], r.value);
      }
      assert n <= |s| && n > 1 ==> s[..n][1] == s[1];
    }
  }

  lemma EscapeLength(w: bytes, c: char)
    requires SpellsEscape(w, c)
    ensures |w| == 4 || |w| == 10
  {
    hide Utf16, QuadValue, IsQuad;
  }

  lemma EncodedHead(c: char)
    ensures Utf8.Encode(c)[0] == BACKSLASH <==> c == '\\'
    ensures Utf8.Encode(c)[0] == QUOTE <==> c == '"'
    ensures Utf8.Encode(c)[0] < 0x80 ==> Utf8.Encode(c) == [c as int]
    ensures c as int < 0x80 ==> Utf8.Encode(c) == [c as int]
  {}

  lemma RawExactly(s: bytes, c: char, n: nat)
    requires s != [] && s[0] != BACKSLASH && s[0] != QUOTE
    ensures ReadChar(s) == Ok(c, n) <==> n <= |s| && SpellsChar(s[..n], c)
  {
    hide ReadUnicodeEscape, SpellsEscape, Utf8.Encode, Utf8.ReadUtf8Char;
    EncodedHead(c);
    if s[0] >= 0x80 {
      if Utf8.ReadUtf8Char(s) == Ok(c, n) {
        Utf8.ReadIsEncoded(s);
      }
      if n <= |s| && s[..n] == Utf8.Encode(c) {
        assert s == Utf8.Encode(c) + s[n..];
        Utf8.ReadEncoded(c, s[n..]);
      }
    }
  }

  lemma {:induction false} BodySpelled(s: bytes, start: int, text: string, n: nat)
    requires start < 0 && ReadBody(s, start) == Ok(text, n)
    ensures 1 <= n <= |s| && s[n - 1] == QUOTE && SpellsChars(s[..n - 1], text)
    decreases |s|
  {
    hide ReadChar, SpellsChar;
    if s[0] != QUOTE {
      var k := ReadChar(s).len;
      CharExactly(s, ReadChar(s).value, k);
      BodySpelled(s[k..], start - k, text[1..], n - k);
      assert s[..n - 1][..k] == s[..k] && s[..n - 1][k..] == s[k..][..n - k - 1];
      SpellsMore(s[..n - 1], k, text);
    }
  }

  lemma SpellsMore(w: bytes, k: nat, text: string)
    requires text != "" && 1 <= k <= |w| && SpellsChar(w[..k], text[0]) && SpellsChars(w[k..], text[1..])
    ensures SpellsChars(w, text)
  {
    hide SpellsChar;
  }

  lemma {:induction false} SpelledBody(s: bytes, start: int, text: string, n: nat)
    requires start < 0 && 1 <= n <= |s| && s[n - 1] == QUOTE && SpellsChars(s[..n - 1], text)
    ensures ReadBody(s, start) == Ok(text, n)
    decreases |text|
  {
    hide ReadChar, SpellsChar, ReadBody;
    var w := s[..n - 1];
    if text == "" {
      BodyEnds(s, start);
    } else {
      var k: nat :| 1 <= k <= |w| && SpellsChar(w[..k], text[0]) && SpellsChars(w[k..], text[1..]);
      assert s[..k] == w[..k] && s[k..][..n - k - 1] == w[k..] && s[k..][n - k - 1] == s[n - 1];
      SpelledHead(w[..k], text[0]);
      CharExactly(s, text[0], k);
      SpelledBody(s[k..], start - k, text[1..], n - k);
      BodyGoesOn(s, start, text[0], k, text[1..], n - k);
      assert [text[0]] + text[1..] == text;
    }
  }

  lemma BodyEnds(s: bytes, start: int)
    requires start < 0 && s != [] && s[0] == QUOTE
    ensures ReadBody(s, start) == Ok("", 1)
  {}

  lemma BodyGoesOn(s: bytes, start: int, c: char, k: nat, more: string, n: nat)
    requires start < 0 && s != [] && s[0] != QUOTE && ReadChar(s) == Ok(c, k)
    requires ReadBody(s[k..], start - k) == Ok(more, n)
    ensures ReadBody(s, start) == Ok([c] + more, k + n)
  {
    hide ReadChar;
  }

  lemma SpelledHead(w: bytes, c: char)
    requires SpellsChar(w, c)
    ensures w != [] && w[0] != QUOTE
  {
    hide SpellsEscape, Utf8.Encode;
    EncodedHead(c);
  }

  // A literal is read exactly when it is spelled, and up to its closing quote.
  lemma StringExactly(s: bytes, text: string, n: nat)
    requires s != [] && s[0] == QUOTE
    ensures ReadString(s) == Ok(text, n) <==> n <= |s| && SpellsString(s[..n], text)
  {
    hide SpellsChars, ReadBody;
    var r := ReadBody(s[1..], -1);
    if r.Ok? {
      assert "" + r.value == r.value;
      BodySpelled(s[1..], -1, r.value, r.len);
      assert s[1..][..r.len - 1] == s[..r.len + 1][1..r.len];
    }
    if 2 <= n <= |s| && SpellsString(s[..n], text) {
      assert s[..n][1..n - 1] == s[1..][..n - 2] && s[..n][n - 1] == s[1..][n - 2];
      SpelledBody(s[1..], -1, text, n - 1);
    }
  }

  // ---- Tokens (sections 2, 3 and 6) ----

  ghost predicate SpellsToken(w: bytes, t: Token) {
    match t
    case BeginObject => w == [OPEN_BRACE]
    case EndObject => w == [CLOSE_BRACE]
    case BeginArray => w == [OPEN_BRACKET]
    case EndArray => w == [CLOSE_BRACKET]
    case NameSeparator => w == [COLON]
    case ValueSeparator => w == [COMMA]
    case NullToken => w == TEXT_NULL
    case TrueToken => w == TEXT_TRUE
    case FalseToken => w == TEXT_FALSE
    case NumberToken(n) => exists l: Lexeme :: l.Valid() && l.Text() == w && l.Eval() == n
    case StringToken(text) => SpellsString(w, text)
  }

  // Nothing in rest carries on the number w spells.
  ghost predicate Whole(w: bytes, rest: bytes) {
    forall l: Lexeme :: l.Valid() && l.Text() == w ==> Ended(l, rest)
  }

  // A token is read exactly when it is spelled, and if it is a number, all of
  // it is.
  lemma TokenExactly(s: bytes, t: Token, n: nat)
    requires s != []
    ensures Next(s) == Ok(t, n)
            <==> n <= |s| && SpellsToken(s[..n], t) && (t.NumberToken? ==> Whole(s[..n], s[n..]))
  {
    hide ReadString, ReadNumber, ReadLiteral, SpellsToken, Whole, Next;
    if Next(s) == Ok(t, n) {
      TokenSpelled(s, t, n);
    }
    if n <= |s| && SpellsToken(s[..n], t) && (t.NumberToken? ==> Whole(s[..n], s[n..])) {
      SpelledToken(s, t, n);
    }
  }

  lemma TokenSpelled(s: bytes, t: Token, n: nat)
    requires s != [] && Next(s) == Ok(t, n)
    ensures n <= |s| && SpellsToken(s[..n], t) && (t.NumberToken? ==> Whole(s[..n], s[n..]))
  {
    hide ReadString, ReadNumber, SpellsString, Whole, Lexeme.Valid, Lexeme.Text, Lexeme.Eval;
    match t
    case NumberToken(v) =>
      NumberIsNumber(s, t, n);
      NumberSpelled(s, v, n);
    case StringToken(text) => StringExactly(s, text, n);
    case _ =>
  }

  lemma NumberSpelled(s: bytes, v: Num, n: nat)
    requires ReadNumber(s) == Ok(v, n)
    ensures SpellsToken(s[..n], NumberToken(v)) && Whole(s[..n], s[n..])
  {
    hide ScanNumber, Lexeme.Valid, Lexeme.Text, Lexeme.Eval, Ended, InRange;
    ScanSound(s);
    ScanEnded(s);
    forall l: Lexeme | l.Valid() && l.Text() == s[..n]
      ensures Ended(l, s[n..])
    {
      LexemeUnique(l, ScanNumber(s).value);
    }
  }

  lemma SpelledToken(s: bytes, t: Token, n: nat)
    requires s != [] && n <= |s| && SpellsToken(s[..n], t) && (t.NumberToken? ==> Whole(s[..n], s[n..]))
    ensures Next(s) == Ok(t, n)
  {
    hide ReadString, ReadNumber, SpellsString, Whole, Lexeme.Valid, Lexeme.Text, Lexeme.Eval;
    SpelledStart(s[..n], t);
    assert s[..n][0] == s[0];
    match t
    case NumberToken(v) => SpelledNumber(s, v, n);
    case StringToken(text) => StringExactly(s, text, n);
    case _ =>
  }

  // No spelling is empty or starts with a space, and no other token starts as
  // a number goes on.
  lemma SpelledStart(w: bytes, t: Token)
    requires SpellsToken(w, t)
    ensures w != [] && !IsSpace(w[0]) && (!t.NumberToken? ==> !Continues(w[0]))
    ensures t.NumberToken? ==> w[0] == MINUS || IsDigit(w[0])
    ensures t.StringToken? ==> w[0] == QUOTE
  {
    hide SpellsChars, Lexeme.Valid, Lexeme.Text, Lexeme.Eval;
    if t.NumberToken? {
      var l: Lexeme :| l.Valid() && l.Text() == w;
      NumberEnds(l);
    }
  }

  lemma SpelledNumber(s: bytes, v: Num, n: nat)
    requires n <= |s| && SpellsToken(s[..n], NumberToken(v)) && Whole(s[..n], s[n..])
    ensures ReadNumber(s) == Ok(v, n)
  {
    hide ReadNumber, Lexeme.Valid, Lexeme.Text, Lexeme.Eval, Ended, InRange;
    var l: Lexeme :| l.Valid() && l.Text() == s[..n] && l.Eval() == v;
    assert s == l.Text() + s[n..];
    NumberRead(l, s[n..]);
  }

  // ---- Texts ----

  // The spellings of ts in order, with spaces around them.
  ghost predicate Laid(s: bytes, ts: seq<Token>)
    decreases |ts|
  {
    if ts == [] then forall i :: 0 <= i < |s| ==> IsSpace(s[i])
    else exists w: nat, n: nat :: LaidAt(s, ts, w, n) && Laid(s[w + n..], ts[1..])
  }

  ghost predicate LaidAt(s: bytes, ts: seq<Token>, w: nat, n: nat) {
    && ts != [] && w + n <= |s| && (forall i :: 0 <= i < w ==> IsSpace(s[i]))
    && SpellsToken(s[w..w + n], ts[0])
  }

  // The tokeniser accepts a text as ts exactly when it spells them, given that
  // no two numbers are adjacent.
  lemma {:induction false} StreamExactly(s: bytes, ts: seq<Token>)
    requires Separated(ts)
    ensures StreamOf(s) == Stream(ts, true) <==> Laid(s, ts)
    decreases |ts|
  {
    hide StreamOf, Laid, Separated, SpellsToken;
    if StreamOf(s) == Stream(ts, true) {
      StreamLaid(s, ts);
    }
    if Laid(s, ts) {
      LaidStream(s, ts);
    }
  }

  lemma {:induction false} StreamLaid(s: bytes, ts: seq<Token>)
    requires StreamOf(s) == Stream(ts, true)
    ensures Laid(s, ts)
    decreases |s|
  {
    hide StreamOf, Laid, SpellsToken, Next, SkipSpace;
    var w := SkipSpace(s);
    if w == |s| {
      StreamEnd(s);
      LaidNone(s);
    } else {
      var r := Next(s[w..]);
      StreamStep(s, w, r);
      TokenExactly(s[w..], r.value, r.len);
      var rest := s[w + r.len..];
      assert ts[0] == r.value && ts[1..] == StreamOf(rest).tokens;
      StreamLaid(rest, ts[1..]);
      TakeFrom(s, w, r.len);
      LaidMore(s, ts, w, r.len);
    }
  }

  lemma TakeFrom(s: bytes, w: nat, n: nat)
    requires w + n <= |s|
    ensures s[w..w + n] == s[w..][..n]
  {}

  lemma LaidNone(s: bytes)
    requires SkipSpace(s) == |s|
    ensures Laid(s, [])
  {
    hide SkipSpace;
  }

  lemma {:induction false} AllSpace(s: bytes)
    requires forall i :: 0 <= i < |s| ==> IsSpace(s[i])
    ensures SkipSpace(s) == |s|
  {
    if s != [] {
      AllSpace(s[1..]);
    }
  }

  lemma LaidMore(s: bytes, ts: seq<Token>, w: nat, n: nat)
    requires ts != [] && LaidAt(s, ts, w, n) && Laid(s[w + n..], ts[1..])
    ensures Laid(s, ts)
  {
    hide LaidAt;
  }

  lemma {:induction false} LaidStream(s: bytes, ts: seq<Token>)
    requires Laid(s, ts) && Separated(ts)
    ensures StreamOf(s) == Stream(ts, true)
    decreases |ts|
  {
    hide StreamOf, SpellsToken, Next, SkipSpace, Separated;
    if ts == [] {
      AllSpace(s);
      StreamEnd(s);
    } else {
      var w: nat, n: nat :| LaidAt(s, ts, w, n) && Laid(s[w + n..], ts[1..]);
      var rest := s[w + n..];
      assert ts == [ts[0]] + ts[1..];
      SeparatedTail(ts[0], ts[1..]);
      LaidStream(rest, ts[1..]);
      LaidToken(s, ts, w, n);
      assert s == s[..w] + s[w..];
      SpacesThen(s[..w], s[w..]);
      TokenThen(s[w..], ts[0], n);
      DropDrop(s, w, n);
    }
  }

  lemma LaidToken(s: bytes, ts: seq<Token>, w: nat, n: nat)
    requires LaidAt(s, ts, w, n) && Laid(s[w + n..], ts[1..]) && Separated(ts)
    ensures w < |s| && Next(s[w..]) == Ok(ts[0], n)
  {
    hide Next, SpellsToken, Laid;
    var u := s[w..];
    TakeFrom(s, w, n);
    SpelledStart(u[..n], ts[0]);
    DropDrop(s, w, n);
    if ts[0].NumberToken? {
      LaidStart(u[n..], ts[1..]);
      forall l: Lexeme | l.Valid() && l.Text() == u[..n]
        ensures Ended(l, u[n..])
      {
        StopsEnded(l, u[n..]);
      }
    }
    TokenExactly(u, ts[0], n);
  }

  lemma LaidStart(s: bytes, ts: seq<Token>)
    requires Laid(s, ts) && (ts != [] ==> !ts[0].NumberToken?)
    ensures Stops(s)
  {
    hide SpellsToken;
    if ts != [] {
      var w: nat, n: nat :| LaidAt(s, ts, w, n) && Laid(s[w + n..], ts[1..]);
      SpelledStart(s[w..w + n], ts[0]);
    }
  }

  // The texts that spell v: its tokens, with spaces around them.
  ghost predicate Document(s: bytes, v: Value) {
    Laid(s, Flatten(v))
  }

  // A text is parsed to a value exactly when it spells that value and does not
  // nest too deep.
  lemma ParsesDocument(s: bytes, v: Value, limit: nat)
    ensures Parse(s, limit) == Success(v) <==> Document(s, v) && Depth(v) <= limit
  {
    hide Parse, StreamOf, Flatten, Depth, Laid, Separated;
    ParsesExactly(s, v, limit);
    FlattenSeparated(v);
    StreamExactly(s, Flatten(v));
  }

  // So no text spells two values.
  lemma DocumentUnambiguous(s: bytes, v: Value, w: Value)
    requires Document(s, v) && Document(s, w)
    ensures v == w
  {
    hide Parse, Document, Depth;
    ParsesDocument(s, v, Max(Depth(v), Depth(w)));
    ParsesDocument(s, w, Max(Depth(v), Depth(w)));
  }
}
