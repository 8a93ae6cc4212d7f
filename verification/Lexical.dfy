// What each reader of the tokeniser finds at the head of the remaining bytes
// (cjson-rs/src/tokeniser.rs), as functions; class Tokeniser refines them.
module Lexical {
  import opened Bytes
  import opened Errors
  import opened Numbers
  import opened Values
  import Utf8

  // ---- Whitespace ----

  function SkipSpace(s: bytes): (n: nat)
    ensures n <= |s|
    ensures forall i :: 0 <= i < n ==> IsSpace(s[i])
    ensures n < |s| ==> !IsSpace(s[n])
  {
    if s != [] && IsSpace(s[0]) then 1 + SkipSpace(s[1..]) else 0
  }

  // ---- Strings (section 7) ----

  function HexDigit(b: byte): (d: Option<nat>)
    ensures d.Some? ==> d.value < 16 && b < 0x80
  {
    if 0x30 <= b <= 0x39 then Some(b - 0x30)
    else if 0x61 <= b <= 0x66 then Some(b - 0x61 + 10)
    else if 0x41 <= b <= 0x46 then Some(b - 0x41 + 10)
    else None
  }

  // k more hex digits, after those already gathered in val.
  function ReadHex(s: bytes, k: nat, val: nat): (r: Lex<nat>)
    ensures r.Ok? ==> r.len == k <= |s|
    ensures r.Err? ==> r.at == 0
    decreases k
  {
    if k == 0 then Ok(val, 0)
    else if s == [] then Err(UnexpectedEof, 0)
    else match HexDigit(s[0])
      case None => Err(InvalidUnicodeEscape, 0)
      case Some(d) =>
        match ReadHex(s[1..], k - 1, val * 16 + d)
        case Ok(v, n) => Ok(v, n + 1)
        case Err(kind, _) => Err(kind, 0)
  }

  predicate IsHigh(n: nat) { 0xD800 <= n <= 0xDBFF }
  predicate IsLow(n: nat) { 0xDC00 <= n <= 0xDFFF }

  // The scalar value with this number, when there is one.
  function FromU32(n: nat): Option<char> {
    if n < 0xD800 || 0xE000 <= n < 0x11_0000 then Some(n as char) else None
  }

  // The escape of a low surrogate that must follow a high one.
  function JoinLow(s: bytes, high: nat): (r: Lex<char>)
    requires IsHigh(high)
    ensures r.Ok? ==> r.len == 6 <= |s|
    ensures r.Err? ==> r.at == 0
  {
    if |s| >= 2 && s[0] == BACKSLASH && s[1] == LETTER_U then
      match ReadHex(s[2..], 4, 0)
      case Err(kind, _) => Err(kind, 0)
      case Ok(low, _) =>
        if !IsLow(low) then Err(InvalidSurrogatePair, 0)
        else match FromU32(0x1_0000 + (high - 0xD800) * 1024 + (low - 0xDC00))
          case Some(c) => Ok(c, 6)
          case None => Err(InvalidSurrogatePair, 0)
    else Err(InvalidSurrogatePair, 0)
  }

  // What follows "\u": four hex digits, or a surrogate pair of two escapes.
  function ReadUnicodeEscape(s: bytes): (r: Lex<char>)
    ensures r.Ok? ==> r.len <= |s|
    ensures r.Err? ==> r.at == 0
  {
    match ReadHex(s, 4, 0)
    case Err(kind, _) => Err(kind, 0)
    case Ok(high, _) =>
      if IsHigh(high) then
        match JoinLow(s[4..], high)
        case Ok(c, n) => Ok(c, 4 + n)
        case Err(kind, _) => Err(kind, 0)
      else if IsLow(high) then Err(InvalidSurrogatePair, 0)
      else match FromU32(high)
        case Some(c) => Ok(c, 4)
        case None => Err(InvalidUnicodeEscape, 0)
  }

  // The character a one-letter escape stands for.
  function ShortEscape(b: byte): Option<char> {
    if b == QUOTE then Some('"')
    else if b == BACKSLASH then Some('\\')
    else if b == SLASH then Some('/')
    else if b == 0x62 then Some(8 as char)
    else if b == 0x66 then Some(12 as char)
    else if b == 0x6E then Some('\n')
    else if b == 0x72 then Some('\r')
    else if b == 0x74 then Some('\t')
    else None
  }

  function ReadEscape(s: bytes): (r: Lex<char>)
    requires s != []
    ensures r.Ok? ==> 2 <= r.len <= |s|
    ensures r.Err? ==> r.at == 0
  {
    if |s| == 1 then Err(UnexpectedEof, 0)
    else if s[1] == LETTER_U then
      match ReadUnicodeEscape(s[2..])
      case Ok(c, n) => Ok(c, n + 2)
      case Err(kind, _) => Err(kind, 0)
    else match ShortEscape(s[1])
      case Some(c) => Ok(c, 2)
      case None => Err(InvalidEscape, 0)
  }

  // One character of a string body.
  function ReadChar(s: bytes): (r: Lex<char>)
    requires s != []
    ensures r.Ok? ==> 1 <= r.len <= |s|
    ensures r.Err? ==> r.at == 0
  {
    if s[0] == BACKSLASH then ReadEscape(s)
    else if s[0] < 0x20 then Err(UnexpectedChar(s[0]), 0)
    else if s[0] < 0x80 then Ok(s[0] as char, 1)
    else Utf8.ReadUtf8Char(s)
  }

  // The result for the whole body, from the result for what follows text that
  // took k bytes.
  function After(text: string, k: nat, r: Lex<string>): Lex<string> {
    match r
    case Ok(more, n) => Ok(text + more, k + n)
    case Err(kind, at) => Err(kind, k + at)
  }

  // The rest of a string whose opening quote lies at offset start, relative to
  // the head of s (so start is negative).
  function ReadBody(s: bytes, start: int): (r: Lex<string>)
    requires start < 0
    ensures r.Ok? ==> 1 <= r.len <= |s|
    ensures r.Err? ==> r.at == start || 0 <= r.at < |s|
    decreases |s|
  {
    if s == [] then Err(UnexpectedEof, start)
    else if s[0] == QUOTE then Ok("", 1)
    else match ReadChar(s)
      case Err(kind, at) => Err(kind, at)
      case Ok(c, n) => After([c], n, ReadBody(s[n..], start - n))
  }

  function ReadString(s: bytes): (r: Lex<string>)
    requires s != []
    ensures r.Ok? ==> 2 <= r.len <= |s|
    ensures r.Err? ==> 0 <= r.at < |s|
  {
    After("", 1, ReadBody(s[1..], -1))
  }

  // ---- Numbers (section 6) ----

  function DigitRun(s: bytes): (n: nat)
    ensures n <= |s|
    ensures forall i :: 0 <= i < n ==> IsDigit(s[i])
    ensures n < |s| ==> !IsDigit(s[n])
  {
    if s != [] && IsDigit(s[0]) then 1 + DigitRun(s[1..]) else 0
  }

  function ScanWhole(s: bytes): (n: nat)
    ensures n <= |s|
    ensures forall i :: 0 <= i < n ==> IsDigit(s[i])
    ensures n > 0 && s[0] == ZERO ==> n == 1
  {
    if s == [] then 0 else if s[0] == ZERO then 1 else DigitRun(s)
  }

  // Digits after a point; no point means no fraction.
  function ScanFrac(s: bytes): (r: Lex<bytes>)
    ensures r.Ok? ==> r.len <= |s|
    ensures r.Ok? ==> AllDigits(r.value)
    ensures r.Err? ==> r.kind == InvalidNumber
  {
    if s == [] || s[0] != DOT then Ok([], 0)
    else
      var k := DigitRun(s[1..]);
      if k == 0 then Err(InvalidNumber, 0)
      else
        assert forall i :: 0 <= i < k ==> s[1..1 + k][i] == s[1..][i];
        Ok(s[1..1 + k], 1 + k)
  }

  function ScanExp(s: bytes): (r: Lex<Exponent>)
    ensures r.Ok? ==> r.len <= |s|
    ensures r.Ok? ==> r.value.Valid()
    ensures r.Err? ==> r.kind == InvalidNumber
  {
    if s == [] || (s[0] != 0x65 && s[0] != 0x45) then Ok(NoExp, 0)
    else
      var g := if |s| > 1 && (s[1] == PLUS || s[1] == MINUS) then 1 else 0;
      var k := DigitRun(s[1 + g..]);
      if k == 0 then Err(InvalidNumber, 0)
      else
        var sign, digits := s[1..1 + g], s[1 + g..1 + g + k];
        assert sign == if g == 0 then [] else [s[1]];
        assert forall i :: 0 <= i < k ==> digits[i] == s[1 + g..][i];
        Ok(Exp(s[0], sign, digits), 1 + g + k)
  }

  function ScanNumber(s: bytes): (r: Lex<Lexeme>)
    ensures r.Ok? ==> 1 <= r.len <= |s|
    ensures r.Ok? ==> r.value.Valid()
    ensures r.Err? ==> r.at == 0
  {
    var m := if s != [] && s[0] == MINUS then 1 else 0;
    var a := s[m..];
    var w := ScanWhole(a);
    if w == 0 then Err(InvalidNumber, 0)
    else
      var b := a[w..];
      match ScanFrac(b)
      case Err(kind, _) => Err(kind, 0)
      case Ok(frac, f) =>
        var c := b[f..];
        match ScanExp(c)
        case Err(kind, _) => Err(kind, 0)
        case Ok(exp, e) => Ok(Lexeme(m == 1, a[..w], frac, exp), m + w + f + e)
  }

  function ReadNumber(s: bytes): (r: Lex<Num>)
    ensures r.Ok? ==> 1 <= r.len <= |s|
    ensures r.Err? ==> r.at == 0
  {
    match ScanNumber(s)
    case Err(kind, at) => Err(kind, at)
    case Ok(l, n) =>
      var v := l.Eval();
      if InRange(v.coef, v.exp) then Ok(v, n) else Err(NumberOutOfRange, 0)
  }

  // ---- Tokens ----

  function ReadLiteral(s: bytes, text: bytes, token: Token): (r: Lex<Token>)
    ensures r.Ok? ==> r.len == |text| <= |s|
    ensures r.Err? ==> r.at == 0
  {
    if text <= s then Ok(token, |text|) else Err(InvalidLiteral, 0)
  }

  function Punctuation(b: byte): Option<Token> {
    if b == OPEN_BRACE then Some(BeginObject)
    else if b == CLOSE_BRACE then Some(EndObject)
    else if b == OPEN_BRACKET then Some(BeginArray)
    else if b == CLOSE_BRACKET then Some(EndArray)
    else if b == COLON then Some(NameSeparator)
    else if b == COMMA then Some(ValueSeparator)
    else None
  }

  function Next(s: bytes): (r: Lex<Token>)
    requires s != []
    ensures r.Ok? ==> 1 <= r.len <= |s|
    ensures r.Err? ==> 0 <= r.at < |s|
  {
    var b := s[0];
    if Punctuation(b).Some? then Ok(Punctuation(b).value, 1)
    else if b == QUOTE then
      match ReadString(s)
      case Ok(text, n) => Ok(StringToken(text), n)
      case Err(kind, at) => Err(kind, at)
    else if b == TEXT_TRUE[0] then ReadLiteral(s, TEXT_TRUE, TrueToken)
    else if b == TEXT_FALSE[0] then ReadLiteral(s, TEXT_FALSE, FalseToken)
    else if b == TEXT_NULL[0] then ReadLiteral(s, TEXT_NULL, NullToken)
    else if b == MINUS || IsDigit(b) then
      match ReadNumber(s)
      case Ok(v, n) => Ok(NumberToken(v), n)
      case Err(kind, at) => Err(kind, at)
    else Err(UnexpectedChar(b), 0)
  }

  // ---- Positions ----

  // A newline starts a line; a continuation byte of UTF-8 adds no column.
  function Step(p: Position, b: byte): Position {
    if b == NEWLINE then Position(p.line + 1, 1, p.offset + 1)
    else if Utf8.IsTail(b) then p.(offset := p.offset + 1)
    else Position(p.line, p.column + 1, p.offset + 1)
  }

  // The position after the bytes w, starting from p.
  function Move(p: Position, w: bytes): (q: Position)
    ensures q.offset == p.offset + |w|
  {
    if w == [] then p else Step(Move(p, w[..|w| - 1]), w[|w| - 1])
  }

  // ---- The token streams ----

  // The tokens read, and the error that stopped the reading, if one did.
  datatype Scan = Scan(tokens: seq<PositionedToken>, error: Option<Error>)

  // The position of the byte at offset o.
  function PosAt(input: bytes, o: nat): (p: Position)
    requires o <= |input|
    ensures p.offset == o
  {
    Move(START, input[..o])
  }

  // Every token of input from offset o on, up to the end or the first error.
  function ScanAt(input: bytes, o: nat): Scan
    requires o <= |input|
    decreases |input| - o
  {
    var i := o + SkipSpace(input[o..]);
    if i == |input| then Scan([], None)
    else match Next(input[i..])
      case Err(kind, at) => Scan([], Some(Error(kind, PosAt(input, i + at))))
      case Ok(token, n) =>
        Prepend([PositionedToken(token, PosAt(input, i), PosAt(input, i + n))], ScanAt(input, i + n))
  }

  function Prepend(ts: seq<PositionedToken>, r: Scan): Scan {
    Scan(ts + r.tokens, r.error)
  }
}
