// The tokeniser (cjson-rs/src/tokeniser.rs): a cursor over bytes whose readers
// find what the functions of module Lexical say, and whose position is always
// the one the bytes before it determine.
module Tokenising {
  import opened Bytes
  import opened Errors
  import opened Numbers
  import opened Values
  import opened Lexical
  import Utf8

  // ---- Positions ----

  lemma {:induction false} MoveConcat(p: Position, a: bytes, b: bytes)
    ensures Move(Move(p, a), b) == Move(p, a + b)
    decreases |b|
  {
    if b == [] {
      assert a + b == a;
    } else {
      MoveConcat(p, a, b[..|b| - 1]);
      assert (a + b)[..|a + b| - 1] == a + b[..|b| - 1];
    }
  }

  lemma MoveOn(p: Position, s: bytes, i: nat, k: nat)
    requires i + k <= |s|
    ensures Move(Move(p, s[..i]), s[i..][..k]) == Move(p, s[..i + k])
  {
    MoveConcat(p, s[..i], s[i..][..k]);
    assert s[..i] + s[i..][..k] == s[..i + k];
  }

  // A whole multi-byte character is one column.
  lemma {:induction false} MoveChar(p: Position, w: bytes)
    requires |w| > 0 && !Utf8.IsTail(w[0]) && w[0] != NEWLINE
    requires forall i :: 1 <= i < |w| ==> Utf8.IsTail(w[i])
    ensures Move(p, w) == Position(p.line, p.column + 1, p.offset + |w|)
    decreases |w|
  {
    if |w| == 1 {
      assert w[..0] == [];
    } else {
      MoveChar(p, w[..|w| - 1]);
    }
  }

  // k digits remain to be read, after which the whole quad reads as told.
  ghost predicate HexLeft(s: bytes, k: int, val: nat, whole: Lex<nat>) {
    && 0 <= k
    && match ReadHex(s, k, val)
       case Ok(v, _) => whole == Ok(v, 4)
       case Err(kind, _) => whole == Err(kind, 0)
  }

  lemma HexStep(s: bytes, k: nat, val: nat, whole: Lex<nat>)
    requires HexLeft(s, k, val, whole)
    ensures k == 0 ==> whole == Ok(val, 4)
    ensures k > 0 && s == [] ==> whole == Err(UnexpectedEof, 0)
    ensures k > 0 && s != [] && HexDigit(s[0]) == None ==> whole == Err(InvalidUnicodeEscape, 0)
    ensures k > 0 && s != [] && HexDigit(s[0]).Some? ==>
      HexLeft(s[1..], k - 1, val * 16 + HexDigit(s[0]).value, whole)
  {}

  // The first o bytes of input have given the tokens out.
  ghost predicate Scanning(input: bytes, out: seq<PositionedToken>, o: nat) {
    o <= |input| && ScanAt(input, 0) == Prepend(out, ScanAt(input, o))
  }

  lemma StartScanning(input: bytes)
    ensures Scanning(input, [], 0)
  {
    hide Next, SkipSpace, ScanAt;
  }

  lemma ScanEnd(input: bytes, out: seq<PositionedToken>, o: nat)
    requires Scanning(input, out, o) && o + SkipSpace(input[o..]) == |input|
    ensures ScanAt(input, 0) == Scan(out, None)
  {
    hide Next, SkipSpace, PosAt;
    assert out + [] == out;
  }

  // One token of the scan: r starts at offset i.
  lemma ScanStep(input: bytes, o: nat, i: nat, r: Lex<Token>)
    requires o <= |input| && i == o + SkipSpace(input[o..]) < |input| && r == Next(input[i..])
    ensures r.Err? ==> ScanAt(input, o) == Scan([], Some(Error(r.kind, PosAt(input, i + r.at))))
    ensures r.Ok? ==>
      ScanAt(input, o)
      == Prepend([PositionedToken(r.value, PosAt(input, i), PosAt(input, i + r.len))], ScanAt(input, i + r.len))
  {
    hide Next, SkipSpace, PosAt, Prepend;
  }

  lemma ScanOn(input: bytes, out: seq<PositionedToken>, o: nat, i: nat, r: Lex<Token>)
    requires Scanning(input, out, o)
    requires i == o + SkipSpace(input[o..]) < |input| && r == Next(input[i..])
    ensures r.Err? ==> ScanAt(input, 0) == Scan(out, Some(Error(r.kind, PosAt(input, i + r.at))))
    ensures r.Ok? ==>
      Scanning(input, out + [PositionedToken(r.value, PosAt(input, i), PosAt(input, i + r.len))], i + r.len)
  {
    hide Next, SkipSpace, PosAt, Prepend, ScanAt;
    ScanStep(input, o, i, r);
    if r.Err? {
      PrependNone(out, ScanAt(input, o).error);
    } else {
      PrependTwice(out, [PositionedToken(r.value, PosAt(input, i), PosAt(input, i + r.len))],
                   ScanAt(input, i + r.len));
    }
  }

  lemma PrependNone(a: seq<PositionedToken>, e: Option<Error>)
    ensures Prepend(a, Scan([], e)) == Scan(a, e)
  {
    assert a + [] == a;
  }

  lemma PrependTwice(a: seq<PositionedToken>, b: seq<PositionedToken>, r: Scan)
    ensures Prepend(a, Prepend(b, r)) == Prepend(a + b, r)
  {
    assert a + (b + r.tokens) == a + b + r.tokens;
  }

  // The length of the fraction and the exponent, if they are well formed.
  function TailLength(b: bytes): (n: Option<nat>)
    ensures n.Some? ==> n.value <= |b|
  {
    match ScanFrac(b)
    case Err(_, _) => None
    case Ok(_, f) =>
      match ScanExp(b[f..])
      case Err(_, _) => None
      case Ok(_, e) => Some(f + e)
  }

  // The outcome of scanning a number, from those of its parts.
  lemma NumberParts(s: bytes, m: nat, a: bytes, w: nat, b: bytes)
    requires m == (if s != [] && s[0] == MINUS then 1 else 0) && a == s[m..] && w == ScanWhole(a) && b == a[w..]
    ensures var r := ScanNumber(s);
            && (r.Ok? <==> w > 0 && TailLength(b).Some?)
            && (r.Err? ==> r.kind == InvalidNumber)
            && (r.Ok? ==> r.len == m + w + TailLength(b).value)
  {
    hide ScanWhole, ScanFrac, ScanExp, AllDigits, Lexeme.Valid, Exponent.Valid;
  }

  // A string of which k bytes are read, giving out, and s is left.
  ghost predicate Pending(whole: Lex<string>, out: string, k: nat, s: bytes) {
    k > 0 && whole == After(out, k, ReadBody(s, 0 - k as int))
  }

  lemma PendingStart(s: bytes)
    requires s != []
    ensures Pending(Lexical.ReadString(s), "", 1, s[1..])
  {
    hide ReadBody;
  }

  lemma PendingChar(whole: Lex<string>, out: string, k: nat, s: bytes, c: char, n: nat)
    requires Pending(whole, out, k, s) && s != [] && s[0] != QUOTE
    requires Lexical.ReadChar(s) == Ok(c, n)
    ensures Pending(whole, out + [c], k + n, s[n..])
  {
    hide Lexical.ReadChar;
    var more := ReadBody(s[n..], 0 - k as int - n);
    if more.Ok? {
      assert out + ([c] + more.value) == out + [c] + more.value;
    }
  }

  lemma PendingEnd(whole: Lex<string>, out: string, k: nat, s: bytes)
    requires Pending(whole, out, k, s)
    ensures s == [] ==> whole == Err(UnexpectedEof, 0)
    ensures s != [] && s[0] == QUOTE ==> whole == Ok(out, k + 1)
    ensures s != [] && s[0] != QUOTE && Lexical.ReadChar(s).Err? ==> whole == Err(Lexical.ReadChar(s).kind, k)
  {
    hide Lexical.ReadChar;
    assert out + "" == out;
  }

  // ---- The cursor ----

  class Tokeniser {
    const input: bytes
    var pos: Position

    ghost function At(offset: int): Position
    {
      if 0 <= offset <= |input| then PosAt(input, offset) else START
    }

    ghost predicate Valid()
      reads this
    {
      pos.offset <= |input| && pos == At(pos.offset)
    }

    function Rest(): bytes
      reads this
    {
      if pos.offset <= |input| then input[pos.offset..] else []
    }

    // The outcome of a reader that started at offset from, where the bytes
    // told lex.
    ghost predicate Took<T>(from: nat, lex: Lex<T>, r: Result<T>)
      reads this
    {
      match lex
      case Ok(v, n) => r == Success(v) && Valid() && pos.offset == from + n
      case Err(kind, at) => r == Failure(Error(kind, At(from + at)))
    }

    constructor (input: bytes)
      ensures Valid() && this.input == input && pos == START
    {
      this.input := input;
      pos := START;
    }

    predicate IsAtEnd()
      reads this
    {
      pos.offset >= |input|
    }

    function PeekAt(n: nat): (b: Option<byte>)
      reads this
      ensures n < |Rest()| ==> b == Some(Rest()[n])
      ensures n >= |Rest()| ==> b == None
    {
      if pos.offset + n < |input| then Some(input[pos.offset + n]) else None
    }

    function Peek(): (b: Option<byte>)
      reads this
      ensures b == if Rest() == [] then None else Some(Rest()[0])
    {
      PeekAt(0)
    }

    method Advance() returns (b: Option<byte>)
      requires Valid()
      modifies this`pos
      ensures b == old(Peek())
      ensures b == None ==> pos == old(pos)
      ensures b.Some? ==>
        pos == if b.value == NEWLINE then Position(old(pos).line + 1, 1, old(pos).offset + 1)
               else Position(old(pos).line, old(pos).column + 1, old(pos).offset + 1)
      ensures b.Some? && !Utf8.IsTail(b.value) ==> Valid()
      ensures b.Some? ==> Rest() == old(Rest())[1..]
    {
      b := Peek();
      if b == None {
        return;
      }
      ghost var o := pos.offset;
      assert input[..o + 1][..o] == input[..o];
      if b.value == NEWLINE {
        pos := pos.(line := pos.line + 1, column := 1);
      } else {
        pos := pos.(column := pos.column + 1);
      }
      pos := pos.(offset := pos.offset + 1);
    }

    method SkipWs()
      requires Valid()
      modifies this`pos
      ensures Valid() && pos.offset == old(pos.offset) + SkipSpace(old(Rest()))
    {
      while Peek().Some? && IsSpace(Peek().value)
        invariant Valid()
        invariant pos.offset + SkipSpace(Rest()) == old(pos.offset) + SkipSpace(old(Rest()))
        decreases |input| - pos.offset
      {
        var _ := Advance();
      }
    }

    method ReadLiteral(expected: bytes, token: Token) returns (r: Result<Token>)
      requires Valid()
      requires forall i :: 0 <= i < |expected| ==> expected[i] < 0x80
      modifies this`pos
      ensures Took(old(pos.offset), Lexical.ReadLiteral(old(Rest()), expected, token), r)
    {
      hide PosAt;
      var start := pos;
      ghost var s := Rest();
      for i := 0 to |expected|
        invariant Valid() && pos.offset == start.offset + i
        invariant i <= |s| && Rest() == s[i..]
        invariant forall j :: 0 <= j < i ==> s[j] == expected[j]
      {
        var b := Peek();
        if b.Some? && b.value == expected[i] {
          var _ := Advance();
        } else {
          assert |s| <= i || s[i] != expected[i];
          return Failure(Error(InvalidLiteral, start));
        }
      }
      return Success(token);
    }

    method ReadHex4(start: Position) returns (r: Result<nat>)
      requires Valid()
      modifies this`pos
      ensures match ReadHex(old(Rest()), 4, 0)
              case Ok(v, n) => r == Success(v) && Valid() && pos.offset == old(pos.offset) + 4
              case Err(kind, _) => r == Failure(Error(kind, start))
    {
      hide PosAt, ReadHex, HexDigit;
      var val: nat := 0;
      ghost var whole := ReadHex(Rest(), 4, 0);
      for i := 0 to 4
        invariant i <= 4 && Valid() && pos.offset == old(pos.offset) + i
        invariant HexLeft(Rest(), 4 - i, val, whole)
      {
        HexStep(Rest(), 4 - i, val, whole);
        var b := Peek();
        if b == None {
          return Failure(Error(UnexpectedEof, start));
        }
        var d := HexDigit(b.value);
        if d == None {
          return Failure(Error(InvalidUnicodeEscape, start));
        }
        var _ := Advance();
        val := val * 16 + d.value;
      }
      HexStep(Rest(), 0, val, whole);
      return Success(val);
    }

    // The second escape of a surrogate pair, joined with the first.
    method ReadLowSurrogate(start: Position, high: nat) returns (r: Result<char>)
      requires Valid() && IsHigh(high)
      modifies this`pos
      ensures match JoinLow(old(Rest()), high)
              case Ok(c, n) => r == Success(c) && Valid() && pos.offset == old(pos.offset) + n
              case Err(kind, _) => r == Failure(Error(kind, start))
    {
      hide PosAt, ReadHex;
      if Peek() == Some(BACKSLASH) && PeekAt(1) == Some(LETTER_U) {
        var _ := Advance();
        var _ := Advance();
        assert Rest() == old(Rest())[2..];
        var l := ReadHex4(start);
        if l.Failure? {
          return Failure(l.error);
        }
        if !IsLow(l.value) {
          return Failure(Error(InvalidSurrogatePair, start));
        }
        var c := FromU32(0x1_0000 + (high - 0xD800) * 1024 + (l.value - 0xDC00));
        if c == None {
          return Failure(Error(InvalidSurrogatePair, start));
        }
        return Success(c.value);
      }
      return Failure(Error(InvalidSurrogatePair, start));
    }

    method ReadUnicodeEscape(start: Position) returns (r: Result<char>)
      requires Valid()
      modifies this`pos
      ensures match Lexical.ReadUnicodeEscape(old(Rest()))
              case Ok(c, n) => r == Success(c) && Valid() && pos.offset == old(pos.offset) + n
              case Err(kind, _) => r == Failure(Error(kind, start))
    {
      hide PosAt, ReadHex, JoinLow;
      var h := ReadHex4(start);
      if h.Failure? {
        return Failure(h.error);
      }
      var high := h.value;
      if IsHigh(high) {
        r := ReadLowSurrogate(start, high);
        return;
      } else if IsLow(high) {
        return Failure(Error(InvalidSurrogatePair, start));
      } else {
        var c := FromU32(high);
        if c == None {
          return Failure(Error(InvalidUnicodeEscape, start));
        }
        return Success(c.value);
      }
    }

    // On a newline, which its caller never passes, it counts a column.
    method ReadUtf8Char() returns (r: Result<char>)
      requires Valid()
      modifies this`pos
      ensures old(Rest()) == [] ==> r == Failure(Error(UnexpectedEof, old(pos)))
      ensures old(Rest()) != [] && old(Rest())[0] != NEWLINE ==>
                Took(old(pos.offset), Utf8.ReadUtf8Char(old(Rest())), r)
      ensures old(Rest()) != [] && old(Rest())[0] == NEWLINE ==>
                r == Success('\n') && pos == old(pos).(offset := old(pos.offset) + 1, column := old(pos.column) + 1)
    {
      var start := pos;
      var first := Peek();
      if first == None {
        return Failure(Error(UnexpectedEof, start));
      }
      var len := Utf8.LeadLength(first.value);
      if len == 0 {
        return Failure(Error(InvalidUtf8, start));
      }
      var end := pos.offset + len;
      if end > |input| {
        return Failure(Error(InvalidUtf8, start));
      }
      var c := Utf8.FromUtf8(input[pos.offset..end]);
      assert input[pos.offset..end] == Rest()[..len];
      if c == None {
        return Failure(Error(InvalidUtf8, start));
      }
      Utf8.ReadIsEncoded(Rest());
      if first.value != NEWLINE {
        MoveChar(pos, Rest()[..len]);
        MoveOn(START, input, pos.offset, len);
      }
      pos := pos.(offset := end, column := pos.column + 1);
      return Success(c.value);
    }

    // The body of the loop of ReadString from a backslash on.
    method ReadEscape() returns (r: Result<char>)
      requires Valid() && Rest() != [] && Rest()[0] == BACKSLASH
      modifies this`pos
      ensures Took(old(pos.offset), Lexical.ReadEscape(old(Rest())), r)
    {
      hide PosAt, Lexical.ReadUnicodeEscape;
      var escapePos := pos;
      var _ := Advance();
      var esc := Peek();
      if esc == None {
        return Failure(Error(UnexpectedEof, escapePos));
      }
      var _ := Advance();
      if esc.value == LETTER_U {
        assert Rest() == old(Rest())[2..];
        r := ReadUnicodeEscape(escapePos);
        return;
      }
      var c := ShortEscape(esc.value);
      if c == None {
        return Failure(Error(InvalidEscape, escapePos));
      }
      return Success(c.value);
    }

    // One character of a string body: an escape, a plain byte, or UTF-8.
    method ReadChar() returns (r: Result<char>)
      requires Valid() && Rest() != []
      modifies this`pos
      ensures Took(old(pos.offset), Lexical.ReadChar(old(Rest())), r)
    {
      hide PosAt, Lexical.ReadEscape, Utf8.ReadUtf8Char;
      var b := Peek().value;
      if b == BACKSLASH {
        r := ReadEscape();
      } else if b < 0x20 {
        r := Failure(Error(UnexpectedChar(b), pos));
      } else if b < 0x80 {
        var _ := Advance();
        r := Success(b as char);
      } else {
        r := ReadUtf8Char();
      }
    }

    method ReadString() returns (r: Result<string>)
      requires Valid() && Rest() != [] && Rest()[0] == QUOTE
      modifies this`pos
      ensures Took(old(pos.offset), Lexical.ReadString(old(Rest())), r)
    {
      hide PosAt, Lexical.ReadString, Lexical.ReadChar, Pending;
      var start := pos;
      ghost var whole := Lexical.ReadString(Rest());
      PendingStart(Rest());
      var _ := Advance();
      var out := "";
      while true
        invariant Valid()
        invariant Pending(whole, out, pos.offset - start.offset, Rest())
        decreases |input| - pos.offset
      {
        var b := Peek();
        ghost var k := pos.offset - start.offset;
        ghost var s := Rest();
        PendingEnd(whole, out, k, s);
        if b == None {
          return Failure(Error(UnexpectedEof, start));
        }
        if b.value == QUOTE {
          var _ := Advance();
          return Success(out);
        }
        var c := ReadChar();
        if c.Failure? {
          return Failure(c.error);
        }
        ghost var n := pos.offset - start.offset - k;
        PendingChar(whole, out, k, s, c.value, n);
        assert Rest() == s[n..];
        out := out + [c.value];
      }
    }

    method SkipDigits()
      requires Valid()
      modifies this`pos
      ensures Valid() && pos.offset == old(pos.offset) + DigitRun(old(Rest()))
    {
      while Peek().Some? && IsDigit(Peek().value)
        invariant Valid()
        invariant pos.offset + DigitRun(Rest()) == old(pos.offset) + DigitRun(old(Rest()))
        decreases |input| - pos.offset
      {
        var _ := Advance();
      }
    }

    // The fraction, if a point comes next.
    method ReadFrac() returns (ok: bool)
      requires Valid()
      modifies this`pos
      ensures ok <==> ScanFrac(old(Rest())).Ok?
      ensures ok ==> Valid() && pos.offset == old(pos.offset) + ScanFrac(old(Rest())).len
    {
      hide PosAt, DigitRun;
      if Peek() == Some(DOT) {
        var _ := Advance();
        if !(Peek().Some? && IsDigit(Peek().value)) {
          return false;
        }
        SkipDigits();
      }
      return true;
    }

    // The exponent, if its mark comes next.
    method ReadExp() returns (ok: bool)
      requires Valid()
      modifies this`pos
      ensures ok <==> ScanExp(old(Rest())).Ok?
      ensures ok ==> Valid() && pos.offset == old(pos.offset) + ScanExp(old(Rest())).len
    {
      hide PosAt, DigitRun;
      if Peek() == Some(0x65) || Peek() == Some(0x45) {
        var _ := Advance();
        if Peek() == Some(PLUS) || Peek() == Some(MINUS) {
          var _ := Advance();
        }
        ghost var g := pos.offset - old(pos.offset);
        assert Rest() == old(Rest())[g..];
        if !(Peek().Some? && IsDigit(Peek().value)) {
          return false;
        }
        SkipDigits();
      }
      return true;
    }

    method ReadWhole() returns (ok: bool)
      requires Valid()
      modifies this`pos
      ensures ok <==> ScanWhole(old(Rest())) > 0
      ensures ok ==> Valid() && pos.offset == old(pos.offset) + ScanWhole(old(Rest()))
    {
      hide PosAt;
      if Peek() == Some(ZERO) {
        var _ := Advance();
      } else if Peek().Some? && IsDigit(Peek().value) {
        SkipDigits();
      } else {
        return false;
      }
      return true;
    }

    // The fraction and the exponent.
    method ReadTail() returns (ok: bool)
      requires Valid()
      modifies this`pos
      ensures ok <==> TailLength(old(Rest())).Some?
      ensures ok ==> Valid() && pos.offset == old(pos.offset) + TailLength(old(Rest())).value
    {
      hide PosAt, ScanFrac, ScanExp;
      ghost var b, j := Rest(), pos.offset;
      ok := ReadFrac();
      if !ok {
        return;
      }
      DropDrop(input, j, pos.offset - j);
      ok := ReadExp();
    }

    // The four parts of a number in turn.
    method ScanNumber() returns (ok: bool)
      requires Valid()
      modifies this`pos
      ensures ok <==> Lexical.ScanNumber(old(Rest())).Ok?
      ensures !ok ==> Lexical.ScanNumber(old(Rest())).kind == InvalidNumber
      ensures ok ==> Valid() && pos.offset == old(pos.offset) + Lexical.ScanNumber(old(Rest())).len
    {
      hide PosAt, ScanWhole, TailLength, Lexical.ScanNumber;
      ghost var s, o := Rest(), pos.offset;
      if Peek() == Some(MINUS) {
        var _ := Advance();
      }
      ghost var a, i := Rest(), pos.offset;
      ok := ReadWhole();
      ghost var w := ScanWhole(a);
      NumberParts(s, i - o, a, w, a[w..]);
      if !ok {
        return;
      }
      DropDrop(input, i, w);
      ok := ReadTail();
    }

    method ReadNumber() returns (r: Result<Num>)
      requires Valid()
      modifies this`pos
      ensures Took(old(pos.offset), Lexical.ReadNumber(old(Rest())), r)
    {
      hide PosAt, Lexical.ScanNumber, Normalise;
      var start := pos;
      var ok := ScanNumber();
      if !ok {
        return Failure(Error(InvalidNumber, start));
      }
      // The lexeme read is a number, so the library's conversion accepts it.
      var v := Lexical.ScanNumber(input[start.offset..]).value.Eval();
      if !InRange(v.coef, v.exp) {
        return Failure(Error(NumberOutOfRange, start));
      }
      return Success(v);
    }

    method NextToken() returns (r: Result<PositionedToken>)
      requires Valid()
      modifies this`pos
      ensures old(Rest()) == [] ==> r == Failure(Error(UnexpectedEof, old(pos)))
      ensures old(Rest()) != [] ==>
        match Next(old(Rest()))
        case Ok(token, n) =>
          && Valid() && pos.offset == old(pos.offset) + n
          && r == Success(PositionedToken(token, old(pos), pos))
        case Err(kind, at) => r == Failure(Error(kind, At(old(pos.offset) + at)))
    {
      hide PosAt, Lexical.ReadString, Lexical.ReadNumber, Lexical.ReadLiteral;
      var start := pos;
      if Peek() == None {
        return Failure(Error(UnexpectedEof, start));
      }
      var b := Peek().value;
      var token: Result<Token>;
      if Punctuation(b).Some? {
        var _ := Advance();
        token := Success(Punctuation(b).value);
      } else if b == QUOTE {
        var text := ReadString();
        token := if text.Success? then Success(StringToken(text.value)) else Failure(text.error);
      } else if b == TEXT_TRUE[0] {
        token := ReadLiteral(TEXT_TRUE, TrueToken);
      } else if b == TEXT_FALSE[0] {
        token := ReadLiteral(TEXT_FALSE, FalseToken);
      } else if b == TEXT_NULL[0] {
        token := ReadLiteral(TEXT_NULL, NullToken);
      } else if b == MINUS || IsDigit(b) {
        var v := ReadNumber();
        token := if v.Success? then Success(NumberToken(v.value)) else Failure(v.error);
      } else {
        return Failure(Error(UnexpectedChar(b), start));
      }
      if token.Failure? {
        return Failure(token.error);
      }
      return Success(PositionedToken(token.value, start, pos));
    }

    static method Tokenise(input: bytes) returns (r: Result<seq<PositionedToken>>)
      ensures r == match ScanAt(input, 0).error
                   case None => Success(ScanAt(input, 0).tokens)
                   case Some(error) => Failure(error)
    {
      hide Scanning, ScanAt, Next, PosAt, SkipSpace;
      StartScanning(input);
      var t := new Tokeniser(input);
      var out := [];
      while true
        invariant t.Valid() && t.input == input && fresh(t)
        invariant Scanning(input, out, t.pos.offset)
        decreases |input| - t.pos.offset
      {
        ghost var o := t.pos.offset;
        t.SkipWs();
        if t.IsAtEnd() {
          ScanEnd(input, out, o);
          break;
        }
        ScanOn(input, out, o, t.pos.offset, Next(t.Rest()));
        var token := t.NextToken();
        if token.Failure? {
          return Failure(token.error);
        }
        out := out + [token.value];
      }
      return Success(out);
    }

    static method TokenisePrefix(input: bytes) returns (out: seq<PositionedToken>, lastTokenEnd: nat)
      ensures out == ScanAt(input, 0).tokens
      ensures lastTokenEnd == if out == [] then 0 else out[|out| - 1].end.offset
    {
      hide Scanning, ScanAt, Next, PosAt, SkipSpace;
      StartScanning(input);
      var t := new Tokeniser(input);
      out, lastTokenEnd := [], 0;
      while true
        invariant t.Valid() && t.input == input && fresh(t)
        invariant Scanning(input, out, t.pos.offset)
        invariant lastTokenEnd == if out == [] then 0 else out[|out| - 1].end.offset
        decreases |input| - t.pos.offset
      {
        ghost var o := t.pos.offset;
        t.SkipWs();
        if t.IsAtEnd() {
          ScanEnd(input, out, o);
          break;
        }
        ScanOn(input, out, o, t.pos.offset, Next(t.Rest()));
        var token := t.NextToken();
        if token.Failure? {
          break;
        }
        lastTokenEnd := t.pos.offset;
        out := out + [token.value];
      }
    }
  }
}
