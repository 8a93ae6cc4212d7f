// Exactly which texts minification leaves alone the second time, and exactly
// which token streams it keeps (cjson-rs-ffi/src/convert.rs, minify_in_place).
module MinifyExactly {
  import opened Bytes
  import opened Errors
  import opened Numbers
  import opened Values
  import opened Lexical
  import opened NumberReading
  import opened Streams
  import opened Minifying
  import opened Prefix
  import opened MinifyMeaning

  // ---- Twice ----

  // The first byte minifying keeps.
  function FirstKept(s: bytes): Option<byte>
    decreases |s|
  {
    if s == [] then None
    else if IsSpace(s[0]) then FirstKept(s[1..])
    else if OpensLine(s) then FirstKept(s[2 + LineSpan(s[2..])..])
    else if OpensBlock(s) then FirstKept(s[2 + BlockSpan(s[2..])..])
    else Some(s[0])
  }

  // Somewhere outside strings and comments a slash that is kept comes, once
  // spaces and comments are dropped, before a slash or a star that is kept.
  predicate Joins(s: bytes)
    decreases |s|
  {
    if s == [] then false
    else if IsSpace(s[0]) then Joins(s[1..])
    else if s[0] == QUOTE then Joins(s[1 + StringSpan(s[1..])..])
    else if OpensLine(s) then Joins(s[2 + LineSpan(s[2..])..])
    else if OpensBlock(s) then Joins(s[2 + BlockSpan(s[2..])..])
    else
      || (s[0] == SLASH && (FirstKept(s[1..]) == Some(SLASH) || FirstKept(s[1..]) == Some(STAR)))
      || Joins(s[1..])
  }

  lemma {:induction false} FirstKeptIs(s: bytes)
    ensures FirstKept(s) == if Minify(s) == [] then None else Some(Minify(s)[0])
    decreases |s|
  {
    hide StringSpan, LineSpan, BlockSpan;
    if s == [] {
    } else if IsSpace(s[0]) {
      FirstKeptIs(s[1..]);
    } else if OpensLine(s) {
      FirstKeptIs(s[2 + LineSpan(s[2..])..]);
    } else if OpensBlock(s) {
      FirstKeptIs(s[2 + BlockSpan(s[2..])..]);
    }
  }

  lemma {:induction false} MinifyShrinks(s: bytes)
    ensures |Minify(s)| <= |s|
    decreases |s|
  {
    hide StringSpan, LineSpan, BlockSpan;
    if s == [] {
    } else if IsSpace(s[0]) {
      MinifyShrinks(s[1..]);
    } else if s[0] == QUOTE {
      MinifyShrinks(s[1 + StringSpan(s[1..])..]);
    } else if OpensLine(s) {
      MinifyShrinks(s[2 + LineSpan(s[2..])..]);
    } else if OpensBlock(s) {
      MinifyShrinks(s[2 + BlockSpan(s[2..])..]);
    } else {
      MinifyShrinks(s[1..]);
    }
  }

  // A literal ends where it did whatever follows, unless it had no end.
  predicate Closes(b: bytes)
    decreases |b|
  {
    && b != []
    && (b[0] == QUOTE || if b[0] == BACKSLASH && |b| > 1 then Closes(b[2..]) else Closes(b[1..]))
  }

  lemma {:induction false} SpanKept(b: bytes, x: bytes)
    ensures var k := StringSpan(b); if Closes(b) then StringSpan(b[..k] + x) == k else k == |b|
    decreases |b|
  {
    if b == [] || b[0] == QUOTE {
    } else {
      var g := if b[0] == BACKSLASH && |b| > 1 then 2 else 1;
      SpanKept(b[g..], x);
      var k := StringSpan(b[g..]);
      assert b[..g + k] == b[..g] + b[g..][..k];
      Assoc(b[..g], b[g..][..k], x);
      DropAppend(b[..g], b[g..][..k] + x);
      assert g == 1 && b[0] == BACKSLASH ==> b[1..] == [] && !Closes(b[1..]);
    }
  }

  lemma LiteralKept(s: bytes, n: nat, x: bytes)
    requires s != [] && s[0] == QUOTE && n == 1 + StringSpan(s[1..])
    requires Closes(s[1..]) || x == []
    ensures Minify(s[..n] + x) == s[..n] + Minify(x)
  {
    hide Closes, Minify, StringSpan;
    var b, k := s[1..], StringSpan(s[1..]);
    SpanKept(b, x);
    var t := s[..n] + x;
    assert t[1..] == b[..k] + x;
    if !Closes(b) {
      assert b[..k] + x == b;
    }
    assert t[..n] == s[..n] && t[n..] == x;
    QuoteMinify(t);
  }

  lemma QuoteMinify(t: bytes)
    requires t != [] && t[0] == QUOTE
    ensures var n := 1 + StringSpan(t[1..]); Minify(t) == t[..n] + Minify(t[n..])
  {
    hide StringSpan;
  }

  // Minifying again changes nothing exactly when no such slash was kept.
  lemma {:induction false} IdempotentExactly(s: bytes)
    ensures Minify(Minify(s)) == Minify(s) <==> !Joins(s)
    decreases |s|
  {
    hide StringSpan, LineSpan, BlockSpan, Minify;
    if s == [] {
      MinifyStep([]);
    } else if IsSpace(s[0]) {
      MinifyStep(s);
      IdempotentExactly(s[1..]);
    } else if s[0] == QUOTE {
      IdempotentQuote(s);
    } else if OpensLine(s) {
      MinifyStep(s);
      IdempotentExactly(s[2 + LineSpan(s[2..])..]);
    } else if OpensBlock(s) {
      MinifyStep(s);
      IdempotentExactly(s[2 + BlockSpan(s[2..])..]);
    } else {
      IdempotentExactly(s[1..]);
      IdempotentByte(s);
    }
  }

  lemma IdempotentQuote(s: bytes)
    requires s != [] && s[0] == QUOTE
    ensures Minify(Minify(s)) == Minify(s) <==> !Joins(s)
    decreases |s|, 0
  {
    hide StringSpan, Minify, Closes;
    var n := 1 + StringSpan(s[1..]);
    IdempotentExactly(s[n..]);
    QuoteMinify(s);
    var rest := Minify(s[n..]);
    if !Closes(s[1..]) {
      SpanKept(s[1..], []);
      MinifyStep([]);
    }
    LiteralKept(s, n, rest);
    Cancel(s[..n], rest, Minify(rest));
  }

  lemma Cancel(a: bytes, b: bytes, c: bytes)
    ensures a + b == a + c <==> b == c
  {
    DropAppend(a, b);
    DropAppend(a, c);
  }

  lemma IdempotentByte(s: bytes)
    requires s != [] && !IsSpace(s[0]) && s[0] != QUOTE && !OpensLine(s) && !OpensBlock(s)
    requires Minify(Minify(s[1..])) == Minify(s[1..]) <==> !Joins(s[1..])
    ensures Minify(Minify(s)) == Minify(s) <==> !Joins(s)
  {
    hide Minify, LineSpan, BlockSpan;
    MinifyStep(s);
    FirstKeptIs(s[1..]);
    var rest := Minify(s[1..]);
    var t := [s[0]] + rest;
    assert t[1..] == rest;
    MinifyStep(t);
    if OpensLine(t) || OpensBlock(t) {
      assert t[2..] == rest[1..];
      MinifyShrinks(t[2..][LineSpan(t[2..])..]);
      MinifyShrinks(t[2..][BlockSpan(t[2..])..]);
    } else {
      Cancel([s[0]], rest, Minify(rest));
    }
  }

  // ---- Tokens ----

  // How many bytes the first token takes, whatever the range of a number.
  function Piece(s: bytes): (n: Option<nat>)
    requires s != []
    ensures n.Some? ==> 1 <= n.value <= |s|
  {
    if s[0] == MINUS || IsDigit(s[0]) then
      if ScanNumber(s).Ok? then Some(ScanNumber(s).len) else None
    else if Next(s).Ok? then Some(Next(s).len) else None
  }

  // How many tokens a text has, if it has nothing else.
  function Pieces(s: bytes): Option<nat>
    decreases |s|
  {
    var w := SkipSpace(s);
    if w == |s| then Some(0)
    else match Piece(s[w..])
      case None => None
      case Some(n) => Plus(Pieces(s[w + n..]))
  }

  function Plus(n: Option<nat>): Option<nat> {
    if n.Some? then Some(n.value + 1) else None
  }

  lemma PiecesStep(s: bytes, w: nat)
    requires w == SkipSpace(s) < |s|
    ensures Pieces(s) == if Piece(s[w..]) == None then None else Plus(Pieces(s[w + Piece(s[w..]).value..]))
  {
    hide SkipSpace, Piece;
  }

  lemma PiecesHere(s: bytes)
    requires s != [] && !IsSpace(s[0])
    ensures Pieces(s) == if Piece(s) == None then None else Plus(Pieces(s[Piece(s).value..]))
  {
    hide SkipSpace, Piece, Pieces;
    SpaceStops(s);
    assert s[0..] == s;
    PiecesStep(s, 0);
  }

  lemma NextPiece(s: bytes)
    requires s != [] && Next(s).Ok?
    ensures Piece(s) == Some(Next(s).len)
  {
    hide ReadString, ScanNumber, ReadLiteral;
  }

  lemma {:induction false} CompletePieces(s: bytes)
    requires StreamOf(s).complete
    ensures Pieces(s) == Some(|StreamOf(s).tokens|)
    decreases |s|
  {
    hide StreamOf, Next, SkipSpace, Piece;
    var w := SkipSpace(s);
    if w == |s| {
      StreamEnd(s);
    } else {
      var r := Next(s[w..]);
      StreamStep(s, w, r);
      NextPiece(s[w..]);
      CompletePieces(s[w + r.len..]);
    }
  }

  // ---- A number that runs into the digits of the next ----

  // The number with more digits at its end.
  function WithDigits(l: Lexeme, ds: bytes): Lexeme {
    if l.exp.Exp? then l.(exp := l.exp.(digits := l.exp.digits + ds))
    else if l.frac != [] then l.(frac := l.frac + ds)
    else l.(whole := l.whole + ds)
  }

  lemma DigitsJoin(a: bytes, b: bytes)
    requires AllDigits(a) && AllDigits(b)
    ensures AllDigits(a + b)
  {}

  lemma WithDigitsText(l: Lexeme, ds: bytes)
    requires l.Valid() && ds != [] && AllDigits(ds) && Extends(l, ds[0])
    ensures WithDigits(l, ds).Valid() && WithDigits(l, ds).Text() == l.Text() + ds
    ensures forall b: byte :: IsDigit(b) ==> Extends(WithDigits(l, ds), b)
  {
    hide AllDigits, Lexeme.Text;
    DigitsOrNot(ds);
    if l.exp.Exp? {
      DigitsJoin(l.exp.digits, ds);
      ExpText(l, ds);
    } else if l.frac != [] {
      DigitsJoin(l.frac, ds);
      FracText(l, ds);
    } else {
      DigitsJoin(l.whole, ds);
      assert (l.whole + ds)[0] == l.whole[0];
      WholeText(l, ds);
    }
  }

  lemma ExpText(l: Lexeme, ds: bytes)
    requires l.exp.Exp?
    ensures WithDigits(l, ds).Text() == l.Text() + ds
  {
    var k := WithDigits(l, ds);
    assert k.Sign() == l.Sign() && k.FracText() == l.FracText();
    assert k.exp.Text() == l.exp.Text() + ds;
    hide Lexeme.FracText, Lexeme.Sign, Exponent.Text;
    JoinEnd(l.Sign(), l.whole, l.FracText(), l.exp.Text(), ds);
  }

  lemma FracText(l: Lexeme, ds: bytes)
    requires l.exp.NoExp? && l.frac != []
    ensures WithDigits(l, ds).Text() == l.Text() + ds
  {
    hide Lexeme.Text;
    var k := WithDigits(l, ds);
    NoExpText(l);
    NoExpText(k);
    assert k.Sign() == l.Sign() && k.FracText() == l.FracText() + ds;
    JoinThird(l.Sign(), l.whole, l.FracText(), ds);
  }

  lemma WholeText(l: Lexeme, ds: bytes)
    requires l.exp.NoExp? && l.frac == []
    ensures WithDigits(l, ds).Text() == l.Text() + ds
  {
    hide Lexeme.Text;
    var k := WithDigits(l, ds);
    NoExpText(l);
    NoExpText(k);
    assert k.Sign() == l.Sign() && k.FracText() == l.FracText() == [];
    assert l.whole + [] == l.whole && l.whole + ds + [] == l.whole + ds;
    Assoc(l.Sign(), l.whole, ds);
  }

  lemma JoinEnd(a: bytes, b: bytes, c: bytes, d: bytes, e: bytes)
    ensures a + (b + (c + d)) + e == a + (b + (c + (d + e)))
  {}

  lemma JoinThird(a: bytes, b: bytes, c: bytes, d: bytes)
    ensures a + (b + c) + d == a + (b + (c + d))
  {}

  // Where a number followed by no digit ends.
  lemma TailScan(l: Lexeme, t: bytes)
    requires l.Valid() && (t == [] || !IsDigit(t[0]))
    ensures var r := ScanNumber(l.Text() + t);
            if l.exp.Exp? then r.Ok? && r.len == |l.Text()|
            else if l.frac != [] then (r.Ok? <==> ScanExp(t).Ok?) && (r.Ok? ==> r.len == |l.Text()| + ScanExp(t).len)
            else
              && (r.Ok? <==> ScanFrac(t).Ok? && ScanExp(t[ScanFrac(t).len..]).Ok?)
              && (r.Ok? ==> r.len == |l.Text()| + ScanFrac(t).len + ScanExp(t[ScanFrac(t).len..]).len)
  {
    hide ScanNumber, ScanWhole, ScanFrac, ScanExp, AllDigits, Exponent.Text, Exponent.Valid;
    if l.exp.Exp? {
      ScanComplete(l, t);
    } else {
      NoExpText(l);
      var frac := l.FracText();
      FracBefore(l, t);
      Assoc(l.whole, frac, t);
      Assoc(l.Sign(), l.whole + frac, t);
      DigitsOrNot(l.whole);
      DropAppend(l.Sign(), l.whole + (frac + t));
      WholeComplete(l.whole, frac + t);
      DropAppend(l.whole, frac + t);
      DropAppend(frac, t);
      ScanThrough(l.Text() + t, l.Sign(), l.whole, frac + t);
    }
  }

  lemma NoExpText(l: Lexeme)
    requires l.exp.NoExp?
    ensures l.Text() == l.Sign() + (l.whole + l.FracText())
  {
    assert l.FracText() + [] == l.FracText();
  }

  lemma FracBefore(l: Lexeme, t: bytes)
    requires AllDigits(l.frac) && (t == [] || !IsDigit(t[0]))
    ensures l.FracText() + t == [] || !IsDigit((l.FracText() + t)[0])
    ensures l.frac != [] ==> ScanFrac(l.FracText() + t) == Ok(l.frac, |l.FracText()|)
    ensures l.frac == [] ==> l.FracText() + t == t && l.FracText() == []
  {
    hide ScanFrac, AllDigits;
    if l.frac != [] {
      FracComplete(l.frac, t);
    }
  }

  lemma ScanThrough(s: bytes, sign: bytes, whole: bytes, b: bytes)
    requires s == sign + (whole + b) && (sign == [] || sign == [MINUS]) && whole != [] && IsDigit(whole[0])
    requires ScanWhole(whole + b) == |whole|
    ensures var r := ScanNumber(s);
            && (r.Ok? <==> ScanFrac(b).Ok? && ScanExp(b[ScanFrac(b).len..]).Ok?)
            && (r.Ok? ==> r.len == |sign| + |whole| + ScanFrac(b).len + ScanExp(b[ScanFrac(b).len..]).len)
  {
    hide ScanWhole, ScanFrac, ScanExp, AllDigits;
    DropAppend(sign, whole + b);
    DropAppend(whole, b);
    assert s[0] == MINUS <==> sign == [MINUS];
  }

  // A number run into a text of digits has, if it can be read at all, no more
  // tokens than that text.
  lemma {:induction false} Absorb(l: Lexeme, t: bytes)
    requires l.Valid() && t != [] && IsDigit(t[0]) && Extends(l, t[0]) && Pieces(l.Text() + t).Some?
    ensures Pieces(t).Some? && Pieces(l.Text() + t).value <= Pieces(t).value
    decreases |t|
  {
    hide Pieces, ScanNumber, Lexeme.Text, Lexeme.Valid, AllDigits, Extends;
    var d := DigitRun(t);
    if t[0] == ZERO && d > 1 {
      var k := WithDigits(l, [ZERO]);
      assert AllDigits([ZERO]) by {
        OneDigit(ZERO);
      }
      WithDigitsText(l, [ZERO]);
      assert t == [ZERO] + t[1..];
      Assoc(l.Text(), [ZERO], t[1..]);
      Absorb(k, t[1..]);
      LoneZero(t);
    } else {
      var ds := t[..d];
      DigitsTaken(t, d);
      WithDigitsText(l, ds);
      assert t == ds + t[d..];
      Assoc(l.Text(), ds, t[d..]);
      SameEnd(WithDigits(l, ds), Lexeme(false, ds, [], NoExp), t[d..]);
    }
  }

  lemma OneDigit(b: byte)
    requires IsDigit(b)
    ensures AllDigits([b])
  {}

  lemma DigitsTaken(t: bytes, d: nat)
    requires t != [] && IsDigit(t[0]) && d == DigitRun(t) && !(t[0] == ZERO && d > 1)
    ensures 0 < d <= |t| && t[..d] != [] && t[..d][0] == t[0] && AllDigits(t[..d])
    ensures t[d..] == [] || !IsDigit(t[d..][0])
    ensures Lexeme(false, t[..d], [], NoExp).Valid() && Lexeme(false, t[..d], [], NoExp).Text() == t[..d]
  {
    NoExpText(Lexeme(false, t[..d], [], NoExp));
    assert t[..d] + [] == t[..d] && [] + t[..d] == t[..d];
  }

  // A zero before a digit is a number of its own.
  lemma LoneZero(t: bytes)
    requires |t| > 1 && t[0] == ZERO && IsDigit(t[1])
    ensures Pieces(t) == Plus(Pieces(t[1..]))
  {
    hide ScanNumber, Pieces, Lexeme.Text;
    var zero := Lexeme(false, [ZERO], [], NoExp);
    assert zero.Text() == [ZERO] by {
      NoExpText(zero);
    }
    assert t == [ZERO] + t[1..];
    ScanComplete(zero, t[1..]);
    PiecesHere(t);
  }

  // Two numbers before the same text: if the one that has gone further in the
  // grammar can be read there, both end at the same place.
  lemma SameEnd(k: Lexeme, p: Lexeme, t: bytes)
    requires k.Valid() && p.Valid() && p.frac == [] && p.exp == NoExp && (t == [] || !IsDigit(t[0]))
    requires Pieces(k.Text() + t).Some?
    ensures Pieces(p.Text() + t) == Pieces(k.Text() + t)
  {
    hide Pieces, ScanNumber, ScanFrac, ScanExp, Lexeme.Text, Lexeme.Valid;
    TailScan(k, t);
    TailScan(p, t);
    HeadOf(k, t);
    HeadOf(p, t);
    PiecesHere(k.Text() + t);
    PiecesHere(p.Text() + t);
    NoTail(t);
    var n := ScanNumber(k.Text() + t).len - |k.Text()|;
    AfterText(k.Text(), t, n);
    AfterText(p.Text(), t, n);
  }

  lemma AfterText(a: bytes, t: bytes, n: nat)
    requires n <= |t|
    ensures (a + t)[|a| + n..] == t[n..]
  {}

  lemma HeadOf(l: Lexeme, t: bytes)
    requires l.Valid()
    ensures l.Text() + t != [] && ((l.Text() + t)[0] == MINUS || IsDigit((l.Text() + t)[0]))
  {
    hide Lexeme.Text, Lexeme.Valid;
    NumberEnds(l);
    assert (l.Text() + t)[0] == l.Text()[0];
  }

  // A point or an exponent mark starts no token; without them there is no
  // fraction and no exponent.
  lemma NoTail(t: bytes)
    ensures t != [] && (t[0] == DOT || t[0] == 0x65 || t[0] == 0x45) ==> Pieces(t) == None
    ensures t == [] || t[0] != DOT ==> ScanFrac(t) == Ok([], 0)
    ensures t == [] || (t[0] != 0x65 && t[0] != 0x45) ==> ScanExp(t) == Ok(NoExp, 0)
    ensures t[0..] == t
  {
    hide Pieces, ReadString, ReadNumber;
    if t != [] && (t[0] == DOT || t[0] == 0x65 || t[0] == 0x45) {
      PiecesHere(t);
    }
  }

  // ---- Merging loses a token ----

  // The minified text has no more tokens, and fewer once numbers merge.
  lemma {:induction false} MergingCounts(s: bytes)
    requires StreamOf(s).complete && Pieces(Minify(s)).Some?
    ensures Pieces(s).Some? && Pieces(Minify(s)).value <= Pieces(s).value
    ensures Merges(s) ==> Pieces(Minify(s)).value < Pieces(s).value
    decreases |s|
  {
    hide StreamOf, Minify, Next, SkipSpace, Merges, MergesAt, Pieces, Piece;
    var w := SkipSpace(s);
    CompletePieces(s);
    assert s == s[..w] + s[w..];
    SpacesDropped(s[..w], s[w..]);
    if w == |s| {
      NothingMerges(s);
      MinifyStep([]);
      CompletePieces([]) by {
        SpaceStops([]);
        StreamEnd([]);
      }
      assert s[w..] == [];
      EmptyPieces();
    } else {
      var r := Next(s[w..]);
      StreamStep(s, w, r);
      MergesStep(s, w, r.len);
      var x, rest := s[w..][..r.len], s[w + r.len..];
      DropDrop(s, w, r.len);
      TokenCopied(s[w..], r.len);
      PiecesStep(s, w);
      NextPiece(s[w..]);
      CompletePieces(rest);
      if r.value.NumberToken? {
        MergingNumber(s[w..], rest, r.len);
      } else {
        NotMerging(s[w..], rest, r.len);
      }
      if Pieces(Minify(rest)).Some? {
        MergingCounts(rest);
      }
    }
  }

  lemma EmptyPieces()
    ensures Pieces([]) == Some(0)
  {}

  // A token that is no number stays one.
  lemma NotMerging(u: bytes, rest: bytes, n: nat)
    requires u != [] && Next(u).Ok? && Next(u).len == n && !Next(u).value.NumberToken?
    ensures !MergesAt(u, rest)
    ensures Pieces(u[..n] + Minify(rest)) == Plus(Pieces(Minify(rest)))
  {
    hide Next, Minify, Pieces, Piece, SkipSpace, ScanNumber;
    if ScanNumber(u).Ok? {
      ScannedIsNumber(u);
    }
    var t := u[..n] + Minify(rest);
    DropAppend(u[..n], Minify(rest));
    TokenLocal(u, t, Next(u).value, n);
    NextPiece(t);
    NextNotSpace(t);
    PiecesHere(t);
  }

  // A number stays one token, or runs into the text after it.
  lemma MergingNumber(u: bytes, rest: bytes, n: nat)
    requires u != [] && Next(u).Ok? && Next(u).len == n && Next(u).value.NumberToken? && rest == u[n..]
    requires StreamOf(rest).complete && Pieces(u[..n] + Minify(rest)).Some?
    ensures var m := Minify(rest);
            && Pieces(m).Some? && Pieces(u[..n] + m).value <= Pieces(m).value + 1
            && (MergesAt(u, rest) ==> Pieces(u[..n] + m).value <= Pieces(m).value)
  {
    hide Next, Minify, Pieces, Piece, SkipSpace, ScanNumber, StreamOf, Extends, Lexeme.Text, Lexeme.Valid;
    var m := Minify(rest);
    NumberIsNumber(u, Next(u).value, n);
    var l := ScanNumber(u).value;
    ScanSound(u);
    MinifiedHead(rest);
    if Ended(l, m) {
      NumberPiece(l, m);
    } else {
      ExtendedByDigit(l, rest);
      Absorb(l, m);
    }
  }

  lemma NumberPiece(l: Lexeme, m: bytes)
    requires l.Valid() && Ended(l, m)
    ensures Pieces(l.Text() + m) == Plus(Pieces(m))
  {
    hide Pieces, ScanNumber, Lexeme.Text, Lexeme.Valid, Ended;
    ScanComplete(l, m);
    HeadOf(l, m);
    PiecesHere(l.Text() + m);
    DropAppend(l.Text(), m);
  }

  // What carries a number on and starts a token is a digit.
  lemma ExtendedByDigit(l: Lexeme, rest: bytes)
    requires SkipSpace(rest) < |rest| && Next(rest[SkipSpace(rest)..]).Ok?
    requires Extends(l, rest[SkipSpace(rest)])
    ensures IsDigit(rest[SkipSpace(rest)])
  {
    hide Next, SkipSpace;
    TokenStart(rest[SkipSpace(rest)..]);
  }

  // Minifying a text the tokeniser accepts keeps its tokens exactly when no
  // number is followed, after a space, by a byte that carries it on.
  lemma TokensKeptExactly(s: bytes)
    requires StreamOf(s).complete
    ensures StreamOf(Minify(s)) == StreamOf(s) <==> !Merges(s)
  {
    hide StreamOf, Minify, Merges, Pieces;
    if !Merges(s) {
      MinifyKeepsTokens(s);
    } else if StreamOf(Minify(s)) == StreamOf(s) {
      CompletePieces(s);
      CompletePieces(Minify(s));
      MergingCounts(s);
    }
  }

  // ---- Examples ----

  // Minifying "/ /x" a second time drops what the first left.
  lemma SlashesJoin()
    ensures var s := [SLASH, SPACE, SLASH, 0x78];
            Minify(s) == [SLASH, SLASH, 0x78] && Minify(Minify(s)) == []
  {
    hide Minify, StringSpan, LineSpan, BlockSpan;
    var s, t, u := [SLASH, SPACE, SLASH, 0x78], [SLASH, 0x78], [SLASH, SLASH, 0x78];
    MinifyStep([]);
    MinifyStep([0x78]);
    assert [0x78][1..] == [] && t[1..] == [0x78] && s[1..] == [SPACE] + t && u[2..] == [0x78];
    MinifyStep(t);
    SpacesDropped([SPACE], t);
    MinifyStep(s);
    MinifyStep(u);
    OneLine(0x78);
  }

  lemma OneLine(b: byte)
    requires b != NEWLINE
    ensures InLine([b]) == Minify([])
  {
    hide Minify;
    assert LineSpan([b]) == 1 + LineSpan([]);
    assert [b][1..] == [];
  }

  // "1 2" is accepted, its numbers merge, and it becomes "12", which does not
  // have its tokens.
  lemma NumbersMerge()
    ensures var s := [0x31, SPACE, 0x32];
            StreamOf(s).complete && Merges(s) && Minify(s) == [0x31, 0x32] && StreamOf(Minify(s)) != StreamOf(s)
  {
    hide Minify, StreamOf, Merges, Lexeme.Text, Next, ScanNumber;
    var s, l, rest := [0x31, SPACE, 0x32], Lexeme(false, [0x31], [], NoExp), [SPACE] + [0x32];
    assert s == [0x31] + rest && [0x32] + [] == [0x32];
    DigitStream(1, rest);
    DigitStream(2, []);
    SpacesThen([SPACE], [0x32]);
    StreamEnd([]);
    DigitLexeme(0x31, rest);
    SpaceStops(s);
    assert s[0..] == s && s[1..] == rest;
    assert SkipSpace(rest) == 1;
    assert Ended(l, rest);
    ScanComplete(l, rest);
    assert Extends(l, rest[1]);
    MergesStep(s, 0, 1);
    TokensKeptExactly(s);
    MinifyStep([]);
    PlainCopied([0x31], rest);
    SpacesDropped([SPACE], [0x32]);
    PlainCopied([0x32], []);
  }

  lemma DigitLexeme(b: byte, rest: bytes)
    requires 0x31 <= b <= 0x39
    ensures var l := Lexeme(false, [b], [], NoExp); l.Valid() && l.Text() == [b]
  {}

  lemma DigitStream(n: nat, rest: bytes)
    requires 0 < n < 10 && Stops(rest)
    ensures StreamOf([0x30 + n] + rest).complete == StreamOf(rest).complete
    ensures Next([0x30 + n] + rest).Ok? && Next([0x30 + n] + rest).len == 1
  {
    hide StreamOf, InRange, ReadNumber, ReadString, ReadLiteral, Lexeme.Text, Digits;
    InRangeSmall(n);
    var num: Num := Finite(false, n, 0);
    var l := Display(num);
    SmallDigits(n, [0x30 + n]);
    assert [0x30 + n] + Zeros(0) == [0x30 + n];
    DigitLexeme(0x30 + n, rest);
    EvalDisplay(num);
    StopsEnded(l, rest);
    NumberRead(l, rest);
    assert ([0x30 + n] + rest)[0] == 0x30 + n && ([0x30 + n] + rest)[1..] == rest;
    TokenThen([0x30 + n] + rest, NumberToken(num), 1);
  }
}
