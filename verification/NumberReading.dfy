// The number reader takes exactly a number of section 6 of RFC 8259, and never
// stops early.
module NumberReading {
  import opened Bytes
  import opened Errors
  import opened Numbers
  import opened Lexical

  // Bytes after which a number could have gone on.
  predicate Continues(b: byte) { IsDigit(b) || b == DOT || b == 0x65 || b == 0x45 }

  predicate Stops(s: bytes) { s == [] || !Continues(s[0]) }

  // The bytes that carry this number on: a digit, unless it is a lone zero; a
  // point, before any fraction or exponent; an exponent mark, before any
  // exponent.
  predicate Extends(l: Lexeme, b: byte) {
    || (IsDigit(b) && !(l.whole == [ZERO] && l.frac == [] && l.exp == NoExp))
    || (b == DOT && l.frac == [] && l.exp == NoExp)
    || ((b == 0x65 || b == 0x45) && l.exp == NoExp)
  }

  // The number l ends where rest begins.
  predicate Ended(l: Lexeme, rest: bytes) { rest == [] || !Extends(l, rest[0]) }

  lemma StopsEnded(l: Lexeme, rest: bytes)
    requires Stops(rest)
    ensures Ended(l, rest)
  {}

  lemma {:induction false} RunOfDigits(ds: bytes, rest: bytes)
    requires AllDigits(ds) && (rest == [] || !IsDigit(rest[0]))
    ensures DigitRun(ds + rest) == |ds|
  {
    if ds == [] {
      assert ds + rest == rest;
    } else {
      assert (ds + rest)[1..] == ds[1..] + rest;
      RunOfDigits(ds[1..], rest);
    }
  }

  // ---- Soundness: what is consumed is the lexeme's text ----

  lemma FracSound(s: bytes)
    requires ScanFrac(s).Ok?
    ensures var r := ScanFrac(s);
            s[..r.len] == if r.value == [] then [] else [DOT] + r.value
    ensures ScanFrac(s).value == [] <==> ScanFrac(s).len == 0
    ensures ScanFrac(s).len < |s| && s[ScanFrac(s).len] == DOT ==> ScanFrac(s).len > 0
    ensures 0 < ScanFrac(s).len < |s| ==> !IsDigit(s[ScanFrac(s).len])
  {
    if s != [] && s[0] == DOT {
      var k := DigitRun(s[1..]);
      if k > 0 && 1 + k < |s| {
        assert s[1..][k] == s[1 + k];
      }
    }
  }

  lemma ExpSound(s: bytes)
    requires ScanExp(s).Ok?
    ensures s[..ScanExp(s).len] == ScanExp(s).value.Text()
    ensures ScanExp(s).value == NoExp <==> ScanExp(s).len == 0
    ensures ScanExp(s).len == 0 ==> s == [] || (s[0] != 0x65 && s[0] != 0x45)
    ensures 0 < ScanExp(s).len < |s| ==> !IsDigit(s[ScanExp(s).len])
  {
    if s != [] && (s[0] == 0x65 || s[0] == 0x45) {
      var g := if |s| > 1 && (s[1] == PLUS || s[1] == MINUS) then 1 else 0;
      var k := DigitRun(s[1 + g..]);
      assert s[..1 + g + k] == [s[0]] + s[1..1 + g] + s[1 + g..1 + g + k];
      if 1 + g + k < |s| {
        assert s[1 + g..][k] == s[1 + g + k];
      }
    }
  }

  // Where the three parts of a scanned number end.
  lemma ScanParts(s: bytes) returns (m: nat, a: bytes, w: nat, b: bytes, f: nat, c: bytes, e: nat)
    requires ScanNumber(s).Ok?
    ensures m == (if s != [] && s[0] == MINUS then 1 else 0) && m <= |s| && a == s[m..]
    ensures w == ScanWhole(a) && 0 < w <= |a| && b == a[w..]
    ensures ScanFrac(b).Ok? && f == ScanFrac(b).len <= |b| && c == b[f..]
    ensures ScanExp(c).Ok? && e == ScanExp(c).len <= |c|
    ensures ScanNumber(s).len == m + w + f + e
    ensures ScanNumber(s).value == Lexeme(m == 1, a[..w], ScanFrac(b).value, ScanExp(c).value)
    ensures b == s[m + w..] && c == s[m + w + f..]
  {
    hide DigitRun;
    m := if s != [] && s[0] == MINUS then 1 else 0;
    a := s[m..];
    w := ScanWhole(a);
    b := a[w..];
    f := ScanFrac(b).len;
    c := b[f..];
    e := ScanExp(c).len;
  }

  lemma ScanSound(s: bytes)
    requires ScanNumber(s).Ok?
    ensures s[..ScanNumber(s).len] == ScanNumber(s).value.Text()
  {
    hide ScanNumber, ScanFrac, ScanExp, ScanWhole, AllDigits, Exponent.Text, Exponent.Valid, Lexeme.Text, Lexeme.Valid;
    var m, a, w, b, f, c, e := ScanParts(s);
    FracSound(b);
    ExpSound(c);
    TextOfParts(s, m, w, f, e, ScanNumber(s).value);
  }

  lemma TextOfParts(s: bytes, m: nat, w: nat, f: nat, e: nat, l: Lexeme)
    requires m + w + f + e <= |s|
    requires s[..m] == l.Sign() && s[m..][..w] == l.whole
    requires s[m + w..][..f] == l.FracText() && s[m + w + f..][..e] == l.exp.Text()
    ensures s[..m + w + f + e] == l.Text()
  {
    hide Lexeme.Sign, Lexeme.FracText, Exponent.Text;
    Take4(s, m, w, f, e);
  }

  lemma Take4(s: bytes, m: nat, w: nat, f: nat, e: nat)
    requires m + w + f + e <= |s|
    ensures s[..m + w + f + e] == s[..m] + (s[m..][..w] + (s[m + w..][..f] + s[m + w + f..][..e]))
  {
    TakeSplit(s[m + w..], f, e);
    TakeSplit(s[m..], w, f + e);
    TakeSplit(s, m, w + f + e);
  }

  // ---- Completeness: a lexeme with nothing to continue it is consumed ----

  lemma WholeComplete(ds: bytes, rest: bytes)
    requires ds != [] && AllDigits(ds) && (ds[0] == ZERO ==> |ds| == 1)
    requires rest == [] || !IsDigit(rest[0]) || ds == [ZERO]
    ensures ScanWhole(ds + rest) == |ds|
  {
    if ds != [ZERO] {
      RunOfDigits(ds, rest);
    }
  }

  lemma FracComplete(ds: bytes, rest: bytes)
    requires AllDigits(ds) && (rest == [] || if ds == [] then rest[0] != DOT else !IsDigit(rest[0]))
    ensures var text := if ds == [] then [] else [DOT] + ds;
            ScanFrac(text + rest) == Ok(ds, |text|)
  {
    if ds == [] {
      assert [] + rest == rest;
    } else {
      var s := [DOT] + ds + rest;
      assert s[1..] == ds + rest;
      RunOfDigits(ds, rest);
      assert s[1..1 + |ds|] == ds;
    }
  }

  // What may follow an exponent, or the place where there is none.
  predicate ExpEnded(x: Exponent, rest: bytes) {
    rest == [] || if x.NoExp? then rest[0] != 0x65 && rest[0] != 0x45 else !IsDigit(rest[0])
  }

  lemma ExpComplete(x: Exponent, rest: bytes)
    requires x.Valid() && ExpEnded(x, rest)
    ensures ScanExp(x.Text() + rest) == Ok(x, |x.Text()|)
  {
    var s := x.Text() + rest;
    if x.NoExp? {
      assert s == rest;
    } else {
      ExpTextComplete(x, rest);
    }
  }

  lemma ExpTextComplete(x: Exponent, rest: bytes)
    requires x.Valid() && x.Exp? && ExpEnded(x, rest)
    ensures ScanExp(x.Text() + rest) == Ok(x, |x.Text()|)
  {
    hide DigitRun, AllDigits, ScanExp;
    var s := x.Text() + rest;
    var g := |x.sign|;
    DigitsOrNot(x.digits);
    Assoc([x.mark] + x.sign, x.digits, rest);
    DropAppend([x.mark] + x.sign, x.digits + rest);
    assert s[1 + g..] == x.digits + rest;
    assert s[1] == if g == 0 then x.digits[0] else x.sign[0];
    RunOfDigits(x.digits, rest);
    assert s[1..1 + g] == x.sign;
    assert s[1 + g..1 + g + |x.digits|] == s[1 + g..][..|x.digits|] == x.digits;
    ScanExpIs(s, x);
  }

  lemma ScanExpIs(s: bytes, x: Exponent)
    requires x.Exp? && x.Valid() && x.digits != [] && IsDigit(x.digits[0])
    requires var g := |x.sign|;
             && 1 + g + |x.digits| <= |s| && s[0] == x.mark && s[1..1 + g] == x.sign
             && s[1] == (if g == 0 then x.digits[0] else x.sign[0])
             && DigitRun(s[1 + g..]) == |x.digits| && s[1 + g..1 + g + |x.digits|] == x.digits
    ensures ScanExp(s) == Ok(x, 1 + |x.sign| + |x.digits|)
  {
    hide DigitRun, AllDigits;
  }

  lemma DigitsOrNot(ds: bytes)
    requires ds != [] && AllDigits(ds)
    ensures IsDigit(ds[0])
  {}

  lemma ScanComplete(l: Lexeme, rest: bytes)
    requires l.Valid() && Ended(l, rest)
    ensures ScanNumber(l.Text() + rest) == Ok(l, |l.Text()|)
  {
    hide ScanWhole, ScanFrac, ScanExp, DigitRun, AllDigits, Lexeme.FracText, Exponent.Text, Exponent.Valid;
    var frac, exp := l.FracText(), l.exp.Text();
    Assoc(frac, exp, rest);
    Assoc(l.whole, frac + exp, rest);
    Assoc(l.Sign(), l.whole + (frac + exp), rest);
    ScanCompleteParts(l, rest);
  }

  lemma ScanCompleteParts(l: Lexeme, rest: bytes)
    requires l.Valid() && Ended(l, rest)
    ensures ScanNumber(l.Sign() + (l.whole + (l.FracText() + (l.exp.Text() + rest))))
            == Ok(l, |l.Sign()| + |l.whole| + |l.FracText()| + |l.exp.Text()|)
  {
    hide ScanNumber, ScanWhole, ScanFrac, ScanExp, AllDigits, Ended, Exponent.Text, Exponent.Valid, Lexeme.FracText;
    var c := l.exp.Text() + rest;
    PartsEnded(l, rest);
    ExpComplete(l.exp, rest);
    FracStarts(l, c);
    WholeComplete(l.whole, l.FracText() + c);
    DigitsOrNot(l.whole);
    ScanOfTexts(l, l.Sign(), l.FracText(), c, |l.exp.Text()|);
  }

  // Each part of the number ends where the next begins.
  lemma PartsEnded(l: Lexeme, rest: bytes)
    requires l.Valid() && Ended(l, rest)
    ensures ExpEnded(l.exp, rest)
    ensures var c := l.exp.Text() + rest;
            && (c == [] || if l.frac == [] then c[0] != DOT else !IsDigit(c[0]))
            && (l.frac == [] ==> c == [] || !IsDigit(c[0]) || l.whole == [ZERO])
  {
    hide AllDigits;
  }

  lemma FracStarts(l: Lexeme, c: bytes)
    requires AllDigits(l.frac) && (c == [] || if l.frac == [] then c[0] != DOT else !IsDigit(c[0]))
    requires l.frac == [] ==> c == [] || !IsDigit(c[0]) || l.whole == [ZERO]
    ensures ScanFrac(l.FracText() + c) == Ok(l.frac, |l.FracText()|)
    ensures l.FracText() + c == [] || !IsDigit((l.FracText() + c)[0]) || l.whole == [ZERO]
  {
    hide ScanFrac, AllDigits;
    FracComplete(l.frac, c);
  }

  lemma ScanOfTexts(l: Lexeme, sign: bytes, frac: bytes, c: bytes, e: nat)
    requires sign == (if l.neg then [MINUS] else []) && l.whole != [] && IsDigit(l.whole[0])
    requires ScanWhole(l.whole + (frac + c)) == |l.whole|
    requires ScanFrac(frac + c) == Ok(l.frac, |frac|) && ScanExp(c) == Ok(l.exp, e)
    ensures ScanNumber(sign + (l.whole + (frac + c))) == Ok(l, |sign| + |l.whole| + |frac| + e)
  {
    hide ScanNumber, ScanWhole, ScanFrac, ScanExp, AllDigits, Exponent.Valid;
    var b := frac + c;
    var a := l.whole + b;
    DropAppend(sign, a);
    DropAppend(l.whole, b);
    DropAppend(frac, c);
    ScanOfParts(sign + a, a, b, c, l, |frac|, e);
  }

  lemma ScanOfParts(s: bytes, a: bytes, b: bytes, c: bytes, l: Lexeme, f: nat, e: nat)
    requires l.neg <==> s != [] && s[0] == MINUS
    requires a == s[if l.neg then 1 else 0..]
    requires 0 < ScanWhole(a) == |l.whole| && a[..|l.whole|] == l.whole && b == a[|l.whole|..]
    requires ScanFrac(b) == Ok(l.frac, f) && c == b[f..]
    requires ScanExp(c) == Ok(l.exp, e)
    ensures ScanNumber(s) == Ok(l, (if l.neg then 1 else 0) + |l.whole| + f + e)
  {
    hide ScanWhole, ScanFrac, ScanExp, AllDigits, Exponent.Valid;
  }

  // ---- A scanned number ends where it was said to end ----

  lemma ScanEnded(s: bytes)
    requires ScanNumber(s).Ok?
    ensures Ended(ScanNumber(s).value, s[ScanNumber(s).len..])
  {
    hide ScanNumber, ScanFrac, ScanExp, ScanWhole, AllDigits, Lexeme.Valid, Exponent.Valid, Ended;
    var m, a, w, b, f, c, e := ScanParts(s);
    WholeEnds(a);
    FracEnds(b);
    ExpEnds(c);
    DropDrop(s, m + w + f, e);
    PartsEnd(ScanNumber(s).value, a, w, b, f, c, e);
  }

  lemma PartsEnd(l: Lexeme, a: bytes, w: nat, b: bytes, f: nat, c: bytes, e: nat)
    requires w <= |a| && b == a[w..] && f <= |b| && c == b[f..] && e <= |c|
    requires w < |a| ==> !IsDigit(a[w]) || l.whole == [ZERO]
    requires if l.frac == [] then f == 0 && (b == [] || b[0] != DOT) else f < |b| ==> !IsDigit(b[f])
    requires if l.exp.NoExp? then e == 0 && (c == [] || (c[0] != 0x65 && c[0] != 0x45)) else e < |c| ==> !IsDigit(c[e])
    ensures Ended(l, c[e..])
  {}

  lemma WholeEnds(a: bytes)
    requires 0 < ScanWhole(a)
    ensures var w := ScanWhole(a); w < |a| ==> !IsDigit(a[w]) || a[..w] == [ZERO]
  {}

  lemma FracEnds(b: bytes)
    requires ScanFrac(b).Ok?
    ensures var r := ScanFrac(b);
            if r.value == [] then r.len == 0 && (b == [] || b[0] != DOT)
            else r.len < |b| ==> !IsDigit(b[r.len])
  {}

  lemma ExpEnds(c: bytes)
    requires ScanExp(c).Ok?
    ensures var r := ScanExp(c);
            if r.value.NoExp? then r.len == 0 && (c == [] || (c[0] != 0x65 && c[0] != 0x45))
            else r.len < |c| ==> !IsDigit(c[r.len])
  {}

  // A number is scanned off the front exactly when nothing after it carries
  // it on.
  lemma ScanExactly(l: Lexeme, rest: bytes)
    requires l.Valid()
    ensures ScanNumber(l.Text() + rest) == Ok(l, |l.Text()|) <==> Ended(l, rest)
  {
    hide ScanNumber, Ended, Lexeme.Text, Lexeme.Valid;
    if Ended(l, rest) {
      ScanComplete(l, rest);
    } else if ScanNumber(l.Text() + rest) == Ok(l, |l.Text()|) {
      DropAppend(l.Text(), rest);
      ScanEnded(l.Text() + rest);
    }
  }

  // The text determines the number's parts.
  lemma LexemeUnique(k: Lexeme, l: Lexeme)
    requires k.Valid() && l.Valid() && k.Text() == l.Text()
    ensures k == l
  {
    hide ScanNumber, Lexeme.Text, Lexeme.Valid;
    ScanComplete(k, []);
    ScanComplete(l, []);
  }

  // ---- Maximality: no longer prefix is a number ----

  // A number read leaves nothing that a longer number could have used.
  lemma ReadsLongest(s: bytes, l: Lexeme)
    requires ScanNumber(s).Ok? && l.Valid() && l.Text() <= s
    ensures |l.Text()| <= ScanNumber(s).len
  {
    hide ScanNumber, ScanFrac, ScanExp, ScanWhole, AllDigits, Lexeme.FracText, Exponent.Text, Exponent.Valid;
    var g, a, w, b, f, c, e := ScanParts(s);
    var tail := l.FracText() + l.exp.Text();
    DigitsOrNot(l.whole);
    assert s[0] == l.Text()[0];
    PrefixSplit(l.Sign(), l.whole + tail, s);
    LongestFrom(a, l);
  }

  lemma LongestFrom(a: bytes, l: Lexeme)
    requires l.Valid() && l.whole + (l.FracText() + l.exp.Text()) <= a
    requires var b := a[ScanWhole(a)..]; ScanFrac(b).Ok? && ScanExp(b[ScanFrac(b).len..]).Ok?
    ensures var b := a[ScanWhole(a)..];
            |l.whole| + |l.FracText() + l.exp.Text()|
            <= ScanWhole(a) + ScanFrac(b).len + ScanExp(b[ScanFrac(b).len..]).len
  {
    hide ScanFrac, ScanExp, ScanWhole, AllDigits, Lexeme.FracText, Exponent.Text, Exponent.Valid;
    var tail := l.FracText() + l.exp.Text();
    LongestWhole(a, l.whole, tail);
    PrefixSplit(l.whole, tail, a);
    TailStarts(l);
    HeadOfRest(l.whole, tail, a);
    if |l.whole| < ScanWhole(a) {
      // The next byte of a is a digit, so the lexeme ends here.
      LongerRun(a, |l.whole|);
    } else {
      LongestTail(a[ScanWhole(a)..], l);
    }
  }

  lemma HeadOfRest(a: bytes, b: bytes, s: bytes)
    requires a + b <= s
    ensures b != [] ==> |a| < |s| && s[|a|] == b[0]
  {
    assert b != [] ==> s[|a|] == (a + b)[|a|];
  }

  lemma TailStarts(l: Lexeme)
    requires l.Valid()
    ensures var tail := l.FracText() + l.exp.Text(); tail != [] ==> !IsDigit(tail[0])
  {}

  lemma LongerRun(a: bytes, k: nat)
    requires 0 < k < ScanWhole(a)
    ensures IsDigit(a[k])
  {}

  lemma LongestWhole(a: bytes, whole: bytes, more: bytes)
    requires whole != [] && AllDigits(whole) && (whole[0] == ZERO ==> |whole| == 1)
    requires whole + more <= a
    ensures |whole| <= ScanWhole(a)
  {
    assert a[..|whole|] == whole;
    assert forall i :: 0 <= i < |whole| ==> a[i] == whole[i];
    if a[0] != ZERO {
      LongestRun(a, |whole|);
    }
  }

  lemma {:induction false} LongestRun(a: bytes, k: nat)
    requires k <= |a| && forall i :: 0 <= i < k ==> IsDigit(a[i])
    ensures k <= DigitRun(a)
  {
    if k > 0 {
      LongestRun(a[1..], k - 1);
    }
  }

  lemma LongestTail(b: bytes, l: Lexeme)
    requires l.Valid() && l.FracText() + l.exp.Text() <= b
    requires ScanFrac(b).Ok? && ScanExp(b[ScanFrac(b).len..]).Ok?
    ensures |l.FracText() + l.exp.Text()| <= ScanFrac(b).len + ScanExp(b[ScanFrac(b).len..]).len
  {
    hide ScanExp, DigitRun, AllDigits;
    PrefixSplit(l.FracText(), l.exp.Text(), b);
    var x := b[|l.FracText()|..];
    if l.frac == [] {
      if l.exp.Exp? {
        assert x == b && b[0] == l.exp.mark;
        LongestExp(b, l.exp);
      }
    } else {
      PrefixSplit([DOT], l.frac, b);
      PrefixDigits(l.frac, b[1..]);
      if l.exp.Exp? {
        assert x == b[1..][|l.frac|..];
        RunEnds(b[1..], l.frac, l.exp.mark);
        LongestExp(x, l.exp);
      }
    }
  }

  lemma PrefixDigits(ds: bytes, s: bytes)
    requires AllDigits(ds) && ds <= s
    ensures |ds| <= DigitRun(s)
  {
    LongestRun(s, |ds|);
  }

  // A digit run ends where another byte follows.
  lemma RunEnds(s: bytes, ds: bytes, b: byte)
    requires AllDigits(ds) && ds <= s && |ds| < |s| && s[|ds|] == b && !IsDigit(b)
    ensures DigitRun(s) == |ds|
  {
    LongestRun(s, |ds|);
  }

  lemma LongestExp(c: bytes, x: Exponent)
    requires x.Valid() && x.Exp? && x.Text() <= c && ScanExp(c).Ok?
    ensures |x.Text()| <= ScanExp(c).len
  {
    hide DigitRun, AllDigits;
    PrefixSplit([x.mark] + x.sign, x.digits, c);
    PrefixSplit([x.mark], x.sign, c);
    DigitsOrNot(x.digits);
    assert c[1..][|x.sign|..] == c[1 + |x.sign|..];
    assert c[1] == if x.sign == [] then x.digits[0] else x.sign[0];
    PrefixDigits(x.digits, c[1 + |x.sign|..]);
  }

  // ---- The reader ----

  // On success the reader has consumed a number, and no longer prefix of the
  // input is one.
  lemma NumberMaximal(s: bytes, m: nat)
    requires ReadNumber(s).Ok? && ReadNumber(s).len < m <= |s|
    ensures IsNumber(s[..ReadNumber(s).len]) && !IsNumber(s[..m])
  {
    hide ScanNumber, Lexeme.Text, Lexeme.Valid;
    ScanSound(s);
    assert ScanNumber(s).value.Valid();
    if IsNumber(s[..m]) {
      var l: Lexeme :| l.Valid() && l.Text() == s[..m];
      ReadsLongest(s, l);
    }
  }

  // A number in range, with nothing to carry it on, is read exactly; and out
  // of range it is reported so.
  lemma NumberRead(l: Lexeme, rest: bytes)
    requires l.Valid() && Ended(l, rest)
    ensures ReadNumber(l.Text() + rest)
            == if InRange(l.Eval().coef, l.Eval().exp) then Ok(l.Eval(), |l.Text()|) else Err(NumberOutOfRange, 0)
  {
    hide ScanNumber;
    ScanComplete(l, rest);
  }

  // A text that starts with the bytes consumed gives the same number exactly
  // when what it has after them does not carry the number on.
  lemma NumberLocal(s: bytes, t: bytes)
    requires ReadNumber(s).Ok?
    requires var n := ReadNumber(s).len; n <= |t| && t[..n] == s[..n]
    ensures ReadNumber(t) == ReadNumber(s) <==> Ended(ScanNumber(s).value, t[ReadNumber(s).len..])
  {
    hide ScanNumber, Ended, Lexeme.Text, Lexeme.Valid;
    var n := ReadNumber(s).len;
    var l := ScanNumber(s).value;
    ScanSound(s);
    assert t == l.Text() + t[n..];
    if Ended(l, t[n..]) {
      NumberRead(l, t[n..]);
    } else if ReadNumber(t) == ReadNumber(s) {
      ScanSound(t);
      ScanEnded(t);
      LexemeUnique(ScanNumber(t).value, l);
    }
  }

  // A number starts with a minus or a digit, and ends in a digit.
  lemma NumberEnds(l: Lexeme)
    requires l.Valid()
    ensures l.Text() != [] && (l.Text()[0] == MINUS || IsDigit(l.Text()[0]))
    ensures IsDigit(l.Text()[|l.Text()| - 1])
  {}
}
