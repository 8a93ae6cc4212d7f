// The texts that are numbers (section 6 of RFC 8259), as a finite automaton:
// its language is that of the lexemes.
module NumberTexts {
  import opened Bytes
  import opened Numbers

  datatype State =
    | Begin
    | Signed
    | LoneZero
    | WholeDigits
    | Point
    | FracDigits
    | Mark
    | MarkSigned
    | ExpDigits
    | Dead

  function Delta(q: State, b: byte): State {
    var digit := 0x30 <= b <= 0x39;
    var mark := b == 0x65 || b == 0x45;
    match q
    case Begin => if b == 0x2D then Signed else if b == 0x30 then LoneZero else if digit then WholeDigits else Dead
    case Signed => if b == 0x30 then LoneZero else if digit then WholeDigits else Dead
    case LoneZero => if b == 0x2E then Point else if mark then Mark else Dead
    case WholeDigits => if digit then WholeDigits else if b == 0x2E then Point else if mark then Mark else Dead
    case Point => if digit then FracDigits else Dead
    case FracDigits => if digit then FracDigits else if mark then Mark else Dead
    case Mark => if b == 0x2B || b == 0x2D then MarkSigned else if digit then ExpDigits else Dead
    case MarkSigned => if digit then ExpDigits else Dead
    case ExpDigits => if digit then ExpDigits else Dead
    case Dead => Dead
  }

  function After(q: State, w: bytes): State
    decreases |w|
  {
    if w == [] then q else After(Delta(q, w[0]), w[1..])
  }

  predicate Accepts(w: bytes) {
    var q := After(Begin, w);
    q.LoneZero? || q.WholeDigits? || q.FracDigits? || q.ExpDigits?
  }

  lemma {:induction false} AfterBoth(q: State, a: bytes, b: bytes)
    ensures After(q, a + b) == After(After(q, a), b)
    decreases |a|
  {
    hide Delta;
    if a == [] {
      assert a + b == b;
    } else {
      assert (a + b)[1..] == a[1..] + b;
      AfterBoth(Delta(q, a[0]), a[1..], b);
    }
  }

  lemma AfterOne(q: State, a: bytes, b: byte)
    ensures After(q, a + [b]) == Delta(After(q, a), b)
  {
    hide Delta;
    AfterBoth(q, a, [b]);
    assert [b][1..] == [];
  }

  // ---- Lexemes are accepted ----

  lemma {:induction false} DigitsStay(q: State, ds: bytes)
    requires AllDigits(ds) && (q.WholeDigits? || q.FracDigits? || q.ExpDigits?)
    ensures After(q, ds) == q
    decreases |ds|
  {
    if ds != [] {
      DigitsStay(q, ds[1..]);
    }
  }

  lemma DigitsEnter(q: State, ds: bytes)
    requires AllDigits(ds) && ds != []
    ensures q.Begin? || q.Signed? ==>
              (|ds| == 1 || ds[0] != ZERO) ==> After(q, ds) == if ds[0] == ZERO then LoneZero else WholeDigits
    ensures q.Point? ==> After(q, ds) == FracDigits
    ensures q.Mark? || q.MarkSigned? ==> After(q, ds) == ExpDigits
  {
    var p := Delta(q, ds[0]);
    if p.WholeDigits? || p.FracDigits? || p.ExpDigits? {
      DigitsStay(p, ds[1..]);
    }
  }

  lemma LexemeAccepted(l: Lexeme)
    requires l.Valid()
    ensures Accepts(l.Text())
  {
    hide After, Delta, AllDigits;
    var frac, exp := l.FracText(), l.exp.Text();
    AfterBoth(Begin, l.Sign(), l.whole + (frac + exp));
    SignAfter(l);
    var q := After(Begin, l.Sign());
    AfterBoth(q, l.whole, frac + exp);
    DigitsEnter(q, l.whole);
    q := After(q, l.whole);
    AfterBoth(q, frac, exp);
    FracAfter(q, l.frac);
    ExpAfter(After(q, frac), l.exp);
  }

  lemma SignAfter(l: Lexeme)
    ensures After(Begin, l.Sign()) == if l.neg then Signed else Begin
  {}

  lemma FracAfter(q: State, frac: bytes)
    requires AllDigits(frac) && (q.LoneZero? || q.WholeDigits?)
    ensures After(q, if frac == [] then [] else [DOT] + frac) == if frac == [] then q else FracDigits
  {
    if frac != [] {
      assert ([DOT] + frac)[1..] == frac;
      DigitsEnter(Point, frac);
    }
  }

  lemma ExpAfter(q: State, exp: Exponent)
    requires exp.Valid() && (q.LoneZero? || q.WholeDigits? || q.FracDigits?)
    ensures After(q, exp.Text()) == if exp.NoExp? then q else ExpDigits
  {
    hide After, Delta;
    NothingAfter(q);
    if exp.Exp? {
      Assoc([exp.mark], exp.sign, exp.digits);
      AfterBoth(q, [exp.mark] + exp.sign, exp.digits);
      MarkAfter(q, exp.mark, exp.sign);
      DigitsEnter(After(q, [exp.mark] + exp.sign), exp.digits);
    }
  }

  lemma AfterSingle(q: State, b: byte)
    ensures After(q, [b]) == Delta(q, b)
  {
    hide Delta;
    assert [b][1..] == [];
  }

  lemma NothingAfter(q: State)
    ensures After(q, []) == q
  {}

  lemma MarkAfter(q: State, mark: byte, sign: bytes)
    requires q.LoneZero? || q.WholeDigits? || q.FracDigits?
    requires (mark == 0x65 || mark == 0x45) && (sign == [] || sign == [PLUS] || sign == [MINUS])
    ensures After(q, [mark] + sign) == if sign == [] then Mark else MarkSigned
  {
    hide After;
    AfterBoth(q, [mark], sign);
    AfterSingle(q, mark);
    NothingAfter(Mark);
    AfterSingle(Mark, PLUS);
    AfterSingle(Mark, MINUS);
  }

  // ---- And nothing else is ----

  // A lexeme and what has been read beyond it, by the state that was reached.
  predicate Reached(q: State, w: bytes, l: Lexeme, tail: bytes) {
    l.Valid() && w == l.Text() + tail
    && match q
       case LoneZero => l.whole == [ZERO] && l.frac == [] && l.exp.NoExp? && tail == []
       case WholeDigits => l.whole[0] != ZERO && l.frac == [] && l.exp.NoExp? && tail == []
       case Point => l.frac == [] && l.exp.NoExp? && tail == [DOT]
       case FracDigits => l.frac != [] && l.exp.NoExp? && tail == []
       case Mark => l.exp.NoExp? && |tail| == 1 && (tail[0] == 0x65 || tail[0] == 0x45)
       case MarkSigned =>
         l.exp.NoExp? && |tail| == 2 && (tail[0] == 0x65 || tail[0] == 0x45) && (tail[1] == PLUS || tail[1] == MINUS)
       case ExpDigits => l.exp.Exp? && tail == []
       case _ => false
  }

  lemma {:induction false} AcceptedReached(w: bytes) returns (l: Lexeme, tail: bytes)
    ensures var q := After(Begin, w);
            if q.Dead? then true else if q.Begin? then w == [] else if q.Signed? then w == [MINUS]
            else Reached(q, w, l, tail)
    decreases |w|
  {
    hide Reached, Delta, After;
    l, tail := Lexeme(false, [ZERO], [], NoExp), [];
    if w == [] {
      NothingAfter(Begin);
    } else {
      var front, b := w[..|w| - 1], w[|w| - 1];
      assert w == front + [b];
      AfterOne(Begin, front, b);
      var k, rest := AcceptedReached(front);
      l, tail := ReachedNext(After(Begin, front), front, k, rest, b);
    }
  }

  lemma ReachedNext(q: State, w: bytes, k: Lexeme, rest: bytes, b: byte) returns (l: Lexeme, tail: bytes)
    requires q.Dead? || (q.Begin? && w == []) || (q.Signed? && w == [MINUS]) || Reached(q, w, k, rest)
    ensures var p := Delta(q, b);
            if p.Dead? then true else if p.Begin? then w + [b] == [] else if p.Signed? then w + [b] == [MINUS]
            else Reached(p, w + [b], l, tail)
  {
    hide Reached;
    l, tail := k, rest;
    if Reached(q, w, k, rest) {
      ReachedLexeme(q, w, k, rest);
    }
    match q {
      case Begin => l, tail := ReachedFirst(q, w, b);
      case Signed => l, tail := ReachedFirst(q, w, b);
      case LoneZero => l, tail := ReachedMore(q, w, k, rest, b);
      case WholeDigits => l, tail := ReachedMore(q, w, k, rest, b);
      case Point => l, tail := ReachedMore(q, w, k, rest, b);
      case FracDigits => l, tail := ReachedMore(q, w, k, rest, b);
      case Mark => l, tail := ReachedExp(q, w, k, rest, b);
      case MarkSigned => l, tail := ReachedExp(q, w, k, rest, b);
      case ExpDigits => l, tail := ReachedExp(q, w, k, rest, b);
      case Dead =>
    }
  }

  lemma ReachedLexeme(q: State, w: bytes, k: Lexeme, rest: bytes)
    requires Reached(q, w, k, rest)
    ensures !q.Begin? && !q.Signed?
  {
    hide Lexeme.Valid, Lexeme.Text;
  }

  lemma ReachedFirst(q: State, w: bytes, b: byte) returns (l: Lexeme, tail: bytes)
    requires (q.Begin? && w == []) || (q.Signed? && w == [MINUS])
    ensures var p := Delta(q, b);
            if p.Dead? then true else if p.Signed? then w + [b] == [MINUS]
            else !p.Begin? && Reached(p, w + [b], l, tail)
  {
    l, tail := Lexeme(q.Signed?, [b], [], NoExp), [];
    assert l.Text() == w + [b];
    assert w + [b] + [] == w + [b];
  }

  lemma ReachedMore(q: State, w: bytes, k: Lexeme, rest: bytes, b: byte) returns (l: Lexeme, tail: bytes)
    requires Reached(q, w, k, rest) && (q.LoneZero? || q.WholeDigits? || q.Point? || q.FracDigits?)
    ensures var p := Delta(q, b); !p.Begin? && !p.Signed? && (p.Dead? || Reached(p, w + [b], l, tail))
  {
    hide Lexeme.Text, AllDigits;
    l, tail := k, [b];
    assert k.Text() + [] == k.Text();
    if IsDigit(b) {
      if q.WholeDigits? {
        l, tail := k.(whole := k.whole + [b]), [];
        DigitsMore(k.whole, b);
        TextWhole(k, b);
      } else if q.Point? {
        l, tail := k.(frac := [b]), [];
        DigitsMore([], b);
        TextPoint(k, b);
      } else if q.FracDigits? {
        l, tail := k.(frac := k.frac + [b]), [];
        DigitsMore(k.frac, b);
        TextFrac(k, b);
      }
    }
    assert l.Text() + [] == l.Text();
  }

  lemma ReachedExp(q: State, w: bytes, k: Lexeme, rest: bytes, b: byte) returns (l: Lexeme, tail: bytes)
    requires Reached(q, w, k, rest) && (q.Mark? || q.MarkSigned? || q.ExpDigits?)
    ensures var p := Delta(q, b); !p.Begin? && !p.Signed? && (p.Dead? || Reached(p, w + [b], l, tail))
  {
    hide Lexeme.Text, AllDigits;
    l, tail := k, rest + [b];
    if IsDigit(b) {
      tail := [];
      if q.ExpDigits? {
        l := k.(exp := k.exp.(digits := k.exp.digits + [b]));
        DigitsMore(k.exp.digits, b);
        TextExp(k, b);
      } else {
        var sign := if q.Mark? then [] else [rest[1]];
        assert rest == [rest[0]] + sign;
        l := k.(exp := Exp(rest[0], sign, [b]));
        DigitsMore([], b);
        TextMark(k, rest[0], sign, b);
      }
    } else {
      Assoc(k.Text(), rest, [b]);
    }
    assert k.Text() + [] == k.Text() && l.Text() + [] == l.Text();
  }

  lemma DigitsMore(ds: bytes, b: byte)
    requires AllDigits(ds)
    ensures IsDigit(b) ==> AllDigits(ds + [b]) && AllDigits([b])
  {}

  lemma TextWhole(k: Lexeme, b: byte)
    requires k.frac == [] && k.exp.NoExp?
    ensures k.(whole := k.whole + [b]).Text() == k.Text() + [b]
  {}

  lemma TextPoint(k: Lexeme, b: byte)
    requires k.frac == [] && k.exp.NoExp?
    ensures k.(frac := [b]).Text() == k.Text() + [DOT] + [b]
  {}

  lemma TextFrac(k: Lexeme, b: byte)
    requires k.frac != [] && k.exp.NoExp?
    ensures k.(frac := k.frac + [b]).Text() == k.Text() + [b]
  {}

  lemma TextMark(k: Lexeme, mark: byte, sign: bytes, b: byte)
    requires k.exp.NoExp?
    ensures k.(exp := Exp(mark, sign, [b])).Text() == k.Text() + ([mark] + sign) + [b]
  {
    var l := k.(exp := Exp(mark, sign, [b]));
    assert l.FracText() == k.FracText() && l.Sign() == k.Sign();
    hide Lexeme.FracText, Lexeme.Sign;
    Append(k.Sign(), k.whole, k.FracText(), [mark] + sign, [b]);
  }

  lemma Append(a: bytes, b: bytes, c: bytes, d: bytes, e: bytes)
    ensures a + (b + (c + (d + e))) == a + (b + (c + [])) + d + e
  {}

  lemma TextExp(k: Lexeme, b: byte)
    requires k.exp.Exp?
    ensures k.(exp := k.exp.(digits := k.exp.digits + [b])).Text() == k.Text() + [b]
  {}

  // The automaton accepts exactly the texts of lexemes.
  lemma NumbersExactly(w: bytes)
    ensures Accepts(w) <==> IsNumber(w)
  {
    hide After, Lexeme.Valid, Lexeme.Text;
    if Accepts(w) {
      var l, tail := AcceptedReached(w);
      LexemeReached(After(Begin, w), w, l, tail);
    }
    if l: Lexeme :| l.Valid() && l.Text() == w {
      LexemeAccepted(l);
    }
  }

  lemma LexemeReached(q: State, w: bytes, l: Lexeme, tail: bytes)
    requires Reached(q, w, l, tail) && (q.LoneZero? || q.WholeDigits? || q.FracDigits? || q.ExpDigits?)
    ensures l.Valid() && l.Text() == w
  {
    hide Lexeme.Valid, Lexeme.Text;
    assert l.Text() + [] == l.Text();
  }
}
