// What a number lexeme is worth: its digits, scaled by its fraction and by the
// sign and digits of its exponent, and nothing else.
module Decimals {
  import opened Bytes
  import opened Errors
  import opened Numbers
  import opened Lexical
  import opened NumberReading

  // The digits, without point and exponent.
  function Written(l: Lexeme): nat
    requires l.Valid()
  {
    NatOf(l.whole + l.frac)
  }

  // How many places the exponent moves the point to the right, and how many it
  // and the fraction move it to the left.
  function Raised(l: Lexeme): nat
    requires l.Valid()
  {
    if l.exp.Exp? && l.exp.sign != [MINUS] then NatOf(l.exp.digits) else 0
  }

  function Lowered(l: Lexeme): nat
    requires l.Valid()
  {
    |l.frac| + if l.exp.Exp? && l.exp.sign == [MINUS] then NatOf(l.exp.digits) else 0
  }

  // Digits count by their places: the first one most.
  lemma {:induction false} FirstDigit(ds: bytes)
    requires AllDigits(ds) && ds != []
    ensures NatOf(ds) == (ds[0] as int - 0x30) * Pow10(|ds| - 1) + NatOf(ds[1..])
    decreases |ds|
  {
    var front, last := ds[..|ds| - 1], ds[|ds| - 1] as int - 0x30;
    if |ds| == 1 {
      assert front == [] && ds[1..] == [];
      PowZero();
    } else {
      FirstDigit(front);
      assert ds[1..][..|ds| - 2] == front[1..];
      MulSwap(ds[0] as int - 0x30, Pow10(|ds| - 2));
    }
  }

  lemma MulSame(a: nat, b: nat, c: nat)
    ensures a * b * c == a * c * b && a * (b * c) == a * b * c
  {}

  lemma NormaliseScaled(n: nat, up: nat, down: nat, k: nat)
    requires Normalise(n, up - down).1 + k >= 0
    ensures var r := Normalise(n, up - down);
            r.0 * Pow10(r.1 + k) * Pow10(down) == n * Pow10(up + k)
  {
    hide Pow10;
    var r := Normalise(n, up - down);
    PowSum(r.1 + k, down);
    MulSame(r.0, Pow10(r.1 + k), Pow10(down));
    if n > 0 {
      var d := r.1 - (up - down);
      PowSum(d, up + k);
      MulSame(r.0, Pow10(d), Pow10(up + k));
    } else {
      assert r.0 == 0;
    }
  }

  // The number read off a lexeme is what is written, times ten to the power
  // raised, over ten to the power lowered; k keeps the powers whole.
  lemma NumberExact(l: Lexeme, rest: bytes, k: nat)
    requires l.Valid() && Ended(l, rest) && ReadNumber(l.Text() + rest).Ok?
    ensures var v := ReadNumber(l.Text() + rest).value;
            && v.Finite? && v.neg == l.neg
            && (v.exp + k >= 0 ==>
                  v.coef * Pow10(v.exp + k) * Pow10(Lowered(l)) == Written(l) * Pow10(Raised(l) + k))
  {
    hide ReadNumber, Lexeme.Text, Lexeme.Valid, Ended, Pow10, InRange, Normalise;
    NumberRead(l, rest);
    var r := l.Eval();
    if r.exp + k >= 0 {
      ExponentValue(l);
      NormaliseScaled(Written(l), Raised(l), Lowered(l), k);
    }
  }

  lemma ExponentValue(l: Lexeme)
    requires l.Valid()
    ensures l.exp.Value() - |l.frac| == Raised(l) - Lowered(l)
  {
    hide NatOf;
  }

  // ---- The range ----

  function Pow2(e: nat): (p: nat)
    ensures p > 0
  {
    if e == 0 then 1 else 2 * Pow2(e - 1)
  }

  lemma {:induction false} Pow2Sum(a: nat, b: nat)
    ensures Pow2(a) * Pow2(b) == Pow2(a + b)
  {
    if a > 0 {
      Pow2Sum(a - 1, b);
      MulAssoc(2, Pow2(a - 1), Pow2(b));
    }
  }

  lemma Pow2Times(a: nat, b: nat, c: nat, p: nat, q: nat)
    requires c == a + b && Pow2(a) == p && Pow2(b) == q
    ensures Pow2(c) == p * q
  {
    Pow2Sum(a, b);
  }

  lemma Pow2Small()
    ensures Pow2(10) == 0x400 && Pow2(14) == 0x4000
  {}

  lemma Pow2Is320()
    ensures Pow2(320) == 0x100000000000000000000000000000000000000000000000000000000000000000000000000000000
  {
    hide Pow2;
    Pow2Small();
    Pow2Times(10, 10, 20, 0x400, 0x400);
    Pow2Times(20, 20, 40, 0x10_0000, 0x10_0000);
    Pow2Times(40, 40, 80, 0x100_0000_0000, 0x100_0000_0000);
    Pow2Times(80, 80, 160, 0x1_0000_0000_0000_0000_0000, 0x1_0000_0000_0000_0000_0000);
    Pow2Times(160, 160, 320, 0x1_0000_0000_0000_0000_0000_0000_0000_0000_0000_0000,
              0x1_0000_0000_0000_0000_0000_0000_0000_0000_0000_0000);
  }

  lemma Pow2Parts(p: nat)
    requires p == Pow2(320)
    ensures Pow2(970) == 0x400 * p * p * p && Pow2(1024) == 0x40_0000_0000_0000 * Pow2(970)
  {
    hide Pow2;
    Pow2Small();
    Pow2Times(10, 320, 330, 0x400, p);
    Pow2Times(330, 320, 650, 0x400 * p, p);
    Pow2Times(650, 320, 970, 0x400 * p * p, p);
    Pow2Times(10, 10, 20, 0x400, 0x400);
    Pow2Times(20, 20, 40, 0x10_0000, 0x10_0000);
    Pow2Times(40, 14, 54, 0x100_0000_0000, 0x4000);
    Pow2Times(54, 970, 1024, 0x40_0000_0000_0000, Pow2(970));
  }

  lemma FloatLimitIs()
    ensures FloatLimit() == Pow2(1024) - Pow2(970)
  {
    hide Pow2;
    Pow2Is320();
    Pow2Parts(0x100000000000000000000000000000000000000000000000000000000000000000000000000000000);
  }

  lemma MulLess(a: nat, b: nat, c: nat)
    requires c > 0
    ensures a * c < b * c <==> a < b
  {
    if a < b {
      assert (b - a) * c > 0;
    } else {
      assert (a - b) * c >= 0;
    }
  }

  lemma RangeScaled(n: nat, up: nat, down: nat, limit: nat)
    requires limit == FloatLimit()
    ensures var r := Normalise(n, up - down); InRange(r.0, r.1) <==> n * Pow10(up) < limit * Pow10(down)
  {
    hide Pow10, FloatLimit, Normalise;
    var r := Normalise(n, up - down);
    var k := if r.1 < 0 then -r.1 else 0;
    NormaliseScaled(n, up, down, k);
    assert InRange(r.0, r.1) <==> r.0 * Pow10(r.1 + k) < limit * Pow10(k) by {
      LimitPositive();
      assert Pow10(0) == 1 by { PowZero(); }
      MulLess(0, limit, Pow10(k));
    }
    PowSum(up, k);
    MulSame(n, Pow10(up), Pow10(k));
    MulLess(r.0 * Pow10(r.1 + k), limit * Pow10(k), Pow10(down));
    MulSame(limit, Pow10(k), Pow10(down));
    MulLess(n * Pow10(up), limit * Pow10(down), Pow10(k));
  }

  lemma LimitPositive()
    ensures FloatLimit() > 0
  {}

  lemma PowZero()
    ensures Pow10(0) == 1
  {}

  // A lexeme is out of range exactly when what it is worth is 2^1024 - 2^970 or
  // more, and read otherwise.
  lemma RangeExactly(l: Lexeme, rest: bytes)
    requires l.Valid() && Ended(l, rest)
    ensures var r := ReadNumber(l.Text() + rest);
            if Written(l) * Pow10(Raised(l)) < (Pow2(1024) - Pow2(970)) * Pow10(Lowered(l))
            then r.Ok? && r.len == |l.Text()|
            else r == Err(NumberOutOfRange, 0)
  {
    hide ReadNumber, Lexeme.Text, Lexeme.Valid, Ended, Pow10, Pow2, InRange, Normalise, FloatLimit;
    NumberRead(l, rest);
    ExponentValue(l);
    FloatLimitIs();
    RangeScaled(Written(l), Raised(l), Lowered(l), FloatLimit());
  }

  // ---- The displayed text ----

  lemma {:induction false} DigitsUnique(ds: bytes)
    requires AllDigits(ds) && ds != [] && (ds[0] == ZERO ==> |ds| == 1)
    ensures Digits(NatOf(ds)) == ds
    decreases |ds|
  {
    var front, last := ds[..|ds| - 1], ds[|ds| - 1];
    if |ds| == 1 {
      assert front == [];
      assert NatOf(ds) == last - 0x30;
    } else {
      DigitsUnique(front);
      NonZero(front);
      assert NatOf(ds) / 10 == NatOf(front) && NatOf(ds) % 10 == last - 0x30;
      assert ds == front + [last];
    }
  }

  lemma {:induction false} NonZero(ds: bytes)
    requires AllDigits(ds) && ds != [] && ds[0] != ZERO
    ensures NatOf(ds) > 0
    decreases |ds|
  {
    if |ds| > 1 {
      NonZero(ds[..|ds| - 1]);
    }
  }

  lemma {:induction false} LeadingStripped(ds: bytes)
    requires AllDigits(ds) && NatOf(ds) > 0
    ensures var n := Digits(NatOf(ds)); |n| <= |ds| && ds == Zeros(|ds| - |n|) + n
    decreases |ds|
  {
    hide Digits;
    if ds[0] == ZERO {
      var rest := ds[1..];
      assert ds == Zeros(1) + rest;
      LeadingZeros(1, rest);
      LeadingStripped(rest);
      var n := Digits(NatOf(ds));
      assert ds == Zeros(1) + (Zeros(|rest| - |n|) + n) == Zeros(|ds| - |n|) + n;
    } else {
      DigitsUnique(ds);
      assert ds == Zeros(0) + ds;
    }
  }

  predicate Trimmed(ds: bytes) {
    ds == [] || ds[|ds| - 1] != ZERO
  }

  // A finite number is displayed as the one lexeme of its value that has no
  // exponent and no zero at the end of a fraction.
  lemma DisplayExactly(n: Num, l: Lexeme)
    requires n.Finite?
    ensures l == Display(n) <==> l.Valid() && l.exp == NoExp && Trimmed(l.frac) && l.Eval() == n
  {
    hide Digits, NatOf, InRange, Lexeme.Valid, Lexeme.Eval;
    if l == Display(n) {
      EvalDisplay(n);
      DisplayTrimmed(n);
    } else if l.Valid() && l.exp == NoExp && Trimmed(l.frac) && l.Eval() == n {
      if l.frac == [] {
        WholeDisplayed(n, l);
      } else {
        FractionDisplayed(n, l);
      }
    }
  }

  lemma LastDigit(ds: bytes)
    requires AllDigits(ds) && ds != []
    ensures NatOf(ds) % 10 == ds[|ds| - 1] - 0x30
  {}

  lemma DisplayTrimmed(n: Num)
    requires n.Finite?
    ensures Trimmed(Display(n).frac)
  {
    hide Digits, NatOf, InRange;
    LastDigit(Digits(n.coef));
  }

  lemma WholeDisplayed(n: Num, l: Lexeme)
    requires n.Finite? && l.Valid() && l.exp == NoExp && l.frac == [] && l.Eval() == n
    ensures l == Display(n)
  {
    hide Digits, NatOf, InRange;
    assert l.whole + l.frac == l.whole;
    DigitsUnique(l.whole);
    var ds := Digits(n.coef);
    assert n.exp >= 0 && NatOf(l.whole) == n.coef * Pow10(n.exp) by {
      PowZero();
    }
    TrailingZeros(ds, n.exp);
    DigitsUnique(ds + Zeros(n.exp));
  }

  lemma FractionDisplayed(n: Num, l: Lexeme)
    requires n.Finite? && l.Valid() && l.exp == NoExp && l.frac != [] && Trimmed(l.frac) && l.Eval() == n
    ensures l == Display(n)
  {
    hide Digits, NatOf, InRange;
    var all := l.whole + l.frac;
    LastDigit(all);
    assert NatOf(all) % 10 != 0;
    assert n == Finite(l.neg, NatOf(all), -|l.frac|);
    var ds := Digits(NatOf(all));
    if l.whole[0] == ZERO {
      assert l.whole == Zeros(1);
      LeadingZeros(1, l.frac);
      LeadingStripped(l.frac);
    } else {
      DigitsUnique(all);
      assert ds[..|l.whole|] == l.whole && ds[|l.whole|..] == l.frac;
    }
  }
}
