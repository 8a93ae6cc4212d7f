// Numbers as exact decimals, the lexemes of section 6 of RFC 8259, and the
// text a finite number is displayed as.
module Numbers {
  import opened Bytes

  function Pow10(e: nat): (p: nat)
    ensures p > 0
  {
    if e == 0 then 1 else 10 * Pow10(e - 1)
  }

  // (2^54 - 1) * 2^970, the least magnitude that a 64-bit float rounds to
  // infinity; 2^970 as 2^10 times three times 2^320.
  function FloatLimit(): nat {
    0x3F_FFFF_FFFF_FFFF * (0x400
    * 0x100000000000000000000000000000000000000000000000000000000000000000000000000000000
    * 0x100000000000000000000000000000000000000000000000000000000000000000000000000000000
    * 0x100000000000000000000000000000000000000000000000000000000000000000000000000000000)
  }

  // |coef * 10^exp| is below the limit.
  predicate InRange(coef: nat, exp: int) {
    || coef == 0
    || if exp >= 0 then coef * Pow10(exp) < FloatLimit() else coef < FloatLimit() * Pow10(-exp)
  }

  // No trailing zero in the coefficient; zero has exponent zero.
  predicate Normal(coef: nat, exp: int) {
    if coef == 0 then exp == 0 else coef % 10 != 0
  }

  datatype Float = Finite(neg: bool, coef: nat, exp: int) | Infinite(neg: bool) | NaN

  // The numbers a value can hold. Negative zero differs from zero.
  type Num = n: Float | n.Finite? ==> Normal(n.coef, n.exp) && InRange(n.coef, n.exp)
    witness Finite(false, 0, 0)

  // ---- Digits ----

  predicate AllDigits(ds: bytes) { forall i :: 0 <= i < |ds| ==> IsDigit(ds[i]) }

  function NatOf(ds: bytes): nat
    requires AllDigits(ds)
  {
    if ds == [] then 0 else 10 * NatOf(ds[..|ds| - 1]) + (ds[|ds| - 1] as int - 0x30)
  }

  function Digits(n: nat): (ds: bytes)
    ensures |ds| > 0 && AllDigits(ds)
    ensures NatOf(ds) == n
    ensures ds[0] == ZERO ==> n == 0 && |ds| == 1
  {
    if n < 10 then
      var ds: bytes := [0x30 + n];
      assert ds[..0] == [];
      ds
    else
      var front := Digits(n / 10);
      var ds: bytes := front + [0x30 + n % 10];
      assert ds[..|ds| - 1] == front;
      ds
  }

  function Zeros(k: nat): (zs: bytes)
    ensures |zs| == k && AllDigits(zs)
    ensures forall i :: 0 <= i < k ==> zs[i] == ZERO
  {
    seq(k, i => ZERO)
  }

  lemma {:induction false} LeadingZeros(k: nat, ds: bytes)
    requires AllDigits(ds)
    ensures NatOf(Zeros(k) + ds) == NatOf(ds)
    decreases |ds|, k
  {
    var all := Zeros(k) + ds;
    if ds != [] {
      assert all[..|all| - 1] == Zeros(k) + ds[..|ds| - 1];
      LeadingZeros(k, ds[..|ds| - 1]);
    } else if k > 0 {
      assert all[..|all| - 1] == Zeros(k - 1) + ds;
      LeadingZeros(k - 1, ds);
    }
  }

  // ---- Normal form ----

  function Normalise(coef: nat, exp: int): (r: (nat, int))
    ensures Normal(r.0, r.1)
    ensures r.0 == 0 <==> coef == 0
    ensures coef > 0 ==> exp <= r.1 && coef == r.0 * Pow10(r.1 - exp)
  {
    if coef == 0 then (0, 0)
    else if coef % 10 == 0 then
      var r := Normalise(coef / 10, exp + 1);
      assert coef == 10 * (coef / 10) == r.0 * (10 * Pow10(r.1 - exp - 1)) by {
        assert coef / 10 == r.0 * Pow10(r.1 - exp - 1);
        MulSwap(r.0, Pow10(r.1 - exp - 1));
      }
      r
    else (coef, exp)
  }

  lemma MulSwap(a: nat, b: nat)
    ensures 10 * (a * b) == a * (10 * b)
  {}

  // The normal form depends on the value only: scaling by ten and moving the
  // exponent gives the same pair.
  lemma {:induction false} NormaliseShift(coef: nat, k: nat, exp: int)
    ensures Normalise(coef * Pow10(k), exp) == Normalise(coef, exp + k)
    decreases k
  {
    if k > 0 {
      assert coef * Pow10(k) == 10 * (coef * Pow10(k - 1)) by { MulSwap(coef, Pow10(k - 1)); }
      NormaliseShift(coef, k - 1, exp + 1);
    }
  }

  // Equal values, written with exponents e <= f, have equal normal forms, and
  // only they do.
  lemma NormaliseCanonical(c: nat, e: int, d: nat, f: int)
    requires e <= f
    ensures Normalise(c, e) == Normalise(d, f) <==> c == d * Pow10(f - e)
  {
    if c == d * Pow10(f - e) {
      NormaliseShift(d, f - e, e);
    } else if d > 0 && Normalise(c, e) == Normalise(d, f) {
      var n := Normalise(c, e);
      PowSum(n.1 - f, f - e);
      MulAssoc(n.0, Pow10(n.1 - f), Pow10(f - e));
    }
  }

  lemma MulAssoc(a: nat, b: nat, c: nat)
    ensures a * b * c == a * (b * c)
  {}

  lemma {:induction false} PowSum(a: nat, b: nat)
    ensures Pow10(a) * Pow10(b) == Pow10(a + b)
  {
    if a > 0 {
      PowSum(a - 1, b);
      MulAssoc(10, Pow10(a - 1), Pow10(b));
    }
  }

  lemma {:induction false} TrailingZeros(ds: bytes, k: nat)
    requires AllDigits(ds)
    ensures NatOf(ds + Zeros(k)) == NatOf(ds) * Pow10(k)
  {
    var all := ds + Zeros(k);
    if k == 0 {
      assert all == ds;
    } else {
      assert all[..|all| - 1] == ds + Zeros(k - 1);
      TrailingZeros(ds, k - 1);
      MulSwap(NatOf(ds), Pow10(k - 1));
    }
  }

  // ---- Lexemes: number = [ minus ] int [ frac ] [ exp ] ----

  datatype Exponent = NoExp | Exp(mark: byte, sign: bytes, digits: bytes) {
    predicate Valid() {
      Exp? ==>
        && (mark == 0x65 || mark == 0x45)
        && (sign == [] || sign == [PLUS] || sign == [MINUS])
        && digits != [] && AllDigits(digits)
    }

    function Text(): bytes {
      if NoExp? then [] else [mark] + sign + digits
    }

    function Value(): int
      requires Valid()
    {
      if NoExp? then 0
      else
        var n: int := NatOf(digits);
        if sign == [MINUS] then -n else n
    }
  }

  datatype Lexeme = Lexeme(neg: bool, whole: bytes, frac: bytes, exp: Exponent) {
    predicate Valid() {
      && whole != [] && AllDigits(whole) && (whole[0] == ZERO ==> |whole| == 1)
      && AllDigits(frac)
      && exp.Valid()
    }

    function FracText(): bytes {
      if frac == [] then [] else [DOT] + frac
    }

    function Sign(): bytes {
      if neg then [MINUS] else []
    }

    function Text(): bytes {
      Sign() + (whole + (FracText() + exp.Text()))
    }

    // The exact value, in normal form.
    function Eval(): (n: Float)
      requires Valid()
      ensures n.Finite? && Normal(n.coef, n.exp)
    {
      var r := Normalise(NatOf(whole + frac), exp.Value() - |frac|);
      Finite(neg, r.0, r.1)
    }
  }

  // RFC 8259, section 6: the texts that are numbers.
  ghost predicate IsNumber(w: bytes) {
    exists l: Lexeme :: l.Valid() && l.Text() == w
  }

  // The text a finite number is displayed as: plain digits, a point only when
  // there is a fraction, never an exponent.
  function Display(n: Num): (l: Lexeme)
    requires n.Finite?
    ensures l.Valid() && l.exp == NoExp
  {
    var ds := Digits(n.coef);
    if n.exp >= 0 then
      Lexeme(n.neg, ds + Zeros(n.exp), [], NoExp)
    else if |ds| > -n.exp then
      Lexeme(n.neg, ds[..|ds| + n.exp], ds[|ds| + n.exp..], NoExp)
    else
      Lexeme(n.neg, [ZERO], Zeros(-n.exp - |ds|) + ds, NoExp)
  }

  // Displaying and evaluating gives the number back.
  lemma EvalDisplay(n: Num)
    requires n.Finite?
    ensures Display(n).Eval() == n
  {
    var ds := Digits(n.coef);
    var l := Display(n);
    if n.exp >= 0 {
      assert l.whole + l.frac == l.whole;
      TrailingZeros(ds, n.exp);
      NormaliseShift(n.coef, n.exp, 0);
    } else if |ds| > -n.exp {
      assert l.whole + l.frac == ds;
    } else {
      assert l.whole + l.frac == Zeros(1 - n.exp - |ds|) + ds;
      LeadingZeros(1 - n.exp - |ds|, ds);
    }
  }

  // Evaluation is exact: two lexemes give the same number just when their
  // signs agree and their decimal values are equal.
  lemma EvalExact(l: Lexeme, m: Lexeme)
    requires l.Valid() && m.Valid()
    requires l.exp.Value() - |l.frac| <= m.exp.Value() - |m.frac|
    ensures l.Eval() == m.Eval() <==>
            && l.neg == m.neg
            && NatOf(l.whole + l.frac)
               == NatOf(m.whole + m.frac) * Pow10((m.exp.Value() - |m.frac|) - (l.exp.Value() - |l.frac|))
  {
    NormaliseCanonical(NatOf(l.whole + l.frac), l.exp.Value() - |l.frac|,
                       NatOf(m.whole + m.frac), m.exp.Value() - |m.frac|);
  }
}
