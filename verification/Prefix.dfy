// The two entry points agree, and what follows a parsed prefix does not
// change it (cjson-rs/src/parser.rs, parse and parse_prefix).
module Prefix {
  import opened Bytes
  import opened Errors
  import opened Numbers
  import opened Values
  import opened Lexical
  import opened Grammar
  import opened NumberReading
  import opened Tokenising
  import opened Streams
  import opened Parsing
  import opened Printing
  import opened RoundTrip

  // s and t have the same first k bytes.
  predicate Agree(s: bytes, t: bytes, k: nat) {
    k <= |s| && k <= |t| && s[..k] == t[..k]
  }

  lemma AgreeOn(s: bytes, t: bytes, k: nat, i: nat)
    requires Agree(s, t, k) && i <= k
    ensures Agree(s, t, i) && Agree(s[i..], t[i..], k - i)
    ensures i < k ==> s[i] == t[i]
  {
    assert s[..i] == s[..k][..i] == t[..k][..i] == t[..i];
    assert s[i..][..k - i] == s[..k][i..] == t[..k][i..] == t[i..][..k - i];
    assert i < k ==> s[i] == s[..k][i] && t[i] == t[..k][i];
  }

  // ---- Tokens see one byte ahead ----

  // A token followed by at least one byte is decided by its own bytes and
  // that byte.
  lemma TokenAhead(s: bytes, t: bytes, token: Token, n: nat)
    requires s != [] && Next(s) == Ok(token, n) && n < |s| && Agree(s, t, n + 1)
    ensures Next(t) == Ok(token, n)
  {
    hide Next, ScanNumber, Ended;
    AgreeOn(s, t, n + 1, n);
    if token.NumberToken? {
      NumberIsNumber(s, token, n);
      NumberEnded(s, n);
      assert s[n..][0] == t[n..][0];
      EndedHead(ScanNumber(s).value, s[n..], t[n..]);
    }
    TokenLocal(s, t, token, n);
  }

  lemma NumberEnded(s: bytes, n: nat)
    requires ReadNumber(s).Ok? && ReadNumber(s).len == n
    ensures ScanNumber(s).Ok? && Ended(ScanNumber(s).value, s[n..])
  {
    hide ScanNumber, Ended;
    ScanEnded(s);
  }

  // Only the first byte matters.
  lemma EndedHead(l: Lexeme, a: bytes, b: bytes)
    requires a != [] && b != [] && a[0] == b[0]
    ensures Ended(l, a) <==> Ended(l, b)
  {}

  lemma NumberIsNumber(s: bytes, token: Token, n: nat)
    requires s != [] && Next(s) == Ok(token, n) && token.NumberToken?
    ensures s[0] == MINUS || IsDigit(s[0])
    ensures Punctuation(s[0]).None? && s[0] != QUOTE
    ensures s[0] != TEXT_TRUE[0] && s[0] != TEXT_FALSE[0] && s[0] != TEXT_NULL[0]
    ensures ReadNumber(s) == Ok(token.n, n)
  {
    hide ReadString, ReadNumber;
  }

  // ---- Scans of texts that agree ----

  lemma {:induction false} SpaceAhead(s: bytes, t: bytes, n: nat)
    requires SkipSpace(s) == n < |s| && Agree(s, t, n + 1)
    ensures SkipSpace(t) == n
    decreases n
  {
    AgreeOn(s, t, n + 1, 0);
    if n > 0 {
      AgreeOn(s, t, n + 1, 1);
      SpaceAhead(s[1..], t[1..], n - 1);
    }
  }

  lemma PositionsAgree(s: bytes, t: bytes, k: nat, i: nat)
    requires Agree(s, t, k) && i <= k
    ensures PosAt(s, i) == PosAt(t, i)
  {
    AgreeOn(s, t, k, i);
  }

  // Where the first j tokens from offset o end.
  function EndOf(ts: Tokens, o: nat, j: nat): nat
    requires j <= |ts|
  {
    if j == 0 then o else ts[j - 1].end.offset
  }

  // The texts agree up to where a token of s ends, and what t has there does
  // not carry the token on, if it is a number.
  ghost predicate Settled(s: bytes, t: bytes, last: PositionedToken, e: nat) {
    && Agree(s, t, e)
    && (last.token.NumberToken? && last.pos.offset <= |s| ==> Closed(s[last.pos.offset..], t[e..]))
  }

  // The first j tokens of s are also the first of t.
  lemma {:induction false} ScanLocal(s: bytes, t: bytes, o: nat, j: nat)
    requires o <= |s| && 0 < j <= |ScanAt(s, o).tokens|
    requires var ts := ScanAt(s, o).tokens; Settled(s, t, ts[j - 1], EndOf(ts, o, j))
    ensures var ts := ScanAt(s, o).tokens; var e := EndOf(ts, o, j);
            o < e <= |s| && ScanAt(t, o) == Prepend(ts[..j], ScanAt(t, e))
    decreases j
  {
    hide Next, SkipSpace, PosAt, ScanAt, Prepend, Closed;
    var i, r := FirstToken(s, o);
    var ts := ScanAt(s, o).tokens;
    var rest := ScanAt(s, i + r.len).tokens;
    var e := EndOf(ts, o, j);
    if j > 1 {
      assert EndOf(rest, i + r.len, j - 1) == e;
      EndsGrow(s, i + r.len, j - 1);
    }
    FirstTokenAgrees(s, t, o, i, r, e, j == 1);
    if j == 1 {
      assert ts[..1] == [ts[0]];
    } else {
      ScanLocal(s, t, i + r.len, j - 1);
      assert ts[..j] == [ts[0]] + rest[..j - 1];
      PrependTwice([ts[0]], rest[..j - 1], ScanAt(t, e));
    }
  }

  // The first token of a scan, and what the scan says after it.
  lemma FirstToken(s: bytes, o: nat) returns (i: nat, r: Lex<Token>)
    requires o <= |s| && ScanAt(s, o).tokens != []
    ensures i == o + SkipSpace(s[o..]) < |s| && r == Next(s[i..]) && r.Ok?
    ensures ScanAt(s, o).tokens
            == [PositionedToken(r.value, PosAt(s, i), PosAt(s, i + r.len))] + ScanAt(s, i + r.len).tokens
  {
    hide Next, SkipSpace, PosAt, ScanAt;
    i := o + SkipSpace(s[o..]);
    if i == |s| {
      ScanDone(s, o);
      r := Err(UnexpectedEof, 0);
    } else {
      r := Next(s[i..]);
      ScanStep(s, o, i, r);
    }
  }

  lemma {:induction false} EndsGrow(s: bytes, o: nat, j: nat)
    requires o <= |s| && 0 < j <= |ScanAt(s, o).tokens|
    ensures o < EndOf(ScanAt(s, o).tokens, o, j) <= |s|
    decreases j
  {
    hide Next, SkipSpace, ScanAt;
    var i, r := FirstToken(s, o);
    if j > 1 {
      EndsGrow(s, i + r.len, j - 1);
    }
  }

  lemma FirstTokenAgrees(s: bytes, t: bytes, o: nat, i: nat, r: Lex<Token>, e: nat, last: bool)
    requires o <= |s| && i == o + SkipSpace(s[o..]) < |s| && r == Next(s[i..]) && r.Ok?
    requires if last then e == i + r.len else i + r.len < e
    requires Agree(s, t, e)
    requires last && r.value.NumberToken? ==> Closed(s[i..], t[e..])
    ensures i + r.len <= |t|
    ensures ScanAt(t, o)
            == Prepend([PositionedToken(r.value, PosAt(s, i), PosAt(s, i + r.len))], ScanAt(t, i + r.len))
  {
    hide Next, SkipSpace, PosAt, ScanAt, Prepend, Closed;
    var n := r.len;
    AgreeOn(s, t, e, o);
    AgreeOn(s[o..], t[o..], e - o, i - o + 1);
    SpaceAhead(s[o..], t[o..], i - o);
    AgreeOn(s, t, e, i);
    if last {
      assert t[i..][n..] == t[e..];
      TokenLocal(s[i..], t[i..], r.value, n);
    } else {
      AgreeOn(s[i..], t[i..], e - i, n + 1);
      TokenAhead(s[i..], t[i..], r.value, n);
    }
    ScanStep(t, o, i, r);
    PositionsAgree(s, t, e, i);
    PositionsAgree(s, t, e, i + n);
  }

  // ---- parse and parse_prefix ----

  // The parser looks only at the tokens it takes.
  lemma ParseLocal(ts: Tokens, us: Tokens, v: Value, j: nat, limit: nat)
    requires Grammar.ParseValue(ts, 0, 0, limit) == Found(v, j)
    requires j <= |us| && us[..j] == ts[..j]
    ensures Grammar.ParseValue(us, 0, 0, limit) == Found(v, j)
  {
    hide Grammar.ParseValue, Flatten, Depth;
    RecognisesExactly(ts, 0, j, v, 0, limit);
    assert Bare(us)[0..j] == Bare(us[..j]) == Bare(ts[..j]) == Bare(ts)[0..j];
    RecognisesExactly(us, 0, j, v, 0, limit);
  }

  // The new bytes carry on a number that stands at the very end of a, after
  // nothing but spaces.
  predicate CarriesOn(a: bytes, rest: bytes) {
    && rest != [] && ScanNumber(a[SkipSpace(a)..]).Ok?
    && Extends(ScanNumber(a[SkipSpace(a)..]).value, rest[0])
  }

  // Text after a parsed prefix leaves the result as it is, except exactly when
  // the value is a number at the very end that the text carries on.
  lemma PrefixStable(a: bytes, rest: bytes, v: Value, n: nat)
    requires ParsePrefix(a) == Success((v, n))
    ensures ParsePrefix(a + rest) == Success((v, n)) <==> !(v.Number? && n == |a| && CarriesOn(a, rest))
  {
    hide ParsePrefix, CarriesOn;
    if v.Number? && n == |a| && CarriesOn(a, rest) {
      if ParsePrefix(a + rest) == Success((v, n)) {
        NumberCarriedOn(a, rest, v);
      }
    } else {
      PrefixKept(a, rest, v, n);
    }
  }

  lemma PrefixKept(a: bytes, rest: bytes, v: Value, n: nat)
    requires ParsePrefix(a) == Success((v, n)) && !(v.Number? && n == |a| && CarriesOn(a, rest))
    ensures ParsePrefix(a + rest) == Success((v, n))
  {
    hide Grammar.ParseValue, ScanAt, Flatten, Depth, Prepend, Closed, CarriesOn;
    var ts := ScanAt(a, 0).tokens;
    var j := Grammar.ParseValue(ts, 0, 0, NESTING_LIMIT).next;
    var t := a + rest;
    EndsGrow(a, 0, j);
    assert t[..n] == a[..n];
    assert Settled(a, t, ts[j - 1], n) by {
      LastSettled(a, rest, v, n, j);
    }
    ScanLocal(a, t, 0, j);
    Restart(ts, t, v, j, n);
  }

  lemma LastSettled(a: bytes, rest: bytes, v: Value, n: nat, j: nat)
    requires ParsePrefix(a) == Success((v, n)) && !(v.Number? && n == |a| && CarriesOn(a, rest))
    requires Grammar.ParseValue(ScanAt(a, 0).tokens, 0, 0, NESTING_LIMIT) == Found(v, j) && n <= |a|
    ensures Settled(a, a + rest, ScanAt(a, 0).tokens[j - 1], n)
  {
    hide Grammar.ParseValue, ScanAt, Closed, CarriesOn, ReadNumber, SkipSpace, ParsePrefix;
    assert (a + rest)[..n] == a[..n];
    LastToken(ScanAt(a, 0).tokens, v, j, NESTING_LIMIT);
    if v.Number? {
      NumberFirst(a, v, n);
      NumberClosed(a, rest, n);
    }
  }

  // The only token of a number, and where it lies.
  lemma NumberFirst(a: bytes, v: Value, n: nat)
    requires ParsePrefix(a) == Success((v, n)) && v.Number?
    ensures var i := SkipSpace(a);
            var ts := ScanAt(a, 0).tokens;
            && i < n <= |a| && ReadNumber(a[i..]) == Ok(v.n, n - i)
            && Grammar.ParseValue(ts, 0, 0, NESTING_LIMIT) == Found(v, 1)
            && ts != [] && ts[0].pos.offset == i
  {
    hide Grammar.ParseValue, ScanAt, SkipSpace, Next, ReadNumber, ParsePrefix;
    var j := PrefixParse(a, v, n);
    OnlyToken(ScanAt(a, 0).tokens, v, j);
    FirstNumber(a, v.n);
  }

  lemma PrefixParse(a: bytes, v: Value, n: nat) returns (j: nat)
    requires ParsePrefix(a) == Success((v, n))
    ensures var ts := ScanAt(a, 0).tokens;
            Grammar.ParseValue(ts, 0, 0, NESTING_LIMIT) == Found(v, j) && 0 < j <= |ts| && n == ts[j - 1].end.offset
  {
    hide Grammar.ParseValue, ScanAt;
    j := Grammar.ParseValue(ScanAt(a, 0).tokens, 0, 0, NESTING_LIMIT).next;
  }

  lemma OnlyToken(ts: Tokens, v: Value, j: nat)
    requires Grammar.ParseValue(ts, 0, 0, NESTING_LIMIT) == Found(v, j) && v.Number?
    ensures j == 1 && ts != [] && ts[0].token == NumberToken(v.n)
  {
    hide Grammar.ParseValue;
    RecognisesExactly(ts, 0, j, v, 0, NESTING_LIMIT);
    assert Bare(ts)[0..j] == [NumberToken(v.n)];
    assert Bare(ts)[0] == Bare(ts)[0..j][0];
  }

  lemma FirstNumber(a: bytes, x: Num)
    requires var ts := ScanAt(a, 0).tokens; ts != [] && ts[0].token == NumberToken(x)
    ensures var i := SkipSpace(a);
            var t := ScanAt(a, 0).tokens[0];
            i == t.pos.offset < t.end.offset <= |a| && ReadNumber(a[i..]) == Ok(x, t.end.offset - i)
  {
    hide ScanAt, SkipSpace, Next, ReadNumber;
    assert a[0..] == a;
    var i, r := FirstToken(a, 0);
    NumberIsNumber(a[i..], r.value, r.len);
  }

  lemma NumberClosed(a: bytes, rest: bytes, n: nat)
    requires SkipSpace(a) < n <= |a| && ReadNumber(a[SkipSpace(a)..]).Ok?
    requires ReadNumber(a[SkipSpace(a)..]).len == n - SkipSpace(a)
    requires !(n == |a| && CarriesOn(a, rest))
    ensures Closed(a[SkipSpace(a)..], (a + rest)[n..])
  {
    hide ScanNumber, SkipSpace, Extends;
    var i := SkipSpace(a);
    NumberEnded(a[i..], n - i);
    if n < |a| {
      DropDrop(a, i, n - i);
      assert (a + rest)[n..][0] == a[n..][0];
      EndedHead(ScanNumber(a[i..]).value, a[n..], (a + rest)[n..]);
    } else {
      assert (a + rest)[n..] == rest;
    }
  }

  lemma NumberCarriedOn(a: bytes, rest: bytes, v: Value)
    requires ParsePrefix(a) == Success((v, |a|)) && ParsePrefix(a + rest) == Success((v, |a|)) && v.Number?
    ensures !CarriesOn(a, rest)
  {
    hide ParsePrefix, Grammar.ParseValue, ScanAt, SkipSpace, ScanNumber, Extends;
    var t := a + rest;
    var i := SkipSpace(a);
    NumberFirst(a, v, |a|);
    NumberFirst(t, v, |a|);
    assert Agree(a, t, i + 1);
    SpaceAhead(a, t, i);
    assert t[i..][..|a| - i] == a[i..] && t[i..][|a| - i..] == rest;
    NumberLocal(a[i..], t[i..]);
  }

  // When a value is not a number, its last token is not one either.
  lemma LastToken(ts: Tokens, v: Value, j: nat, limit: nat)
    requires Grammar.ParseValue(ts, 0, 0, limit) == Found(v, j)
    ensures ts[j - 1].token.NumberToken? ==> v.Number?
  {
    hide Grammar.ParseValue;
    RecognisesExactly(ts, 0, j, v, 0, limit);
    assert Bare(ts)[j - 1] == Bare(ts)[0..j][j - 1];
    assert Flatten(v)[j - 1].NumberToken? ==> v.Number?;
  }

  lemma Restart(ts: Tokens, t: bytes, v: Value, j: nat, n: nat)
    requires Grammar.ParseValue(ts, 0, 0, NESTING_LIMIT) == Found(v, j) && n == ts[j - 1].end.offset <= |t|
    requires ScanAt(t, 0) == Prepend(ts[..j], ScanAt(t, n))
    ensures ParsePrefix(t) == Success((v, n))
  {
    hide Grammar.ParseValue, ScanAt;
    var us := ScanAt(t, 0).tokens;
    assert us[..j] == ts[..j];
    ParseLocal(ts, us, v, j, NESTING_LIMIT);
    assert us[j - 1] == us[..j][j - 1] == ts[j - 1];
  }

  // A prefix result is the strict result on the bytes it consumed, and it
  // consumed at least one and at most all.
  lemma PrefixIsStrict(s: bytes, v: Value, n: nat)
    requires ParsePrefix(s) == Success((v, n))
    ensures 1 <= n <= |s| && Parse(s[..n], NESTING_LIMIT) == Success(v)
    ensures ParsePrefix(s[..n]) == Success((v, n))
  {
    hide Grammar.ParseValue, ScanAt, Prepend;
    var ts := ScanAt(s, 0).tokens;
    var j := Grammar.ParseValue(ts, 0, 0, NESTING_LIMIT).next;
    EndsGrow(s, 0, j);
    var t := s[..n];
    assert t[..n] == t && t[n..] == [];
    ScanLocal(s, t, 0, j);
    Exhausted(ts, t, v, j);
    Restart(ts, t, v, j, n);
  }

  lemma Exhausted(ts: Tokens, t: bytes, v: Value, j: nat)
    requires Grammar.ParseValue(ts, 0, 0, NESTING_LIMIT) == Found(v, j)
    requires ScanAt(t, 0) == Prepend(ts[..j], ScanAt(t, |t|))
    ensures Parse(t, NESTING_LIMIT) == Success(v)
  {
    hide Grammar.ParseValue, ScanAt;
    SpaceStops([]);
    assert t[|t|..] == [];
    ScanDone(t, |t|);
    var us := ScanAt(t, 0).tokens;
    assert us == ts[..j];
    ParseLocal(ts, us, v, j, NESTING_LIMIT);
  }

  // A strict result is the prefix result, with only whitespace after it.
  lemma StrictIsPrefix(s: bytes, v: Value)
    requires Parse(s, NESTING_LIMIT) == Success(v)
    ensures ParsePrefix(s).Success? && ParsePrefix(s).value.0 == v
    ensures var n := ParsePrefix(s).value.1;
            1 <= n <= |s| && forall i :: n <= i < |s| ==> IsSpace(s[i])
  {
    hide Grammar.ParseValue, ScanAt;
    var ts := ScanAt(s, 0).tokens;
    EndsGrow(s, 0, |ts|);
    OnlySpaceLeft(s, 0);
  }

  lemma {:induction false} OnlySpaceLeft(s: bytes, o: nat)
    requires o <= |s| && ScanAt(s, o).error == None
    ensures var ts := ScanAt(s, o).tokens; var e := EndOf(ts, o, |ts|);
            forall i :: e <= i < |s| ==> IsSpace(s[i])
    decreases |s| - o
  {
    hide Next, SkipSpace, ScanAt;
    var i := o + SkipSpace(s[o..]);
    if i == |s| {
      ScanDone(s, o);
      assert forall k :: o <= k < |s| ==> s[k] == s[o..][k - o];
    } else {
      ScanStep(s, o, i, Next(s[i..]));
      OnlySpaceLeft(s, i + Next(s[i..]).len);
    }
  }

  // The exception is real: "1" is a parsed prefix, but not of "12".
  lemma NumberGoesOn()
    ensures var one: Num := Finite(false, 1, 0); var twelve: Num := Finite(false, 12, 0);
            && ParsePrefix([0x31]) == Success((Number(one), 1))
            && ParsePrefix([0x31] + [0x32]) == Success((Number(twelve), 2))
  {
    hide ParsePrefix, Parse;
    InRangeSmall(1);
    InRangeSmall(12);
    var one: Num := Finite(false, 1, 0);
    var twelve: Num := Finite(false, 12, 0);
    DigitsPrefix(one, [0x31]);
    DigitsPrefix(twelve, [0x31, 0x32]);
    assert [0x31] + [0x32] == [0x31, 0x32];
  }

  lemma InRangeSmall(n: nat)
    requires n < 1000
    ensures InRange(n, 0)
  {
    assert Pow10(0) == 1;
  }

  lemma DigitsPrefix(n: Num, w: bytes)
    requires n.Finite? && n.exp == 0 && !n.neg && 0 < n.coef < 100
    requires w == if n.coef < 10 then [0x30 + n.coef] else [0x30 + n.coef / 10, 0x30 + n.coef % 10]
    ensures ParsePrefix(w) == Success((Number(n), |w|))
  {
    hide ParsePrefix, Parse, Depth, Text;
    SmallText(n, w);
    RoundTrips(Number(n), None, NESTING_LIMIT);
    assert Depth(Number(n)) == 0 by {
      LeafDepth(n);
    }
    StrictIsPrefix(w, Number(n));
    assert IsDigit(w[|w| - 1]);
  }

  lemma SmallText(n: Num, w: bytes)
    requires n.Finite? && n.exp == 0 && !n.neg && 0 < n.coef < 100
    requires w == if n.coef < 10 then [0x30 + n.coef] else [0x30 + n.coef / 10, 0x30 + n.coef % 10]
    ensures Text(Number(n), None, 0) == w
  {
    hide Digits, InRange, Normal, NatOf;
    SmallDigits(n.coef, w);
    assert w + Zeros(0) == w;
  }

  lemma SmallDigits(n: nat, w: bytes)
    requires 0 < n < 100
    requires w == if n < 10 then [0x30 + n] else [0x30 + n / 10, 0x30 + n % 10]
    ensures Digits(n) == w
  {
    hide NatOf;
  }

  lemma LeafDepth(n: Num)
    ensures Depth(Number(n)) == 0
  {}
}
