// Token streams without positions, and how tokens depend on the bytes around
// them.
module Streams {
  import opened Bytes
  import opened Errors
  import opened Values
  import opened Lexical
  import opened Grammar
  import opened Escapes
  import opened NumberReading
  import opened Tokenising

  // The tokens of a text, and whether they are all of it.
  datatype Stream = Stream(tokens: seq<Token>, complete: bool)

  function Join(ts: seq<Token>, r: Stream): Stream {
    Stream(ts + r.tokens, r.complete)
  }

  function StreamOf(s: bytes): Stream
    decreases |s|
  {
    var w := SkipSpace(s);
    if w == |s| then Stream([], true)
    else match Next(s[w..])
      case Err(_, _) => Stream([], false)
      case Ok(token, n) => Join([token], StreamOf(s[w + n..]))
  }

  lemma JoinJoin(a: seq<Token>, b: seq<Token>, r: Stream)
    ensures Join(a, Join(b, r)) == Join(a + b, r)
  {
    assert a + (b + r.tokens) == a + b + r.tokens;
  }

  // One token of the stream: r lies w bytes on.
  lemma StreamStep(s: bytes, w: nat, r: Lex<Token>)
    requires w == SkipSpace(s) < |s| && r == Next(s[w..])
    ensures r.Err? ==> StreamOf(s) == Stream([], false)
    ensures r.Ok? ==> StreamOf(s) == Join([r.value], StreamOf(s[w + r.len..]))
  {
    hide Next, SkipSpace, Join;
  }

  lemma StreamEnd(s: bytes)
    requires SkipSpace(s) == |s|
    ensures StreamOf(s) == Stream([], true)
  {
    hide Next, SkipSpace, Join;
  }

  // The tokeniser's scan is the stream, with positions added.
  lemma {:induction false} ScanIsStream(input: bytes, o: nat)
    requires o <= |input|
    ensures StreamOf(input[o..]) == BareScan(ScanAt(input, o))
    decreases |input| - o
  {
    hide Next, SkipSpace, PosAt, StreamOf, ScanAt, Prepend, Join, BareScan;
    var s := input[o..];
    var i := o + SkipSpace(s);
    if i == |input| {
      ScanDone(input, o);
      StreamEnd(s);
    } else {
      var r := Next(input[i..]);
      assert s[i - o..] == input[i..];
      ScanStep(input, o, i, r);
      StreamStep(s, i - o, r);
      if r.Err? {
        BareNone(ScanAt(input, o).error);
      } else {
        assert s[i - o + r.len..] == input[i + r.len..];
        ScanIsStream(input, i + r.len);
        BarePrepend(PositionedToken(r.value, PosAt(input, i), PosAt(input, i + r.len)), ScanAt(input, i + r.len));
      }
    }
  }

  function BareScan(scan: Scan): Stream {
    Stream(Bare(scan.tokens), scan.error == None)
  }

  lemma BarePrepend(t: PositionedToken, r: Scan)
    ensures BareScan(Prepend([t], r)) == Join([t.token], BareScan(r))
  {
    assert Bare([t] + r.tokens) == [t.token] + Bare(r.tokens);
  }

  lemma BareNone(e: Option<Error>)
    ensures BareScan(Scan([], e)) == Stream([], e == None)
  {
    assert Bare([]) == [];
  }

  lemma ScanDone(input: bytes, o: nat)
    requires o <= |input| && o + SkipSpace(input[o..]) == |input|
    ensures ScanAt(input, o) == Scan([], None) && BareScan(ScanAt(input, o)) == Stream([], true)
  {
    hide Next, SkipSpace, PosAt, Prepend;
    BareNone(None);
  }

  lemma SpaceStops(s: bytes)
    ensures s == [] || !IsSpace(s[0]) ==> SkipSpace(s) == 0
  {}

  lemma NextNotSpace(s: bytes)
    requires s != [] && Next(s).Ok?
    ensures !IsSpace(s[0])
  {
    hide ReadString, ReadNumber, ReadLiteral;
  }

  lemma TokenThen(s: bytes, token: Token, n: nat)
    requires s != [] && Next(s) == Ok(token, n)
    ensures StreamOf(s) == Join([token], StreamOf(s[n..]))
  {
    hide Next, SkipSpace, StreamOf;
    NextNotSpace(s);
    SpaceStops(s);
    assert s[0..] == s;
    StreamStep(s, 0, Ok(token, n));
  }

  lemma SkipOne(s: bytes)
    requires s != [] && IsSpace(s[0])
    ensures SkipSpace(s) == 1 + SkipSpace(s[1..])
  {}

  lemma SpaceThen(s: bytes)
    requires s != [] && IsSpace(s[0])
    ensures StreamOf(s) == StreamOf(s[1..])
  {
    hide Next, SkipSpace, StreamOf, Join;
    SkipOne(s);
    var w := SkipSpace(s[1..]);
    if w == |s[1..]| {
      StreamEnd(s);
      StreamEnd(s[1..]);
    } else {
      assert s[1 + w..] == s[1..][w..];
      var r := Next(s[1 + w..]);
      StreamStep(s, 1 + w, r);
      StreamStep(s[1..], w, r);
      if r.Ok? {
        assert s[1 + w + r.len..] == s[1..][w + r.len..];
      }
    }
  }

  lemma {:induction false} SpacesThen(ws: bytes, s: bytes)
    requires forall i :: 0 <= i < |ws| ==> IsSpace(ws[i])
    ensures StreamOf(ws + s) == StreamOf(s)
  {
    hide StreamOf;
    if ws == [] {
      assert ws + s == s;
    } else {
      assert (ws + s)[1..] == ws[1..] + s;
      SpaceThen(ws + s);
      SpacesThen(ws[1..], s);
    }
  }

  // ---- Locality ----

  // Nothing in rest carries on the number s starts with, if it does.
  predicate Closed(s: bytes, rest: bytes) {
    ScanNumber(s).Ok? ==> Ended(ScanNumber(s).value, rest)
  }

  // A token is read from its own bytes only, but for a number exactly when
  // what follows it does not carry it on.
  lemma TokenLocal(s: bytes, t: bytes, token: Token, n: nat)
    requires s != [] && Next(s) == Ok(token, n) && n <= |t| && t[..n] == s[..n]
    ensures t != []
    ensures Next(t) == Ok(token, n) <==> (token.NumberToken? ==> Closed(s, t[n..]))
  {
    hide ReadString, ScanNumber;
    var b := s[0];
    assert t[0] == t[..n][0] == b;
    if Punctuation(b).Some? {
    } else if b == QUOTE {
      StringLocal(s, t, token.s, n);
    } else if b == MINUS || IsDigit(b) {
      NumberLocal(s, t);
    } else {
      LiteralLocal(s, t, n);
    }
  }

  lemma LiteralLocal(s: bytes, t: bytes, n: nat)
    requires n <= |s| && n <= |t| && t[..n] == s[..n]
    ensures forall text: bytes :: |text| == n ==> (text <= s <==> text <= t)
  {
    forall text: bytes | |text| == n
      ensures text <= s <==> text <= t
    {
      assert text <= s <==> text == s[..n];
      assert text <= t <==> text == t[..n];
    }
  }
}
