// Which error a text is refused with, and where.
module Reports {
  import opened Errors
  import opened Bytes
  import opened Values
  import opened Lexical
  import opened Grammar
  import opened Parsing
  import opened Stuck

  // Reading stops in one way only.
  lemma StuckOnce(T: seq<Token>, n: nat, kind: Kind, back: bool, m: nat, other: Kind, elsewhere: bool, room: int)
    requires StuckAt(AValue, T, n, room, kind, back) && StuckAt(AValue, T, m, room, other, elsewhere)
    ensures n == m && kind == other && back == elsewhere
  {
    hide Starts, Whole, CommaTrails, Nest;
    if n < m {
      StuckBefore(T, n, kind, back, m, other, elsewhere, room);
    } else if m < n {
      StuckBefore(T, m, other, elsewhere, n, kind, back, room);
    }
  }

  lemma StuckBefore(T: seq<Token>, n: nat, kind: Kind, back: bool, m: nat, other: Kind, elsewhere: bool, room: int)
    requires StuckAt(AValue, T, n, room, kind, back) && StuckAt(AValue, T, m, room, other, elsewhere)
    ensures n >= m
  {
    hide Starts, Whole, CommaTrails, Nest;
    if n < m {
      FreeUntil(T, m, n, room);
    }
  }

  lemma FreeUntil(T: seq<Token>, m: nat, n: nat, room: int)
    requires n < m <= |T| && Starts(AValue, T[..m]) && Fits(T, m, room)
    ensures Starts(AValue, T[..n + 1]) && (Opens(T[n]) ==> Nest(T[..n]) < room)
  {
    hide Starts, Whole, Nest;
    StartsShorter(AValue, T[..m], n + 1);
    assert T[..m][..n + 1] == T[..n + 1];
    assert FitsAt(T, n, room);
  }

  // A value that is there stops the reading from getting stuck.
  lemma FoundNotStuck(ts: Tokens, v: Value, j: nat, limit: nat, n: nat, kind: Kind, back: bool)
    requires ParseValue(ts, 0, 0, limit) == Found(v, j)
    ensures !StuckAt(AValue, Bare(ts), n, limit, kind, back)
  {
    hide Starts, Whole, CommaTrails, Nest, ParseValue, Flatten, Depth, Bare;
    ValueSound(ts, 0, 0, limit);
    var T, a := Bare(ts), Flatten(v);
    assert T[0..j] == T[..j] == a;
    ValueNest(a, v, limit);
    if n < j {
      NotStuckInside(a, T, n, limit);
    } else if n <= |T| && Starts(AValue, T[..n]) {
      assert a == T[..n][..j];
      WholeNotWithin(a, T[..n]);
    }
  }

  lemma NotStuckInside(a: seq<Token>, T: seq<Token>, n: nat, room: int)
    requires Whole(AValue, a) && Fits(a, |a|, room) && a <= T && n < |a|
    ensures Starts(AValue, T[..n + 1]) && (Opens(T[n]) ==> Nest(T[..n]) < room)
  {
    hide Whole, Nest;
    WholeStarts(AValue, a);
    StartsShorter(AValue, a, n + 1);
    assert a == T[..|a|];
    assert a[..n + 1] == T[..n + 1] && a[..n] == T[..n] && a[n] == T[n];
    assert FitsAt(a, n, room);
  }

  lemma WholeNotWithin(a: seq<Token>, u: seq<Token>)
    requires Whole(AValue, a) && a <= u && Starts(AValue, u)
    ensures Whole(AValue, u)
  {
    hide Whole;
    var w :| u <= w && Whole(AValue, w);
    assert a == u[..|a|] == w[..|a|];
    ValuesApart(a, w);
    assert u == w;
  }

  // The tokens refused with e: a value could go on until one of them.
  ghost predicate Refused(ts: Tokens, limit: nat, e: Error) {
    exists n: nat, back: bool :: Explains(AValue, ts, 0, limit, e, n, back)
  }

  lemma RefusedExactly(ts: Tokens, limit: nat, e: Error)
    ensures ParseValue(ts, 0, 0, limit) == Fail(e) <==> Refused(ts, limit, e)
  {
    hide StuckAt, ParseValue, Bare;
    assert Bare(ts)[0..] == Bare(ts);
    var r := ParseValue(ts, 0, 0, limit);
    if r.Fail? {
      var n, back := ValueStuck(ts, 0, 0, limit);
      if Refused(ts, limit, e) {
        var m: nat, elsewhere: bool :| Explains(AValue, ts, 0, limit, e, m, elsewhere);
        StuckOnce(Bare(ts), n, r.error.kind, back, m, e.kind, elsewhere, limit);
      }
    } else if Refused(ts, limit, e) {
      var m: nat, elsewhere: bool :| Explains(AValue, ts, 0, limit, e, m, elsewhere);
      FoundNotStuck(ts, r.value, r.next, limit, m, e.kind, elsewhere);
    }
  }

  // Tokens after a value are refused at the first of them.
  ghost predicate Trails(ts: Tokens, limit: nat, e: Error) {
    exists v: Value ::
      |Flatten(v)| < |ts| && Bare(ts)[..|Flatten(v)|] == Flatten(v) && Depth(v) <= limit
      && e == Error(TrailingData, ts[|Flatten(v)|].pos)
  }

  // A strict parse fails with the first error of the tokeniser, if there is one;
  // otherwise at the token where it gets stuck, or at the first after a value.
  lemma StrictError(s: bytes, limit: nat, e: Error)
    ensures var scan := ScanAt(s, 0);
            Parse(s, limit) == Failure(e)
            <==> scan.error == Some(e)
                 || (scan.error == None && (Refused(scan.tokens, limit, e) || Trails(scan.tokens, limit, e)))
  {
    hide ScanAt, ParseValue, Refused, Flatten, Depth, Bare;
    var ts := ScanAt(s, 0).tokens;
    RefusedExactly(ts, limit, e);
    TrailsExactly(ts, limit, e);
  }

  lemma TrailsExactly(ts: Tokens, limit: nat, e: Error)
    ensures Trails(ts, limit, e)
            <==> var r := ParseValue(ts, 0, 0, limit);
                 r.Found? && r.next < |ts| && e == Error(TrailingData, ts[r.next].pos)
  {
    hide ParseValue, Flatten, Depth, Bare;
    var r := ParseValue(ts, 0, 0, limit);
    forall v: Value, j: nat
      ensures r == Found(v, j) <==> j <= |ts| && Bare(ts)[..j] == Flatten(v) && Depth(v) <= limit
    {
      RecognisesExactly(ts, 0, j, v, 0, limit);
      assert j <= |ts| ==> Bare(ts)[0..j] == Bare(ts)[..j];
    }
    if r.Found? {
      assert |Bare(ts)[..r.next]| == r.next;
    }
  }

  // A prefix parse fails where the tokens before any error get stuck.
  lemma PrefixError(s: bytes, e: Error)
    ensures ParsePrefix(s) == Failure(e) <==> Refused(ScanAt(s, 0).tokens, NESTING_LIMIT, e)
  {
    hide ScanAt, ParseValue, Refused;
    RefusedExactly(ScanAt(s, 0).tokens, NESTING_LIMIT, e);
  }

  // The end of the input is reported exactly when the tokens could go on.
  lemma EndReported(ts: Tokens, limit: nat, e: Error)
    requires Refused(ts, limit, e)
    ensures e.kind == UnexpectedEof <==>
            Starts(AValue, Bare(ts)) && !Whole(AValue, Bare(ts)) && Fits(Bare(ts), |ts|, limit)
  {
    hide Starts, Whole, CommaTrails, Fits, Nest;
    var T := Bare(ts);
    assert T[0..] == T && T[..|T|] == T;
    var n: nat, back: bool :| Explains(AValue, ts, 0, limit, e, n, back);
    if Starts(AValue, T) && !Whole(AValue, T) && Fits(T, |ts|, limit) {
      StuckOnce(T, n, e.kind, back, |T|, UnexpectedEof, false, limit);
    }
  }

  // In "[null,]" a value could go on after the comma, and the bracket is the
  // token that fits none; but the comma is what is reported.
  lemma CommaReported(ts: Tokens, limit: nat)
    requires Bare(ts) == [BeginArray, NullToken, ValueSeparator, EndArray] && limit > 0
    ensures ParseValue(ts, 0, 0, limit) == Fail(Error(UnexpectedToken, ts[2].pos))
    ensures Starts(AValue, Bare(ts)[..3]) && !Starts(AValue, Bare(ts))
  {
    hide Starts, Whole, CommaTrails, Nest;
    assert |ts| == 4 && Bare(ts)[0] == ts[0].token && Bare(ts)[1] == ts[1].token;
    assert Bare(ts)[2] == ts[2].token && Bare(ts)[3] == ts[3].token;
    assert ParseValue(ts, 1, 1, limit) == Found(Null, 2);
    ItemsStep(ts, 1, 1, limit, []);
    NullElement();
    StartsBracketed(SomeItems, [NullToken, ValueSeparator]);
    StartsBracketed(SomeItems, [NullToken, ValueSeparator, EndArray]);
    assert Bare(ts)[..3] == [BeginArray] + [NullToken, ValueSeparator];
    assert Bare(ts) == [BeginArray] + [NullToken, ValueSeparator, EndArray];
  }

  lemma NullElement()
    ensures Starts(SomeItems, [NullToken, ValueSeparator]) && !Starts(SomeItems, [NullToken, ValueSeparator, EndArray])
  {
    hide Starts, Whole;
    WholeValue([NullToken], Null);
    StartsEmpty(SomeItems);
    AfterFirst(SomeItems, [], [NullToken], ValueSeparator, []);
    AfterFirst(SomeItems, [], [NullToken], ValueSeparator, [EndArray]);
    if Starts(SomeItems, [EndArray]) {
      StartHead(SomeItems, [EndArray]);
    }
    assert [] + ([NullToken] + ([ValueSeparator] + [])) == [NullToken, ValueSeparator];
    assert [] + ([NullToken] + ([ValueSeparator] + [EndArray])) == [NullToken, ValueSeparator, EndArray];
  }
}
