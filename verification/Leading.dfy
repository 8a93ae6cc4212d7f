// Documents with something around them: the four space bytes change nothing,
// and a prefix parse finds the document that leads a text.
module Leading {
  import opened Bytes
  import opened Errors
  import opened Numbers
  import opened Values
  import opened Lexical
  import opened NumberReading
  import opened Parsing
  import opened Prefix
  import opened Spelling
  import opened Documents

  // ---- Spaces around ----

  ghost predicate Blanks(ws: bytes) {
    forall i :: 0 <= i < |ws| ==> ws[i] == 0x20 || ws[i] == 0x09 || ws[i] == 0x0A || ws[i] == 0x0D
  }

  // No spelling ends with a space.
  lemma SpelledEnd(w: bytes, t: Token)
    requires SpellsToken(w, t)
    ensures w != [] && !IsSpace(w[|w| - 1])
  {
    hide SpellsChars, Lexeme.Valid, Lexeme.Text, Lexeme.Eval;
    if t.NumberToken? {
      var l: Lexeme :| l.Valid() && l.Text() == w;
      NumberEnds(l);
    }
  }

  lemma LaidAfter(ws: bytes, s: bytes, ts: seq<Token>)
    requires forall i :: 0 <= i < |ws| ==> IsSpace(ws[i])
    ensures Laid(ws + s, ts) <==> Laid(s, ts)
  {
    hide SpellsToken, Laid;
    if Laid(ws + s, ts) {
      LaidInside(ws, s, ts);
    }
    if Laid(s, ts) {
      LaidOutside(ws, s, ts);
    }
  }

  lemma LaidInside(ws: bytes, s: bytes, ts: seq<Token>)
    requires Laid(ws + s, ts)
    requires forall i :: 0 <= i < |ws| ==> IsSpace(ws[i])
    ensures Laid(s, ts)
  {
    hide SpellsToken;
    var u := ws + s;
    if ts == [] {
      assert forall i :: 0 <= i < |s| ==> s[i] == u[|ws| + i];
    } else {
      var w: nat, n: nat :| LaidAt(u, ts, w, n) && Laid(u[w + n..], ts[1..]);
      SpelledStart(u[w..w + n], ts[0]);
      assert u[w] == u[w..w + n][0];
      var k := w - |ws|;
      assert s[k..k + n] == u[w..w + n] && s[k + n..] == u[w + n..];
      assert forall i :: 0 <= i < k ==> s[i] == u[|ws| + i];
      LaidMore(s, ts, k, n);
    }
  }

  lemma LaidOutside(ws: bytes, s: bytes, ts: seq<Token>)
    requires Laid(s, ts)
    requires forall i :: 0 <= i < |ws| ==> IsSpace(ws[i])
    ensures Laid(ws + s, ts)
  {
    hide SpellsToken;
    var u := ws + s;
    if ts != [] {
      var w: nat, n: nat :| LaidAt(s, ts, w, n) && Laid(s[w + n..], ts[1..]);
      var k := |ws| + w;
      assert s[w..w + n] == u[k..k + n] && s[w + n..] == u[k + n..];
      assert forall i :: 0 <= i < k ==> IsSpace(u[i]);
      LaidMore(u, ts, k, n);
    }
  }

  lemma {:induction false} LaidBefore(s: bytes, ws: bytes, ts: seq<Token>)
    requires forall i :: 0 <= i < |ws| ==> IsSpace(ws[i])
    ensures Laid(s + ws, ts) <==> Laid(s, ts)
    decreases |ts|
  {
    hide SpellsToken;
    var u := s + ws;
    if ts == [] {
      assert forall i :: 0 <= i < |s| ==> s[i] == u[i];
    } else {
      if Laid(u, ts) {
        var w: nat, n: nat :| LaidAt(u, ts, w, n) && Laid(u[w + n..], ts[1..]);
        TokenInside(s, ws, ts, w, n);
        LaidBefore(s[w + n..], ws, ts[1..]);
        LaidMore(s, ts, w, n);
      }
      if Laid(s, ts) {
        var w: nat, n: nat :| LaidAt(s, ts, w, n) && Laid(s[w + n..], ts[1..]);
        TokenOutside(s, ws, ts, w, n);
        LaidBefore(s[w + n..], ws, ts[1..]);
        LaidMore(u, ts, w, n);
      }
    }
  }

  lemma TokenInside(s: bytes, ws: bytes, ts: seq<Token>, w: nat, n: nat)
    requires LaidAt(s + ws, ts, w, n) && forall i :: 0 <= i < |ws| ==> IsSpace(ws[i])
    ensures LaidAt(s, ts, w, n) && (s + ws)[w + n..] == s[w + n..] + ws
  {
    hide SpellsToken;
    var u := s + ws;
    SpelledEnd(u[w..w + n], ts[0]);
    assert u[w + n - 1] == u[w..w + n][n - 1];
    SliceBefore(s, ws, w, w + n);
    assert forall i :: 0 <= i < w ==> s[i] == u[i];
  }

  lemma TokenOutside(s: bytes, ws: bytes, ts: seq<Token>, w: nat, n: nat)
    requires LaidAt(s, ts, w, n)
    ensures LaidAt(s + ws, ts, w, n) && (s + ws)[w + n..] == s[w + n..] + ws
  {
    hide SpellsToken;
    SliceBefore(s, ws, w, w + n);
    assert forall i :: 0 <= i < w ==> s[i] == (s + ws)[i];
  }

  lemma SliceBefore(s: bytes, ws: bytes, i: nat, j: nat)
    requires i <= j <= |s|
    ensures (s + ws)[i..j] == s[i..j] && (s + ws)[j..] == s[j..] + ws
  {}

  // The four space bytes around a document change nothing.
  lemma SpacesAround(before: bytes, s: bytes, after: bytes, v: Value)
    requires Blanks(before) && Blanks(after)
    ensures Document(before + s + after, v) <==> Document(s, v)
  {
    hide Laid, Flatten;
    LaidBefore(before + s, after, Flatten(v));
    LaidAfter(before, s, Flatten(v));
  }

  // ---- The leading document ----

  // If v is a number, nothing in rest carries it on from the end of s.
  ghost predicate Ends(s: bytes, v: Value, rest: bytes) {
    v.Number? ==>
      forall w: nat :: w <= |s| && (forall i :: 0 <= i < w ==> IsSpace(s[i])) ==> Whole(s[w..], rest)
  }

  // A prefix parse finds v in the first n bytes exactly when they spell v up to
  // its last byte, v does not nest too deep, and the rest does not carry it on.
  lemma PrefixDocument(s: bytes, v: Value, n: nat)
    ensures ParsePrefix(s) == Success((v, n)) <==>
            && 1 <= n <= |s| && Document(s[..n], v) && !IsSpace(s[n - 1]) && Depth(v) <= NESTING_LIMIT
            && Ends(s[..n], v, s[n..])
  {
    hide ParsePrefix, Parse, Document, Depth, Ends, CarriesOn;
    if ParsePrefix(s) == Success((v, n)) {
      PrefixIsStrict(s, v, n);
    }
    if 1 <= n <= |s| {
      var a, rest := s[..n], s[n..];
      assert s == a + rest;
      ParsesDocument(a, v, NESTING_LIMIT);
      if Parse(a, NESTING_LIMIT) == Success(v) {
        StrictWhole(a, v);
        if !IsSpace(a[n - 1]) {
          PrefixStable(a, rest, v, n);
          CarriesExactly(a, v, rest);
        }
      }
    }
  }

  // A document parses as a prefix to its last byte.
  lemma StrictWhole(a: bytes, v: Value)
    requires a != [] && Parse(a, NESTING_LIMIT) == Success(v)
    ensures ParsePrefix(a) == Success((v, |a|)) <==> !IsSpace(a[|a| - 1])
  {
    hide ParsePrefix, Parse, Document, Depth, CarriesOn, Extends;
    StrictIsPrefix(a, v);
    if IsSpace(a[|a| - 1]) {
      var b, last := a[..|a| - 1], a[|a| - 1..];
      assert a == b + last;
      ParsesDocument(a, v, NESTING_LIMIT);
      TrailingSpace(b, last, v);
      ParsesDocument(b, v, NESTING_LIMIT);
      StrictIsPrefix(b, v);
      var m := ParsePrefix(b).value.1;
      SpaceEnds(b, last);
      PrefixStable(b, last, v, m);
    }
  }

  lemma TrailingSpace(b: bytes, last: bytes, v: Value)
    requires |last| == 1 && IsSpace(last[0]) && Document(b + last, v)
    ensures Document(b, v)
  {
    hide Laid, Flatten;
    LaidBefore(b, last, Flatten(v));
  }

  lemma SpaceEnds(a: bytes, rest: bytes)
    requires rest != [] && IsSpace(rest[0])
    ensures !CarriesOn(a, rest)
  {
    hide ScanNumber, SkipSpace;
  }

  lemma CarriesExactly(a: bytes, v: Value, rest: bytes)
    requires Document(a, v) && a != [] && !IsSpace(a[|a| - 1])
    ensures Ends(a, v, rest) <==> !(v.Number? && CarriesOn(a, rest))
  {
    hide Lexeme.Valid, Lexeme.Text, Lexeme.Eval, Extends, InRange, SkipSpace, ScanNumber;
    if v.Number? {
      var l := LoneNumber(a, v);
      var k := SkipSpace(a);
      forall w: nat | w <= |a| && (forall i :: 0 <= i < w ==> IsSpace(a[i]))
        ensures w != k ==> Whole(a[w..], rest)
      {
        if w != k {
          OffStart(a, w, k, rest);
        }
      }
      LexemeWhole(l, rest);
    }
  }

  // A number spelled up to the last byte is a lexeme after spaces.
  lemma LoneNumber(a: bytes, v: Value) returns (l: Lexeme)
    requires v.Number? && Document(a, v) && a != [] && !IsSpace(a[|a| - 1])
    ensures l.Valid() && SkipSpace(a) < |a| && a[SkipSpace(a)..] == l.Text()
    ensures ScanNumber(a[SkipSpace(a)..]) == Ok(l, |l.Text()|)
  {
    hide Lexeme.Valid, Lexeme.Text, Lexeme.Eval, Extends, InRange, SkipSpace, ScanNumber;
    var ts := Flatten(v);
    var w: nat, n: nat :| LaidAt(a, ts, w, n) && Laid(a[w + n..], ts[1..]);
    LastByte(a, w + n);
    SpelledStart(a[w..w + n], ts[0]);
    assert a[w..w + n] == a[w..] && a[w] == a[w..w + n][0];
    assert SkipSpace(a) == w;
    l :| l.Valid() && l.Text() == a[w..];
    assert l.Text() + [] == l.Text();
    ScanComplete(l, []);
  }

  lemma LastByte(a: bytes, k: nat)
    ensures k < |a| ==> a[k..][|a| - k - 1] == a[|a| - 1]
  {}

  lemma LexemeWhole(l: Lexeme, rest: bytes)
    requires l.Valid()
    ensures Whole(l.Text(), rest) <==> Ended(l, rest)
  {
    hide Lexeme.Valid, Lexeme.Text, Extends;
    forall k: Lexeme | k.Valid() && k.Text() == l.Text()
      ensures k == l
    {
      LexemeUnique(k, l);
    }
  }

  lemma OffStart(a: bytes, w: nat, k: nat, rest: bytes)
    requires w <= |a| && w != k && k == SkipSpace(a) < |a| && forall i :: 0 <= i < w ==> IsSpace(a[i])
    ensures Whole(a[w..], rest)
  {
    hide Lexeme.Valid, Lexeme.Text, SkipSpace, Ended;
    assert w < k;
    assert a[w..][0] == a[w];
    forall l: Lexeme | l.Valid()
      ensures l.Text() != a[w..]
    {
      NumberEnds(l);
    }
  }
}
