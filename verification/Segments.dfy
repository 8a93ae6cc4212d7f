// Minification by segments: blanks, literals, comments and single bytes, each
// found by what delimits it.
module Segments {
  import opened Bytes
  import opened Minifying

  // ---- Literals ----

  // How many backslashes end right before place j.
  function Backslashes(b: bytes, j: nat): nat
    requires j <= |b|
  {
    if j > 0 && b[j - 1] == 0x5C then 1 + Backslashes(b, j - 1) else 0
  }

  // A quote behind an even number of backslashes.
  predicate Closing(b: bytes, j: nat) {
    j < |b| && b[j] == 0x22 && Backslashes(b, j) % 2 == 0
  }

  // The first n bytes of s are a literal with its quotes; without a closing
  // quote it is all of s.
  predicate LiteralAt(s: bytes, n: nat) {
    && 1 <= n <= |s| && s[0] == 0x22
    && (forall j :: 0 <= j < n - 2 ==> !Closing(s[1..], j))
    && (if n >= 2 && Closing(s[1..], n - 2) then true else n == |s|)
  }

  // ---- Comments ----

  // From // to the line feed, which stays.
  predicate LineAt(s: bytes, n: nat) {
    && 2 <= n <= |s| && s[0] == 0x2F && s[1] == 0x2F
    && (forall j :: 2 <= j < n ==> s[j] != 0x0A) && (n < |s| ==> s[n] == 0x0A)
  }

  predicate StarSlash(s: bytes, j: nat) {
    j + 1 < |s| && s[j] == 0x2A && s[j + 1] == 0x2F
  }

  // From /* to the first */ after it, which goes too; or to the end.
  predicate BlockAt(s: bytes, n: nat) {
    && 2 <= n <= |s| && s[0] == 0x2F && s[1] == 0x2A
    && (forall j :: 2 <= j < n - 2 ==> !StarSlash(s, j))
    && (if n >= 4 && StarSlash(s, n - 2) then true else n == |s|)
  }

  predicate IsBlank(b: byte) { b == 0x20 || b == 0x09 || b == 0x0A || b == 0x0D }

  predicate Commented(s: bytes) { |s| >= 2 && s[0] == 0x2F && (s[1] == 0x2F || s[1] == 0x2A) }

  // t is what is left of s: literals and other bytes are kept, blanks and
  // comments are not.
  ghost predicate Left(s: bytes, t: bytes)
    decreases |s|
  {
    if s == [] then t == []
    else if IsBlank(s[0]) then Left(s[1..], t)
    else if s[0] == 0x22 then exists n: nat :: LiteralAt(s, n) && s[..n] <= t && Left(s[n..], t[n..])
    else if Commented(s) then exists n: nat :: (LineAt(s, n) || BlockAt(s, n)) && Left(s[n..], t)
    else t != [] && t[0] == s[0] && Left(s[1..], t[1..])
  }

  // ---- The minifier finds these segments ----

  lemma BackslashesOn(b: bytes, g: nat, j: nat)
    requires g + j <= |b|
    ensures var n := Backslashes(b[g..], j); Backslashes(b, g + j) == if n < j then n else j + Backslashes(b, g)
    ensures Backslashes(b[g..], j) <= j
  {
    if j > 0 {
      assert b[g..][j - 1] == b[g + j - 1];
      if b[g + j - 1] == 0x5C {
        BackslashesOn(b, g, j - 1);
      }
    }
  }

  // A literal ends at the first quote behind an even number of backslashes.
  lemma {:induction false} SpanExactly(b: bytes, k: nat)
    ensures StringSpan(b) == k <==>
            && k <= |b| && (forall j :: 0 <= j < k - 1 ==> !Closing(b, j))
            && (if k >= 1 && Closing(b, k - 1) then true else k == |b|)
    decreases |b|
  {
    hide Closing;
    SpanCloses(b);
    Earliest(b, StringSpan(b), k);
  }

  // Only one place is the first.
  lemma Earliest(b: bytes, n: nat, k: nat)
    requires n <= |b| && (forall j :: 0 <= j < n - 1 ==> !Closing(b, j))
    requires if n >= 1 && Closing(b, n - 1) then true else n == |b|
    ensures (&& k <= |b| && (forall j :: 0 <= j < k - 1 ==> !Closing(b, j))
             && (if k >= 1 && Closing(b, k - 1) then true else k == |b|))
            ==> k == n
  {
    hide Closing;
  }

  lemma {:induction false} SpanCloses(b: bytes)
    ensures var k := StringSpan(b);
            && k <= |b| && (forall j :: 0 <= j < k - 1 ==> !Closing(b, j))
            && (if k >= 1 && Closing(b, k - 1) then true else k == |b|)
    decreases |b|
  {
    if b != [] && b[0] != QUOTE {
      var g := if b[0] == BACKSLASH && |b| > 1 then 2 else 1;
      SpanCloses(b[g..]);
      forall j | g <= j < |b|
        ensures Closing(b, j) <==> Closing(b[g..], j - g)
      {
        SameClosing(b, g, j - g);
      }
      assert g == 2 ==> Backslashes(b, 1) == 1;
    }
  }

  lemma SameClosing(b: bytes, g: nat, j: nat)
    requires g + j < |b| && (g == 1 || g == 2) && b[0] != QUOTE
    requires g == 2 <==> b[0] == BACKSLASH && |b| > 1
    ensures Closing(b, g + j) <==> Closing(b[g..], j)
  {
    BackslashesOn(b, g, j);
    assert b[g..][j] == b[g + j];
    assert Backslashes(b, 0) == 0;
    assert g == 1 ==> Backslashes(b, 1) == 0;
    assert g == 2 ==> Backslashes(b, 2) % 2 == 0 by {
      assert Backslashes(b, 1) == if b[0] == BACKSLASH then 1 else 0;
    }
  }

  lemma {:induction false} LineEnds(b: bytes)
    ensures var n := LineSpan(b); n <= |b| && (forall j :: 0 <= j < n ==> b[j] != 0x0A) && (n < |b| ==> b[n] == 0x0A)
    decreases |b|
  {
    if b != [] && b[0] != NEWLINE {
      LineEnds(b[1..]);
      assert forall j :: 1 <= j < |b| ==> b[j] == b[1..][j - 1];
    }
  }

  lemma LineExactly(s: bytes, n: nat)
    ensures LineAt(s, n) <==> OpensLine(s) && n == 2 + LineSpan(s[2..])
  {
    if |s| >= 2 {
      var b := s[2..];
      LineEnds(b);
      assert forall j :: 0 <= j < |b| ==> b[j] == s[2 + j];
    }
  }

  lemma {:induction false} BlockEnds(b: bytes)
    ensures var n := BlockSpan(b);
            && n <= |b| && (forall j :: 0 <= j < n - 2 ==> !StarSlash(b, j))
            && (if n >= 2 && StarSlash(b, n - 2) then true
                else n == |b| && forall j :: 0 <= j < |b| ==> !StarSlash(b, j))
    decreases |b|
  {
    if b != [] && !(b[0] == STAR && |b| > 1 && b[1] == SLASH) {
      BlockEnds(b[1..]);
      assert forall j :: 1 <= j < |b| ==> (StarSlash(b, j) <==> StarSlash(b[1..], j - 1));
    }
  }

  lemma FirstStar(s: bytes, n: nat, k: nat)
    requires 2 <= n <= |s| && forall j :: 2 <= j < n - 2 ==> !StarSlash(s, j)
    requires if n >= 4 && StarSlash(s, n - 2) then true else n == |s| && forall j :: 2 <= j < |s| ==> !StarSlash(s, j)
    ensures (&& 2 <= k <= |s| && (forall j :: 2 <= j < k - 2 ==> !StarSlash(s, j))
             && (if k >= 4 && StarSlash(s, k - 2) then true else k == |s|))
            ==> k == n
  {
    hide StarSlash;
  }

  lemma BlockExactly(s: bytes, n: nat)
    ensures BlockAt(s, n) <==> OpensBlock(s) && n == 2 + BlockSpan(s[2..])
  {
    if |s| >= 2 {
      var b := s[2..];
      BlockEnds(b);
      forall j | 2 <= j < |s|
        ensures StarSlash(s, j) <==> StarSlash(b, j - 2)
      {}
      FirstStar(s, 2 + BlockSpan(b), n);
    }
  }

  lemma LiteralExactly(s: bytes, n: nat)
    requires s != [] && s[0] == QUOTE
    ensures LiteralAt(s, n) <==> n == 1 + StringSpan(s[1..])
  {
    hide Closing;
    if n >= 1 {
      SpanExactly(s[1..], n - 1);
    }
  }

  // What is left is what the minifier writes.
  lemma {:induction false} MinifyLeaves(s: bytes, t: bytes)
    ensures Left(s, t) <==> t == Minify(s)
    decreases |s|
  {
    hide StringSpan, LineSpan, BlockSpan, LiteralAt, LineAt, BlockAt, Minify, Left;
    LeftStep(s, t);
    if s == [] {
      MinifyStep(s);
    } else if s[0] == QUOTE {
      MinifyLiteral(s, t);
    } else if OpensLine(s) || OpensBlock(s) {
      MinifyComment(s, t);
    } else {
      MinifyStep(s);
      if IsSpace(s[0]) {
        MinifyLeaves(s[1..], t);
      } else if t != [] {
        MinifyLeaves(s[1..], t[1..]);
        assert t == [t[0]] + t[1..];
      }
    }
  }

  lemma LeftStep(s: bytes, t: bytes)
    ensures s == [] ==> (Left(s, t) <==> t == [])
    ensures s != [] && IsSpace(s[0]) ==> (Left(s, t) <==> Left(s[1..], t))
    ensures s != [] && !IsSpace(s[0]) && s[0] != QUOTE && !OpensLine(s) && !OpensBlock(s) ==>
              (Left(s, t) <==> t != [] && t[0] == s[0] && Left(s[1..], t[1..]))
  {
    hide LiteralAt, LineAt, BlockAt;
  }

  lemma MinifyLiteral(s: bytes, t: bytes)
    requires s != [] && s[0] == QUOTE
    ensures Left(s, t) <==> t == Minify(s)
    decreases |s|, 0
  {
    hide StringSpan, LineAt, BlockAt, LiteralAt, Minify, Left;
    var n := 1 + StringSpan(s[1..]);
    forall k: nat
      ensures LiteralAt(s, k) <==> k == n
    {
      LiteralExactly(s, k);
    }
    LeftLiteral(s, t, n);
    QuoteMinifies(s);
    if s[..n] <= t {
      MinifyLeaves(s[n..], t[n..]);
      assert t == s[..n] + t[n..];
    }
    DropAppend(s[..n], Minify(s[n..]));
  }

  lemma LeftLiteral(s: bytes, t: bytes, n: nat)
    requires s != [] && s[0] == QUOTE && 1 <= n <= |s| && forall k: nat :: LiteralAt(s, k) <==> k == n
    ensures Left(s, t) <==> s[..n] <= t && Left(s[n..], t[n..])
  {
    hide LiteralAt, LineAt, BlockAt;
    assert LiteralAt(s, n);
  }

  lemma QuoteMinifies(s: bytes)
    requires s != [] && s[0] == QUOTE
    ensures var n := 1 + StringSpan(s[1..]); Minify(s) == s[..n] + Minify(s[n..])
  {
    hide StringSpan;
  }

  lemma MinifyComment(s: bytes, t: bytes)
    requires OpensLine(s) || OpensBlock(s)
    ensures Left(s, t) <==> t == Minify(s)
    decreases |s|, 0
  {
    hide StringSpan, LineSpan, BlockSpan, LineAt, BlockAt, LiteralAt, Minify, Left;
    var n := 2 + if OpensLine(s) then LineSpan(s[2..]) else BlockSpan(s[2..]);
    forall k: nat
      ensures LineAt(s, k) || BlockAt(s, k) <==> k == n
    {
      LineExactly(s, k);
      BlockExactly(s, k);
    }
    LeftComment(s, t, n);
    MinifyStep(s);
    DropDrop(s, 2, n - 2);
    MinifyLeaves(s[n..], t);
  }

  lemma LeftComment(s: bytes, t: bytes, n: nat)
    requires (OpensLine(s) || OpensBlock(s)) && 2 <= n <= |s|
    requires forall k: nat :: LineAt(s, k) || BlockAt(s, k) <==> k == n
    ensures Left(s, t) <==> Left(s[n..], t)
  {
    hide LiteralAt, LineAt, BlockAt;
    assert LineAt(s, n) || BlockAt(s, n);
  }
}
