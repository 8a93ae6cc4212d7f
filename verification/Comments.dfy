// Texts with comments: minifying reads a comment as it would read spaces, so
// it keeps the meaning that is left when the comments are blanked out.
module Comments {
  import opened Bytes
  import opened Errors
  import opened Values
  import opened Lexical
  import opened Streams
  import opened Minifying
  import opened Printing
  import opened Parsing
  import opened MinifyMeaning
  import opened MinifyExactly

  function CommentLength(s: bytes): (n: nat)
    requires OpensLine(s) || OpensBlock(s)
    ensures 2 <= n <= |s|
  {
    2 + if OpensLine(s) then LineSpan(s[2..]) else BlockSpan(s[2..])
  }

  // Every byte of a comment made a space, and all else as it was.
  function Blank(s: bytes): (t: bytes)
    ensures |t| == |s|
    decreases |s|
  {
    if s == [] then []
    else if s[0] == QUOTE then
      var n := 1 + StringSpan(s[1..]);
      s[..n] + Blank(s[n..])
    else if OpensLine(s) || OpensBlock(s) then
      var n := CommentLength(s);
      Spaces(n) + Blank(s[n..])
    else [s[0]] + Blank(s[1..])
  }

  // Comments are to the minifier what spaces are.
  lemma {:induction false} MinifyBlank(s: bytes)
    ensures Minify(Blank(s)) == Minify(s)
    decreases |s|
  {
    hide StringSpan, LineSpan, BlockSpan, Minify, Blank;
    BlankStep(s);
    MinifyStep(s);
    if s == [] {
    } else if s[0] == QUOTE {
      BlankQuote(s);
    } else if OpensLine(s) || OpensBlock(s) {
      var n := CommentLength(s);
      MinifyBlank(s[n..]);
      SpacesDropped(Spaces(n), Blank(s[n..]));
      DropDrop(s, 2, n - 2);
    } else {
      MinifyBlank(s[1..]);
      ByteKept(s[0], s[1..]);
    }
  }

  lemma BlankStep(s: bytes)
    ensures s == [] ==> Blank(s) == []
    ensures s != [] && s[0] == QUOTE ==>
              var n := 1 + StringSpan(s[1..]); Blank(s) == s[..n] + Blank(s[n..])
    ensures OpensLine(s) || OpensBlock(s) ==>
              Blank(s) == Spaces(CommentLength(s)) + Blank(s[CommentLength(s)..])
    ensures s != [] && s[0] != QUOTE && !OpensLine(s) && !OpensBlock(s) ==> Blank(s) == [s[0]] + Blank(s[1..])
  {
    hide StringSpan, CommentLength, Spaces;
  }

  lemma BlankQuote(s: bytes)
    requires s != [] && s[0] == QUOTE
    ensures Minify(Blank(s)) == Minify(s)
    decreases |s|, 0
  {
    hide StringSpan, Minify, Closes, Blank;
    var n := 1 + StringSpan(s[1..]);
    BlankStep(s);
    MinifyBlank(s[n..]);
    if !Closes(s[1..]) {
      SpanKept(s[1..], []);
      BlankStep(s[n..]);
    }
    LiteralKept(s, n, Blank(s[n..]));
    QuoteMinify(s);
  }

  lemma BlankHead(s: bytes)
    requires s != []
    ensures Blank(s)[0] == s[0] || Blank(s)[0] == SPACE
  {
    hide StringSpan, CommentLength;
  }

  // A byte that opens no comment still opens none.
  lemma ByteKept(b: byte, rest: bytes)
    requires b != QUOTE && !OpensLine([b] + rest) && !OpensBlock([b] + rest)
    ensures Minify([b] + Blank(rest)) == if IsSpace(b) then Minify(Blank(rest)) else [b] + Minify(Blank(rest))
  {
    hide Minify, Blank;
    var t := [b] + Blank(rest);
    assert t[1..] == Blank(rest);
    if rest != [] {
      BlankHead(rest);
    }
    MinifyStep(t);
  }

  // A text the tokeniser accepts has no comments.
  lemma {:induction false} BlankAccepted(s: bytes)
    requires StreamOf(s).complete
    ensures Blank(s) == s
    decreases |s|
  {
    hide StreamOf, Next, SkipSpace, Blank, Plain;
    var w := SkipSpace(s);
    assert s == s[..w] + s[w..];
    PlainStays(s[..w], s[w..]);
    if w == |s| {
      BlankStep([]);
    } else {
      var r := Next(s[w..]);
      StreamStep(s, w, r);
      DropDrop(s, w, r.len);
      BlankAccepted(s[w + r.len..]);
      TokenStays(s[w..], r.len);
    }
  }

  lemma {:induction false} PlainStays(ws: bytes, rest: bytes)
    requires forall i :: 0 <= i < |ws| ==> IsSpace(ws[i]) || Plain(ws[i])
    ensures Blank(ws + rest) == ws + Blank(rest)
  {
    hide Blank;
    if ws == [] {
      assert ws + rest == rest;
    } else {
      assert (ws + rest)[1..] == ws[1..] + rest;
      BlankStep(ws + rest);
      PlainStays(ws[1..], rest);
      assert ws == [ws[0]] + ws[1..];
      Assoc([ws[0]], ws[1..], Blank(rest));
    }
  }

  lemma TokenStays(s: bytes, n: nat)
    requires s != [] && Next(s).Ok? && Next(s).len == n && Blank(s[n..]) == s[n..]
    ensures Blank(s) == s
  {
    hide Blank, ReadBody, StringSpan, ReadNumber, ReadLiteral;
    BlankStep(s);
    if s[0] == QUOTE {
      BodySpan(s[1..], -1);
    } else {
      TokenPlain(s, n);
      PlainStays(s[..n], s[n..]);
    }
    assert s == s[..n] + s[n..];
  }

  // So what is said of accepted texts holds of texts that would be accepted
  // without their comments: minifying keeps their tokens exactly when no number
  // merges, and the meaning of every document.
  lemma TokensKept(s: bytes)
    requires StreamOf(Blank(s)).complete
    ensures StreamOf(Minify(s)) == StreamOf(Blank(s)) <==> !Merges(Blank(s))
  {
    hide StreamOf, Minify, Blank, Merges;
    MinifyBlank(s);
    TokensKeptExactly(Blank(s));
  }


  lemma MinifyDropsComments(s: bytes, v: Value, limit: nat)
    requires Parse(Blank(s), limit) == Success(v)
    ensures Parse(Minify(s), limit) == Success(v)
    ensures Minify(Minify(s)) == Minify(s)
  {
    hide Parse, Minify, Blank;
    MinifyBlank(s);
    MinifyPreserves(Blank(s), v, limit);
  }
}
