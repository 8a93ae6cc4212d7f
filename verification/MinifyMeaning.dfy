// Minification keeps the meaning of every document, and undoes every layout of
// the printers.
module MinifyMeaning {
  import opened Bytes
  import opened Errors
  import opened Numbers
  import opened Values
  import opened Lexical
  import opened NumberReading
  import opened Streams
  import opened Minifying
  import opened Printing
  import opened Parsing
  import opened Prefix
  import opened RoundTrip
  import Utf8

  // ---- The two string scanners agree ----

  // Bytes of a literal that neither end it nor escape anything.
  lemma {:induction false} PlainSpan(s: bytes, k: nat)
    requires k <= |s| && forall i :: 0 <= i < k ==> s[i] != QUOTE && s[i] != BACKSLASH
    ensures StringSpan(s) == k + StringSpan(s[k..])
  {
    if k > 0 {
      PlainSpan(s[1..], k - 1);
      DropDrop(s, 1, k - 1);
    } else {
      assert s[0..] == s;
    }
  }

  lemma HexIsPlain(b: byte)
    requires HexDigit(b).Some?
    ensures b != QUOTE && b != BACKSLASH
  {}

  lemma {:induction false} HexSpan(s: bytes, k: nat, val: nat)
    requires ReadHex(s, k, val).Ok?
    ensures StringSpan(s) == k + StringSpan(s[k..])
    decreases k
  {
    hide HexDigit;
    if k > 0 {
      HexIsPlain(s[0]);
      HexSpan(s[1..], k - 1, val * 16 + HexDigit(s[0]).value);
      DropDrop(s, 1, k - 1);
    } else {
      assert s[0..] == s;
    }
  }

  lemma EscapeSpan(s: bytes)
    requires ReadUnicodeEscape(s).Ok?
    ensures var n := ReadUnicodeEscape(s).len; StringSpan(s) == n + StringSpan(s[n..])
  {
    hide ReadHex;
    HexSpan(s, 4, 0);
    if IsHigh(ReadHex(s, 4, 0).value) {
      PairSpan(s[4..], ReadHex(s, 4, 0).value);
      DropDrop(s, 4, 6);
    }
  }

  lemma PairSpan(s: bytes, high: nat)
    requires IsHigh(high) && JoinLow(s, high).Ok?
    ensures StringSpan(s) == 6 + StringSpan(s[6..])
  {
    hide ReadHex;
    HexSpan(s[2..], 4, 0);
    DropDrop(s, 2, 4);
  }

  lemma CharSpan(s: bytes)
    requires s != [] && s[0] != QUOTE && ReadChar(s).Ok?
    ensures var n := ReadChar(s).len; StringSpan(s) == n + StringSpan(s[n..])
  {
    hide ReadUnicodeEscape, Utf8.ReadUtf8Char;
    if s[0] == BACKSLASH {
      if s[1] == LETTER_U {
        EscapeSpan(s[2..]);
        DropDrop(s, 2, ReadUnicodeEscape(s[2..]).len);
      }
    } else if s[0] < 0x80 {
    } else {
      Utf8Plain(s);
      PlainSpan(s, Utf8.ReadUtf8Char(s).len);
    }
  }

  lemma Utf8Plain(s: bytes)
    requires s != [] && s[0] >= 0x80 && Utf8.ReadUtf8Char(s).Ok?
    ensures forall i :: 0 <= i < Utf8.ReadUtf8Char(s).len ==> s[i] >= 0x80
  {
    Utf8.ReadIsEncoded(s);
    var n := Utf8.ReadUtf8Char(s).len;
    forall i | 0 <= i < n
      ensures s[i] >= 0x80
    {
      assert s[i] == s[..n][i];
    }
  }

  // The minifier ends a literal exactly where the string reader does.
  lemma {:induction false} BodySpan(s: bytes, start: int)
    requires start < 0 && ReadBody(s, start).Ok?
    ensures StringSpan(s) == ReadBody(s, start).len
    decreases |s|
  {
    hide ReadChar;
    if s[0] != QUOTE {
      var n := ReadChar(s).len;
      CharSpan(s);
      BodySpan(s[n..], start - n);
    }
  }

  // ---- Tokens are copied ----

  predicate Plain(b: byte) { !IsSpace(b) && b != QUOTE && b != SLASH }

  lemma {:induction false} PlainCopied(w: bytes, rest: bytes)
    requires forall i :: 0 <= i < |w| ==> Plain(w[i])
    ensures Minify(w + rest) == w + Minify(rest)
  {
    hide Minify;
    if w == [] {
      assert w + rest == rest;
    } else {
      assert (w + rest)[1..] == w[1..] + rest;
      MinifyStep(w + rest);
      PlainCopied(w[1..], rest);
      assert w == [w[0]] + w[1..];
      Assoc([w[0]], w[1..], Minify(rest));
    }
  }

  lemma {:induction false} SpacesDropped(ws: bytes, rest: bytes)
    requires forall i :: 0 <= i < |ws| ==> IsSpace(ws[i])
    ensures Minify(ws + rest) == Minify(rest)
  {
    hide Minify;
    if ws == [] {
      assert ws + rest == rest;
    } else {
      assert (ws + rest)[1..] == ws[1..] + rest;
      MinifyStep(ws + rest);
      SpacesDropped(ws[1..], rest);
    }
  }

  lemma StringCopied(s: bytes)
    requires s != [] && s[0] == QUOTE && ReadString(s).Ok?
    ensures var n := ReadString(s).len; Minify(s) == s[..n] + Minify(s[n..])
  {
    hide Minify, ReadBody, StringSpan;
    BodySpan(s[1..], -1);
    var n := ReadString(s).len;
    QuoteStep(s);
    InStringIs(s[1..], n - 1);
    TakeSplit(s, 1, n - 1);
    DropDrop(s, 1, n - 1);
    assert s[..1] == [QUOTE];
    Assoc([QUOTE], s[1..][..n - 1], Minify(s[1..][n - 1..]));
  }

  // The bytes of every token but a string are plain.
  lemma TokenPlain(s: bytes, n: nat)
    requires s != [] && Next(s).Ok? && Next(s).len == n && s[0] != QUOTE
    ensures forall i :: 0 <= i < n ==> Plain(s[i])
  {
    hide ScanNumber, ReadString;
    var b := s[0];
    if Punctuation(b).None? && (b == MINUS || IsDigit(b)) {
      ScanSound(s);
      LexemePlain(ScanNumber(s).value);
      assert forall i :: 0 <= i < n ==> s[i] == s[..n][i];
    } else if Punctuation(b).None? {
      LiteralPlain(s, n);
    }
  }

  lemma LiteralPlain(s: bytes, n: nat)
    requires (TEXT_TRUE <= s && n == 4) || (TEXT_FALSE <= s && n == 5) || (TEXT_NULL <= s && n == 4)
    ensures forall i :: 0 <= i < n ==> Plain(s[i])
  {
    forall i | 0 <= i < n
      ensures Plain(s[i])
    {
      if TEXT_TRUE <= s && n == 4 {
        assert s[i] == TEXT_TRUE[i];
      } else if TEXT_FALSE <= s && n == 5 {
        assert s[i] == TEXT_FALSE[i];
      } else {
        assert s[i] == TEXT_NULL[i];
      }
    }
  }

  lemma LexemePlain(l: Lexeme)
    requires l.Valid()
    ensures forall i :: 0 <= i < |l.Text()| ==> Plain(l.Text()[i])
  {
    hide AllDigits;
    DigitsPlain(l.whole);
    DigitsPlain(l.frac);
    if l.exp.Exp? {
      DigitsPlain(l.exp.digits);
    }
    var tail := l.FracText() + l.exp.Text();
    assert forall i :: 0 <= i < |l.exp.Text()| ==> Plain(l.exp.Text()[i]);
    assert forall i :: 0 <= i < |tail| ==> Plain(tail[i]);
  }

  lemma DigitsPlain(ds: bytes)
    requires AllDigits(ds)
    ensures forall i :: 0 <= i < |ds| ==> Plain(ds[i])
  {}

  lemma TokenCopied(s: bytes, n: nat)
    requires s != [] && Next(s).Ok? && Next(s).len == n
    ensures Minify(s) == s[..n] + Minify(s[n..])
  {
    hide Minify, ReadString, ReadNumber, ReadLiteral;
    if s[0] == QUOTE {
      StringCopied(s);
    } else {
      TokenPlain(s, n);
      assert s == s[..n] + s[n..];
      PlainCopied(s[..n], s[n..]);
    }
  }

  // ---- Meaning ----

  // No two numbers stand side by side.
  ghost predicate Separated(ts: seq<Token>) {
    forall i :: 0 <= i < |ts| - 1 ==> !(ts[i].NumberToken? && ts[i + 1].NumberToken?)
  }

  lemma SeparatedConcat(a: seq<Token>, b: seq<Token>)
    requires Separated(a) && Separated(b)
    requires a == [] || b == [] || !a[|a| - 1].NumberToken? || !b[0].NumberToken?
    ensures Separated(a + b)
  {}

  // The grammar never puts two numbers side by side.
  lemma {:induction false} FlattenSeparated(v: Value)
    ensures Separated(Flatten(v))
    decreases v, 1
  {
    hide FlattenItems, FlattenMembers, Separated;
    match v
    case Array(items) =>
      ItemsSeparated(items);
      Singles(BeginArray);
      Singles(EndArray);
      SeparatedConcat([BeginArray], FlattenItems(items));
      SeparatedConcat([BeginArray] + FlattenItems(items), [EndArray]);
    case Object(members) =>
      MembersSeparated(members);
      Singles(BeginObject);
      Singles(EndObject);
      SeparatedConcat([BeginObject], FlattenMembers(members));
      SeparatedConcat([BeginObject] + FlattenMembers(members), [EndObject]);
    case _ =>
      Singles(Flatten(v)[0]);
  }

  lemma Singles(t: Token)
    ensures Separated([t]) && Separated([])
  {}

  lemma {:induction false} ItemsSeparated(items: seq<Value>)
    ensures Separated(FlattenItems(items))
    decreases items, 0
  {
    hide Separated, Flatten;
    Singles(ValueSeparator);
    if items != [] {
      FlattenSeparated(items[0]);
      if |items| > 1 {
        ItemsSeparated(items[1..]);
        SeparatedConcat([ValueSeparator], FlattenItems(items[1..]));
        SeparatedConcat(Flatten(items[0]), [ValueSeparator] + FlattenItems(items[1..]));
      } else {
        SeparatedConcat(Flatten(items[0]), []);
      }
    }
  }

  lemma {:induction false} MembersSeparated(members: seq<Member>)
    ensures Separated(FlattenMembers(members))
    decreases members, 0
  {
    hide Separated, Flatten;
    Singles(ValueSeparator);
    if members != [] {
      var head := [StringToken(members[0].key), NameSeparator];
      var first := Flatten(members[0].value);
      FlattenSeparated(members[0].value);
      assert Separated(head) by { HeadSeparated(members[0].key); }
      SeparatedConcat(head, first);
      if |members| > 1 {
        MembersSeparated(members[1..]);
        SeparatedConcat([ValueSeparator], FlattenMembers(members[1..]));
        SeparatedConcat(head + first, [ValueSeparator] + FlattenMembers(members[1..]));
      } else {
        SeparatedConcat(head + first, []);
      }
    }
  }

  lemma HeadSeparated(key: string)
    ensures Separated([StringToken(key), NameSeparator])
  {}

  lemma TokenStart(s: bytes)
    requires s != [] && Next(s).Ok?
    ensures Continues(s[0]) ==> IsDigit(s[0]) && Next(s).value.NumberToken?
  {
    hide ReadString, ReadNumber, ReadLiteral;
  }

  // Minified text starts with the first byte that is not a space.
  lemma MinifiedHead(s: bytes)
    requires StreamOf(s).complete
    ensures var w := SkipSpace(s);
            if w == |s| then Minify(s) == []
            else Minify(s) != [] && Minify(s)[0] == s[w] && Next(s[w..]).Ok?
  {
    hide StreamOf, Minify, Next, SkipSpace;
    var w := SkipSpace(s);
    assert s == s[..w] + s[w..];
    SpacesDropped(s[..w], s[w..]);
    if w == |s| {
      MinifyStep([]);
    } else {
      var r := Next(s[w..]);
      StreamStep(s, w, r);
      TokenCopied(s[w..], r.len);
      assert s[w..][..r.len][0] == s[w];
    }
  }

  // Some number of s is followed, after a space, by a byte that carries it on.
  predicate Merges(s: bytes)
    decreases |s|
  {
    var w := SkipSpace(s);
    && w < |s| && Next(s[w..]).Ok?
    && var rest := s[w + Next(s[w..]).len..];
    MergesAt(s[w..], rest) || Merges(rest)
  }

  predicate MergesAt(u: bytes, rest: bytes) {
    var k := SkipSpace(rest);
    ScanNumber(u).Ok? && 0 < k < |rest| && Extends(ScanNumber(u).value, rest[k])
  }

  lemma MergesStep(s: bytes, w: nat, n: nat)
    requires w == SkipSpace(s) < |s| && Next(s[w..]).Ok? && n == Next(s[w..]).len
    ensures Merges(s) <==> MergesAt(s[w..], s[w + n..]) || Merges(s[w + n..])
  {
    hide SkipSpace, Next, MergesAt;
  }

  // A number without a space to lose stays apart from what follows it.
  lemma ApartAfter(u: bytes, rest: bytes, n: nat)
    requires u != [] && Next(u).Ok? && Next(u).len == n && rest == u[n..]
    requires Next(u).value.NumberToken? && StreamOf(rest).complete && !MergesAt(u, rest)
    ensures Closed(u, Minify(rest))
  {
    hide StreamOf, Minify, Next, SkipSpace, Extends, ScanNumber;
    NumberIsNumber(u, Next(u).value, n);
    NumberEnded(u, n);
    MinifiedHead(rest);
    if SkipSpace(rest) == 0 && rest != [] {
      EndedHead(ScanNumber(u).value, rest, Minify(rest));
    }
  }

  // Minifying keeps the tokens of every text whose numbers stand apart, and
  // minifying again changes nothing.
  lemma {:induction false} MinifyKeepsTokens(s: bytes)
    requires StreamOf(s).complete && !Merges(s)
    ensures StreamOf(Minify(s)) == StreamOf(s)
    ensures Minify(Minify(s)) == Minify(s)
    decreases |s|
  {
    hide StreamOf, Minify, Next, SkipSpace, Merges, MergesAt, Closed;
    var w := SkipSpace(s);
    assert s == s[..w] + s[w..];
    SpacesDropped(s[..w], s[w..]);
    if w == |s| {
      MinifyStep([]);
      StreamEnd(s);
      SpaceStops([]);
      StreamEnd([]);
    } else {
      var r := Next(s[w..]);
      StreamStep(s, w, r);
      MergesStep(s, w, r.len);
      var x, rest := s[w..][..r.len], s[w + r.len..];
      DropDrop(s, w, r.len);
      TokenCopied(s[w..], r.len);
      MinifyKeepsTokens(rest);
      var t := x + Minify(rest);
      DropAppend(x, Minify(rest));
      if r.value.NumberToken? {
        ApartAfter(s[w..], rest, r.len);
      }
      TokenLocal(s[w..], t, r.value, r.len);
      TokenThen(t, r.value, r.len);
      TokenCopied(t, r.len);
    }
  }

  // In a document no number has a number after it, and nothing else carries
  // one on.
  lemma {:induction false} SeparatedApart(s: bytes)
    requires StreamOf(s).complete && Separated(StreamOf(s).tokens)
    ensures !Merges(s)
    decreases |s|
  {
    hide StreamOf, Next, SkipSpace, Separated, Merges, MergesAt;
    var w := SkipSpace(s);
    if w == |s| {
      NothingMerges(s);
    } else {
      var r := Next(s[w..]);
      StreamStep(s, w, r);
      MergesStep(s, w, r.len);
      var rest := s[w + r.len..];
      SeparatedTail(r.value, StreamOf(rest).tokens);
      SeparatedApart(rest);
      SeparatedHere(s[w..], rest);
    }
  }

  lemma NothingMerges(s: bytes)
    requires SkipSpace(s) == |s|
    ensures !Merges(s)
  {}

  lemma SeparatedHere(u: bytes, rest: bytes)
    requires u != [] && Next(u).Ok? && StreamOf(rest).complete
    requires Next(u).value.NumberToken? && StreamOf(rest).tokens != [] ==> !StreamOf(rest).tokens[0].NumberToken?
    ensures !MergesAt(u, rest)
  {
    hide StreamOf, Next, SkipSpace, ScanNumber;
    var k := SkipSpace(rest);
    if k < |rest| {
      StreamStep(rest, k, Next(rest[k..]));
      TokenStart(rest[k..]);
      if ScanNumber(u).Ok? {
        ScannedIsNumber(u);
      }
    }
  }

  // What the number scanner accepts, no other reader does.
  lemma ScannedIsNumber(u: bytes)
    requires u != [] && ScanNumber(u).Ok? && Next(u).Ok?
    ensures Next(u).value.NumberToken?
  {
    hide ScanNumber, ReadString, ReadNumber, ReadLiteral;
    ScanSound(u);
    NumberEnds(ScanNumber(u).value);
    assert u[0] == u[..ScanNumber(u).len][0];
  }

  lemma SeparatedTail(t: Token, rest: seq<Token>)
    requires Separated([t] + rest)
    ensures Separated(rest)
    ensures t.NumberToken? && rest != [] ==> !rest[0].NumberToken?
  {
    assert forall i :: 0 <= i < |rest| ==> rest[i] == ([t] + rest)[i + 1];
    assert rest != [] ==> ([t] + rest)[1] == rest[0] && ([t] + rest)[0] == t;
  }

  // Minification preserves the meaning of every document, at every limit.
  lemma MinifyPreserves(s: bytes, v: Value, limit: nat)
    requires Parse(s, limit) == Success(v)
    ensures Parse(Minify(s), limit) == Success(v)
    ensures Minify(Minify(s)) == Minify(s)
  {
    hide Parse, StreamOf, Flatten, Minify, Separated, Depth, Merges;
    ParsesExactly(s, v, limit);
    FlattenSeparated(v);
    SeparatedApart(s);
    MinifyKeepsTokens(s);
    ParsesExactly(Minify(s), v, limit);
  }

  // ---- Layout ----

  lemma StringTextCopied(text: string, rest: bytes)
    ensures Minify(StringText(text) + rest) == StringText(text) + Minify(rest)
  {
    hide Minify, ReadString;
    var s := StringText(text) + rest;
    StringBack(text, rest);
    DropAppend(StringText(text), rest);
    StringCopied(s);
  }

  lemma LayoutDropped(indent: Option<nat>, depth: nat, more: bool, rest: bytes)
    ensures Minify(Lead(indent, depth) + rest) == Lead(None, depth) + Minify(rest)
    ensures Minify(Break(indent) + rest) == Break(None) + Minify(rest)
    ensures Minify(Separator(indent) + rest) == Separator(None) + Minify(rest)
    ensures Minify(Comma(more) + rest) == Comma(more) + Minify(rest)
  {
    hide Minify;
    assert [] + Minify(rest) == Minify(rest);
    SpacesDropped(Lead(indent, depth), rest);
    SpacesDropped(Break(indent), rest);
    PlainCopied(Comma(more), rest);
    if indent.None? {
      PlainCopied([COLON], rest);
    } else {
      assert Separator(indent) == [COLON] + [SPACE];
      Assoc([COLON], [SPACE], rest);
      PlainCopied([COLON], [SPACE] + rest);
      SpacesDropped([SPACE], rest);
    }
  }

  lemma LeafCopied(v: Value, indent: Option<nat>, depth: nat, rest: bytes)
    requires !v.Array? && !v.Object?
    ensures Minify(Text(v, indent, depth) + rest) == Text(v, None, depth) + Minify(rest)
  {
    hide Minify, StringText, Display, Lexeme.Text;
    match v
    case String(s) => StringTextCopied(s, rest);
    case Number(n) =>
      if n.Finite? {
        LexemePlain(Display(n));
      }
      PlainCopied(NumberText(n), rest);
    case _ => PlainCopied(Text(v, indent, depth), rest);
  }

  // Minifying any printed layout gives the compact layout.
  lemma {:induction false} MinifyText(v: Value, indent: Option<nat>, depth: nat, rest: bytes)
    ensures Minify(Text(v, indent, depth) + rest) == Text(v, None, depth) + Minify(rest)
    decreases v, 1
  {
    hide Minify, Text, ItemsText, MembersText, Lead, Break;
    match v
    case Array(items) =>
      ArrayText(items, indent, depth);
      ArrayText(items, None, depth);
      if items == [] {
        PlainCopied(EMPTY_ARRAY, rest);
      } else {
        MinifyItems(items, indent, depth + 1, Lead(indent, depth) + ([CLOSE_BRACKET] + rest));
        MinifyBracketed([OPEN_BRACKET], ItemsText(items, indent, depth + 1), ItemsText(items, None, depth + 1),
                        [CLOSE_BRACKET], indent, depth, rest);
      }
    case Object(members) =>
      ObjectText(members, indent, depth);
      ObjectText(members, None, depth);
      if members == [] {
        PlainCopied(EMPTY_OBJECT, rest);
      } else {
        MinifyMembers(members, indent, depth + 1, Lead(indent, depth) + ([CLOSE_BRACE] + rest));
        MinifyBracketed([OPEN_BRACE], MembersText(members, indent, depth + 1), MembersText(members, None, depth + 1),
                        [CLOSE_BRACE], indent, depth, rest);
      }
    case _ => LeafCopied(v, indent, depth, rest);
  }

  // Brackets around a body that minifies as told.
  lemma MinifyBracketed(open: bytes, body: bytes, compact: bytes, close: bytes, indent: Option<nat>, depth: nat,
                        rest: bytes)
    requires forall i :: 0 <= i < |open| ==> Plain(open[i])
    requires forall i :: 0 <= i < |close| ==> Plain(close[i])
    requires var after := Lead(indent, depth) + (close + rest); Minify(body + after) == compact + Minify(after)
    ensures Minify(open + (Break(indent) + (body + (Lead(indent, depth) + close))) + rest)
            == open + (Break(None) + (compact + (Lead(None, depth) + close))) + Minify(rest)
  {
    hide Minify, Lead, Break;
    var after := Lead(indent, depth) + (close + rest);
    Bracketed4(open, Break(indent), body, Lead(indent, depth), close, rest);
    Bracketed4(open, Break(None), compact, Lead(None, depth), close, Minify(rest));
    PlainCopied(open, Break(indent) + (body + after));
    LayoutDropped(indent, depth, false, body + after);
    LayoutDropped(indent, depth, false, close + rest);
    PlainCopied(close, rest);
  }

  lemma Bracketed4(a: bytes, b: bytes, c: bytes, d: bytes, e: bytes, rest: bytes)
    ensures a + (b + (c + (d + e))) + rest == a + (b + (c + (d + (e + rest))))
  {}

  lemma {:induction false} MinifyItems(items: seq<Value>, indent: Option<nat>, depth: nat, rest: bytes)
    ensures Minify(ItemsText(items, indent, depth) + rest) == ItemsText(items, None, depth) + Minify(rest)
    decreases items, 0
  {
    hide Minify, Text, Lead, Break, Comma;
    if items == [] {
      assert [] + rest == rest;
      assert [] + Minify(rest) == Minify(rest);
    } else {
      var more := |items| > 1;
      var first, tail := Text(items[0], indent, depth), ItemsText(items[1..], indent, depth);
      Bracketed4(Lead(indent, depth), first, Comma(more), Break(indent), tail, rest);
      Bracketed4(Lead(None, depth), Text(items[0], None, depth), Comma(more), Break(None),
                 ItemsText(items[1..], None, depth), Minify(rest));
      LayoutDropped(indent, depth, more, first + (Comma(more) + (Break(indent) + (tail + rest))));
      MinifyText(items[0], indent, depth, Comma(more) + (Break(indent) + (tail + rest)));
      LayoutDropped(indent, depth, more, Break(indent) + (tail + rest));
      LayoutDropped(indent, depth, more, tail + rest);
      MinifyItems(items[1..], indent, depth, rest);
    }
  }

  lemma {:induction false} MinifyMembers(members: seq<Member>, indent: Option<nat>, depth: nat, rest: bytes)
    ensures Minify(MembersText(members, indent, depth) + rest) == MembersText(members, None, depth) + Minify(rest)
    decreases members, 0
  {
    hide Minify, Text, Lead, Break, Comma, StringText, Separator;
    if members == [] {
      assert [] + rest == rest;
      assert [] + Minify(rest) == Minify(rest);
    } else {
      var more := |members| > 1;
      var key := StringText(members[0].key);
      var first, tail := Text(members[0].value, indent, depth), MembersText(members[1..], indent, depth);
      var after := Comma(more) + (Break(indent) + (tail + rest));
      Assoc7(Lead(indent, depth), key, Separator(indent), first, Comma(more), Break(indent), tail, rest);
      Assoc7(Lead(None, depth), key, Separator(None), Text(members[0].value, None, depth), Comma(more), Break(None),
             MembersText(members[1..], None, depth), Minify(rest));
      LayoutDropped(indent, depth, more, key + (Separator(indent) + (first + after)));
      StringTextCopied(members[0].key, Separator(indent) + (first + after));
      LayoutDropped(indent, depth, more, first + after);
      MinifyText(members[0].value, indent, depth, after);
      LayoutDropped(indent, depth, more, Break(indent) + (tail + rest));
      LayoutDropped(indent, depth, more, tail + rest);
      MinifyMembers(members[1..], indent, depth, rest);
    }
  }

  lemma Assoc7(a: bytes, b: bytes, c: bytes, d: bytes, e: bytes, f: bytes, g: bytes, rest: bytes)
    ensures a + (b + (c + (d + (e + (f + g))))) + rest == a + (b + (c + (d + (e + (f + (g + rest))))))
  {}

  // Minifying pretty text, at any indentation step, gives the compact text.
  lemma MinifyPretty(v: Value, indent: Option<nat>)
    ensures Minify(Text(v, indent, 0)) == Compact(v)
    ensures Minify(Pretty(v)) == Compact(v)
  {
    hide Minify, Text;
    forall i: Option<nat>
      ensures Minify(Text(v, i, 0)) == Compact(v)
    {
      MinifyText(v, i, 0, []);
      MinifyStep([]);
      assert Text(v, i, 0) + [] == Text(v, i, 0);
      assert Text(v, None, 0) + [] == Text(v, None, 0);
    }
  }

  // ---- Documents as C strings ----

  predicate NulFree(s: bytes) { forall i :: 0 <= i < |s| ==> s[i] != 0 }

  lemma NulFreeConcat(a: bytes, b: bytes)
    requires NulFree(a) && NulFree(b)
    ensures NulFree(a + b)
  {}

  lemma NulFreeDrop(s: bytes, k: nat)
    requires k <= |s| && NulFree(s)
    ensures NulFree(s[k..]) && NulFree(s[..k])
  {}

  lemma {:induction false} HexNulFree(s: bytes, k: nat, val: nat)
    requires ReadHex(s, k, val).Ok?
    ensures NulFree(s[..k])
    decreases k
  {
    hide NulFree;
    if k == 0 {
      assert NulFree([]) by { EmptyNulFree(); }
    } else {
      HexNulFree(s[1..], k - 1, val * 16 + HexDigit(s[0]).value);
      assert s[..k] == [s[0]] + s[1..][..k - 1];
      OneNulFree(s[0]);
      NulFreeConcat([s[0]], s[1..][..k - 1]);
    }
  }

  lemma EmptyNulFree()
    ensures NulFree([])
  {}

  lemma OneNulFree(b: byte)
    requires b != 0
    ensures NulFree([b])
  {}

  lemma TwoNulFree(a: byte, b: byte)
    requires a != 0 && b != 0
    ensures NulFree([a, b])
  {}

  lemma EscapeNulFree(s: bytes)
    requires ReadUnicodeEscape(s).Ok?
    ensures NulFree(s[..ReadUnicodeEscape(s).len])
  {
    hide NulFree, ReadHex, FromU32;
    HexNulFree(s, 4, 0);
    var high := ReadHex(s, 4, 0).value;
    if IsHigh(high) {
      var t := s[4..];
      HexNulFree(t[2..], 4, 0);
      TwoNulFree(t[0], t[1]);
      assert t[..6] == [t[0], t[1]] + t[2..][..4];
      NulFreeConcat([t[0], t[1]], t[2..][..4]);
      TakeSplit(s, 4, 6);
      NulFreeConcat(s[..4], t[..6]);
    }
  }

  lemma CharNulFree(s: bytes)
    requires s != [] && ReadChar(s).Ok?
    ensures NulFree(s[..ReadChar(s).len])
  {
    hide NulFree, ReadUnicodeEscape, Utf8.ReadUtf8Char;
    if s[0] == BACKSLASH {
      TwoNulFree(s[0], s[1]);
      assert s[..2] == [s[0], s[1]];
      if s[1] == LETTER_U {
        var n := ReadUnicodeEscape(s[2..]).len;
        EscapeNulFree(s[2..]);
        TakeSplit(s, 2, n);
        NulFreeConcat(s[..2], s[2..][..n]);
      }
    } else if s[0] < 0x80 {
      OneNulFree(s[0]);
      assert s[..1] == [s[0]];
    } else {
      Utf8Plain(s);
      HighNulFree(s[..Utf8.ReadUtf8Char(s).len]);
    }
  }

  lemma HighNulFree(w: bytes)
    requires forall i :: 0 <= i < |w| ==> w[i] >= 0x80
    ensures NulFree(w)
  {}

  lemma {:induction false} BodyNulFree(s: bytes, start: int)
    requires start < 0 && ReadBody(s, start).Ok?
    ensures NulFree(s[..ReadBody(s, start).len])
    decreases |s|
  {
    hide NulFree, ReadChar;
    if s[0] == QUOTE {
      OneNulFree(QUOTE);
      assert s[..1] == [QUOTE];
    } else {
      var n := ReadChar(s).len;
      var more := ReadBody(s[n..], start - n);
      CharNulFree(s);
      BodyNulFree(s[n..], start - n);
      TakeSplit(s, n, more.len);
      NulFreeConcat(s[..n], s[n..][..more.len]);
    }
  }

  lemma TokenNulFree(s: bytes)
    requires s != [] && Next(s).Ok?
    ensures NulFree(s[..Next(s).len])
  {
    hide NulFree, ReadBody, ScanNumber;
    var n := Next(s).len;
    var b := s[0];
    if Punctuation(b).Some? {
      OneNulFree(b);
      assert s[..1] == [b];
    } else if b == QUOTE {
      BodyNulFree(s[1..], -1);
      OneNulFree(QUOTE);
      assert s[..n] == [QUOTE] + s[1..][..n - 1];
      NulFreeConcat([QUOTE], s[1..][..n - 1]);
    } else if b == MINUS || IsDigit(b) {
      ScanSound(s);
      LexemeNulFree(ScanNumber(s).value);
    } else {
      LiteralsNulFree();
      assert TEXT_TRUE <= s ==> s[..4] == TEXT_TRUE;
      assert TEXT_FALSE <= s ==> s[..5] == TEXT_FALSE;
      assert TEXT_NULL <= s ==> s[..4] == TEXT_NULL;
    }
  }

  lemma LiteralsNulFree()
    ensures NulFree(TEXT_TRUE) && NulFree(TEXT_FALSE) && NulFree(TEXT_NULL)
  {}

  lemma LexemeNulFree(l: Lexeme)
    requires l.Valid()
    ensures NulFree(l.Text())
  {
    hide AllDigits;
    DigitsNulFree(l.whole);
    DigitsNulFree(l.frac);
    if l.exp.Exp? {
      DigitsNulFree(l.exp.digits);
    }
  }

  lemma DigitsNulFree(ds: bytes)
    requires AllDigits(ds)
    ensures NulFree(ds)
  {}

  // A text the tokeniser accepts contains no NUL, so it is a C string.
  lemma {:induction false} StreamNulFree(s: bytes)
    requires StreamOf(s).complete
    ensures NulFree(s)
    decreases |s|
  {
    hide NulFree, StreamOf, Next;
    var w := SkipSpace(s);
    SpacesNulFree(s[..w]);
    assert s == s[..w] + s[w..];
    if w < |s| {
      var r := Next(s[w..]);
      StreamStep(s, w, r);
      TokenNulFree(s[w..]);
      StreamNulFree(s[w + r.len..]);
      assert s[w..] == s[w..][..r.len] + s[w + r.len..];
      NulFreeConcat(s[w..][..r.len], s[w + r.len..]);
      NulFreeConcat(s[..w], s[w..]);
    } else {
      assert s[..w] == s;
    }
  }

  lemma SpacesNulFree(w: bytes)
    requires forall i :: 0 <= i < |w| ==> IsSpace(w[i])
    ensures NulFree(w)
  {}

  lemma {:induction false} MinifyNulFree(s: bytes)
    requires NulFree(s)
    ensures NulFree(Minify(s))
    decreases |s|
  {
    hide Minify, NulFree, InString, InLine, InBlock;
    MinifyStep(s);
    if s == [] {
    } else if IsSpace(s[0]) {
      NulFreeDrop(s, 1);
      MinifyNulFree(s[1..]);
    } else if s[0] == QUOTE {
      QuoteStep(s);
      var t := s[1..];
      var k := StringSpan(t);
      InStringIs(t, k);
      NulFreeDrop(s, 1);
      NulFreeDrop(t, k);
      MinifyNulFree(t[k..]);
      OneNulFree(QUOTE);
      NulFreeConcat(t[..k], Minify(t[k..]));
      NulFreeConcat([QUOTE], InString(t));
    } else if OpensLine(s) {
      NulFreeDrop(s, 2 + LineSpan(s[2..]));
      DropDrop(s, 2, LineSpan(s[2..]));
      InLineIs(s[2..]);
      MinifyNulFree(s[2 + LineSpan(s[2..])..]);
    } else if OpensBlock(s) {
      NulFreeDrop(s, 2 + BlockSpan(s[2..]));
      DropDrop(s, 2, BlockSpan(s[2..]));
      InBlockIs(s[2..]);
      MinifyNulFree(s[2 + BlockSpan(s[2..])..]);
    } else {
      NulFreeDrop(s, 1);
      MinifyNulFree(s[1..]);
      HeadNulFree(s);
      NulFreeConcat([s[0]], Minify(s[1..]));
    }
  }

  lemma HeadNulFree(s: bytes)
    requires s != [] && NulFree(s)
    ensures NulFree([s[0]])
  {}

  lemma InLineIs(s: bytes)
    ensures InLine(s) == Minify(s[LineSpan(s)..])
  {}

  lemma InBlockIs(s: bytes)
    ensures InBlock(s) == Minify(s[BlockSpan(s)..])
  {}

  // Minifying a document in place leaves, up to the NUL, a document of the
  // same value.
  method MinifyDocument(json: array<byte>, ghost text: bytes, ghost v: Value, ghost limit: nat) returns (ghost k: nat)
    requires |text| < json.Length && json[..|text|] == text && json[|text|] == 0
    requires Parse(text, limit) == Success(v)
    modifies json
    ensures k <= |text| && json[k] == 0 && NulFree(json[..k])
    ensures Parse(json[..k], limit) == Success(v)
    ensures json[|text| + 1..] == old(json[|text| + 1..])
  {
    hide Parse, StreamOf, Minify, Flatten, Depth;
    ParsesExactly(text, v, limit);
    StreamNulFree(text);
    MinifyNulFree(text);
    MinifyPreserves(text, v, limit);
    MinifyInPlace(json, text);
    k := |Minify(text)|;
  }
}
