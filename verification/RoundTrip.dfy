// Printing and parsing are inverse: the tokens of a printed value are its
// flattening, so the parser gives the value back.
module RoundTrip {
  import opened Bytes
  import opened Errors
  import opened Numbers
  import opened Values
  import opened Lexical
  import opened Grammar
  import opened Escapes
  import opened NumberReading
  import opened Streams
  import opened Printing
  import opened Parsing
  import Utf8

  // ---- Strings (section 7 of RFC 8259) ----

  lemma HexOfLower(d: nat)
    requires d < 16
    ensures HexDigit(HexLower(d)) == Some(d)
  {}

  // Reading a printed character gives it back, whatever follows.
  lemma CharBack(c: char, rest: bytes)
    ensures CharText(c)[0] != QUOTE
    ensures ReadChar(CharText(c) + rest) == Ok(c, |CharText(c)|)
  {
    var n := c as int;
    if n < 0x20 && CharText(c)[1] == LETTER_U {
      ControlBack(c, rest);
    } else if n >= 0x20 && c != '"' && c != '\\' {
      Utf8.ReadEncoded(c, rest);
    }
  }

  lemma ControlBack(c: char, rest: bytes)
    requires (c as int) < 0x20 && CharText(c)[1] == LETTER_U
    ensures ReadChar(CharText(c) + rest) == Ok(c, 6)
  {
    hide ReadUnicodeEscape, HexDigit;
    var n := c as int;
    var w: bytes := [ZERO, ZERO, HexLower(n / 16), HexLower(n % 16)];
    var s := CharText(c) + rest;
    assert CharText(c) == [BACKSLASH, LETTER_U] + w;
    assert s[2..] == w + rest;
    HexOfLower(0);
    HexOfLower(n / 16);
    HexOfLower(n % 16);
    assert (w + rest)[..4] == w;
    EscapeExactly(s[2..], c, 4);
  }

  lemma {:induction false} CharsBack(text: string, rest: bytes, start: int)
    requires start < 0
    ensures ReadBody(CharsText(text) + ([QUOTE] + rest), start) == Ok(text, |CharsText(text)| + 1)
    decreases |text|
  {
    hide CharText, ReadChar;
    if text != "" {
      var c := CharText(text[0]);
      var more := CharsText(text[1..]) + ([QUOTE] + rest);
      Assoc(c, CharsText(text[1..]), [QUOTE] + rest);
      CharBack(text[0], more);
      DropAppend(c, more);
      CharsBack(text[1..], rest, start - |c|);
      assert text == [text[0]] + text[1..];
    }
  }

  // Reading a printed string gives it back and stops right after its closing
  // quote, whatever follows.
  lemma StringBack(text: string, rest: bytes)
    ensures ReadString(StringText(text) + rest) == Ok(text, |StringText(text)|)
  {
    hide ReadBody;
    var body := CharsText(text) + ([QUOTE] + rest);
    Assoc([QUOTE], CharsText(text) + [QUOTE], rest);
    Assoc(CharsText(text), [QUOTE], rest);
    DropAppend([QUOTE], body);
    CharsBack(text, rest, -1);
    assert "" + text == text;
  }

  // ---- Tokens ----

  lemma StringStream(text: string, rest: bytes)
    ensures StreamOf(StringText(text) + rest) == Join([StringToken(text)], StreamOf(rest))
  {
    hide StreamOf, ReadString;
    var s := StringText(text) + rest;
    StringBack(text, rest);
    assert s[0] == QUOTE;
    DropAppend(StringText(text), rest);
    assert Next(s) == Ok(StringToken(text), |StringText(text)|);
    TokenThen(s, StringToken(text), |StringText(text)|);
  }

  lemma PunctuationStream(b: byte, rest: bytes)
    requires Punctuation(b).Some?
    ensures StreamOf([b] + rest) == Join([Punctuation(b).value], StreamOf(rest))
  {
    hide StreamOf, ReadString, ReadNumber, ReadLiteral;
    DropAppend([b], rest);
    TokenThen([b] + rest, Punctuation(b).value, 1);
  }

  lemma LiteralStream(text: bytes, token: Token, rest: bytes)
    requires (text == TEXT_NULL && token == NullToken) || (text == TEXT_TRUE && token == TrueToken)
             || (text == TEXT_FALSE && token == FalseToken)
    ensures StreamOf(text + rest) == Join([token], StreamOf(rest))
  {
    hide StreamOf, ReadString, ReadNumber;
    assert text <= text + rest;
    DropAppend(text, rest);
    TokenThen(text + rest, token, |text|);
  }

  lemma NumberStream(n: Num, rest: bytes)
    requires n.Finite? && Stops(rest)
    ensures StreamOf(Display(n).Text() + rest) == Join([NumberToken(n)], StreamOf(rest))
  {
    hide StreamOf, ReadNumber, Display, Lexeme.Text, ReadString, ReadLiteral;
    var l := Display(n);
    var s := l.Text() + rest;
    EvalDisplay(n);
    StopsEnded(l, rest);
    NumberRead(l, rest);
    NumberEnds(l);
    assert s[0] == l.Text()[0];
    DropAppend(l.Text(), rest);
    assert Next(s) == Ok(NumberToken(n), |l.Text()|);
    TokenThen(s, NumberToken(n), |l.Text()|);
  }

  // ---- Values ----

  // Layout adds no token.
  lemma LayoutStream(indent: Option<nat>, depth: nat, rest: bytes)
    ensures StreamOf(Lead(indent, depth) + rest) == StreamOf(rest)
    ensures StreamOf(Break(indent) + rest) == StreamOf(rest)
    ensures StreamOf(Separator(indent) + rest) == Join([NameSeparator], StreamOf(rest))
  {
    hide StreamOf;
    SpacesThen(Lead(indent, depth), rest);
    SpacesThen(Break(indent), rest);
    if indent.None? {
      PunctuationStream(COLON, rest);
    } else {
      Assoc([COLON], [SPACE], rest);
      assert Separator(indent) == [COLON] + [SPACE];
      PunctuationStream(COLON, [SPACE] + rest);
      SpacesThen([SPACE], rest);
    }
  }

  // A layout or a comma stops a number.
  lemma LayoutStops(more: bool, indent: Option<nat>, rest: bytes)
    requires more || Stops(rest)
    ensures Stops(Comma(more) + (Break(indent) + rest))
  {}

  lemma LeadStops(indent: Option<nat>, depth: nat, b: byte, rest: bytes)
    requires !Continues(b)
    ensures Stops(Lead(indent, depth) + ([b] + rest))
  {}

  lemma CommaStream(more: bool, indent: Option<nat>, rest: bytes)
    ensures StreamOf(Comma(more) + (Break(indent) + rest))
            == Join(if more then [ValueSeparator] else [], StreamOf(rest))
  {
    hide StreamOf;
    LayoutStream(indent, 0, rest);
    if more {
      PunctuationStream(COMMA, Break(indent) + rest);
    } else {
      assert [] + (Break(indent) + rest) == Break(indent) + rest;
      assert [] + StreamOf(rest).tokens == StreamOf(rest).tokens;
    }
  }

  // The tokens of a printed value are its flattening, in every layout.
  lemma {:induction false} TextStream(v: Value, indent: Option<nat>, depth: nat, rest: bytes)
    requires Stops(rest)
    ensures StreamOf(Text(v, indent, depth) + rest) == Join(Flatten(Printable(v)), StreamOf(rest))
    decreases v, 2
  {
    hide StreamOf, StringText, ItemsText, MembersText, Break, Lead, Join, PrintableItems, PrintableMembers,
      FlattenItems, FlattenMembers;
    match v
    case Null => LiteralStream(TEXT_NULL, NullToken, rest);
    case Bool(b) =>
      if b {
        LiteralStream(TEXT_TRUE, TrueToken, rest);
      } else {
        LiteralStream(TEXT_FALSE, FalseToken, rest);
      }
    case Number(n) =>
      if n.Finite? {
        NumberStream(n, rest);
      } else {
        LiteralStream(TEXT_NULL, NullToken, rest);
      }
    case String(s) => StringStream(s, rest);
    case Array(items) => ArrayStream(items, indent, depth, rest);
    case Object(members) => ObjectStream(members, indent, depth, rest);
  }

  lemma {:induction false} ArrayStream(items: seq<Value>, indent: Option<nat>, depth: nat, rest: bytes)
    requires Stops(rest)
    ensures StreamOf(Text(Array(items), indent, depth) + rest)
            == Join(Flatten(Array(PrintableItems(items))), StreamOf(rest))
    decreases items, 1
  {
    hide StreamOf, ItemsText, Break, Lead, Text, PrintableItems, FlattenItems;
    ArrayText(items, indent, depth);
    if items == [] {
      assert EMPTY_ARRAY + rest == [OPEN_BRACKET] + ([CLOSE_BRACKET] + rest);
      PunctuationStream(OPEN_BRACKET, [CLOSE_BRACKET] + rest);
      PunctuationStream(CLOSE_BRACKET, rest);
      JoinJoin([BeginArray], [EndArray], StreamOf(rest));
      assert Flatten(Array([])) == [BeginArray] + [EndArray] by {
        EmptyFlat();
      }
      assert PrintableItems(items) == [];
    } else {
      var close := Lead(indent, depth) + ([CLOSE_BRACKET] + rest);
      var body := ItemsText(items, indent, depth + 1);
      Assoc5Rest([OPEN_BRACKET], Break(indent), body, Lead(indent, depth), [CLOSE_BRACKET], rest);
      LeadStops(indent, depth, CLOSE_BRACKET, rest);
      PunctuationStream(OPEN_BRACKET, Break(indent) + (body + close));
      LayoutStream(indent, depth, body + close);
      ItemsStream(items, indent, depth + 1, close);
      LayoutStream(indent, depth, [CLOSE_BRACKET] + rest);
      PunctuationStream(CLOSE_BRACKET, rest);
      JoinThree([BeginArray], FlattenItems(PrintableItems(items)), [EndArray], StreamOf(rest));
      ArrayFlat(PrintableItems(items));
    }
  }

  lemma EmptyFlat()
    ensures Flatten(Array([])) == [BeginArray] + [EndArray]
    ensures Flatten(Object([])) == [BeginObject] + [EndObject]
  {}

  lemma ArrayFlat(items: seq<Value>)
    ensures Flatten(Array(items)) == [BeginArray] + FlattenItems(items) + [EndArray]
  {}

  lemma ObjectFlat(members: seq<Member>)
    ensures Flatten(Object(members)) == [BeginObject] + FlattenMembers(members) + [EndObject]
  {}

  lemma JoinThree(a: seq<Token>, b: seq<Token>, c: seq<Token>, r: Stream)
    ensures Join(a, Join(b, Join(c, r))) == Join(a + b + c, r)
  {
    JoinJoin(b, c, r);
    JoinJoin(a, b + c, r);
    assert a + (b + c) == a + b + c;
  }

  lemma Assoc5Rest(a: bytes, b: bytes, c: bytes, d: bytes, e: bytes, rest: bytes)
    ensures a + (b + (c + (d + e))) + rest == a + (b + (c + (d + (e + rest))))
  {}

  lemma {:induction false} ItemsStream(items: seq<Value>, indent: Option<nat>, depth: nat, rest: bytes)
    requires Stops(rest)
    ensures StreamOf(ItemsText(items, indent, depth) + rest)
            == Join(FlattenItems(PrintableItems(items)), StreamOf(rest))
    decreases items, 0
  {
    hide StreamOf, Break, Lead, Text, Flatten, Printable, Comma;
    if items == [] {
      assert [] + rest == rest && [] + StreamOf(rest).tokens == StreamOf(rest).tokens;
    } else {
      var more := |items| > 1;
      var tail := ItemsText(items[1..], indent, depth);
      var after := Comma(more) + (Break(indent) + (tail + rest));
      var first := Text(items[0], indent, depth);
      Assoc5Rest(Lead(indent, depth), first, Comma(more), Break(indent), tail, rest);
      assert !more ==> tail + rest == rest;
      LayoutStream(indent, depth, first + after);
      LayoutStops(more, indent, tail + rest);
      TextStream(items[0], indent, depth, after);
      CommaStream(more, indent, tail + rest);
      ItemsStream(items[1..], indent, depth, rest);
      JoinThree(Flatten(Printable(items[0])), if more then [ValueSeparator] else [],
                FlattenItems(PrintableItems(items[1..])), StreamOf(rest));
      FlatItems(items);
    }
  }

  lemma FlatItems(items: seq<Value>)
    requires items != []
    ensures FlattenItems(PrintableItems(items))
            == Flatten(Printable(items[0])) + (if |items| > 1 then [ValueSeparator] else [])
               + FlattenItems(PrintableItems(items[1..]))
  {
    hide Flatten, Printable, FlattenItems, PrintableItems;
    PrintItemsStep(items);
    FlatItemsStep(Printable(items[0]), PrintableItems(items[1..]));
  }

  lemma PrintItemsStep(items: seq<Value>)
    requires items != []
    ensures PrintableItems(items) == [Printable(items[0])] + PrintableItems(items[1..])
  {
    hide Printable;
  }

  lemma FlatItemsStep(v: Value, rest: seq<Value>)
    ensures FlattenItems([v] + rest)
            == Flatten(v) + (if rest != [] then [ValueSeparator] else []) + FlattenItems(rest)
  {
    hide Flatten;
    assert ([v] + rest)[1..] == rest;
  }

  lemma {:induction false} ObjectStream(members: seq<Member>, indent: Option<nat>, depth: nat, rest: bytes)
    requires Stops(rest)
    ensures StreamOf(Text(Object(members), indent, depth) + rest)
            == Join(Flatten(Object(PrintableMembers(members))), StreamOf(rest))
    decreases members, 1
  {
    hide StreamOf, MembersText, Break, Lead, Text, PrintableMembers, FlattenMembers;
    ObjectText(members, indent, depth);
    if members == [] {
      assert EMPTY_OBJECT + rest == [OPEN_BRACE] + ([CLOSE_BRACE] + rest);
      PunctuationStream(OPEN_BRACE, [CLOSE_BRACE] + rest);
      PunctuationStream(CLOSE_BRACE, rest);
      JoinJoin([BeginObject], [EndObject], StreamOf(rest));
      EmptyFlat();
      assert PrintableMembers(members) == [];
    } else {
      var close := Lead(indent, depth) + ([CLOSE_BRACE] + rest);
      var body := MembersText(members, indent, depth + 1);
      Assoc5Rest([OPEN_BRACE], Break(indent), body, Lead(indent, depth), [CLOSE_BRACE], rest);
      LeadStops(indent, depth, CLOSE_BRACE, rest);
      PunctuationStream(OPEN_BRACE, Break(indent) + (body + close));
      LayoutStream(indent, depth, body + close);
      MembersStream(members, indent, depth + 1, close);
      LayoutStream(indent, depth, [CLOSE_BRACE] + rest);
      PunctuationStream(CLOSE_BRACE, rest);
      JoinThree([BeginObject], FlattenMembers(PrintableMembers(members)), [EndObject], StreamOf(rest));
      ObjectFlat(PrintableMembers(members));
    }
  }

  lemma {:induction false} MembersStream(members: seq<Member>, indent: Option<nat>, depth: nat, rest: bytes)
    requires Stops(rest)
    ensures StreamOf(MembersText(members, indent, depth) + rest)
            == Join(FlattenMembers(PrintableMembers(members)), StreamOf(rest))
    decreases members, 0
  {
    hide StreamOf, Break, Lead, Text, Flatten, Printable, Comma, StringText, Separator;
    if members == [] {
      assert [] + rest == rest && [] + StreamOf(rest).tokens == StreamOf(rest).tokens;
    } else {
      var m := members[0];
      var more := |members| > 1;
      var tail := MembersText(members[1..], indent, depth);
      var after := Comma(more) + (Break(indent) + (tail + rest));
      var first := Text(m.value, indent, depth);
      var value := first + (Comma(more) + (Break(indent) + tail));
      Assoc(Lead(indent, depth), StringText(m.key) + (Separator(indent) + value), rest);
      Assoc(StringText(m.key), Separator(indent) + value, rest);
      Assoc(Separator(indent), value, rest);
      Assoc(first, Comma(more) + (Break(indent) + tail), rest);
      Assoc(Comma(more), Break(indent) + tail, rest);
      Assoc(Break(indent), tail, rest);
      assert !more ==> tail + rest == rest;
      LayoutStream(indent, depth, StringText(m.key) + (Separator(indent) + (first + after)));
      StringStream(m.key, Separator(indent) + (first + after));
      LayoutStream(indent, depth, first + after);
      LayoutStops(more, indent, tail + rest);
      TextStream(m.value, indent, depth, after);
      CommaStream(more, indent, tail + rest);
      MembersStream(members[1..], indent, depth, rest);
      var comma := if more then [ValueSeparator] else [];
      JoinThree(Flatten(Printable(m.value)), comma, FlattenMembers(PrintableMembers(members[1..])), StreamOf(rest));
      JoinThree([StringToken(m.key)], [NameSeparator],
                Flatten(Printable(m.value)) + comma + FlattenMembers(PrintableMembers(members[1..])), StreamOf(rest));
      FlatMembers(members);
    }
  }

  lemma FlatMembers(members: seq<Member>)
    requires members != []
    ensures FlattenMembers(PrintableMembers(members))
            == [StringToken(members[0].key)] + [NameSeparator]
               + (Flatten(Printable(members[0].value)) + (if |members| > 1 then [ValueSeparator] else [])
                  + FlattenMembers(PrintableMembers(members[1..])))
  {
    hide Flatten, Printable, FlattenMembers, PrintableMembers;
    PrintMembersStep(members);
    FlatMembersStep(Member(members[0].key, Printable(members[0].value)), PrintableMembers(members[1..]));
  }

  lemma PrintMembersStep(members: seq<Member>)
    requires members != []
    ensures PrintableMembers(members)
            == [Member(members[0].key, Printable(members[0].value))] + PrintableMembers(members[1..])
  {
    hide Printable;
  }

  lemma FlatMembersStep(m: Member, rest: seq<Member>)
    ensures FlattenMembers([m] + rest)
            == [StringToken(m.key)] + [NameSeparator]
               + (Flatten(m.value) + (if rest != [] then [ValueSeparator] else []) + FlattenMembers(rest))
  {
    hide Flatten;
    assert ([m] + rest)[1..] == rest;
  }

  // ---- The round trip ----

  // A text is parsed to a value exactly when its tokens are complete, are the
  // flattening of that value, and it nests within the limit.
  lemma ParsesExactly(s: bytes, v: Value, limit: nat)
    ensures Parse(s, limit) == Success(v) <==>
            StreamOf(s) == Stream(Flatten(v), true) && Depth(v) <= limit
  {
    hide ScanAt, StreamOf, Flatten, Depth, Grammar.ParseValue;
    var scan := ScanAt(s, 0);
    assert s[0..] == s;
    ScanIsStream(s, 0);
    var n := |scan.tokens|;
    assert Bare(scan.tokens)[0..n] == Bare(scan.tokens);
    RecognisesExactly(scan.tokens, 0, n, v, 0, limit);
  }

  // Parsing what is printed, compact or pretty with any step, gives the value
  // back with its non-finite numbers as null.
  lemma RoundTrips(v: Value, indent: Option<nat>, limit: nat)
    ensures Parse(Text(v, indent, 0), limit) == Success(Printable(v)) <==> Depth(v) <= limit
  {
    hide StreamOf, Flatten, Depth, Parse, Text;
    TextStream(v, indent, 0, []);
    assert Text(v, indent, 0) + [] == Text(v, indent, 0);
    assert StreamOf([]) == Stream([], true) by {
      StreamEnd([]);
    }
    assert Flatten(Printable(v)) + [] == Flatten(Printable(v));
    ParsesExactly(Text(v, indent, 0), Printable(v), limit);
    PrintableDepth(v);
  }

  // With finite numbers only, parsing inverts both printers.
  lemma ParseInvertsPrint(v: Value)
    requires Depth(v) <= NESTING_LIMIT
    ensures Parse(Compact(v), NESTING_LIMIT) == Success(Printable(v))
    ensures Parse(Pretty(v), NESTING_LIMIT) == Success(Printable(v))
    ensures AllFinite(v) <==> Parse(Compact(v), NESTING_LIMIT) == Success(v)
    ensures AllFinite(v) <==> Parse(Pretty(v), NESTING_LIMIT) == Success(v)
  {
    hide Parse, Text, Printable, AllFinite;
    RoundTrips(v, None, NESTING_LIMIT);
    RoundTrips(v, Some(PRETTY_STEP), NESTING_LIMIT);
    PrintableFinite(v);
  }

  // The nesting limit is exact.
  lemma LimitExact(s: bytes, v: Value, limit: nat)
    ensures Parse(s, limit) == Success(v) <==>
            (exists larger: nat :: larger >= limit && Parse(s, larger) == Success(v)) && Depth(v) <= limit
  {
    hide Parse, StreamOf, Flatten, Depth;
    ParsesExactly(s, v, limit);
    forall larger: nat
      ensures Parse(s, larger) == Success(v) <==>
              StreamOf(s) == Stream(Flatten(v), true) && Depth(v) <= larger
    {
      ParsesExactly(s, v, larger);
    }
  }
}
