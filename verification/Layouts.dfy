// The layout of printed text, told token by token: what stands between two
// tokens depends on them and on the brackets that are open, and on nothing else.
module Layouts {
  import opened Bytes
  import opened Values
  import opened Printing

  // Compact text, the pretty form of the serialiser, and that of the C interface.
  datatype Style = Close | Spaced | Tabbed

  predicate Opens(t: Token) { t == BeginArray || t == BeginObject }

  predicate Closes(t: Token) { t == EndArray || t == EndObject }

  // The brackets open after t.
  function Opened(open: seq<Token>, t: Token): seq<Token> {
    if Opens(t) then open + [t] else if Closes(t) && open != [] then open[..|open| - 1] else open
  }

  // A new line that starts with n of the byte pad.
  function Line(pad: byte, n: nat): bytes {
    [0x0A] + seq(n, i => pad)
  }

  // What stands between t and u, with these brackets open after t. Spaced: each
  // element and closing bracket starts a line, with two spaces for each bracket
  // open there; a space follows the colon. Tabbed: only in objects, with one tab
  // for each bracket; a tab follows the colon, a space the comma of an array.
  function Spacing(style: Style, t: Token, u: Token, open: seq<Token>): bytes {
    match style
    case Close => []
    case Spaced =>
      if Opens(t) && Closes(u) then []
      else if Opens(t) || t == ValueSeparator then Line(0x20, 2 * |open|)
      else if Closes(u) && open != [] then Line(0x20, 2 * (|open| - 1))
      else if t == NameSeparator then [0x20]
      else []
    case Tabbed =>
      if t == BeginObject then (if u == EndObject then [] else Line(0x09, |open|))
      else if t == ValueSeparator then
        (if open != [] && open[|open| - 1] == BeginObject then Line(0x09, |open|) else [0x20])
      else if u == EndObject && open != [] then Line(0x09, |open| - 1)
      else if t == NameSeparator then [0x09]
      else []
  }

  // A token by itself.
  function Word(t: Token): bytes {
    match t
    case BeginObject => [0x7B]
    case EndObject => [0x7D]
    case BeginArray => [0x5B]
    case EndArray => [0x5D]
    case NameSeparator => [0x3A]
    case ValueSeparator => [0x2C]
    case NullToken => TEXT_NULL
    case TrueToken => TEXT_TRUE
    case FalseToken => TEXT_FALSE
    case NumberToken(n) => NumberText(n)
    case StringToken(s) => StringText(s)
  }

  function Between(style: Style, t: Token, rest: seq<Token>, open: seq<Token>): bytes {
    if rest == [] then [] else Spacing(style, t, rest[0], open)
  }

  function Layout(style: Style, ts: seq<Token>, open: seq<Token>): bytes
    decreases |ts|
  {
    if ts == [] then []
    else
      var now := Opened(open, ts[0]);
      Word(ts[0]) + (Between(style, ts[0], ts[1..], now) + Layout(style, ts[1..], now))
  }

  // ---- The serialiser ----

  // What follows t.
  function Tail(style: Style, t: Token, rest: seq<Token>, open: seq<Token>): bytes {
    Between(style, t, rest, open) + Layout(style, rest, open)
  }

  predicate Ending(rest: seq<Token>) {
    rest == [] || rest[0] == ValueSeparator || Closes(rest[0])
  }

  lemma LayoutStep(style: Style, t: Token, rest: seq<Token>, open: seq<Token>)
    ensures Layout(style, [t] + rest, open) == Word(t) + Tail(style, t, rest, Opened(open, t))
  {
    hide Word, Between, Opened;
    assert ([t] + rest)[1..] == rest;
  }

  // After a whole value it does not matter which token it ended with.
  lemma TailSame(style: Style, t: Token, rest: seq<Token>, open: seq<Token>)
    requires Ending(rest) && !Opens(t) && t != ValueSeparator && t != NameSeparator
    ensures Tail(style, t, rest, open) == Tail(style, NullToken, rest, open)
  {
    hide Layout;
  }

  function IndentOf(style: Style): Option<nat>
    requires !style.Tabbed?
  {
    if style.Close? then None else Some(2)
  }

  lemma LineIs(d: nat)
    ensures Line(0x20, 2 * d) == Break(Some(2)) + Lead(Some(2), d)
  {
    assert seq(2 * d, i => 0x20) == Spaces(2 * d);
  }

  // The gap before an element, and before the closing bracket.
  lemma GapsAre(style: Style, t: Token, u: Token, open: seq<Token>)
    requires !style.Tabbed? && open != []
    ensures (Opens(t) && !Closes(u)) || t == ValueSeparator ==>
              Spacing(style, t, u, open) == Break(IndentOf(style)) + Lead(IndentOf(style), |open|)
    ensures Closes(u) ==>
              Spacing(style, NullToken, u, open) == Break(IndentOf(style)) + Lead(IndentOf(style), |open| - 1)
    ensures Spacing(style, NullToken, ValueSeparator, open) == []
  {
    LineIs(|open|);
    LineIs(|open| - 1);
  }

  lemma {:induction false} ValueLaid(style: Style, v: Value, rest: seq<Token>, open: seq<Token>)
    requires !style.Tabbed? && Ending(rest)
    ensures Layout(style, Flatten(v) + rest, open)
            == Text(v, IndentOf(style), |open|) + Tail(style, NullToken, rest, open)
    decreases v, 1
  {
    hide Layout, Text, Tail, Word, Flatten;
    match v
    case Array(items) => ArrayLaid(style, items, rest, open);
    case Object(members) => ObjectLaid(style, members, rest, open);
    case _ => LeafLaid(style, v, IndentOf(style), |open|, rest, open);
  }

  lemma LeafLaid(style: Style, v: Value, indent: Option<nat>, depth: nat, rest: seq<Token>, open: seq<Token>)
    requires Ending(rest) && !v.Array? && !v.Object?
    ensures Layout(style, Flatten(v) + rest, open) == Text(v, indent, depth) + Tail(style, NullToken, rest, open)
  {
    hide Layout, Tail, NumberText, StringText;
    var t := Flatten(v)[0];
    LayoutStep(style, t, rest, open);
    TailSame(style, t, rest, open);
  }

  lemma ClosingStep(style: Style, b: Token, t: Token, rest: seq<Token>, open: seq<Token>)
    requires !style.Tabbed? && Ending(rest) && Opens(b) && Closes(t)
    ensures Tail(style, NullToken, [t] + rest, open + [b])
            == Break(IndentOf(style)) + (Lead(IndentOf(style), |open|) + (Word(t) + Tail(style, NullToken, rest, open)))
  {
    hide Layout, Word;
    var o := open + [b];
    assert Opened(o, t) == open;
    LayoutStep(style, t, rest, o);
    TailSame(style, t, rest, open);
    GapsAre(style, NullToken, t, o);
    Assoc(Break(IndentOf(style)), Lead(IndentOf(style), |open|), Layout(style, [t] + rest, o));
  }

  lemma EmptyLaid(style: Style, b: Token, t: Token, rest: seq<Token>, open: seq<Token>)
    requires Ending(rest) && ((b == BeginArray && t == EndArray) || (b == BeginObject && t == EndObject))
    ensures Layout(style, [b] + ([t] + rest), open) == [Word(b)[0], Word(t)[0]] + Tail(style, NullToken, rest, open)
  {
    hide Layout, Tail;
    var o := open + [b];
    assert Opened(o, t) == open;
    LayoutStep(style, b, [t] + rest, open);
    LayoutStep(style, t, rest, o);
    TailSame(style, t, rest, open);
    TailNone(style, b, [t] + rest, o);
    assert Word(b) == [Word(b)[0]] && Word(t) == [Word(t)[0]];
  }

  lemma TailNone(style: Style, t: Token, rest: seq<Token>, open: seq<Token>)
    requires rest != [] && Spacing(style, t, rest[0], open) == []
    ensures Tail(style, t, rest, open) == Layout(style, rest, open)
  {
    hide Layout, Spacing;
    assert [] + Layout(style, rest, open) == Layout(style, rest, open);
  }

  lemma TailFrom(style: Style, t: Token, rest: seq<Token>, open: seq<Token>)
    requires rest != []
    ensures Tail(style, t, rest, open) == Spacing(style, t, rest[0], open) + Layout(style, rest, open)
  {
    hide Layout, Spacing;
  }

  lemma {:induction false} ArrayLaid(style: Style, items: seq<Value>, rest: seq<Token>, open: seq<Token>)
    requires !style.Tabbed? && Ending(rest)
    ensures Layout(style, Flatten(Array(items)) + rest, open)
            == Text(Array(items), IndentOf(style), |open|) + Tail(style, NullToken, rest, open)
    decreases items, 2
  {
    hide Layout, Text, Tail, Flatten, FlattenItems, ItemsText, Lead, Break, Opened, IndentOf;
    var indent, d := IndentOf(style), |open|;
    ArrayText(items, indent, d);
    ArrayTokens(items, rest);
    if items == [] {
      EmptyLaid(style, BeginArray, EndArray, rest, open);
    } else {
      var more := FlattenItems(items) + ([EndArray] + rest);
      LayoutStep(style, BeginArray, more, open);
      OpenedOne(open, BeginArray);
      ItemsLaid(style, BeginArray, items, rest, open);
      Assoc4([OPEN_BRACKET], Break(indent), ItemsText(items, indent, d + 1), Lead(indent, d), [CLOSE_BRACKET],
             Tail(style, NullToken, rest, open));
    }
  }

  lemma OpenedOne(open: seq<Token>, t: Token)
    requires Opens(t)
    ensures Opened(open, t) == open + [t]
  {}

  lemma ArrayTokens(items: seq<Value>, rest: seq<Token>)
    ensures Flatten(Array(items)) + rest == [BeginArray] + (FlattenItems(items) + ([EndArray] + rest))
    ensures items == [] ==> Flatten(Array(items)) + rest == [BeginArray] + ([EndArray] + rest)
  {
    hide FlattenItems;
    assert items == [] ==> FlattenItems(items) == [] by { NoItems(); }
  }

  lemma NoItems()
    ensures FlattenItems([]) == [] && FlattenMembers([]) == []
  {}

  lemma Assoc4(a: bytes, b: bytes, c: bytes, d: bytes, e: bytes, rest: bytes)
    ensures a + (b + (c + (d + e))) + rest == a + (b + (c + (d + (e + rest))))
  {}

  lemma CommaLaid(style: Style, rest: seq<Token>, open: seq<Token>)
    requires !style.Tabbed? && open != []
    ensures Tail(style, NullToken, [ValueSeparator] + rest, open) == [COMMA] + Tail(style, ValueSeparator, rest, open)
  {
    hide Layout, Tail, Spacing;
    GapsAre(style, NullToken, ValueSeparator, open);
    TailNone(style, NullToken, [ValueSeparator] + rest, open);
    LayoutStep(style, ValueSeparator, rest, open);
  }

  // From the token before the first of these items to the end.
  lemma {:induction false} ItemsLaid(style: Style, t: Token, items: seq<Value>, rest: seq<Token>, open: seq<Token>)
    requires !style.Tabbed? && Ending(rest) && items != [] && (t == BeginArray || t == ValueSeparator)
    ensures var indent := IndentOf(style);
            Tail(style, t, FlattenItems(items) + ([EndArray] + rest), open + [BeginArray])
            == Break(indent) + (ItemsText(items, indent, |open| + 1)
                                + (Lead(indent, |open|) + ([CLOSE_BRACKET] + Tail(style, NullToken, rest, open))))
    decreases items, 0
  {
    hide Layout, Text, Tail, Flatten, FlattenItems, ItemsText, Lead, Break, Spacing, IndentOf;
    var indent, d, o := IndentOf(style), |open|, open + [BeginArray];
    var close := Lead(indent, d) + ([CLOSE_BRACKET] + Tail(style, NullToken, rest, open));
    var after := AfterItem(items, rest);
    ItemsTokens(items, rest);
    var all := Flatten(items[0]) + after;
    TailFrom(style, t, all, o);
    GapsAre(style, t, all[0], o);
    ValueLaid(style, items[0], after, o);
    ItemsTextStep(items, indent, d + 1);
    if |items| == 1 {
      ClosingStep(style, BeginArray, EndArray, rest, open);
      NoText(indent, d + 1);
      assert items[1..] == [];
      ItemsEnd(Break(indent), Lead(indent, d + 1), Text(items[0], indent, d + 1), close);
    } else {
      CommaLaid(style, FlattenItems(items[1..]) + ([EndArray] + rest), o);
      ItemsLaid(style, ValueSeparator, items[1..], rest, open);
      ItemsMore(Break(indent), Lead(indent, d + 1), Text(items[0], indent, d + 1),
                ItemsText(items[1..], indent, d + 1), close);
    }
  }

  // What follows the tokens of the first item.
  function AfterItem(items: seq<Value>, rest: seq<Token>): (ts: seq<Token>)
    requires items != []
    ensures ts != [] && Ending(ts)
  {
    if |items| == 1 then [EndArray] + rest
    else [ValueSeparator] + (FlattenItems(items[1..]) + ([EndArray] + rest))
  }

  lemma ItemsTokens(items: seq<Value>, rest: seq<Token>)
    requires items != []
    ensures FlattenItems(items) + ([EndArray] + rest) == Flatten(items[0]) + AfterItem(items, rest)
    ensures (Flatten(items[0]) + AfterItem(items, rest))[0] == Flatten(items[0])[0]
  {
    hide Flatten, FlattenItems;
    FlattenItemsStep(items);
    if |items| > 1 {
      TokensAssoc(Flatten(items[0]), [ValueSeparator], FlattenItems(items[1..]), [EndArray] + rest);
    } else {
      assert Flatten(items[0]) + [] == Flatten(items[0]);
    }
  }

  lemma FlattenItemsStep(items: seq<Value>)
    requires items != []
    ensures FlattenItems(items)
            == Flatten(items[0]) + (if |items| == 1 then [] else [ValueSeparator] + FlattenItems(items[1..]))
  {
    hide Flatten;
  }

  lemma TokensAssoc(a: seq<Token>, b: seq<Token>, c: seq<Token>, d: seq<Token>)
    ensures a + (b + c) + d == a + (b + (c + d))
  {}

  lemma ItemsTextStep(items: seq<Value>, indent: Option<nat>, depth: nat)
    requires items != []
    ensures ItemsText(items, indent, depth)
            == Lead(indent, depth) + (Text(items[0], indent, depth)
                 + (Comma(|items| > 1) + (Break(indent) + ItemsText(items[1..], indent, depth))))
  {
    hide Text, Lead, Break, Comma;
  }

  lemma NoText(indent: Option<nat>, depth: nat)
    ensures ItemsText([], indent, depth) == [] && MembersText([], indent, depth) == []
  {}

  lemma ItemsEnd(a: bytes, b: bytes, c: bytes, close: bytes)
    ensures a + b + (c + (a + close)) == a + (b + (c + ([] + (a + []))) + close)
  {}

  lemma ItemsMore(a: bytes, b: bytes, c: bytes, d: bytes, close: bytes)
    ensures a + b + (c + ([COMMA] + (a + (d + close)))) == a + (b + (c + ([COMMA] + (a + d))) + close)
  {}

  lemma {:induction false} ObjectLaid(style: Style, members: seq<Member>, rest: seq<Token>, open: seq<Token>)
    requires !style.Tabbed? && Ending(rest)
    ensures Layout(style, Flatten(Object(members)) + rest, open)
            == Text(Object(members), IndentOf(style), |open|) + Tail(style, NullToken, rest, open)
    decreases members, 2
  {
    hide Layout, Text, Tail, Flatten, FlattenMembers, MembersText, Lead, Break, Opened, IndentOf;
    var indent, d := IndentOf(style), |open|;
    ObjectText(members, indent, d);
    ObjectTokens(members, rest);
    if members == [] {
      EmptyLaid(style, BeginObject, EndObject, rest, open);
    } else {
      LayoutStep(style, BeginObject, FlattenMembers(members) + ([EndObject] + rest), open);
      OpenedOne(open, BeginObject);
      MembersLaid(style, BeginObject, members, rest, open);
      Assoc4([OPEN_BRACE], Break(indent), MembersText(members, indent, d + 1), Lead(indent, d), [CLOSE_BRACE],
             Tail(style, NullToken, rest, open));
    }
  }

  lemma ObjectTokens(members: seq<Member>, rest: seq<Token>)
    ensures Flatten(Object(members)) + rest == [BeginObject] + (FlattenMembers(members) + ([EndObject] + rest))
    ensures members == [] ==> Flatten(Object(members)) + rest == [BeginObject] + ([EndObject] + rest)
  {
    hide FlattenMembers;
    assert members == [] ==> FlattenMembers(members) == [] by { NoItems(); }
  }

  lemma {:induction false} MembersLaid(
    style: Style, t: Token, members: seq<Member>, rest: seq<Token>, open: seq<Token>)
    requires !style.Tabbed? && Ending(rest) && members != [] && (t == BeginObject || t == ValueSeparator)
    ensures var indent := IndentOf(style);
            Tail(style, t, FlattenMembers(members) + ([EndObject] + rest), open + [BeginObject])
            == Break(indent) + (MembersText(members, indent, |open| + 1)
                                + (Lead(indent, |open|) + ([CLOSE_BRACE] + Tail(style, NullToken, rest, open))))
    decreases members, 0
  {
    hide Layout, Text, Tail, Flatten, FlattenMembers, MembersText, Lead, Break, Spacing, IndentOf, StringText;
    hide Separator;
    hide Opened, Between;
    var indent, d, o := IndentOf(style), |open|, open + [BeginObject];
    var close := Lead(indent, d) + ([CLOSE_BRACE] + Tail(style, NullToken, rest, open));
    var after, key := AfterMember(members, rest), members[0].key;
    var value := Flatten(members[0].value) + after;
    MembersTokens(members, rest);
    var all := [StringToken(key)] + ([NameSeparator] + value);
    TailFrom(style, t, all, o);
    GapsAre(style, t, all[0], o);
    KeyLaid(style, key, value, o);
    ValueLaid(style, members[0].value, after, o);
    MembersTextStep(members, indent, d + 1);
    var text := Text(members[0].value, indent, d + 1);
    if |members| == 1 {
      ClosingStep(style, BeginObject, EndObject, rest, open);
      NoText(indent, d + 1);
      assert members[1..] == [];
      MembersEnd(Break(indent), Lead(indent, d + 1), StringText(key), Separator(indent), text, close);
    } else {
      CommaLaid(style, FlattenMembers(members[1..]) + ([EndObject] + rest), o);
      MembersLaid(style, ValueSeparator, members[1..], rest, open);
      MembersMore(Break(indent), Lead(indent, d + 1), StringText(key), Separator(indent), text,
                  MembersText(members[1..], indent, d + 1), close);
    }
  }

  // A key and its colon.
  lemma KeyLaid(style: Style, key: string, value: seq<Token>, open: seq<Token>)
    requires !style.Tabbed? && open != [] && value != [] && !Closes(value[0])
    ensures Layout(style, [StringToken(key)] + ([NameSeparator] + value), open)
            == StringText(key) + (Separator(IndentOf(style)) + Layout(style, value, open))
  {
    hide Layout, StringText, Tail, Spacing, Separator, IndentOf, Closes;
    KeyGaps(style, key, value[0], open);
    LayoutStep(style, StringToken(key), [NameSeparator] + value, open);
    TailFrom(style, StringToken(key), [NameSeparator] + value, open);
    LayoutStep(style, NameSeparator, value, open);
    TailFrom(style, NameSeparator, value, open);
    var colon, rest := Layout(style, [NameSeparator] + value, open), Layout(style, value, open);
    Assoc([COLON], Spacing(style, NameSeparator, value[0], open), rest);
    assert [] + colon == colon;
  }

  lemma KeyGaps(style: Style, key: string, u: Token, open: seq<Token>)
    requires !style.Tabbed? && !Closes(u)
    ensures Spacing(style, StringToken(key), NameSeparator, open) == []
    ensures [COLON] + Spacing(style, NameSeparator, u, open) == Separator(IndentOf(style))
    ensures Word(NameSeparator) == [COLON] && Word(StringToken(key)) == StringText(key)
    ensures Opened(open, NameSeparator) == open && Opened(open, StringToken(key)) == open
  {
    hide StringText;
  }

  function AfterMember(members: seq<Member>, rest: seq<Token>): (ts: seq<Token>)
    requires members != []
    ensures ts != [] && Ending(ts)
  {
    if |members| == 1 then [EndObject] + rest
    else [ValueSeparator] + (FlattenMembers(members[1..]) + ([EndObject] + rest))
  }

  lemma MembersTokens(members: seq<Member>, rest: seq<Token>)
    requires members != []
    ensures FlattenMembers(members) + ([EndObject] + rest)
            == [StringToken(members[0].key)]
               + ([NameSeparator] + (Flatten(members[0].value) + AfterMember(members, rest)))
    ensures var value := Flatten(members[0].value);
            (value + AfterMember(members, rest))[0] == value[0] && !Closes(value[0])
  {
    hide Flatten, FlattenMembers;
    FlattenMembersStep(members);
    var head, value := [StringToken(members[0].key), NameSeparator], Flatten(members[0].value);
    if |members| > 1 {
      TokensAssoc(head + value, [ValueSeparator], FlattenMembers(members[1..]), [EndObject] + rest);
    } else {
      assert head + value + [] == head + value;
    }
    HeadAssoc(StringToken(members[0].key), NameSeparator, value, AfterMember(members, rest));
  }

  lemma FlattenMembersStep(members: seq<Member>)
    requires members != []
    ensures FlattenMembers(members)
            == [StringToken(members[0].key), NameSeparator] + Flatten(members[0].value)
               + (if |members| == 1 then [] else [ValueSeparator] + FlattenMembers(members[1..]))
  {
    hide Flatten;
  }

  lemma HeadAssoc(a: Token, b: Token, c: seq<Token>, d: seq<Token>)
    ensures [a, b] + c + d == [a] + ([b] + (c + d))
  {}

  lemma MembersTextStep(members: seq<Member>, indent: Option<nat>, depth: nat)
    requires members != []
    ensures MembersText(members, indent, depth)
            == Lead(indent, depth) + (StringText(members[0].key) + (Separator(indent)
                 + (Text(members[0].value, indent, depth)
                    + (Comma(|members| > 1) + (Break(indent) + MembersText(members[1..], indent, depth))))))
  {
    hide Text, Lead, Break, Comma, StringText, Separator;
  }

  lemma MembersEnd(a: bytes, b: bytes, k: bytes, s: bytes, c: bytes, close: bytes)
    ensures a + b + (k + (s + (c + (a + close)))) == a + (b + (k + (s + (c + ([] + (a + []))))) + close)
  {}

  lemma MembersMore(a: bytes, b: bytes, k: bytes, s: bytes, c: bytes, d: bytes, close: bytes)
    ensures a + b + (k + (s + (c + ([COMMA] + (a + (d + close))))))
            == a + (b + (k + (s + (c + ([COMMA] + (a + d))))) + close)
  {}

  // ---- Both forms of the serialiser ----

  // Compact text is the tokens of the value with nothing between them; pretty
  // text has each element and each closing bracket on a line of its own, behind
  // two spaces for every bracket open there.
  lemma TextLaid(v: Value)
    ensures Compact(v) == Layout(Close, Flatten(v), [])
    ensures Pretty(v) == Layout(Spaced, Flatten(v), [])
  {
    hide Text, Layout, Flatten;
    ValueLaid(Close, v, [], []);
    ValueLaid(Spaced, v, [], []);
    assert Flatten(v) + [] == Flatten(v);
    NothingAfter(Close);
    NothingAfter(Spaced);
    assert Text(v, None, 0) + [] == Text(v, None, 0) && Text(v, Some(2), 0) + [] == Text(v, Some(2), 0);
  }

  lemma NothingAfter(style: Style)
    ensures Tail(style, NullToken, [], []) == []
  {}
}
