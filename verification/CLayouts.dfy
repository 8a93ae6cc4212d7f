// The layout of the pretty form of the C interface, token by token.
module CLayouts {
  import opened Bytes
  import opened Values
  import opened Printing
  import opened CPrinting
  import M = Memory
  import opened Trees
  import opened Layouts

  lemma TabsAre(d: nat)
    ensures Line(0x09, d) == [NEWLINE] + Tabs(d)
  {
    assert seq(d, i => 0x09) == Tabs(d);
  }

  lemma {:induction false} TreeLaid(t: Tree, v: Value, rest: seq<Token>, open: seq<Token>)
    requires Says(t, v) && Ending(rest)
    ensures Layout(Tabbed, Flatten(v) + rest, open) == TreeText(t, |open|) + Tail(Tabbed, NullToken, rest, open)
    decreases t, 1
  {
    hide Layout, Text, TreeText, Tail, Flatten, Says;
    match v
    case Array(items) =>
      TreeArray(t, items);
      ItemsHead(t.kids, items);
      ArrayTabbed(t, items, rest, open);
    case Object(members) =>
      TreeObject(t, members);
      MembersHead(t.kids, members);
      ObjectTabbed(t, members, rest, open);
    case _ =>
      LeafText(t, v, |open|);
      LeafLaid(Tabbed, v, None, |open|, rest, open);
  }

  lemma ArrayTabbed(t: Tree, items: seq<Value>, rest: seq<Token>, open: seq<Token>)
    requires t.kind == M.ArrayKind && ItemsOf(t.kids) == Some(items) && |t.kids| == |items| && Ending(rest)
    requires forall i :: 0 <= i < |t.kids| ==> RawFree(t.kids[i])
    ensures Layout(Tabbed, Flatten(Array(items)) + rest, open)
            == TreeText(t, |open|) + Tail(Tabbed, NullToken, rest, open)
    decreases t, 0
  {
    hide Layout, Tail, Flatten, FlattenItems, ElementsText, RawFree, ItemsOf, Opened;
    ArrayTokens(items, rest);
    if items == [] {
      EmptyLaid(Tabbed, BeginArray, EndArray, rest, open);
    } else {
      var more := FlattenItems(items) + ([EndArray] + rest);
      LayoutStep(Tabbed, BeginArray, more, open);
      OpenedOne(open, BeginArray);
      ItemsTokens(items, rest);
      TailNone(Tabbed, BeginArray, more, open + [BeginArray]);
      ElementsTabbed(t.kids, items, rest, open);
      ArrayAssoc([OPEN_BRACKET], ElementsText(t.kids, |open| + 1), [CLOSE_BRACKET],
                 Tail(Tabbed, NullToken, rest, open));
    }
  }

  // On one line: nothing before the bracket, a space after each comma.
  lemma {:induction false} ElementsTabbed(ts: seq<Tree>, items: seq<Value>, rest: seq<Token>, open: seq<Token>)
    requires ItemsOf(ts) == Some(items) && items != [] && Ending(rest)
    requires forall i :: 0 <= i < |ts| ==> RawFree(ts[i])
    ensures Layout(Tabbed, FlattenItems(items) + ([EndArray] + rest), open + [BeginArray])
            == ElementsText(ts, |open| + 1) + ([CLOSE_BRACKET] + Tail(Tabbed, NullToken, rest, open))
    decreases ts, 0
  {
    hide Layout, TreeText, Tail, Flatten, FlattenItems, ElementsText, RawFree, ItemsOf, ValueOf, Opened;
    var o, after := open + [BeginArray], AfterItem(items, rest);
    ItemsHead(ts, items);
    ItemsTokens(items, rest);
    TreeLaid(ts[0], items[0], after, o);
    ElementsStep(ts, |open| + 1);
    TailNone(Tabbed, NullToken, after, o);
    var text := TreeText(ts[0], |open| + 1);
    if |items| == 1 {
      assert ts[1..] == [];
      NoElements(|open| + 1);
      OpenedBack(open, BeginArray, EndArray);
      LayoutStep(Tabbed, EndArray, rest, o);
      TailSame(Tabbed, EndArray, rest, open);
      assert text + ([] + []) == text;
    } else {
      var tail := FlattenItems(items[1..]) + ([EndArray] + rest);
      OpenedSame(o, ValueSeparator);
      LayoutStep(Tabbed, ValueSeparator, tail, o);
      TailFrom(Tabbed, ValueSeparator, tail, o);
      ElementsTabbed(ts[1..], items[1..], rest, open);
      GapAssoc(text, COMMA, SPACE, ElementsText(ts[1..], |open| + 1),
               [CLOSE_BRACKET] + Tail(Tabbed, NullToken, rest, open));
    }
  }

  lemma OpenedBack(open: seq<Token>, b: Token, t: Token)
    requires Opens(b) && Closes(t)
    ensures Opened(open + [b], t) == open
  {}

  lemma OpenedSame(open: seq<Token>, t: Token)
    requires !Opens(t) && !Closes(t)
    ensures Opened(open, t) == open
  {}

  lemma ElementsStep(ts: seq<Tree>, depth: nat)
    requires ts != []
    ensures ElementsText(ts, depth)
            == TreeText(ts[0], depth) + (Gap(LIST_GAP, |ts| > 1) + ElementsText(ts[1..], depth))
  {
    hide TreeText;
  }

  lemma NoElements(depth: nat)
    ensures ElementsText([], depth) == [] && FieldsText([], depth) == []
  {}

  lemma GapAssoc(a: bytes, b: byte, c: byte, d: bytes, rest: bytes)
    ensures a + ([b] + ([c] + (d + rest))) == a + ([b, c] + d) + rest
  {}

  lemma ObjectTabbed(t: Tree, members: seq<Member>, rest: seq<Token>, open: seq<Token>)
    requires t.kind == M.ObjectKind && MembersOf(t.kids) == Some(members) && |t.kids| == |members| && Ending(rest)
    requires forall i :: 0 <= i < |t.kids| ==> RawFree(t.kids[i])
    ensures Layout(Tabbed, Flatten(Object(members)) + rest, open)
            == TreeText(t, |open|) + Tail(Tabbed, NullToken, rest, open)
    decreases t, 0
  {
    hide Layout, Tail, Flatten, FlattenMembers, FieldsText, RawFree, MembersOf, Opened;
    ObjectTokens(members, rest);
    if members == [] {
      EmptyLaid(Tabbed, BeginObject, EndObject, rest, open);
    } else {
      var more := FlattenMembers(members) + ([EndObject] + rest);
      LayoutStep(Tabbed, BeginObject, more, open);
      OpenedOne(open, BeginObject);
      FieldsTabbed(BeginObject, t.kids, members, rest, open);
      ObjectTextAssoc([OPEN_BRACE], [NEWLINE], FieldsText(t.kids, |open| + 1), Tabs(|open|), [CLOSE_BRACE],
                      Tail(Tabbed, NullToken, rest, open));
    }
  }

  lemma ObjectTextAssoc(a: bytes, n: bytes, b: bytes, c: bytes, d: bytes, rest: bytes)
    ensures a + (n + (b + (n + (c + d)))) + rest == a + (n + (b + (n + (c + (d + rest)))))
  {}

  // From the token before the first of these members to the end.
  lemma {:induction false} FieldsTabbed(
    t: Token, ts: seq<Tree>, members: seq<Member>, rest: seq<Token>, open: seq<Token>)
    requires MembersOf(ts) == Some(members) && members != [] && Ending(rest)
    requires t == BeginObject || t == ValueSeparator
    requires forall i :: 0 <= i < |ts| ==> RawFree(ts[i])
    ensures Tail(Tabbed, t, FlattenMembers(members) + ([EndObject] + rest), open + [BeginObject])
            == [NEWLINE] + (FieldsText(ts, |open| + 1)
                            + ([NEWLINE] + (Tabs(|open|) + ([CLOSE_BRACE] + Tail(Tabbed, NullToken, rest, open)))))
    decreases ts, 0
  {
    hide Layout, TreeText, Tail, Flatten, FlattenMembers, FieldsText, RawFree, MembersOf, ValueOf, Opened, Spacing;
    hide StringText;
    var o, after, d := open + [BeginObject], AfterMember(members, rest), |open| + 1;
    var close := [NEWLINE] + (Tabs(|open|) + ([CLOSE_BRACE] + Tail(Tabbed, NullToken, rest, open)));
    MembersHead(ts, members);
    MembersTokens(members, rest);
    var key, value := members[0].key, Flatten(members[0].value) + after;
    var all := [StringToken(key)] + ([NameSeparator] + value);
    TailFrom(Tabbed, t, all, o);
    FieldSpacing(t, key, value[0], o);
    KeyTabbed(key, value, o);
    TreeLaid(ts[0], members[0].value, after, o);
    FieldsStep(ts, d);
    var text := TreeText(ts[0], d);
    if |members| == 1 {
      assert ts[1..] == [];
      NoElements(d);
      BraceTabbed(rest, open);
      FieldsEnd([NEWLINE], Tabs(d), StringText(key), KEY_GAP, text, close);
    } else {
      var tail := FlattenMembers(members[1..]) + ([EndObject] + rest);
      CommaTabbed(tail, o);
      FieldsTabbed(ValueSeparator, ts[1..], members[1..], rest, open);
      FieldsMore([NEWLINE], Tabs(d), StringText(key), KEY_GAP, text, FieldsText(ts[1..], d), close);
    }
  }

  lemma FieldSpacing(t: Token, key: string, u: Token, open: seq<Token>)
    requires open != [] && open[|open| - 1] == BeginObject && (t == BeginObject || t == ValueSeparator)
    requires u != EndObject
    ensures Spacing(Tabbed, t, StringToken(key), open) == [NEWLINE] + Tabs(|open|)
    ensures Spacing(Tabbed, StringToken(key), NameSeparator, open) == []
    ensures [COLON] + Spacing(Tabbed, NameSeparator, u, open) == KEY_GAP
  {
    TabsAre(|open|);
  }

  lemma KeyTabbed(key: string, value: seq<Token>, open: seq<Token>)
    requires open != [] && open[|open| - 1] == BeginObject && value != [] && value[0] != EndObject
    ensures Layout(Tabbed, [StringToken(key)] + ([NameSeparator] + value), open)
            == StringText(key) + (KEY_GAP + Layout(Tabbed, value, open))
  {
    hide Layout, StringText, Tail, Spacing, Opened;
    FieldSpacing(BeginObject, key, value[0], open);
    OpenedSame(open, StringToken(key));
    OpenedSame(open, NameSeparator);
    LayoutStep(Tabbed, StringToken(key), [NameSeparator] + value, open);
    TailNone(Tabbed, StringToken(key), [NameSeparator] + value, open);
    LayoutStep(Tabbed, NameSeparator, value, open);
    TailFrom(Tabbed, NameSeparator, value, open);
    Assoc([COLON], Spacing(Tabbed, NameSeparator, value[0], open), Layout(Tabbed, value, open));
  }

  lemma BraceTabbed(rest: seq<Token>, open: seq<Token>)
    requires Ending(rest)
    ensures Tail(Tabbed, NullToken, [EndObject] + rest, open + [BeginObject])
            == [NEWLINE] + (Tabs(|open|) + ([CLOSE_BRACE] + Tail(Tabbed, NullToken, rest, open)))
  {
    hide Layout, Tail, Opened;
    var o := open + [BeginObject];
    OpenedBack(open, BeginObject, EndObject);
    TailFrom(Tabbed, NullToken, [EndObject] + rest, o);
    LayoutStep(Tabbed, EndObject, rest, o);
    TailSame(Tabbed, EndObject, rest, open);
    TabsAre(|open|);
    Assoc([NEWLINE], Tabs(|open|), [CLOSE_BRACE] + Tail(Tabbed, NullToken, rest, open));
  }

  lemma CommaTabbed(rest: seq<Token>, open: seq<Token>)
    requires open != []
    ensures Tail(Tabbed, NullToken, [ValueSeparator] + rest, open) == [COMMA] + Tail(Tabbed, ValueSeparator, rest, open)
  {
    hide Layout, Tail, Opened;
    OpenedSame(open, ValueSeparator);
    TailNone(Tabbed, NullToken, [ValueSeparator] + rest, open);
    LayoutStep(Tabbed, ValueSeparator, rest, open);
  }

  lemma FieldsStep(ts: seq<Tree>, depth: nat)
    requires ts != []
    ensures FieldsText(ts, depth)
            == Tabs(depth)
               + (StringText(Or(ts[0].key))
                  + (KEY_GAP + (TreeText(ts[0], depth) + (Gap(LINE_GAP, |ts| > 1) + FieldsText(ts[1..], depth)))))
  {
    hide TreeText, StringText;
  }

  lemma FieldsEnd(n: bytes, a: bytes, k: bytes, s: bytes, c: bytes, close: bytes)
    ensures n + a + (k + (s + (c + close))) == n + (a + (k + (s + (c + ([] + [])))) + close)
  {}

  lemma FieldsMore(n: bytes, a: bytes, k: bytes, s: bytes, c: bytes, d: bytes, close: bytes)
    requires n == [NEWLINE]
    ensures n + a + (k + (s + (c + ([COMMA] + (n + (d + close))))))
            == n + (a + (k + (s + (c + (LINE_GAP + d)))) + close)
  {}

  // The pretty form of a tree without raw nodes is the tokens of its value, with
  // each member and closing brace on a line of its own behind one tab for every
  // bracket open there, and the elements of an array on one line.
  lemma TreeTextLaid(t: Tree, v: Value)
    requires Says(t, v)
    ensures TreeText(t, 0) == Layout(Tabbed, Flatten(v), [])
  {
    hide TreeText, Layout, Flatten, Says;
    TreeLaid(t, v, [], []);
    NothingAfter(Tabbed);
    assert Flatten(v) + [] == Flatten(v) && TreeText(t, 0) + [] == TreeText(t, 0);
  }
}
