// The pretty form of cJSON_Print (cjson-rs-ffi/src/lib.rs, write_cjson_pretty),
// written straight from the nodes, and what it means.
module CPrinting {
  import opened Bytes
  import opened Errors
  import opened Values
  import opened Lexical
  import opened NumberReading
  import opened Streams
  import opened Minifying
  import opened Printing
  import opened Parsing
  import opened RoundTrip
  import opened MinifyMeaning
  import M = Memory
  import opened Heaps
  import opened Trees
  import opened Building
  import Utf8

  const LIST_GAP: bytes := [COMMA, SPACE]
  const LINE_GAP: bytes := [COMMA, NEWLINE]
  const KEY_GAP: bytes := [COLON, TAB]

  // ---- The text of a tree ----

  function Tabs(k: nat): (w: bytes)
    ensures |w| == k && forall i :: 0 <= i < k ==> w[i] == TAB
  {
    seq(k, i => TAB)
  }

  function Utf8Text(s: string): bytes {
    if s == "" then [] else Utf8.Encode(s[0]) + Utf8Text(s[1..])
  }

  function Gap(gap: bytes, more: bool): bytes {
    if more then gap else []
  }

  function TreeText(t: Tree, depth: nat): bytes
    decreases t, 1
  {
    match t.kind
    case NullKind => TEXT_NULL
    case TrueKind => TEXT_TRUE
    case FalseKind => TEXT_FALSE
    case NumberKind => NumberText(t.number)
    case StringKind => StringText(Or(t.text))
    case RawKind => Utf8Text(Or(t.text))
    case ArrayKind =>
      if t.kids == [] then EMPTY_ARRAY else [OPEN_BRACKET] + (ElementsText(t.kids, depth + 1) + [CLOSE_BRACKET])
    case ObjectKind =>
      if t.kids == [] then EMPTY_OBJECT
      else [OPEN_BRACE] + ([NEWLINE] + (FieldsText(t.kids, depth + 1)
                                        + ([NEWLINE] + (Tabs(depth) + [CLOSE_BRACE]))))
    case InvalidKind => TEXT_NULL
  }

  // Elements on one line.
  function ElementsText(ts: seq<Tree>, depth: nat): bytes
    decreases ts, 0
  {
    if ts == [] then []
    else TreeText(ts[0], depth) + (Gap(LIST_GAP, |ts| > 1) + ElementsText(ts[1..], depth))
  }

  // Fields on lines of their own, a tab after the colon.
  function FieldsText(ts: seq<Tree>, depth: nat): bytes
    decreases ts, 0
  {
    if ts == [] then []
    else
      Tabs(depth)
      + (StringText(Or(ts[0].key))
         + (KEY_GAP + (TreeText(ts[0], depth) + (Gap(LINE_GAP, |ts| > 1) + FieldsText(ts[1..], depth)))))
  }

  // ---- The writer ----

  method WriteTabs(w: Writer, k: nat)
    modifies w
    ensures w.out == old(w.out) + Tabs(k)
  {
    for i := 0 to k
      invariant w.out == old(w.out) + Tabs(i)
    {
      w.Push(TAB);
      assert Tabs(i) + [TAB] == Tabs(i + 1);
    }
  }

  method WriteRaw(w: Writer, s: string)
    modifies w
    ensures w.out == old(w.out) + Utf8Text(s)
  {
    for i := 0 to |s|
      invariant w.out + Utf8Text(s[i..]) == old(w.out) + Utf8Text(s)
    {
      ghost var before := w.out;
      assert s[i..][1..] == s[i + 1..];
      w.PushStr(Utf8.Encode(s[i]));
      assert before + Utf8Text(s[i..]) == w.out + Utf8Text(s[i + 1..]);
    }
    assert w.out + Utf8Text(s[|s|..]) == w.out;
  }

  method WriteCjsonPretty(w: Writer, h: Heap, item: M.Ptr, depth: nat, ghost t: Tree)
    requires item != M.NULL ==> item == t.at && Views(h.nodes, h.Texts(), t)
    modifies w
    ensures w.out == old(w.out) + if item == M.NULL then TEXT_NULL else TreeText(t, depth)
    decreases t, 2
  {
    hide Views, ElementsText, FieldsText, StringText, NumberText, Utf8Text, M.UpToNul;
    if item == M.NULL {
      w.PushStr(TEXT_NULL);
      return;
    }
    ViewsStep(h.nodes, h.Texts(), t);
    var n := h.nodes[item];
    match n.kind {
      case NullKind => w.PushStr(TEXT_NULL);
      case TrueKind => w.PushStr(TEXT_TRUE);
      case FalseKind => w.PushStr(TEXT_FALSE);
      case NumberKind => w.WriteNumber(n.number);
      case StringKind => w.WriteString(if n.text == M.NULL then "" else h.TextAt(n.text));
      case RawKind => WriteRaw(w, if n.text == M.NULL then "" else h.TextAt(n.text));
      case ArrayKind =>
        FirstOf(h.nodes, n.child, t);
        if n.child == M.NULL {
          w.PushStr(EMPTY_ARRAY);
          return;
        }
        w.Push(OPEN_BRACKET);
        WriteElements(w, h, n.child, depth, t);
        w.Push(CLOSE_BRACKET);
        Assoc3(old(w.out), [OPEN_BRACKET], ElementsText(t.kids, depth + 1), [CLOSE_BRACKET]);
      case ObjectKind =>
        FirstOf(h.nodes, n.child, t);
        if n.child == M.NULL {
          w.PushStr(EMPTY_OBJECT);
          return;
        }
        w.Push(OPEN_BRACE);
        w.Push(NEWLINE);
        WriteFields(w, h, n.child, depth, t);
        w.Push(NEWLINE);
        WriteTabs(w, depth);
        w.Push(CLOSE_BRACE);
        Assoc6(old(w.out), [OPEN_BRACE], [NEWLINE], FieldsText(t.kids, depth + 1), [NEWLINE], Tabs(depth),
          [CLOSE_BRACE]);
      case InvalidKind => w.PushStr(TEXT_NULL);
    }
  }

  lemma FirstOf(nodes: M.Nodes, first: M.Ptr, t: Tree)
    requires M.Chain(nodes, first, Ats(t.kids))
    ensures first == M.NULL <==> t.kids == []
  {}

  lemma Assoc3(o: bytes, a: bytes, b: bytes, c: bytes)
    ensures o + a + b + c == o + (a + (b + c))
  {}

  lemma Assoc6(o: bytes, a: bytes, b: bytes, c: bytes, d: bytes, e: bytes, f: bytes)
    ensures o + a + b + c + d + e + f == o + (a + (b + (c + (d + (e + f)))))
  {}

  // What is still to be written before child i: the gap belongs to the child
  // after it.
  function ElementsLeft(ts: seq<Tree>, i: nat, depth: nat): bytes
    requires i <= |ts|
  {
    Gap(LIST_GAP, 0 < i < |ts|) + ElementsText(ts[i..], depth)
  }

  function FieldsLeft(ts: seq<Tree>, i: nat, depth: nat): bytes
    requires i <= |ts|
  {
    Gap(LINE_GAP, 0 < i < |ts|) + FieldsText(ts[i..], depth)
  }

  lemma LeftBounds(ts: seq<Tree>, depth: nat)
    ensures ElementsLeft(ts, 0, depth) == ElementsText(ts, depth) && ElementsLeft(ts, |ts|, depth) == []
    ensures FieldsLeft(ts, 0, depth) == FieldsText(ts, depth) && FieldsLeft(ts, |ts|, depth) == []
  {
    assert ts[0..] == ts;
  }

  lemma ElementsLeftOn(ts: seq<Tree>, i: nat, depth: nat, o: bytes)
    requires i < |ts|
    ensures o + ElementsLeft(ts, i, depth)
            == o + Gap(LIST_GAP, 0 < i) + TreeText(ts[i], depth) + ElementsLeft(ts, i + 1, depth)
  {
    hide TreeText, Gap;
    assert ts[i..][1..] == ts[i + 1..];
    var tail := Gap(LIST_GAP, i + 1 < |ts|) + ElementsText(ts[i + 1..], depth);
    Assoc3(o, Gap(LIST_GAP, 0 < i), TreeText(ts[i], depth), tail);
  }

  lemma FieldsLeftOn(ts: seq<Tree>, i: nat, depth: nat, o: bytes)
    requires i < |ts|
    ensures o + FieldsLeft(ts, i, depth)
            == o + Gap(LINE_GAP, 0 < i) + Tabs(depth) + StringText(Or(ts[i].key)) + KEY_GAP + TreeText(ts[i], depth)
               + FieldsLeft(ts, i + 1, depth)
  {
    hide TreeText, Gap, StringText, Tabs;
    assert ts[i..][1..] == ts[i + 1..];
    var tail := Gap(LINE_GAP, i + 1 < |ts|) + FieldsText(ts[i + 1..], depth);
    Assoc6(o, Gap(LINE_GAP, 0 < i), Tabs(depth), StringText(Or(ts[i].key)), KEY_GAP, TreeText(ts[i], depth), tail);
  }

  method WriteGap(w: Writer, gap: bytes, more: bool)
    modifies w
    ensures w.out == old(w.out) + Gap(gap, more)
  {
    if more {
      w.PushStr(gap);
    }
  }

  method WriteElements(w: Writer, h: Heap, first: M.Ptr, depth: nat, ghost t: Tree)
    requires M.Chain(h.nodes, first, Ats(t.kids))
    requires forall i :: 0 <= i < |t.kids| ==> Views(h.nodes, h.Texts(), t.kids[i])
    modifies w
    ensures w.out == old(w.out) + ElementsText(t.kids, depth + 1)
    decreases t, 1
  {
    hide Views, TreeText, ElementsText, ElementsLeft, Gap, M.Chain, M.At, Ats;
    LeftBounds(t.kids, depth + 1);
    ChainStarts(h.nodes, first, t);
    var cur := first;
    var firstIter := true;
    ghost var i := 0;
    while cur != M.NULL
      invariant 0 <= i <= |t.kids| && cur == M.At(Ats(t.kids), i) && firstIter == (i == 0)
      invariant w.out + ElementsLeft(t.kids, i, depth + 1) == old(w.out) + ElementsText(t.kids, depth + 1)
      decreases |t.kids| - i
    {
      ChainStep(h.nodes, first, t, i);
      ElementsLeftOn(t.kids, i, depth + 1, w.out);
      WriteGap(w, LIST_GAP, !firstIter);
      firstIter := false;
      WriteCjsonPretty(w, h, cur, depth + 1, t.kids[i]);
      cur := h.nodes[cur].next;
      i := i + 1;
    }
    ChainEnds(h.nodes, first, t, i);
  }

  method WriteFields(w: Writer, h: Heap, first: M.Ptr, depth: nat, ghost t: Tree)
    requires M.Chain(h.nodes, first, Ats(t.kids))
    requires forall i :: 0 <= i < |t.kids| ==> Views(h.nodes, h.Texts(), t.kids[i])
    modifies w
    ensures w.out == old(w.out) + FieldsText(t.kids, depth + 1)
    decreases t, 1
  {
    hide Views, TreeText, FieldsText, FieldsLeft, StringText, Tabs, M.UpToNul, Gap, M.Chain, M.At, Ats;
    hide AddsShortest;
    LeftBounds(t.kids, depth + 1);
    ChainStarts(h.nodes, first, t);
    var cur := first;
    var firstIter := true;
    ghost var i := 0;
    while cur != M.NULL
      invariant 0 <= i <= |t.kids| && cur == M.At(Ats(t.kids), i) && firstIter == (i == 0)
      invariant w.out + FieldsLeft(t.kids, i, depth + 1) == old(w.out) + FieldsText(t.kids, depth + 1)
      decreases |t.kids| - i
    {
      ChainStep(h.nodes, first, t, i);
      FieldsLeftOn(t.kids, i, depth + 1, w.out);
      ViewsStep(h.nodes, h.Texts(), t.kids[i]);
      WriteGap(w, LINE_GAP, !firstIter);
      firstIter := false;
      WriteTabs(w, depth + 1);
      w.WriteString(if h.nodes[cur].key == M.NULL then "" else h.TextAt(h.nodes[cur].key));
      w.PushStr(KEY_GAP);
      WriteCjsonPretty(w, h, cur, depth + 1, t.kids[i]);
      cur := h.nodes[cur].next;
      i := i + 1;
    }
    ChainEnds(h.nodes, first, t, i);
  }

  // ---- What the text means ----

  // No raw nodes: those carry text of their own.
  predicate RawFree(t: Tree)
    decreases t
  {
    t.kind != M.RawKind && forall i :: 0 <= i < |t.kids| ==> RawFree(t.kids[i])
  }

  predicate Says(t: Tree, v: Value) {
    RawFree(t) && ValueOf(t) == Some(v)
  }

  lemma TreeArray(t: Tree, items: seq<Value>)
    requires Says(t, Array(items))
    ensures t.kind == M.ArrayKind && ItemsOf(t.kids) == Some(items)
    ensures forall i :: 0 <= i < |t.kids| ==> RawFree(t.kids[i])
  {}

  lemma TreeObject(t: Tree, members: seq<Member>)
    requires Says(t, Object(members))
    ensures t.kind == M.ObjectKind && MembersOf(t.kids) == Some(members)
    ensures forall i :: 0 <= i < |t.kids| ==> RawFree(t.kids[i])
  {}

  lemma ItemsHead(ts: seq<Tree>, items: seq<Value>)
    requires ItemsOf(ts) == Some(items)
    ensures |ts| == |items|
    ensures ts != [] ==> ValueOf(ts[0]) == Some(items[0]) && ItemsOf(ts[1..]) == Some(items[1..])
    decreases ts
  {
    hide ValueOf;
    if ts != [] {
      var tail := ItemsOf(ts[1..]).value;
      assert items == [items[0]] + tail;
      ItemsHead(ts[1..], tail);
    }
  }

  lemma MembersHead(ts: seq<Tree>, members: seq<Member>)
    requires MembersOf(ts) == Some(members)
    ensures |ts| == |members|
    ensures ts != [] ==>
              ValueOf(ts[0]) == Some(members[0].value) && Or(ts[0].key) == members[0].key
              && MembersOf(ts[1..]) == Some(members[1..])
    decreases ts
  {
    hide ValueOf;
    if ts != [] {
      var tail := MembersOf(ts[1..]).value;
      assert members == [members[0]] + tail;
      MembersHead(ts[1..], tail);
    }
  }

  // A leaf is written as the serialiser writes its value.
  lemma LeafText(t: Tree, v: Value, depth: nat)
    requires Says(t, v) && !v.Array? && !v.Object?
    ensures TreeText(t, depth) == Text(v, None, depth)
  {
    hide StringText, NumberText;
  }

  // ---- Minified, it is the compact form ----

  lemma GapsDropped(depth: nat, more: bool, rest: bytes)
    ensures Minify(Tabs(depth) + rest) == Minify(rest)
    ensures Minify([NEWLINE] + rest) == Minify(rest)
    ensures Minify(Gap(LIST_GAP, more) + rest) == Comma(more) + Minify(rest)
    ensures Minify(Gap(LINE_GAP, more) + rest) == Comma(more) + Minify(rest)
    ensures Minify(KEY_GAP + rest) == [COLON] + Minify(rest)
  {
    hide Minify;
    SpacesDropped(Tabs(depth), rest);
    SpacesDropped([NEWLINE], rest);
    GapDropped(COMMA, SPACE, rest);
    GapDropped(COMMA, NEWLINE, rest);
    GapDropped(COLON, TAB, rest);
    assert [] + rest == rest && [] + Minify(rest) == Minify(rest);
  }

  lemma GapDropped(b: byte, space: byte, rest: bytes)
    requires Plain(b) && IsSpace(space)
    ensures Minify([b, space] + rest) == [b] + Minify(rest)
  {
    hide Minify;
    assert [b, space] + rest == [b] + ([space] + rest);
    PlainCopied([b], [space] + rest);
    SpacesDropped([space], rest);
  }

  lemma {:induction false} TreeMinified(t: Tree, v: Value, depth: nat, rest: bytes)
    requires Says(t, v)
    ensures Minify(TreeText(t, depth) + rest) == Text(v, None, depth) + Minify(rest)
    decreases t, 1
  {
    hide Minify, Text, TreeText, ElementsText, FieldsText, Tabs, Says;
    match v
    case Array(items) =>
      TreeArray(t, items);
      ItemsHead(t.kids, items);
      ArrayMinified(t, items, depth, rest);
    case Object(members) =>
      TreeObject(t, members);
      MembersHead(t.kids, members);
      ObjectMinified(t, members, depth, rest);
    case _ =>
      LeafText(t, v, depth);
      LeafCopied(v, None, depth, rest);
  }

  lemma ArrayMinified(t: Tree, items: seq<Value>, depth: nat, rest: bytes)
    requires t.kind == M.ArrayKind && ItemsOf(t.kids) == Some(items) && |t.kids| == |items|
    requires forall i :: 0 <= i < |t.kids| ==> RawFree(t.kids[i])
    ensures Minify(TreeText(t, depth) + rest) == Text(Array(items), None, depth) + Minify(rest)
    decreases t, 0
  {
    hide Minify, Text, ElementsText, ItemsText, RawFree, ItemsOf;
    ArrayText(items, None, depth);
    if items == [] {
      PlainCopied(EMPTY_ARRAY, rest);
    } else {
      var body := ElementsText(t.kids, depth + 1);
      ArrayAssoc([OPEN_BRACKET], body, [CLOSE_BRACKET], rest);
      PlainCopied([OPEN_BRACKET], body + ([CLOSE_BRACKET] + rest));
      ElementsMinified(t.kids, items, depth + 1, [CLOSE_BRACKET] + rest);
      PlainCopied([CLOSE_BRACKET], rest);
      CompactArray(items, depth, Minify(rest));
    }
  }

  lemma ArrayAssoc(a: bytes, b: bytes, c: bytes, rest: bytes)
    ensures a + (b + c) + rest == a + (b + (c + rest))
  {}

  lemma CompactArray(items: seq<Value>, depth: nat, rest: bytes)
    requires items != []
    ensures Text(Array(items), None, depth) + rest
            == [OPEN_BRACKET] + (ItemsText(items, None, depth + 1) + ([CLOSE_BRACKET] + rest))
  {
    hide Text, ItemsText;
    ArrayText(items, None, depth);
  }

  lemma CompactObject(members: seq<Member>, depth: nat, rest: bytes)
    requires members != []
    ensures Text(Object(members), None, depth) + rest
            == [OPEN_BRACE] + (MembersText(members, None, depth + 1) + ([CLOSE_BRACE] + rest))
  {
    hide Text, MembersText;
    ObjectText(members, None, depth);
  }

  lemma {:induction false} ElementsMinified(ts: seq<Tree>, items: seq<Value>, depth: nat, rest: bytes)
    requires ItemsOf(ts) == Some(items) && forall i :: 0 <= i < |ts| ==> RawFree(ts[i])
    ensures Minify(ElementsText(ts, depth) + rest) == ItemsText(items, None, depth) + Minify(rest)
    decreases ts, 0
  {
    hide Minify, Text, TreeText, RawFree, ItemsOf, ValueOf, Gap, Comma;
    ItemsHead(ts, items);
    if ts == [] {
      assert [] + rest == rest && [] + Minify(rest) == Minify(rest);
    } else {
      var more := |ts| > 1;
      var first, tail := TreeText(ts[0], depth), ElementsText(ts[1..], depth);
      Assoc(first, Gap(LIST_GAP, more) + tail, rest);
      Assoc(Gap(LIST_GAP, more), tail, rest);
      TreeMinified(ts[0], items[0], depth, Gap(LIST_GAP, more) + (tail + rest));
      GapsDropped(depth, more, tail + rest);
      ElementsMinified(ts[1..], items[1..], depth, rest);
      CompactItems(items, depth, Minify(rest));
    }
  }

  lemma CompactItems(items: seq<Value>, depth: nat, rest: bytes)
    requires items != []
    ensures ItemsText(items, None, depth) + rest
            == Text(items[0], None, depth) + (Comma(|items| > 1) + (ItemsText(items[1..], None, depth) + rest))
  {
    hide Text, Comma;
    var first, comma, tail := Text(items[0], None, depth), Comma(|items| > 1), ItemsText(items[1..], None, depth);
    assert ItemsText(items, None, depth) == first + (comma + tail) by {
      assert [] + tail == tail;
      assert [] + (first + (comma + tail)) == first + (comma + tail);
    }
    Assoc(first, comma + tail, rest);
    Assoc(comma, tail, rest);
  }

  lemma ObjectMinified(t: Tree, members: seq<Member>, depth: nat, rest: bytes)
    requires t.kind == M.ObjectKind && MembersOf(t.kids) == Some(members) && |t.kids| == |members|
    requires forall i :: 0 <= i < |t.kids| ==> RawFree(t.kids[i])
    ensures Minify(TreeText(t, depth) + rest) == Text(Object(members), None, depth) + Minify(rest)
    decreases t, 0
  {
    hide Minify, Text, FieldsText, MembersText, RawFree, MembersOf, Tabs;
    ObjectText(members, None, depth);
    if members == [] {
      PlainCopied(EMPTY_OBJECT, rest);
    } else {
      var body := FieldsText(t.kids, depth + 1);
      var after := [NEWLINE] + (Tabs(depth) + ([CLOSE_BRACE] + rest));
      ObjectAssoc([OPEN_BRACE], [NEWLINE], body, [NEWLINE], Tabs(depth), [CLOSE_BRACE], rest);
      PlainCopied([OPEN_BRACE], [NEWLINE] + (body + after));
      GapsDropped(depth, false, body + after);
      FieldsMinified(t.kids, members, depth + 1, after);
      GapsDropped(depth, false, Tabs(depth) + ([CLOSE_BRACE] + rest));
      GapsDropped(depth, false, [CLOSE_BRACE] + rest);
      PlainCopied([CLOSE_BRACE], rest);
      CompactObject(members, depth, Minify(rest));
    }
  }

  lemma ObjectAssoc(a: bytes, b: bytes, c: bytes, d: bytes, e: bytes, f: bytes, rest: bytes)
    ensures a + (b + (c + (d + (e + f)))) + rest == a + (b + (c + (d + (e + (f + rest)))))
  {}

  lemma {:induction false} FieldsMinified(ts: seq<Tree>, members: seq<Member>, depth: nat, rest: bytes)
    requires MembersOf(ts) == Some(members) && forall i :: 0 <= i < |ts| ==> RawFree(ts[i])
    ensures Minify(FieldsText(ts, depth) + rest) == MembersText(members, None, depth) + Minify(rest)
    decreases ts, 0
  {
    hide Minify, Text, TreeText, RawFree, MembersOf, ValueOf, Gap, Comma, StringText, Tabs;
    MembersHead(ts, members);
    if ts == [] {
      assert [] + rest == rest && [] + Minify(rest) == Minify(rest);
    } else {
      var more := |ts| > 1;
      var key := StringText(members[0].key);
      var first, tail := TreeText(ts[0], depth), FieldsText(ts[1..], depth);
      var after := Gap(LINE_GAP, more) + (tail + rest);
      ObjectAssoc(Tabs(depth), key, KEY_GAP, first, Gap(LINE_GAP, more), tail, rest);
      GapsDropped(depth, more, key + (KEY_GAP + (first + after)));
      StringTextCopied(members[0].key, KEY_GAP + (first + after));
      GapsDropped(depth, more, first + after);
      TreeMinified(ts[0], members[0].value, depth, after);
      GapsDropped(depth, more, tail + rest);
      FieldsMinified(ts[1..], members[1..], depth, rest);
      CompactMembers(members, depth, Minify(rest));
    }
  }

  lemma CompactMembers(members: seq<Member>, depth: nat, rest: bytes)
    requires members != []
    ensures MembersText(members, None, depth) + rest
            == StringText(members[0].key)
               + ([COLON] + (Text(members[0].value, None, depth)
                             + (Comma(|members| > 1) + (MembersText(members[1..], None, depth) + rest))))
  {
    hide Text, Comma, StringText;
    var key, first := StringText(members[0].key), Text(members[0].value, None, depth);
    var comma, tail := Comma(|members| > 1), MembersText(members[1..], None, depth);
    assert MembersText(members, None, depth) == key + ([COLON] + (first + (comma + tail))) by {
      assert [] + tail == tail;
      assert [] + (key + ([COLON] + (first + (comma + tail)))) == key + ([COLON] + (first + (comma + tail)));
    }
    Assoc(key, [COLON] + (first + (comma + tail)), rest);
    Assoc([COLON], first + (comma + tail), rest);
    Assoc(first, comma + tail, rest);
    Assoc(comma, tail, rest);
  }

  // Minifying what cJSON_Print writes gives what cJSON_PrintUnformatted writes.
  lemma PrettyTreeMinifies(t: Tree, v: Value)
    requires RawFree(t) && ValueOf(t) == Some(v)
    ensures Minify(TreeText(t, 0)) == Compact(v)
  {
    hide Minify, Text, TreeText, ValueOf, RawFree;
    TreeMinified(t, v, 0, []);
    MinifyStep([]);
    assert TreeText(t, 0) + [] == TreeText(t, 0);
    assert Text(v, None, 0) + [] == Text(v, None, 0);
  }

  // ---- Parsed, it is the value ----

  lemma GapsStream(depth: nat, more: bool, rest: bytes)
    ensures StreamOf(Tabs(depth) + rest) == StreamOf(rest)
    ensures StreamOf([NEWLINE] + rest) == StreamOf(rest)
    ensures StreamOf(Gap(LIST_GAP, more) + rest) == Join(if more then [ValueSeparator] else [], StreamOf(rest))
    ensures StreamOf(Gap(LINE_GAP, more) + rest) == Join(if more then [ValueSeparator] else [], StreamOf(rest))
    ensures StreamOf(KEY_GAP + rest) == Join([NameSeparator], StreamOf(rest))
  {
    hide StreamOf;
    SpacesThen(Tabs(depth), rest);
    SpacesThen([NEWLINE], rest);
    GapStream(COMMA, SPACE, rest);
    GapStream(COMMA, NEWLINE, rest);
    GapStream(COLON, TAB, rest);
    assert [] + rest == rest && [] + StreamOf(rest).tokens == StreamOf(rest).tokens;
  }

  lemma GapStream(b: byte, space: byte, rest: bytes)
    requires Punctuation(b).Some? && IsSpace(space)
    ensures StreamOf([b, space] + rest) == Join([Punctuation(b).value], StreamOf(rest))
  {
    hide StreamOf;
    assert [b, space] + rest == [b] + ([space] + rest);
    PunctuationStream(b, [space] + rest);
    SpacesThen([space], rest);
  }

  // A gap, or what follows the last element, stops a number.
  lemma GapStops(gap: bytes, more: bool, rest: bytes)
    requires gap != [] && !Continues(gap[0]) && (more || Stops(rest))
    ensures Stops(Gap(gap, more) + rest)
  {}

  lemma {:induction false} TreeStream(t: Tree, v: Value, depth: nat, rest: bytes)
    requires Says(t, v) && Stops(rest)
    ensures StreamOf(TreeText(t, depth) + rest) == Join(Flatten(Printable(v)), StreamOf(rest))
    decreases t, 1
  {
    hide StreamOf, Text, TreeText, Says, Flatten, Printable;
    match v
    case Array(items) =>
      TreeArray(t, items);
      ItemsHead(t.kids, items);
      ElementsStream(t, items, depth, rest);
    case Object(members) =>
      TreeObject(t, members);
      MembersHead(t.kids, members);
      FieldsStream(t, members, depth, rest);
    case _ =>
      LeafText(t, v, depth);
      TextStream(v, None, depth, rest);
  }

  lemma ElementsStream(t: Tree, items: seq<Value>, depth: nat, rest: bytes)
    requires t.kind == M.ArrayKind && ItemsOf(t.kids) == Some(items) && |t.kids| == |items|
    requires forall i :: 0 <= i < |t.kids| ==> RawFree(t.kids[i])
    ensures StreamOf(TreeText(t, depth) + rest) == Join(Flatten(Printable(Array(items))), StreamOf(rest))
    decreases t, 0
  {
    hide StreamOf, Text, ElementsText, RawFree, ItemsOf, FlattenItems, PrintableItems;
    if items == [] {
      assert Text(Array(items), None, depth) == EMPTY_ARRAY by {
        ArrayText(items, None, depth);
      }
      EmptyStream(rest);
      assert PrintableItems(items) == [];
    } else {
      var body := ElementsText(t.kids, depth + 1);
      ArrayAssoc([OPEN_BRACKET], body, [CLOSE_BRACKET], rest);
      PunctuationStream(OPEN_BRACKET, body + ([CLOSE_BRACKET] + rest));
      ElementStream(t.kids, items, depth + 1, [CLOSE_BRACKET] + rest);
      PunctuationStream(CLOSE_BRACKET, rest);
      JoinThree([BeginArray], FlattenItems(PrintableItems(items)), [EndArray], StreamOf(rest));
      ArrayFlat(PrintableItems(items));
    }
  }

  lemma EmptyStream(rest: bytes)
    ensures StreamOf(EMPTY_ARRAY + rest) == Join(Flatten(Array([])), StreamOf(rest))
    ensures StreamOf(EMPTY_OBJECT + rest) == Join(Flatten(Object([])), StreamOf(rest))
  {
    hide StreamOf, Flatten;
    assert EMPTY_ARRAY + rest == [OPEN_BRACKET] + ([CLOSE_BRACKET] + rest);
    assert EMPTY_OBJECT + rest == [OPEN_BRACE] + ([CLOSE_BRACE] + rest);
    PunctuationStream(OPEN_BRACKET, [CLOSE_BRACKET] + rest);
    PunctuationStream(CLOSE_BRACKET, rest);
    PunctuationStream(OPEN_BRACE, [CLOSE_BRACE] + rest);
    PunctuationStream(CLOSE_BRACE, rest);
    JoinJoin([BeginArray], [EndArray], StreamOf(rest));
    JoinJoin([BeginObject], [EndObject], StreamOf(rest));
    EmptyFlat();
  }

  lemma {:induction false} ElementStream(ts: seq<Tree>, items: seq<Value>, depth: nat, rest: bytes)
    requires ItemsOf(ts) == Some(items) && Stops(rest) && forall i :: 0 <= i < |ts| ==> RawFree(ts[i])
    ensures StreamOf(ElementsText(ts, depth) + rest) == Join(FlattenItems(PrintableItems(items)), StreamOf(rest))
    decreases ts, 0
  {
    hide StreamOf, TreeText, RawFree, ItemsOf, ValueOf, Gap, Flatten, Printable;
    ItemsHead(ts, items);
    if ts == [] {
      assert [] + rest == rest && [] + StreamOf(rest).tokens == StreamOf(rest).tokens;
    } else {
      hide FlattenItems, PrintableItems;
      var more := |ts| > 1;
      var first, tail := TreeText(ts[0], depth), ElementsText(ts[1..], depth);
      ArrayAssoc(first, Gap(LIST_GAP, more), tail, rest);
      assert !more ==> tail + rest == rest;
      GapStops(LIST_GAP, more, tail + rest);
      TreeStream(ts[0], items[0], depth, Gap(LIST_GAP, more) + (tail + rest));
      GapsStream(depth, more, tail + rest);
      ElementStream(ts[1..], items[1..], depth, rest);
      JoinThree(Flatten(Printable(items[0])), if more then [ValueSeparator] else [],
                FlattenItems(PrintableItems(items[1..])), StreamOf(rest));
      FlatItems(items);
    }
  }

  lemma FieldsStream(t: Tree, members: seq<Member>, depth: nat, rest: bytes)
    requires t.kind == M.ObjectKind && MembersOf(t.kids) == Some(members) && |t.kids| == |members|
    requires forall i :: 0 <= i < |t.kids| ==> RawFree(t.kids[i])
    ensures StreamOf(TreeText(t, depth) + rest) == Join(Flatten(Printable(Object(members))), StreamOf(rest))
    decreases t, 0
  {
    hide StreamOf, Text, FieldsText, RawFree, MembersOf, FlattenMembers, PrintableMembers, Tabs;
    if members == [] {
      EmptyStream(rest);
      assert PrintableMembers(members) == [];
    } else {
      var body := FieldsText(t.kids, depth + 1);
      var after := [NEWLINE] + (Tabs(depth) + ([CLOSE_BRACE] + rest));
      ObjectAssoc([OPEN_BRACE], [NEWLINE], body, [NEWLINE], Tabs(depth), [CLOSE_BRACE], rest);
      PunctuationStream(OPEN_BRACE, [NEWLINE] + (body + after));
      GapsStream(depth, false, body + after);
      FieldStream(t.kids, members, depth + 1, after);
      GapsStream(depth, false, Tabs(depth) + ([CLOSE_BRACE] + rest));
      GapsStream(depth, false, [CLOSE_BRACE] + rest);
      PunctuationStream(CLOSE_BRACE, rest);
      JoinThree([BeginObject], FlattenMembers(PrintableMembers(members)), [EndObject], StreamOf(rest));
      ObjectFlat(PrintableMembers(members));
    }
  }

  lemma {:induction false} FieldStream(ts: seq<Tree>, members: seq<Member>, depth: nat, rest: bytes)
    requires MembersOf(ts) == Some(members) && Stops(rest) && forall i :: 0 <= i < |ts| ==> RawFree(ts[i])
    ensures StreamOf(FieldsText(ts, depth) + rest) == Join(FlattenMembers(PrintableMembers(members)), StreamOf(rest))
    decreases ts, 0
  {
    hide StreamOf, TreeText, RawFree, MembersOf, ValueOf, Gap, Flatten, Printable, StringText, Tabs;
    MembersHead(ts, members);
    if ts == [] {
      assert [] + rest == rest && [] + StreamOf(rest).tokens == StreamOf(rest).tokens;
    } else {
      hide FlattenMembers, PrintableMembers;
      var more := |ts| > 1;
      var comma := if more then [ValueSeparator] else [];
      var key := StringText(members[0].key);
      var first, tail := TreeText(ts[0], depth), FieldsText(ts[1..], depth);
      var after := Gap(LINE_GAP, more) + (tail + rest);
      ObjectAssoc(Tabs(depth), key, KEY_GAP, first, Gap(LINE_GAP, more), tail, rest);
      assert !more ==> tail + rest == rest;
      GapStops(LINE_GAP, more, tail + rest);
      GapsStream(depth, more, key + (KEY_GAP + (first + after)));
      StringStream(members[0].key, KEY_GAP + (first + after));
      GapsStream(depth, more, first + after);
      TreeStream(ts[0], members[0].value, depth, after);
      GapsStream(depth, more, tail + rest);
      FieldStream(ts[1..], members[1..], depth, rest);
      var tokens := Flatten(Printable(members[0].value));
      var others := FlattenMembers(PrintableMembers(members[1..]));
      JoinThree(tokens, comma, others, StreamOf(rest));
      JoinThree([StringToken(members[0].key)], [NameSeparator], tokens + comma + others, StreamOf(rest));
      FlatMembers(members);
    }
  }

  // What cJSON_Print writes parses, within the nesting limit, to the value of
  // the tree with its non-finite numbers as null.
  lemma PrettyTreeParses(t: Tree, v: Value, limit: nat)
    requires RawFree(t) && ValueOf(t) == Some(v)
    ensures Parse(TreeText(t, 0), limit) == Success(Printable(v)) <==> Depth(v) <= limit
  {
    hide StreamOf, Flatten, Depth, Parse, TreeText, Printable, RawFree, ValueOf;
    TreeStream(t, v, 0, []);
    assert TreeText(t, 0) + [] == TreeText(t, 0);
    assert StreamOf([]) == Stream([], true) by {
      StreamEnd([]);
    }
    assert Flatten(Printable(v)) + [] == Flatten(Printable(v));
    ParsesExactly(TreeText(t, 0), Printable(v), limit);
    PrintableDepth(v);
  }
}
