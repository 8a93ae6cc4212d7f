// The serialiser (cjson-rs/src/serialiser.rs): the text of a value, and the
// writer that appends it to a buffer.
module Printing {
  import opened Bytes
  import opened Numbers
  import opened Values
  import opened Escapes
  import opened Spelling
  import opened Lexical
  import Utf8

  const EMPTY_ARRAY: bytes := [OPEN_BRACKET, CLOSE_BRACKET]
  const EMPTY_OBJECT: bytes := [OPEN_BRACE, CLOSE_BRACE]

  // ---- Strings ----

  function HexLower(d: nat): byte
    requires d < 16
  {
    if d < 10 then 0x30 + d else 0x61 + d - 10
  }

  // One character of a string: a short escape, "\u00xx" for the other control
  // characters, or the character itself.
  function CharText(c: char): (w: bytes)
    ensures w != []
  {
    var n := c as int;
    if c == '"' then [BACKSLASH, QUOTE]
    else if c == '\\' then [BACKSLASH, BACKSLASH]
    else if c == '\n' then [BACKSLASH, 0x6E]
    else if c == '\r' then [BACKSLASH, 0x72]
    else if c == '\t' then [BACKSLASH, 0x74]
    else if n == 8 then [BACKSLASH, 0x62]
    else if n == 12 then [BACKSLASH, 0x66]
    else if n < 0x20 then [BACKSLASH, LETTER_U, ZERO, ZERO, HexLower(n / 16), HexLower(n % 16)]
    else Utf8.Encode(c)
  }

  function CharsText(s: string): bytes {
    if s == "" then [] else CharText(s[0]) + CharsText(s[1..])
  }

  function StringText(s: string): bytes {
    [QUOTE] + (CharsText(s) + [QUOTE])
  }

  // What is written of a character is its shortest spelling, and there is only
  // one.
  lemma CharShortest(w: bytes, c: char)
    ensures ShortestChar(w, c) <==> w == CharText(c)
  {
    hide SpellsChar, CharText, LowerHex;
    CharSpelled(c);
    forall u: bytes | SpellsChar(u, c)
      ensures |CharText(c)| <= |u|
      ensures |u| == |CharText(c)| && LowerHex(u) ==> u == CharText(c)
    {
      CharLeast(u, c);
    }
  }

  lemma CharSpelled(c: char)
    ensures SpellsChar(CharText(c), c) && LowerHex(CharText(c))
  {
    hide Utf8.Encode;
    var n := c as int;
    EncodedLength(c);
    if n < 0x20 {
      var w := CharText(c);
      if |w| == 6 {
        assert w[2..] == [ZERO, ZERO, HexLower(n / 16), HexLower(n % 16)];
        HexDigits(n / 16);
        HexDigits(n % 16);
      }
    }
  }

  lemma HexDigits(d: nat)
    requires d < 16
    ensures HexDigit(HexLower(d)) == Some(d) && HexDigit(ZERO) == Some(0)
    ensures forall b: byte :: HexDigit(b) == Some(d) && !(0x41 <= b <= 0x46) ==> b == HexLower(d)
  {}

  lemma EncodedLength(c: char)
    ensures var w := Utf8.Encode(c);
            && 1 <= |w| <= 4 && (c as int < 0x80 ==> w == [c as int])
            && (|w| > 1 ==> w[1] >= 0x80) && (c as int >= 0x80 ==> w[0] >= 0x80 && |w| >= 2)
  {}

  lemma CharLeast(u: bytes, c: char)
    requires SpellsChar(u, c)
    ensures |CharText(c)| <= |u|
    ensures |u| == |CharText(c)| && LowerHex(u) ==> u == CharText(c)
  {
    hide Utf8.Encode, SpellsEscape;
    var n := c as int;
    EncodedLength(c);
    if |u| > 2 && u[0] == BACKSLASH && u[1] == LETTER_U && SpellsEscape(u[2..], c) {
      EscapeLeast(u, c);
    }
  }

  lemma EscapeLeast(u: bytes, c: char)
    requires |u| > 2 && u[0] == BACKSLASH && u[1] == LETTER_U && SpellsEscape(u[2..], c)
    ensures |u| >= 6
    ensures |u| == 6 && c as int < 0x20 && LowerHex(u) ==>
              u == [BACKSLASH, LETTER_U, ZERO, ZERO, HexLower(c as int / 16), HexLower(c as int % 16)]
  {
    hide Utf8.Encode, HexDigit, HexLower;
    var n := c as int;
    if |u| == 6 && n < 0x20 && LowerHex(u) {
      var a, b, d, e := u[2], u[3], u[4], u[5];
      assert u[2..][0] == a && u[2..][1] == b && u[2..][2] == d && u[2..][3] == e;
      HexDigits(0);
      HexDigits(n / 16);
      HexDigits(n % 16);
      assert QuadValue(u[2..]) == n;
      HexZero();
    }
  }

  lemma HexZero()
    ensures HexLower(0) == ZERO
  {}

  lemma {:induction false} CharsShortest(w: bytes, s: string)
    ensures ShortestChars(w, s) <==> w == CharsText(s)
    decreases |s|
  {
    hide CharText, ShortestChar;
    if s != "" {
      forall k: nat | 1 <= k <= |w|
        ensures ShortestChar(w[..k], s[0]) && ShortestChars(w[k..], s[1..])
                <==> w[..k] == CharText(s[0]) && w[k..] == CharsText(s[1..])
      {
        CharShortest(w[..k], s[0]);
        CharsShortest(w[k..], s[1..]);
      }
      var n := |CharText(s[0])|;
      if ShortestChars(w, s) {
        var k: nat :| 1 <= k <= |w| && ShortestChar(w[..k], s[0]) && ShortestChars(w[k..], s[1..]);
        assert w == w[..k] + w[k..];
      }
      DropAppend(CharText(s[0]), CharsText(s[1..]));
      assert w == CharsText(s) ==> 1 <= n <= |w|;
    }
  }

  // So is what is written of a string.
  lemma StringShortest(w: bytes, s: string)
    ensures ShortestString(w, s) <==> w == StringText(s)
  {
    hide CharsText, ShortestChars;
    if |w| >= 2 {
      CharsShortest(w[1..|w| - 1], s);
      assert w == [w[0]] + (w[1..|w| - 1] + [w[|w| - 1]]);
    }
    var text := StringText(s);
    assert text[1..|text| - 1] == CharsText(s);
  }

  ghost predicate AddsShortest(before: bytes, after: bytes, s: string) {
    before <= after && ShortestString(after[|before|..], s)
  }

  lemma {:induction false} CharsLeast(w: bytes, s: string)
    requires SpellsChars(w, s)
    ensures |CharsText(s)| <= |w|
    decreases |s|
  {
    hide CharText, SpellsChar;
    if s != "" {
      var k: nat :| 1 <= k <= |w| && SpellsChar(w[..k], s[0]) && SpellsChars(w[k..], s[1..]);
      CharLeast(w[..k], s[0]);
      CharsLeast(w[k..], s[1..]);
    }
  }

  // No spelling of the string is shorter.
  lemma StringLeast(w: bytes, s: string)
    requires SpellsString(w, s)
    ensures |StringText(s)| <= |w|
  {
    CharsLeast(w[1..|w| - 1], s);
  }

  // ---- Values ----

  function NumberText(n: Num): bytes {
    if n.Finite? then Display(n).Text() else TEXT_NULL
  }

  function Spaces(k: nat): (w: bytes)
    ensures |w| == k && forall i :: 0 <= i < k ==> w[i] == SPACE
  {
    seq(k, i => SPACE)
  }

  // The layout: nothing in compact text, newlines and spaces in pretty text.
  function Break(indent: Option<nat>): bytes {
    if indent.None? then [] else [NEWLINE]
  }

  function Lead(indent: Option<nat>, depth: nat): bytes {
    if indent.None? then [] else Spaces(indent.value * depth)
  }

  function Separator(indent: Option<nat>): bytes {
    if indent.None? then [COLON] else [COLON, SPACE]
  }

  function Comma(more: bool): bytes {
    if more then [COMMA] else []
  }

  function Text(v: Value, indent: Option<nat>, depth: nat): bytes
    decreases v, 1
  {
    match v
    case Null => TEXT_NULL
    case Bool(b) => if b then TEXT_TRUE else TEXT_FALSE
    case Number(n) => NumberText(n)
    case String(s) => StringText(s)
    case Array(items) =>
      if items == [] then EMPTY_ARRAY
      else [OPEN_BRACKET] + (Break(indent) + (ItemsText(items, indent, depth + 1)
                                              + (Lead(indent, depth) + [CLOSE_BRACKET])))
    case Object(members) =>
      if members == [] then EMPTY_OBJECT
      else [OPEN_BRACE] + (Break(indent) + (MembersText(members, indent, depth + 1)
                                            + (Lead(indent, depth) + [CLOSE_BRACE])))
  }

  function ItemsText(items: seq<Value>, indent: Option<nat>, depth: nat): bytes
    decreases items, 0
  {
    if items == [] then []
    else
      Lead(indent, depth)
      + (Text(items[0], indent, depth)
         + (Comma(|items| > 1) + (Break(indent) + ItemsText(items[1..], indent, depth))))
  }

  function MembersText(members: seq<Member>, indent: Option<nat>, depth: nat): bytes
    decreases members, 0
  {
    if members == [] then []
    else
      Lead(indent, depth)
      + (StringText(members[0].key)
         + (Separator(indent)
            + (Text(members[0].value, indent, depth)
               + (Comma(|members| > 1) + (Break(indent) + MembersText(members[1..], indent, depth))))))
  }

  const PRETTY_STEP: nat := 2

  function Compact(v: Value): bytes { Text(v, None, 0) }
  function Pretty(v: Value): bytes { Text(v, Some(PRETTY_STEP), 0) }

  // ---- The writer ----

  class Writer {
    var out: bytes

    constructor ()
      ensures out == []
    {
      out := [];
    }

    method Push(b: byte)
      modifies this
      ensures out == old(out) + [b]
    {
      out := out + [b];
    }

    method PushStr(text: bytes)
      modifies this
      ensures out == old(out) + text
    {
      out := out + text;
    }

    method WriteIndent(step: nat, depth: nat)
      modifies this
      ensures out == old(out) + Spaces(step * depth)
    {
      for i := 0 to step * depth
        invariant out == old(out) + Spaces(i)
      {
        Push(SPACE);
        assert Spaces(i) + [SPACE] == Spaces(i + 1);
      }
    }

    method WriteString(s: string)
      modifies this
      ensures out == old(out) + StringText(s)
      ensures AddsShortest(old(out), out, s)
    {
      hide CharText, ShortestString;
      StringShortest(StringText(s), s);
      DropAppend(out, StringText(s));
      Push(QUOTE);
      for i := 0 to |s|
        invariant out + CharsText(s[i..]) == old(out) + ([QUOTE] + CharsText(s))
      {
        ghost var before := out;
        WriteChar(s[i]);
        assert before + CharsText(s[i..]) == out + CharsText(s[i + 1..]);
      }
      assert out + CharsText(s[|s|..]) == out;
      Push(QUOTE);
      Assoc([QUOTE], CharsText(s), [QUOTE]);
    }

    // One arm of the match on a character.
    method WriteChar(c: char)
      modifies this
      ensures out == old(out) + CharText(c)
    {
      match c {
        case '"' => PushStr([BACKSLASH, QUOTE]);
        case '\\' => PushStr([BACKSLASH, BACKSLASH]);
        case '\n' => PushStr([BACKSLASH, 0x6E]);
        case '\r' => PushStr([BACKSLASH, 0x72]);
        case '\t' => PushStr([BACKSLASH, 0x74]);
        case _ =>
          var n := c as int;
          if n == 8 {
            PushStr([BACKSLASH, 0x62]);
          } else if n == 12 {
            PushStr([BACKSLASH, 0x66]);
          } else if n < 0x20 {
            PushStr([BACKSLASH, LETTER_U, ZERO, ZERO, HexLower(n / 16), HexLower(n % 16)]);
          } else {
            PushStr(Utf8.Encode(c));
          }
      }
    }

    method WriteNumber(n: Num)
      modifies this
      ensures out == old(out) + NumberText(n)
    {
      if n.Finite? {
        PushStr(Display(n).Text());
      } else {
        PushStr(TEXT_NULL);
      }
    }

    method WriteValue(v: Value, indent: Option<nat>, depth: nat)
      modifies this
      ensures out == old(out) + Text(v, indent, depth)
      decreases v, 1
    {
      hide NumberText, StringText, ItemsText, MembersText, AddsShortest;
      match v
      case Null => PushStr(TEXT_NULL);
      case Bool(b) => PushStr(if b then TEXT_TRUE else TEXT_FALSE);
      case Number(n) => WriteNumber(n);
      case String(s) => WriteString(s);
      case Array(items) => WriteArray(items, indent, depth);
      case Object(members) => WriteObject(members, indent, depth);
    }

    method WriteArray(items: seq<Value>, indent: Option<nat>, depth: nat)
      modifies this
      ensures out == old(out) + Text(Array(items), indent, depth)
      decreases items, 2
    {
      hide Text, Spaces, ItemsText;
      ArrayText(items, indent, depth);
      if items == [] {
        PushStr(EMPTY_ARRAY);
        return;
      }
      Push(OPEN_BRACKET);
      match indent {
        case Some(step) =>
          Push(NEWLINE);
          WritePrettyItems(items, step, depth);
          WriteIndent(step, depth);
        case None =>
          WriteCompactItems(items, depth);
      }
      Push(CLOSE_BRACKET);
      Assoc5(old(out), [OPEN_BRACKET], Break(indent), ItemsText(items, indent, depth + 1),
             Lead(indent, depth), [CLOSE_BRACKET]);
    }

    method WritePrettyItems(items: seq<Value>, step: nat, depth: nat)
      modifies this
      ensures out == old(out) + ItemsText(items, Some(step), depth + 1)
      decreases items, 1
    {
      hide Text, Spaces;
      var indent := Some(step);
      for i := 0 to |items|
        invariant out + ItemsText(items[i..], indent, depth + 1) == old(out) + ItemsText(items, indent, depth + 1)
      {
        ghost var before := out;
        WriteIndent(step, depth + 1);
        WriteValue(items[i], indent, depth + 1);
        if i + 1 < |items| {
          Push(COMMA);
        }
        Push(NEWLINE);
        ItemsOn(items, i, indent, depth + 1, before);
      }
    }

    method WriteCompactItems(items: seq<Value>, depth: nat)
      modifies this
      ensures out == old(out) + ItemsText(items, None, depth + 1)
      decreases items, 1
    {
      hide Text, ItemsLeft, ItemsText;
      ItemsBounds(items, depth + 1);
      for i := 0 to |items|
        invariant out + ItemsLeft(items, i, depth + 1) == old(out) + ItemsText(items, None, depth + 1)
      {
        ItemsLeftOn(items, i, depth + 1, out);
        if i > 0 {
          Push(COMMA);
        }
        WriteValue(items[i], None, depth + 1);
      }
    }

    method WriteObject(members: seq<Member>, indent: Option<nat>, depth: nat)
      modifies this
      ensures out == old(out) + Text(Object(members), indent, depth)
      decreases members, 2
    {
      hide Text, Spaces, MembersText;
      ObjectText(members, indent, depth);
      if members == [] {
        PushStr(EMPTY_OBJECT);
        return;
      }
      Push(OPEN_BRACE);
      match indent {
        case Some(step) =>
          Push(NEWLINE);
          WritePrettyMembers(members, step, depth);
          WriteIndent(step, depth);
        case None =>
          WriteCompactMembers(members, depth);
      }
      Push(CLOSE_BRACE);
      Assoc5(old(out), [OPEN_BRACE], Break(indent), MembersText(members, indent, depth + 1),
             Lead(indent, depth), [CLOSE_BRACE]);
    }

    method WritePrettyMembers(members: seq<Member>, step: nat, depth: nat)
      modifies this
      ensures out == old(out) + MembersText(members, Some(step), depth + 1)
      decreases members, 1
    {
      hide Text, Spaces, StringText, AddsShortest;
      var indent := Some(step);
      for i := 0 to |members|
        invariant out + MembersText(members[i..], indent, depth + 1)
                  == old(out) + MembersText(members, indent, depth + 1)
      {
        ghost var before := out;
        WriteIndent(step, depth + 1);
        WriteString(members[i].key);
        PushStr([COLON, SPACE]);
        WriteValue(members[i].value, indent, depth + 1);
        if i + 1 < |members| {
          Push(COMMA);
        }
        Push(NEWLINE);
        MembersOn(members, i, indent, depth + 1, before);
      }
    }

    method WriteCompactMembers(members: seq<Member>, depth: nat)
      modifies this
      ensures out == old(out) + MembersText(members, None, depth + 1)
      decreases members, 1
    {
      hide Text, StringText, MembersLeft, MembersText, AddsShortest;
      MembersBounds(members, depth + 1);
      for i := 0 to |members|
        invariant out + MembersLeft(members, i, depth + 1) == old(out) + MembersText(members, None, depth + 1)
      {
        MembersLeftOn(members, i, depth + 1, out);
        if i > 0 {
          Push(COMMA);
        }
        WriteString(members[i].key);
        Push(COLON);
        WriteValue(members[i].value, None, depth + 1);
      }
    }
  }

  // What a compact array still needs before its item i: the comma belongs to
  // the item that follows it.
  function ItemsLeft(items: seq<Value>, i: nat, depth: nat): bytes
    requires i <= |items|
  {
    Comma(0 < i < |items|) + ItemsText(items[i..], None, depth)
  }

  function MembersLeft(members: seq<Member>, i: nat, depth: nat): bytes
    requires i <= |members|
  {
    Comma(0 < i < |members|) + MembersText(members[i..], None, depth)
  }

  lemma ItemsBounds(items: seq<Value>, depth: nat)
    ensures ItemsLeft(items, 0, depth) == ItemsText(items, None, depth)
    ensures ItemsLeft(items, |items|, depth) == []
  {
    assert items[0..] == items;
  }

  lemma MembersBounds(members: seq<Member>, depth: nat)
    ensures MembersLeft(members, 0, depth) == MembersText(members, None, depth)
    ensures MembersLeft(members, |members|, depth) == []
  {
    assert members[0..] == members;
  }

  lemma ItemsLeftOn(items: seq<Value>, i: nat, depth: nat, before: bytes)
    requires i < |items|
    ensures before + ItemsLeft(items, i, depth)
            == before + Comma(0 < i) + Text(items[i], None, depth) + ItemsLeft(items, i + 1, depth)
  {
    hide Text, ItemsText, Comma;
    ItemsOn(items, i, None, depth, before + Comma(0 < i));
    assert before + Comma(0 < i) + [] + Text(items[i], None, depth) + Comma(i + 1 < |items|) + []
           == before + Comma(0 < i) + Text(items[i], None, depth) + Comma(i + 1 < |items|);
    Assoc(before, Comma(0 < i), ItemsText(items[i..], None, depth));
    Assoc(before + Comma(0 < i) + Text(items[i], None, depth), Comma(i + 1 < |items|),
          ItemsText(items[i + 1..], None, depth));
  }

  lemma MembersLeftOn(members: seq<Member>, i: nat, depth: nat, before: bytes)
    requires i < |members|
    ensures before + MembersLeft(members, i, depth)
            == before + Comma(0 < i) + StringText(members[i].key) + [COLON] + Text(members[i].value, None, depth)
               + MembersLeft(members, i + 1, depth)
  {
    hide Text, MembersText, Comma, StringText;
    MembersOn(members, i, None, depth, before + Comma(0 < i));
    var head := before + Comma(0 < i) + StringText(members[i].key) + [COLON] + Text(members[i].value, None, depth);
    assert before + Comma(0 < i) + [] + StringText(members[i].key) + [COLON] + Text(members[i].value, None, depth)
           + Comma(i + 1 < |members|) + [] == head + Comma(i + 1 < |members|);
    Assoc(before, Comma(0 < i), MembersText(members[i..], None, depth));
    Assoc(head, Comma(i + 1 < |members|), MembersText(members[i + 1..], None, depth));
  }

  lemma Assoc5(o: bytes, a: bytes, b: bytes, c: bytes, d: bytes, e: bytes)
    ensures o + a + b + c + d + e == o + (a + (b + (c + (d + e))))
  {}

  lemma ArrayText(items: seq<Value>, indent: Option<nat>, depth: nat)
    ensures Text(Array(items), indent, depth)
            == if items == [] then EMPTY_ARRAY
               else [OPEN_BRACKET] + (Break(indent) + (ItemsText(items, indent, depth + 1)
                                                       + (Lead(indent, depth) + [CLOSE_BRACKET])))
  {}

  lemma ObjectText(members: seq<Member>, indent: Option<nat>, depth: nat)
    ensures Text(Object(members), indent, depth)
            == if members == [] then EMPTY_OBJECT
               else [OPEN_BRACE] + (Break(indent) + (MembersText(members, indent, depth + 1)
                                                     + (Lead(indent, depth) + [CLOSE_BRACE])))
  {}

  // Text before item i, the item, and the rest.
  lemma ItemsOn(items: seq<Value>, i: nat, indent: Option<nat>, depth: nat, before: bytes)
    requires i < |items|
    ensures before + ItemsText(items[i..], indent, depth)
            == before + Lead(indent, depth) + Text(items[i], indent, depth) + Comma(i + 1 < |items|) + Break(indent)
               + ItemsText(items[i + 1..], indent, depth)
  {
    hide Text, Lead, Break, Comma;
    assert items[i..][1..] == items[i + 1..];
  }

  lemma MembersOn(members: seq<Member>, i: nat, indent: Option<nat>, depth: nat, before: bytes)
    requires i < |members|
    ensures before + MembersText(members[i..], indent, depth)
            == before + Lead(indent, depth) + StringText(members[i].key) + Separator(indent)
               + Text(members[i].value, indent, depth) + Comma(i + 1 < |members|) + Break(indent)
               + MembersText(members[i + 1..], indent, depth)
  {
    hide Text, Lead, Break, Comma, Separator, StringText;
    assert members[i..][1..] == members[i + 1..];
  }

  method Serialise(value: Value) returns (text: bytes)
    ensures text == Compact(value)
  {
    var w := new Writer();
    w.WriteValue(value, None, 0);
    text := w.out;
  }

  method SerialisePretty(value: Value) returns (text: bytes)
    ensures text == Pretty(value)
  {
    var w := new Writer();
    w.WriteValue(value, Some(PRETTY_STEP), 0);
    text := w.out;
  }
}
