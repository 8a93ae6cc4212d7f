// What the parser finds at a token cursor (cjson-rs/src/parser.rs), as
// functions, and the grammar of sections 3 to 5 of RFC 8259 they recognise.
module Grammar {
  import opened Errors
  import opened Values

  // A value and the cursor after it, or an error.
  datatype Found<+T> = Found(value: T, next: nat) | Fail(error: Error)

  type Tokens = seq<PositionedToken>

  function Bare(ts: Tokens): (r: seq<Token>)
    ensures |r| == |ts|
    ensures forall i :: 0 <= i < |ts| ==> r[i] == ts[i].token
  {
    seq(|ts|, i requires 0 <= i < |ts| => ts[i].token)
  }

  // The position an error at cursor i is reported at.
  function PeekPos(ts: Tokens, i: nat): Position {
    if i < |ts| then ts[i].pos else if ts != [] then ts[|ts| - 1].pos else START
  }

  predicate At(ts: Tokens, i: nat, token: Token) {
    i < |ts| && ts[i].token == token
  }

  // The error when cursor i holds a token that does not fit, or none.
  function Misfit(ts: Tokens, i: nat): Error {
    Error(if i < |ts| then UnexpectedToken else UnexpectedEof, PeekPos(ts, i))
  }

  // depth containers are open around cursor i; at most limit may be.
  function ParseValue(ts: Tokens, i: nat, depth: nat, limit: nat): (r: Found<Value>)
    requires i <= |ts|
    ensures r.Found? ==> i < r.next <= |ts|
    decreases |ts| - i, 1
  {
    if i == |ts| then Fail(Error(UnexpectedEof, PeekPos(ts, i)))
    else match ts[i].token
      case NullToken => Found(Null, i + 1)
      case TrueToken => Found(Bool(true), i + 1)
      case FalseToken => Found(Bool(false), i + 1)
      case NumberToken(n) => Found(Number(n), i + 1)
      case StringToken(s) => Found(String(s), i + 1)
      case BeginArray =>
        if depth >= limit then Fail(Error(NestingLimitExceeded, ts[i].pos))
        else if At(ts, i + 1, EndArray) then Found(Array([]), i + 2)
        else ParseItems(ts, i + 1, depth + 1, limit, [])
      case BeginObject =>
        if depth >= limit then Fail(Error(NestingLimitExceeded, ts[i].pos))
        else if At(ts, i + 1, EndObject) then Found(Object([]), i + 2)
        else ParseMembers(ts, i + 1, depth + 1, limit, [])
      case _ => Fail(Error(UnexpectedToken, PeekPos(ts, i)))
  }

  // The items of an array from cursor i on, after those already in items.
  function ParseItems(ts: Tokens, i: nat, depth: nat, limit: nat, items: seq<Value>): (r: Found<Value>)
    requires i <= |ts|
    ensures r.Found? ==> i < r.next <= |ts|
    decreases |ts| - i, 2
  {
    match ParseValue(ts, i, depth, limit)
    case Fail(error) => Fail(error)
    case Found(v, j) =>
      if At(ts, j, ValueSeparator) then
        if At(ts, j + 1, EndArray) then Fail(Error(UnexpectedToken, PeekPos(ts, j)))
        else ParseItems(ts, j + 1, depth, limit, items + [v])
      else if At(ts, j, EndArray) then Found(Array(items + [v]), j + 1)
      else Fail(Misfit(ts, j))
  }

  // The members of an object from cursor i on.
  function ParseMembers(ts: Tokens, i: nat, depth: nat, limit: nat, members: seq<Member>): (r: Found<Value>)
    requires i <= |ts|
    ensures r.Found? ==> i < r.next <= |ts|
    decreases |ts| - i, 2
  {
    if !(i < |ts| && ts[i].token.StringToken?) then Fail(Misfit(ts, i))
    else if !At(ts, i + 1, NameSeparator) then Fail(Misfit(ts, i + 1))
    else match ParseValue(ts, i + 2, depth, limit)
      case Fail(error) => Fail(error)
      case Found(v, j) =>
        var more := members + [Member(ts[i].token.s, v)];
        if At(ts, j, ValueSeparator) then
          if At(ts, j + 1, EndObject) then Fail(Error(UnexpectedToken, PeekPos(ts, j)))
          else ParseMembers(ts, j + 1, depth, limit, more)
        else if At(ts, j, EndObject) then Found(Object(more), j + 1)
        else Fail(Misfit(ts, j))
  }

  // ---- Exact recognition ----

  // The tokens from cursor i up to j are those of v, and v fits the limit.
  ghost predicate Spells(ts: Tokens, i: nat, j: nat, v: Value, depth: nat, limit: nat) {
    i <= j <= |ts| && Bare(ts)[i..j] == Flatten(v) && depth + Depth(v) <= limit
  }

  ghost predicate SpellsItems(ts: Tokens, i: nat, j: nat, vs: seq<Value>, depth: nat, limit: nat) {
    && vs != [] && i <= j <= |ts|
    && Bare(ts)[i..j] == FlattenItems(vs) + [EndArray]
    && depth + ItemsDepth(vs) <= limit
  }

  ghost predicate SpellsMembers(ts: Tokens, i: nat, j: nat, ms: seq<Member>, depth: nat, limit: nat) {
    && ms != [] && i <= j <= |ts|
    && Bare(ts)[i..j] == FlattenMembers(ms) + [EndObject]
    && depth + MembersDepth(ms) <= limit
  }

  // A stretch of tokens that is the concatenation of two.
  lemma Cut(t: seq<Token>, i: nat, j: nat, a: seq<Token>, b: seq<Token>)
    requires i <= j <= |t| && t[i..j] == a + b
    ensures i + |a| <= j && t[i..i + |a|] == a && t[i + |a|..j] == b
  {
    assert t[i..i + |a|] == t[i..j][..|a|];
    assert t[i + |a|..j] == t[i..j][|a|..];
  }

  lemma Paste(t: seq<Token>, i: nat, k: nat, j: nat)
    requires i <= k <= j <= |t|
    ensures t[i..j] == t[i..k] + t[k..j]
  {}

  lemma FlattenItemsOn(vs: seq<Value>)
    requires vs != []
    ensures FlattenItems(vs) + [EndArray]
            == Flatten(vs[0])
               + (if |vs| == 1 then [EndArray] else [ValueSeparator] + (FlattenItems(vs[1..]) + [EndArray]))
  {
    hide Flatten;
    if |vs| > 1 {
      Assoc4(Flatten(vs[0]), [ValueSeparator], FlattenItems(vs[1..]), [EndArray]);
    } else {
      assert Flatten(vs[0]) + [] == Flatten(vs[0]);
    }
  }

  lemma Assoc4(a: seq<Token>, b: seq<Token>, c: seq<Token>, d: seq<Token>)
    ensures a + (b + c) + d == a + (b + (c + d))
  {}

  // Elements do not start with the closing bracket.
  lemma ItemsFirst(vs: seq<Value>)
    requires vs != []
    ensures (FlattenItems(vs) + [EndArray])[0] != EndArray
  {
    hide Flatten;
  }

  lemma MembersFirst(ms: seq<Member>)
    requires ms != []
    ensures (FlattenMembers(ms) + [EndObject])[0] != EndObject
  {
    hide Flatten;
  }

  lemma FlattenMembersOn(ms: seq<Member>)
    requires ms != []
    ensures FlattenMembers(ms) + [EndObject]
            == [StringToken(ms[0].key), NameSeparator]
               + (Flatten(ms[0].value)
                  + (if |ms| == 1 then [EndObject] else [ValueSeparator] + (FlattenMembers(ms[1..]) + [EndObject])))
  {
    hide Flatten;
    var head, first := [StringToken(ms[0].key), NameSeparator], Flatten(ms[0].value);
    if |ms| == 1 {
      assert head + first + [] + [EndObject] == head + (first + [EndObject]);
    } else {
      Assoc5(head, first, [ValueSeparator], FlattenMembers(ms[1..]), [EndObject]);
    }
  }

  lemma Assoc5(a: seq<Token>, b: seq<Token>, c: seq<Token>, d: seq<Token>, e: seq<Token>)
    ensures a + b + (c + d) + e == a + (b + (c + (d + e)))
  {}

  // Where the first member of an object lies, and the rest.
  lemma MembersCut(t: seq<Token>, i: nat, j: nat, ms: seq<Member>) returns (k: nat)
    requires ms != [] && i <= j <= |t| && t[i..j] == FlattenMembers(ms) + [EndObject]
    ensures i + 2 <= k < j && t[i] == StringToken(ms[0].key) && t[i + 1] == NameSeparator
    ensures t[i + 2..k] == Flatten(ms[0].value)
    ensures |ms| == 1 ==> t[k] == EndObject && k + 1 == j
    ensures |ms| > 1 ==>
      k + 1 < j && t[k] == ValueSeparator && t[k + 1] != EndObject
      && t[k + 1..j] == FlattenMembers(ms[1..]) + [EndObject]
  {
    hide FlattenMembers, Flatten;
    FlattenMembersOn(ms);
    var head, first := [StringToken(ms[0].key), NameSeparator], Flatten(ms[0].value);
    var rest := if |ms| == 1 then [EndObject] else [ValueSeparator] + (FlattenMembers(ms[1..]) + [EndObject]);
    k := i + 2 + |first|;
    Cut(t, i, j, head, first + rest);
    Cut(t, i + 2, j, first, rest);
    assert t[i] == t[i..i + 2][0] && t[i + 1] == t[i..i + 2][1];
    assert t[k] == t[k..j][0];
    if |ms| > 1 {
      Cut(t, k, j, [ValueSeparator], FlattenMembers(ms[1..]) + [EndObject]);
      FlattenMembersOn(ms[1..]);
      assert t[k + 1] == t[k + 1..j][0];
    }
  }

  // And the same pieces put together.
  lemma MembersPaste(t: seq<Token>, i: nat, k: nat, j: nat, m: Member, rest: seq<Member>)
    requires i + 2 <= k < j <= |t| && t[i] == StringToken(m.key) && t[i + 1] == NameSeparator
    requires t[i + 2..k] == Flatten(m.value)
    requires if rest == [] then t[k] == EndObject && j == k + 1
             else t[k] == ValueSeparator && t[k + 1..j] == FlattenMembers(rest) + [EndObject]
    ensures t[i..j] == FlattenMembers([m] + rest) + [EndObject]
  {
    hide FlattenMembers, Flatten;
    var ms := [m] + rest;
    assert ms[1..] == rest;
    FlattenMembersOn(ms);
    Paste(t, i, i + 2, j);
    Paste(t, i + 2, k, j);
    assert t[i..i + 2] == [StringToken(m.key), NameSeparator];
    assert t[k..j] == [t[k]] + t[k + 1..j];
  }

  lemma ItemsCut(t: seq<Token>, i: nat, j: nat, vs: seq<Value>) returns (k: nat)
    requires vs != [] && i <= j <= |t| && t[i..j] == FlattenItems(vs) + [EndArray]
    ensures i <= k < j && t[i..k] == Flatten(vs[0])
    ensures |vs| == 1 ==> t[k] == EndArray && k + 1 == j
    ensures |vs| > 1 ==>
      k + 1 < j && t[k] == ValueSeparator && t[k + 1] != EndArray
      && t[k + 1..j] == FlattenItems(vs[1..]) + [EndArray]
  {
    hide FlattenItems, Flatten;
    FlattenItemsOn(vs);
    var first := Flatten(vs[0]);
    k := i + |first|;
    if |vs| == 1 {
      Cut(t, i, j, first, [EndArray]);
      assert t[k] == t[k..j][0];
    } else {
      var more := FlattenItems(vs[1..]) + [EndArray];
      Cut(t, i, j, first, [ValueSeparator] + more);
      assert t[k] == t[k..j][0];
      Cut(t, k, j, [ValueSeparator], more);
      ItemsFirst(vs[1..]);
      assert t[k + 1] == t[k + 1..j][0];
    }
  }

  lemma ItemsPaste(t: seq<Token>, i: nat, k: nat, j: nat, v: Value, rest: seq<Value>)
    requires i <= k < j <= |t| && t[i..k] == Flatten(v)
    requires if rest == [] then t[k] == EndArray && j == k + 1
             else t[k] == ValueSeparator && t[k + 1..j] == FlattenItems(rest) + [EndArray]
    ensures t[i..j] == FlattenItems([v] + rest) + [EndArray]
  {
    hide FlattenItems, Flatten;
    var vs := [v] + rest;
    assert vs[1..] == rest;
    FlattenItemsOn(vs);
    Paste(t, i, k, j);
    assert t[k..j] == [t[k]] + t[k + 1..j];
  }

  // Every flattened value that fits the limit is recognised.
  lemma {:induction false} ValueComplete(ts: Tokens, i: nat, j: nat, v: Value, depth: nat, limit: nat)
    requires depth <= limit && Spells(ts, i, j, v, depth, limit)
    ensures ParseValue(ts, i, depth, limit) == Found(v, j)
    decreases v, 1
  {
    hide ParseItems, ParseMembers, Bare, FlattenItems, FlattenMembers, ItemsDepth, MembersDepth;
    NothingInside();
    var t := Bare(ts);
    assert t[i] == t[i..j][0];
    match v
    case Array(items) =>
      if items == [] {
        assert t[i + 1] == t[i..j][1];
      } else {
        assert Flatten(v) == [BeginArray] + (FlattenItems(items) + [EndArray]);
        Cut(t, i, j, [BeginArray], FlattenItems(items) + [EndArray]);
        ItemsFirst(items);
        assert t[i + 1] == t[i + 1..j][0];
        ItemsComplete(ts, i + 1, j, items, depth + 1, limit, []);
        assert [] + items == items;
      }
    case Object(members) =>
      if members == [] {
        assert t[i + 1] == t[i..j][1];
      } else {
        assert Flatten(v) == [BeginObject] + (FlattenMembers(members) + [EndObject]);
        Cut(t, i, j, [BeginObject], FlattenMembers(members) + [EndObject]);
        MembersFirst(members);
        assert t[i + 1] == t[i + 1..j][0];
        MembersComplete(ts, i + 1, j, members, depth + 1, limit, []);
        assert [] + members == members;
      }
    case _ =>
  }

  lemma {:induction false} ItemsComplete(
      ts: Tokens, i: nat, j: nat, vs: seq<Value>, depth: nat, limit: nat, items: seq<Value>)
    requires depth <= limit && SpellsItems(ts, i, j, vs, depth, limit)
    ensures ParseItems(ts, i, depth, limit, items) == Found(Array(items + vs), j)
    decreases vs, 0
  {
    hide FlattenItems, Flatten, ParseValue, Bare, Depth;
    var k := ItemsCut(Bare(ts), i, j, vs);
    ValueComplete(ts, i, k, vs[0], depth, limit);
    if |vs| == 1 {
      assert vs == [vs[0]];
    } else {
      ItemsComplete(ts, k + 1, j, vs[1..], depth, limit, items + [vs[0]]);
      assert items + [vs[0]] + vs[1..] == items + vs;
    }
  }

  lemma {:induction false} MembersComplete(
      ts: Tokens, i: nat, j: nat, ms: seq<Member>, depth: nat, limit: nat, members: seq<Member>)
    requires depth <= limit && SpellsMembers(ts, i, j, ms, depth, limit)
    ensures ParseMembers(ts, i, depth, limit, members) == Found(Object(members + ms), j)
    decreases ms, 0
  {
    hide FlattenMembers, Flatten, ParseValue, Bare, Depth;
    var k := MembersCut(Bare(ts), i, j, ms);
    ValueComplete(ts, i + 2, k, ms[0].value, depth, limit);
    if |ms| == 1 {
      assert ms == [ms[0]];
    } else {
      MembersComplete(ts, k + 1, j, ms[1..], depth, limit, members + [ms[0]]);
      assert members + [ms[0]] + ms[1..] == members + ms;
    }
  }

  // Only flattened values that fit the limit are recognised.
  lemma {:induction false} ValueSound(ts: Tokens, i: nat, depth: nat, limit: nat)
    requires i <= |ts| && depth <= limit && ParseValue(ts, i, depth, limit).Found?
    ensures var r := ParseValue(ts, i, depth, limit); Spells(ts, i, r.next, r.value, depth, limit)
    decreases |ts| - i, 1
  {
    hide ParseItems, ParseMembers, FlattenItems, FlattenMembers, ItemsDepth, MembersDepth;
    NothingInside();
    var t := Bare(ts);
    var j := ParseValue(ts, i, depth, limit).next;
    Paste(t, i, i + 1, j);
    assert t[i..i + 1] == [t[i]];
    match t[i]
    case BeginArray =>
      if At(ts, i + 1, EndArray) {
        assert t[i + 1..j] == [EndArray];
      } else {
        var vs := ItemsSound(ts, i + 1, depth + 1, limit, []);
        assert [] + vs == vs;
        assert [BeginArray] + (FlattenItems(vs) + [EndArray]) == Flatten(Array(vs));
      }
    case BeginObject =>
      if At(ts, i + 1, EndObject) {
        assert t[i + 1..j] == [EndObject];
      } else {
        var ms := MembersSound(ts, i + 1, depth + 1, limit, []);
        assert [] + ms == ms;
        assert [BeginObject] + (FlattenMembers(ms) + [EndObject]) == Flatten(Object(ms));
      }
    case _ =>
  }

  lemma NothingInside()
    ensures FlattenItems([]) == [] && FlattenMembers([]) == [] && ItemsDepth([]) == 0 && MembersDepth([]) == 0
  {}

  lemma {:induction false} ItemsSound(ts: Tokens, i: nat, depth: nat, limit: nat, items: seq<Value>)
    returns (vs: seq<Value>)
    requires i <= |ts| && depth <= limit && ParseItems(ts, i, depth, limit, items).Found?
    ensures var r := ParseItems(ts, i, depth, limit, items);
            r.value == Array(items + vs) && SpellsItems(ts, i, r.next, vs, depth, limit)
    decreases |ts| - i, 2
  {
    hide FlattenItems, Flatten, ParseValue, Bare, Depth;
    var first := ParseValue(ts, i, depth, limit);
    var v, k := first.value, first.next;
    var j := ParseItems(ts, i, depth, limit, items).next;
    ValueSound(ts, i, depth, limit);
    var rest := [];
    if At(ts, k, ValueSeparator) {
      rest := ItemsSound(ts, k + 1, depth, limit, items + [v]);
    }
    vs := [v] + rest;
    assert vs[1..] == rest;
    assert items + [v] + rest == items + vs;
    ItemsPaste(Bare(ts), i, k, j, v, rest);
    assert ItemsDepth(vs) == Max(Depth(v), ItemsDepth(rest));
  }

  lemma {:induction false} MembersSound(ts: Tokens, i: nat, depth: nat, limit: nat, members: seq<Member>)
    returns (ms: seq<Member>)
    requires i <= |ts| && depth <= limit && ParseMembers(ts, i, depth, limit, members).Found?
    ensures var r := ParseMembers(ts, i, depth, limit, members);
            r.value == Object(members + ms) && SpellsMembers(ts, i, r.next, ms, depth, limit)
    decreases |ts| - i, 2
  {
    hide FlattenMembers, Flatten, ParseValue, Bare, Depth;
    var first := ParseValue(ts, i + 2, depth, limit);
    var m, k := Member(ts[i].token.s, first.value), first.next;
    var j := ParseMembers(ts, i, depth, limit, members).next;
    ValueSound(ts, i + 2, depth, limit);
    var rest := [];
    if At(ts, k, ValueSeparator) {
      rest := MembersSound(ts, k + 1, depth, limit, members + [m]);
    }
    ms := [m] + rest;
    assert ms[1..] == rest;
    assert members + [m] + rest == members + ms;
    MembersPaste(Bare(ts), i, k, j, m, rest);
    assert MembersDepth(ms) == Max(Depth(m.value), MembersDepth(rest));
  }

  // The parser succeeds at a cursor with a value exactly when the tokens from
  // there on are that value's and it nests within the limit.
  lemma RecognisesExactly(ts: Tokens, i: nat, j: nat, v: Value, depth: nat, limit: nat)
    requires i <= |ts| && depth <= limit
    ensures ParseValue(ts, i, depth, limit) == Found(v, j) <==> Spells(ts, i, j, v, depth, limit)
  {
    hide ParseValue, Flatten, Depth, Bare;
    if ParseValue(ts, i, depth, limit) == Found(v, j) {
      ValueSound(ts, i, depth, limit);
    } else if Spells(ts, i, j, v, depth, limit) {
      ValueComplete(ts, i, j, v, depth, limit);
    }
  }

  // So a token sequence begins with the tokens of at most one value.
  lemma Unambiguous(v: Value, w: Value, a: seq<Token>, b: seq<Token>)
    requires Flatten(v) + a == Flatten(w) + b
    ensures v == w && a == b
  {
    var t := Flatten(v) + a;
    var ts := seq(|t|, i requires 0 <= i < |t| => PositionedToken(t[i], START, START));
    assert Bare(ts) == t;
    var limit := Depth(v) + Depth(w);
    assert t[0..|Flatten(v)|] == Flatten(v) && t[0..|Flatten(w)|] == Flatten(w);
    RecognisesExactly(ts, 0, |Flatten(v)|, v, 0, limit);
    RecognisesExactly(ts, 0, |Flatten(w)|, w, 0, limit);
    assert a == t[|Flatten(v)|..] && b == t[|Flatten(w)|..];
  }
}
