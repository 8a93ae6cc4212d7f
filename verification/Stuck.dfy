// Where the parser reports an error: at the first token with which no value can
// go on, or at the end when one could.
module Stuck {
  import opened Errors
  import opened Values
  import opened Grammar

  // ---- Starts of values ----

  // What is being read: a value; or the rest of an array or object, from its
  // first element on, closing bracket included.
  datatype Goal = AValue | SomeItems | SomeMembers

  ghost predicate Whole(g: Goal, us: seq<Token>) {
    match g
    case AValue => exists v: Value :: us == Flatten(v)
    case SomeItems => exists vs: seq<Value> :: vs != [] && us == FlattenItems(vs) + [EndArray]
    case SomeMembers => exists ms: seq<Member> :: ms != [] && us == FlattenMembers(ms) + [EndObject]
  }

  ghost predicate Starts(g: Goal, us: seq<Token>) {
    exists ws: seq<Token> :: us <= ws && Whole(g, ws)
  }

  predicate Opens(t: Token) { t == BeginArray || t == BeginObject }

  predicate Closes(t: Token) { t == EndArray || t == EndObject }

  // How many brackets are left open.
  function Nest(us: seq<Token>): int {
    if us == [] then 0
    else Nest(us[..|us| - 1]) + (if Opens(us[|us| - 1]) then 1 else if Closes(us[|us| - 1]) then -1 else 0)
  }

  // Every bracket among the first n tokens opens with room to spare.
  predicate Fits(T: seq<Token>, n: nat, room: int)
    requires n <= |T|
  {
    forall m :: 0 <= m < n ==> FitsAt(T, m, room)
  }

  predicate FitsAt(T: seq<Token>, m: nat, room: int)
    requires m < |T|
  {
    Opens(T[m]) ==> Nest(T[..m]) < room
  }

  // The closing bracket at n would have done but for the comma before it.
  ghost predicate CommaTrails(g: Goal, T: seq<Token>, n: nat)
    requires n < |T|
  {
    n > 0 && T[n - 1] == ValueSeparator && Closes(T[n]) && Starts(g, T[..n - 1] + [T[n]])
  }

  // With T to come and room for so many brackets, reading stops at token n: a
  // value could go on until there; then a bracket has no room, or T ends, or
  // token n fits no value. It is reported, or the comma before it.
  ghost predicate StuckAt(g: Goal, T: seq<Token>, n: nat, room: int, kind: Kind, back: bool) {
    && n <= |T| && Starts(g, T[..n]) && !Whole(g, T[..n]) && Fits(T, n, room)
    && if n == |T| then kind == UnexpectedEof && !back
       else if Starts(g, T[..n + 1]) then Opens(T[n]) && Nest(T[..n]) >= room && kind == NestingLimitExceeded && !back
       else kind == UnexpectedToken && (back <==> CommaTrails(g, T, n))
  }

  // ---- The grammar, one element at a time ----

  function Opener(g: Goal): Token
    requires !g.AValue?
  {
    if g.SomeItems? then BeginArray else BeginObject
  }

  function Closer(g: Goal): Token
    requires !g.AValue?
  {
    if g.SomeItems? then EndArray else EndObject
  }

  // What comes before the value of an element.
  predicate Head(g: Goal, p: seq<Token>)
    requires !g.AValue?
  {
    if g.SomeItems? then p == [] else |p| == 2 && p[0].StringToken? && p[1] == NameSeparator
  }

  // What comes after it.
  ghost predicate Rest(g: Goal, r: seq<Token>)
    requires !g.AValue?
  {
    r == [Closer(g)] || (r != [] && r[0] == ValueSeparator && Whole(g, r[1..]))
  }

  lemma WholeValue(us: seq<Token>, v: Value)
    requires us == Flatten(v)
    ensures Whole(AValue, us)
  {}

  lemma WholeItems(us: seq<Token>, vs: seq<Value>)
    requires vs != [] && us == FlattenItems(vs) + [EndArray]
    ensures Whole(SomeItems, us)
  {
    hide FlattenItems;
  }

  lemma WholeMembers(us: seq<Token>, ms: seq<Member>)
    requires ms != [] && us == FlattenMembers(ms) + [EndObject]
    ensures Whole(SomeMembers, us)
  {
    hide FlattenMembers;
  }

  // The first element and the rest.
  lemma Shape(g: Goal, ws: seq<Token>) returns (p: seq<Token>, a: seq<Token>, r: seq<Token>)
    requires !g.AValue? && Whole(g, ws)
    ensures ws == p + (a + r) && Head(g, p) && Whole(AValue, a) && Rest(g, r)
  {
    hide FlattenItems, FlattenMembers, Flatten;
    match g {
      case SomeItems =>
        var vs: seq<Value> :| vs != [] && ws == FlattenItems(vs) + [EndArray];
        FlattenItemsOn(vs);
        p, a := [], Flatten(vs[0]);
        WholeValue(a, vs[0]);
        if |vs| == 1 {
          r := [EndArray];
        } else {
          r := [ValueSeparator] + (FlattenItems(vs[1..]) + [EndArray]);
          WholeItems(r[1..], vs[1..]);
        }
      case SomeMembers =>
        var ms: seq<Member> :| ms != [] && ws == FlattenMembers(ms) + [EndObject];
        FlattenMembersOn(ms);
        p, a := [StringToken(ms[0].key), NameSeparator], Flatten(ms[0].value);
        WholeValue(a, ms[0].value);
        if |ms| == 1 {
          r := [EndObject];
        } else {
          r := [ValueSeparator] + (FlattenMembers(ms[1..]) + [EndObject]);
          WholeMembers(r[1..], ms[1..]);
        }
    }
  }

  lemma Shaped(g: Goal, p: seq<Token>, a: seq<Token>, r: seq<Token>)
    requires !g.AValue? && Head(g, p) && Whole(AValue, a) && Rest(g, r)
    ensures Whole(g, p + (a + r))
  {
    hide FlattenItems, FlattenMembers, Flatten;
    var v: Value :| a == Flatten(v);
    match g {
      case SomeItems =>
        if r == [EndArray] {
          FlattenItemsOn([v]);
          WholeItems(p + (a + r), [v]);
        } else {
          var vs: seq<Value> :| vs != [] && r[1..] == FlattenItems(vs) + [EndArray];
          assert ([v] + vs)[1..] == vs && r == [ValueSeparator] + r[1..];
          FlattenItemsOn([v] + vs);
          WholeItems(p + (a + r), [v] + vs);
        }
      case SomeMembers =>
        var m := Member(p[0].s, v);
        assert p == [StringToken(m.key), NameSeparator];
        if r == [EndObject] {
          FlattenMembersOn([m]);
          WholeMembers(p + (a + r), [m]);
        } else {
          var ms: seq<Member> :| ms != [] && r[1..] == FlattenMembers(ms) + [EndObject];
          assert ([m] + ms)[1..] == ms && r == [ValueSeparator] + r[1..];
          FlattenMembersOn([m] + ms);
          WholeMembers(p + (a + r), [m] + ms);
        }
    }
  }

  // Brackets around elements.
  lemma Bracketed(g: Goal, us: seq<Token>)
    requires !g.AValue? && (us == [] || us[0] != Closer(g))
    ensures Whole(AValue, [Opener(g)] + us) <==> Whole(g, us)
  {
    hide FlattenItems, FlattenMembers;
    if Whole(AValue, [Opener(g)] + us) {
      var v: Value :| [Opener(g)] + us == Flatten(v);
      assert Flatten(v)[0] == Opener(g) && Flatten(v)[1..] == us;
      Inside(g, v, us);
    }
    if Whole(g, us) {
      if g.SomeItems? {
        var vs: seq<Value> :| vs != [] && us == FlattenItems(vs) + [EndArray];
        WholeValue([Opener(g)] + us, Array(vs));
      } else {
        var ms: seq<Member> :| ms != [] && us == FlattenMembers(ms) + [EndObject];
        WholeValue([Opener(g)] + us, Object(ms));
      }
    }
  }

  lemma Inside(g: Goal, v: Value, us: seq<Token>)
    requires !g.AValue? && (us == [] || us[0] != Closer(g))
    requires Flatten(v)[0] == Opener(g) && Flatten(v)[1..] == us
    ensures Whole(g, us)
  {
    if g.SomeItems? {
      assert us == FlattenItems(v.items) + [EndArray];
      WholeItems(us, v.items);
    } else {
      assert us == FlattenMembers(v.members) + [EndObject];
      WholeMembers(us, v.members);
    }
  }

  // ---- No whole continues another ----

  lemma ValuesApart(a: seq<Token>, b: seq<Token>)
    requires Whole(AValue, a) && Whole(AValue, b) && a <= b
    ensures a == b
  {
    hide Flatten;
    var v: Value :| a == Flatten(v);
    var w: Value :| b == Flatten(w);
    assert b == a + b[|a|..] && b == b + [];
    Unambiguous(v, w, b[|a|..], []);
  }

  // Of two values at the head of one sequence neither goes on.
  lemma SameHead(a: seq<Token>, r: seq<Token>, b: seq<Token>, q: seq<Token>)
    requires Whole(AValue, a) && Whole(AValue, b) && a + r == b + q
    ensures a == b && r == q
  {
    hide Whole;
    if |a| <= |b| {
      assert b[..|a|] == (b + q)[..|a|] == a;
      ValuesApart(a, b);
    } else {
      assert a[..|b|] == (a + r)[..|b|] == b;
      ValuesApart(b, a);
    }
    assert (a + r)[|a|..] == r && (b + q)[|b|..] == q;
  }

  lemma StartsBy(g: Goal, us: seq<Token>, tail: seq<Token>)
    requires Whole(g, us + tail)
    ensures Starts(g, us)
  {
    hide Whole;
  }

  // A start of a value that is not whole yet is no longer than the value.
  lemma Within(u: seq<Token>, a: seq<Token>, r: seq<Token>, x: seq<Token>)
    requires Starts(AValue, u) && !Whole(AValue, u) && Whole(AValue, a) && u + x <= a + r && |x| <= 1
    ensures u + x <= a
  {
    hide Whole;
    if |u + x| > |a| {
      assert |a| <= |u|;
      var w :| u <= w && Whole(AValue, w);
      assert a == (a + r)[..|a|] == (u + x)[..|a|] == u[..|a|] == w[..|a|];
      ValuesApart(a, w);
    }
    assert (u + x) == (a + r)[..|u + x|];
  }

  // ---- How starts go on ----

  lemma StartsShorter(g: Goal, us: seq<Token>, n: nat)
    requires Starts(g, us) && n <= |us|
    ensures Starts(g, us[..n])
  {
    hide Whole;
    var ws :| us <= ws && Whole(g, ws);
    assert us[..n] <= ws;
  }

  lemma WholeStarts(g: Goal, us: seq<Token>)
    requires Whole(g, us)
    ensures Starts(g, us)
  {
    hide Whole;
  }

  // Behind the same head, inside the first value of an element, elements go on
  // as the value does.
  lemma InFirst(g: Goal, p: seq<Token>, u: seq<Token>, x: seq<Token>)
    requires !g.AValue? && Head(g, p) && |x| <= 1 && Starts(AValue, u) && !Whole(AValue, u)
    ensures Starts(g, p + (u + x)) <==> Starts(AValue, u + x)
    ensures Starts(g, p + u) && !Whole(g, p + u)
  {
    hide Whole, Rest;
    if Starts(AValue, u + x) {
      FirstGoesOn(g, p, u + x);
    }
    FirstGoesOn(g, p, u);
    if Starts(g, p + (u + x)) {
      var ws :| p + (u + x) <= ws && Whole(g, ws);
      FirstInside(g, p, u, x, ws);
    }
    if Whole(g, p + u) {
      assert u + [] == u;
      FirstInside(g, p, u, [], p + u);
      var q, a, r := Shape(g, p + u);
      SplitHead(g, p, u, q, a + r);
      Within(u, a, r, []);
      NoRest(g, r);
    }
  }

  lemma NoRest(g: Goal, r: seq<Token>)
    requires !g.AValue? && Rest(g, r)
    ensures r != []
  {
    hide Whole;
  }

  lemma FirstGoesOn(g: Goal, p: seq<Token>, u: seq<Token>)
    requires !g.AValue? && Head(g, p) && Starts(AValue, u)
    ensures Starts(g, p + u)
  {
    hide Whole;
    var w :| u <= w && Whole(AValue, w);
    Shaped(g, p, w, [Closer(g)]);
    assert p + (w + [Closer(g)]) == p + u + (w[|u|..] + [Closer(g)]);
    StartsBy(g, p + u, w[|u|..] + [Closer(g)]);
  }

  lemma SplitHead(g: Goal, p: seq<Token>, u: seq<Token>, q: seq<Token>, v: seq<Token>)
    requires !g.AValue? && Head(g, p) && Head(g, q) && p + u <= q + v
    ensures p == q && u <= v
  {
    assert |p| == |q|;
    assert p == (p + u)[..|p|] && q == (q + v)[..|q|];
    assert u == (p + u)[|p|..] && v == (q + v)[|q|..];
  }

  lemma FirstInside(g: Goal, p: seq<Token>, u: seq<Token>, x: seq<Token>, ws: seq<Token>)
    requires !g.AValue? && Head(g, p) && |x| <= 1 && Starts(AValue, u) && !Whole(AValue, u)
    requires p + (u + x) <= ws && Whole(g, ws)
    ensures Starts(AValue, u + x)
  {
    hide Whole, Rest;
    var q, a, r := Shape(g, ws);
    SplitHead(g, p, u + x, q, a + r);
    Within(u, a, r, x);
  }

  // After a whole value come a comma and elements, or the closing bracket.
  lemma AfterFirst(g: Goal, p: seq<Token>, a: seq<Token>, x: Token, us: seq<Token>)
    requires !g.AValue? && Head(g, p) && Whole(AValue, a)
    ensures Starts(g, p + (a + ([x] + us)))
            <==> (x == Closer(g) && us == []) || (x == ValueSeparator && Starts(g, us))
    ensures Whole(g, p + (a + ([x] + us)))
            <==> (x == Closer(g) && us == []) || (x == ValueSeparator && Whole(g, us))
  {
    hide Whole;
    var all := p + (a + ([x] + us));
    assert ([x] + us)[1..] == us;
    if Starts(g, all) {
      var ws :| all <= ws && Whole(g, ws);
      RestInside(g, p, a, x, us, ws);
    }
    if Whole(g, all) {
      RestInside(g, p, a, x, us, all);
    }
    if x == Closer(g) && us == [] {
      assert [x] + us == [x];
      Shaped(g, p, a, [x]);
      WholeStarts(g, all);
    }
    if x == ValueSeparator && Whole(g, us) {
      Shaped(g, p, a, [x] + us);
    }
    if x == ValueSeparator && Starts(g, us) {
      var ws :| us <= ws && Whole(g, ws);
      assert ([x] + ws)[1..] == ws;
      Shaped(g, p, a, [x] + ws);
      assert all <= p + (a + ([x] + ws));
    }
  }

  lemma RestInside(g: Goal, p: seq<Token>, a: seq<Token>, x: Token, us: seq<Token>, ws: seq<Token>)
    requires !g.AValue? && Head(g, p) && Whole(AValue, a) && p + (a + ([x] + us)) <= ws && Whole(g, ws)
    ensures (x == Closer(g) && us == []) || (x == ValueSeparator && Starts(g, us))
    ensures ws == p + (a + ([x] + us)) ==> (x == Closer(g) && us == []) || (x == ValueSeparator && Whole(g, us))
  {
    hide Whole, Starts;
    var q, b, r := Shape(g, ws);
    SplitHead(g, p, a + ([x] + us), q, b + r);
    var more := (b + r)[|a + ([x] + us)|..];
    assert a + ([x] + us + more) == b + r;
    SameHead(a, [x] + us + more, b, r);
    assert r[0] == x && r[1..] == us + more;
    if x == ValueSeparator && r != [Closer(g)] {
      StartsBy(g, us, more);
    }
    assert ws == p + (a + ([x] + us)) ==> more == [];
    assert us + [] == us;
  }

  lemma AfterValue(g: Goal, p: seq<Token>, a: seq<Token>)
    requires !g.AValue? && Head(g, p) && Whole(AValue, a)
    ensures Starts(g, p + a) && !Whole(g, p + a)
  {
    hide Whole, Rest;
    WholeStarts(AValue, a);
    FirstGoesOn(g, p, a);
    if Whole(g, p + a) {
      var q, b, r := Shape(g, p + a);
      SplitHead(g, p, a, q, b + r);
      assert a + [] == a && a == b + r by {
        assert |p + a| == |q + (b + r)|;
      }
      SameHead(a, [], b, r);
      NoRest(g, r);
    }
  }

  // Elements in brackets start as a value does.
  lemma StartsBracketed(g: Goal, us: seq<Token>)
    requires !g.AValue? && (us == [] || us[0] != Closer(g))
    ensures Starts(AValue, [Opener(g)] + us) <==> Starts(g, us)
  {
    hide Whole;
    if Starts(g, us) {
      var ws :| us <= ws && Whole(g, ws);
      NotEmpty(g, ws);
      Bracketed(g, ws);
      assert [Opener(g)] + us <= [Opener(g)] + ws;
    }
    if Starts(AValue, [Opener(g)] + us) {
      if us == [] {
        SomeWhole(g);
      } else {
        var ws :| [Opener(g)] + us <= ws && Whole(AValue, ws);
        assert ws == [Opener(g)] + ws[1..] && us <= ws[1..];
        assert ws[1] == us[0];
        Bracketed(g, ws[1..]);
      }
    }
  }

  lemma NotEmpty(g: Goal, ws: seq<Token>)
    requires !g.AValue? && Whole(g, ws)
    ensures ws != [] && ws[0] != Closer(g)
  {
    hide Whole, Rest;
    var p, a, r := Shape(g, ws);
    ValueHead(a);
  }

  lemma ValueHead(a: seq<Token>)
    requires Whole(AValue, a)
    ensures a != [] && !Closes(a[0]) && a[0] != ValueSeparator && a[0] != NameSeparator
    ensures a[|a| - 1] != ValueSeparator
  {}

  lemma SomeWhole(g: Goal)
    requires !g.AValue?
    ensures Starts(g, [])
  {
    WholeValue([NullToken], Null);
    var p := if g.SomeItems? then [] else [StringToken(""), NameSeparator];
    Shaped(g, p, [NullToken], [Closer(g)]);
    assert [] <= p + ([NullToken] + [Closer(g)]);
  }

  // ---- Open brackets ----

  lemma {:induction false} NestConcat(a: seq<Token>, b: seq<Token>)
    ensures Nest(a + b) == Nest(a) + Nest(b)
    decreases |b|
  {
    if b == [] {
      assert a + b == a;
    } else {
      assert (a + b)[..|a + b| - 1] == a + b[..|b| - 1];
      NestConcat(a, b[..|b| - 1]);
    }
  }

  lemma NestOne(t: Token)
    ensures Nest([t]) == (if Opens(t) then 1 else if Closes(t) then -1 else 0) && Nest([]) == 0
  {
    assert [t][..0] == [];
  }

  lemma TakeMore(a: seq<Token>, b: seq<Token>, m: nat)
    requires m < |b|
    ensures (a + b)[..|a| + m] == a + b[..m] && (a + b)[|a| + m] == b[m]
  {}

  lemma TakeFewer(a: seq<Token>, b: seq<Token>, m: nat)
    requires m < |a|
    ensures (a + b)[..m] == a[..m] && (a + b)[m] == a[m]
  {}

  lemma FitsLater(a: seq<Token>, b: seq<Token>, m: nat, room: int)
    requires m < |b|
    ensures FitsAt(a + b, |a| + m, room) <==> FitsAt(b, m, room - Nest(a))
  {
    hide Nest, FitsAt;
    TakeMore(a, b, m);
    NestConcat(a, b[..m]);
    FitsAlike(a + b, |a| + m, room, b, m, room - Nest(a));
  }

  lemma FitsAlike(T: seq<Token>, m: nat, room: int, U: seq<Token>, k: nat, left: int)
    requires m < |T| && k < |U| && T[m] == U[k] && Nest(T[..m]) - room == Nest(U[..k]) - left
    ensures FitsAt(T, m, room) <==> FitsAt(U, k, left)
  {
    hide Nest;
  }

  lemma FitsEarlier(a: seq<Token>, b: seq<Token>, m: nat, room: int)
    requires m < |a|
    ensures FitsAt(a + b, m, room) <==> FitsAt(a, m, room)
  {
    hide Nest;
    TakeFewer(a, b, m);
  }

  lemma FitsConcat(a: seq<Token>, b: seq<Token>, n: nat, room: int)
    requires n <= |b|
    ensures Fits(a + b, |a| + n, room) <==> Fits(a, |a|, room) && Fits(b, n, room - Nest(a))
  {
    hide FitsAt, Nest;
    var t, left := a + b, room - Nest(a);
    if Fits(t, |a| + n, room) {
      forall m | 0 <= m < |a|
        ensures FitsAt(a, m, room)
      {
        FitsEarlier(a, b, m, room);
        assert FitsAt(t, m, room);
      }
      forall m | 0 <= m < n
        ensures FitsAt(b, m, left)
      {
        FitsLater(a, b, m, room);
        assert FitsAt(t, |a| + m, room);
      }
    }
    if Fits(a, |a|, room) && Fits(b, n, left) {
      forall m | 0 <= m < |a| + n
        ensures FitsAt(t, m, room)
      {
        if m < |a| {
          FitsEarlier(a, b, m, room);
        } else {
          FitsLater(a, b, m - |a|, room);
          assert FitsAt(b, m - |a|, left);
        }
      }
    }
  }

  lemma FitsPlain(t: Token, room: int)
    ensures !Opens(t) || room > 0 ==> Fits([t], 1, room)
    ensures Fits([], 0, room)
  {
    NestOne(t);
    assert [t][..0] == [];
  }

  // A value leaves no bracket open, and its brackets fit where it does.
  lemma {:induction false} ValueFits(v: Value, room: int)
    requires Depth(v) <= room
    ensures Nest(Flatten(v)) == 0 && Fits(Flatten(v), |Flatten(v)|, room)
    decreases v, 1
  {
    hide Nest, Fits, FlattenItems, FlattenMembers;
    match v
    case Array(items) =>
      ItemsFit(items, room - 1);
      BracketsFit(BeginArray, FlattenItems(items), EndArray, room);
    case Object(members) =>
      MembersFit(members, room - 1);
      BracketsFit(BeginObject, FlattenMembers(members), EndObject, room);
    case _ =>
      NestOne(Flatten(v)[0]);
      FitsPlain(Flatten(v)[0], room);
  }

  lemma FitsMore(a: seq<Token>, b: seq<Token>, room: int)
    requires Nest(a) == 0 && Fits(a, |a|, room) && Nest(b) == 0 && Fits(b, |b|, room)
    ensures Nest(a + b) == 0 && Fits(a + b, |a + b|, room)
  {
    hide Nest, Fits;
    NestConcat(a, b);
    FitsConcat(a, b, |b|, room);
  }

  lemma BracketsFit(o: Token, body: seq<Token>, c: Token, room: int)
    requires Opens(o) && Closes(c) && room > 0 && Nest(body) == 0 && Fits(body, |body|, room - 1)
    ensures Nest([o] + body + [c]) == 0 && Fits([o] + body + [c], |[o] + body + [c]|, room)
  {
    hide Nest, Fits;
    NestOne(o);
    NestOne(c);
    FitsPlain(o, room);
    FitsPlain(c, room - 1);
    NestConcat([o], body);
    NestConcat([o] + body, [c]);
    FitsConcat([o], body, |body|, room);
    FitsConcat([o] + body, [c], 1, room);
    PlainFits(c, room - 1);
  }

  lemma PlainFits(t: Token, room: int)
    requires !Opens(t)
    ensures Fits([t], 1, room)
  {}

  lemma {:induction false} ItemsFit(items: seq<Value>, room: int)
    requires ItemsDepth(items) <= room
    ensures Nest(FlattenItems(items)) == 0 && Fits(FlattenItems(items), |FlattenItems(items)|, room)
    decreases items, 0
  {
    hide Nest, Fits, Flatten, Depth;
    NestOne(ValueSeparator);
    FitsPlain(ValueSeparator, room);
    if items != [] {
      ValueFits(items[0], room);
      if |items| > 1 {
        ItemsFit(items[1..], room);
        FitsMore([ValueSeparator], FlattenItems(items[1..]), room);
        FitsMore(Flatten(items[0]), [ValueSeparator] + FlattenItems(items[1..]), room);
      } else {
        assert Flatten(items[0]) + [] == Flatten(items[0]);
      }
    }
  }

  lemma {:induction false} MembersFit(members: seq<Member>, room: int)
    requires MembersDepth(members) <= room
    ensures Nest(FlattenMembers(members)) == 0 && Fits(FlattenMembers(members), |FlattenMembers(members)|, room)
    decreases members, 0
  {
    hide Nest, Fits, Flatten, Depth;
    NestOne(ValueSeparator);
    FitsPlain(ValueSeparator, room);
    if members != [] {
      var head, first := [StringToken(members[0].key), NameSeparator], Flatten(members[0].value);
      HeadFits(members[0].key, room);
      ValueFits(members[0].value, room);
      FitsMore(head, first, room);
      if |members| > 1 {
        MembersFit(members[1..], room);
        FitsMore([ValueSeparator], FlattenMembers(members[1..]), room);
        FitsMore(head + first, [ValueSeparator] + FlattenMembers(members[1..]), room);
      } else {
        assert head + first + [] == head + first;
      }
    }
  }

  lemma HeadFits(key: string, room: int)
    ensures var head := [StringToken(key), NameSeparator]; Nest(head) == 0 && Fits(head, 2, room)
  {
    var head := [StringToken(key), NameSeparator];
    assert head == [StringToken(key)] + [NameSeparator];
    NestOne(StringToken(key));
    NestOne(NameSeparator);
    NestConcat([StringToken(key)], [NameSeparator]);
  }

  // ---- Getting stuck inside ----

  // Being stuck behind q.
  lemma StuckBehind(g: Goal, q: seq<Token>, h: Goal, T: seq<Token>, n: nat, room: int, kind: Kind, back: bool)
    requires StuckAt(h, T, n, room - Nest(q), kind, back) && Fits(q, |q|, room)
    requires Starts(g, q + T[..n]) && !Whole(g, q + T[..n])
    requires n < |T| ==> (Starts(g, q + T[..n + 1]) <==> Starts(h, T[..n + 1]))
    requires n < |T| ==> (CommaTrails(g, q + T, |q| + n) <==> CommaTrails(h, T, n))
    ensures StuckAt(g, q + T, |q| + n, room, kind, back)
  {
    hide Starts, Whole, CommaTrails, Nest, Fits;
    FitsConcat(q, T, n, room);
    TakeBehind(q, T, n);
    if n < |T| {
      TakeBehind(q, T, n + 1);
      NestConcat(q, T[..n]);
    }
  }

  lemma TakeBehind(q: seq<Token>, T: seq<Token>, n: nat)
    requires n <= |T|
    ensures (q + T)[..|q| + n] == q + T[..n] && (n < |T| ==> (q + T)[|q| + n] == T[n])
  {}

  lemma Swapped(q: seq<Token>, T: seq<Token>, n: nat)
    requires 0 < n < |T|
    ensures (q + T)[..|q| + n - 1] + [(q + T)[|q| + n]] == q + (T[..n - 1] + [T[n]])
    ensures (q + T)[|q| + n - 1] == T[n - 1] && (q + T)[|q| + n] == T[n]
  {}

  lemma ShorterNotWhole(u: seq<Token>, n: nat)
    requires Starts(AValue, u) && n < |u|
    ensures Starts(AValue, u[..n]) && !Whole(AValue, u[..n])
  {
    hide Whole;
    var w :| u <= w && Whole(AValue, w);
    StartsShorter(AValue, u, n);
    if Whole(AValue, u[..n]) {
      ValuesApart(u[..n], w);
    }
  }

  lemma HeadNest(g: Goal, p: seq<Token>, room: int)
    requires !g.AValue? && Head(g, p)
    ensures Nest(p) == 0 && Fits(p, |p|, room)
  {
    hide Nest, Fits;
    NestOne(ValueSeparator);
    FitsPlain(ValueSeparator, room);
    if g.SomeMembers? {
      HeadFits(p[0].s, room);
      assert p == [StringToken(p[0].s), NameSeparator];
    }
  }

  // In the first value of an element.
  lemma StuckInFirst(g: Goal, p: seq<Token>, T: seq<Token>, n: nat, room: int, kind: Kind, back: bool)
    requires !g.AValue? && Head(g, p) && StuckAt(AValue, T, n, room, kind, back)
    ensures StuckAt(g, p + T, |p| + n, room, kind, back)
  {
    hide Starts, Whole, CommaTrails, Nest, Fits;
    var u := T[..n];
    assert u + [] == u;
    InFirst(g, p, u, []);
    HeadNest(g, p, room);
    if n < |T| {
      assert T[..n + 1] == u + [T[n]];
      InFirst(g, p, u, [T[n]]);
      TrailsInFirst(g, p, T, n);
    }
    StuckBehind(g, p, AValue, T, n, room, kind, back);
  }

  lemma TrailsInFirst(g: Goal, p: seq<Token>, T: seq<Token>, n: nat)
    requires !g.AValue? && Head(g, p) && n < |T| && Starts(AValue, T[..n])
    ensures CommaTrails(g, p + T, |p| + n) <==> CommaTrails(AValue, T, n)
  {
    hide Starts, Whole;
    if n > 0 {
      ShorterNotWhole(T[..n], n - 1);
      assert T[..n][..n - 1] == T[..n - 1];
      InFirst(g, p, T[..n - 1], [T[n]]);
      Swapped(p, T, n);
    } else {
      assert p + T == p + T[0..];
      assert p != [] ==> (p + T)[|p| - 1] == p[|p| - 1];
    }
  }

  lemma ValueNest(a: seq<Token>, v: Value, room: int)
    requires a == Flatten(v) && Depth(v) <= room
    ensures Whole(AValue, a) && Nest(a) == 0 && Fits(a, |a|, room)
  {
    hide Nest, Fits, Flatten, Depth;
    WholeValue(a, v);
    ValueFits(v, room);
  }

  function Behind(p: seq<Token>, a: seq<Token>): seq<Token> {
    p + (a + [ValueSeparator])
  }

  lemma BehindNest(g: Goal, p: seq<Token>, a: seq<Token>, room: int)
    requires !g.AValue? && Head(g, p) && Nest(a) == 0 && Fits(a, |a|, room)
    ensures Nest(Behind(p, a)) == 0 && Fits(Behind(p, a), |Behind(p, a)|, room)
  {
    hide Nest, Fits;
    HeadNest(g, p, room);
    NestOne(ValueSeparator);
    FitsPlain(ValueSeparator, room);
    FitsMore(a, [ValueSeparator], room);
    FitsMore(p, a + [ValueSeparator], room);
  }

  lemma BehindAfter(g: Goal, p: seq<Token>, a: seq<Token>, us: seq<Token>)
    requires !g.AValue? && Head(g, p) && Whole(AValue, a)
    ensures Starts(g, Behind(p, a) + us) <==> Starts(g, us)
    ensures Whole(g, Behind(p, a) + us) <==> Whole(g, us)
  {
    hide Starts, Whole;
    AfterFirst(g, p, a, ValueSeparator, us);
    BehindAssoc(p, a, us);
    assert ValueSeparator != Closer(g);
  }

  lemma BehindAssoc(p: seq<Token>, a: seq<Token>, us: seq<Token>)
    ensures Behind(p, a) + us == p + (a + ([ValueSeparator] + us))
  {}

  // In a later element.
  lemma StuckLater(
    g: Goal, p: seq<Token>, a: seq<Token>, v: Value, T: seq<Token>, n: nat, room: int, kind: Kind, back: bool)
    requires !g.AValue? && Head(g, p) && a == Flatten(v) && Depth(v) <= room
    requires StuckAt(g, T, n, room, kind, back) && (T == [] || T[0] != Closer(g))
    ensures StuckAt(g, Behind(p, a) + T, |Behind(p, a)| + n, room, kind, back)
  {
    hide Starts, Whole, CommaTrails, Nest, Fits, Flatten, Depth, Behind;
    ValueNest(a, v, room);
    BehindNest(g, p, a, room);
    BehindAfter(g, p, a, T[..n]);
    if n < |T| {
      BehindAfter(g, p, a, T[..n + 1]);
      TrailsLater(g, p, a, T, n);
    }
    StuckBehind(g, Behind(p, a), g, T, n, room, kind, back);
  }

  lemma TrailsLater(g: Goal, p: seq<Token>, a: seq<Token>, T: seq<Token>, n: nat)
    requires !g.AValue? && Head(g, p) && Whole(AValue, a) && n < |T| && T[0] != Closer(g)
    ensures CommaTrails(g, Behind(p, a) + T, |Behind(p, a)| + n) <==> CommaTrails(g, T, n)
  {
    hide Starts, Whole;
    var q := Behind(p, a);
    if n > 0 {
      BehindAfter(g, p, a, T[..n - 1] + [T[n]]);
      Swapped(q, T, n);
    } else {
      assert (q + T)[..|q| - 1] + [T[0]] == p + (a + ([T[0]] + []));
      AfterFirst(g, p, a, T[0], []);
    }
  }

  lemma StartHead(g: Goal, us: seq<Token>)
    requires !g.AValue? && Starts(g, us) && us != []
    ensures us[0] != ValueSeparator && us[0] != Closer(g)
  {
    hide Whole, Rest;
    var ws :| us <= ws && Whole(g, ws);
    assert us[0] == ws[0];
    var p, a, r := Shape(g, ws);
    ValueHead(a);
  }

  // Inside brackets.
  lemma StuckBracketed(g: Goal, T: seq<Token>, n: nat, room: int, kind: Kind, back: bool)
    requires !g.AValue? && StuckAt(g, T, n, room - 1, kind, back) && room > 0 && (T == [] || T[0] != Closer(g))
    ensures StuckAt(AValue, [Opener(g)] + T, n + 1, room, kind, back)
  {
    hide Starts, Whole, CommaTrails, Nest, Fits;
    var o := [Opener(g)];
    NestOne(Opener(g));
    FitsPlain(Opener(g), room);
    Bracketed(g, T[..n]);
    StartsBracketed(g, T[..n]);
    if n < |T| {
      StartsBracketed(g, T[..n + 1]);
      TrailsBracketed(g, T, n);
    }
    StuckBehind(AValue, o, g, T, n, room, kind, back);
  }

  lemma TrailsBracketed(g: Goal, T: seq<Token>, n: nat)
    requires !g.AValue? && n < |T| && T[0] != Closer(g) && Starts(g, T[..n])
    ensures CommaTrails(AValue, [Opener(g)] + T, 1 + n) <==> CommaTrails(g, T, n)
  {
    hide Starts, Whole;
    if n > 0 {
      StartHead(g, T[..n]);
      Swapped([Opener(g)], T, n);
      if n > 1 {
        StartsBracketed(g, T[..n - 1] + [T[n]]);
      }
    }
  }

  // ---- Getting stuck at once ----

  lemma StartsEmpty(g: Goal)
    ensures Starts(g, []) && !Whole(g, [])
  {
    if g.AValue? {
      WholeValue([NullToken], Null);
      assert [] <= [NullToken];
    } else {
      SomeWhole(g);
    }
  }

  lemma StuckEmpty(g: Goal, room: int)
    ensures StuckAt(g, [], 0, room, UnexpectedEof, false)
  {
    hide Starts, Whole;
    StartsEmpty(g);
  }

  lemma NoValueStarts(t: Token)
    requires Closes(t) || t == ValueSeparator || t == NameSeparator
    ensures !Starts(AValue, [t])
  {
    hide Whole;
    if Starts(AValue, [t]) {
      var w :| [t] <= w && Whole(AValue, w);
      ValueHead(w);
    }
  }

  lemma StuckNoValue(T: seq<Token>, room: int)
    requires T != [] && (Closes(T[0]) || T[0] == ValueSeparator || T[0] == NameSeparator)
    ensures StuckAt(AValue, T, 0, room, UnexpectedToken, false)
  {
    hide Starts, Whole;
    StartsEmpty(AValue);
    NoValueStarts(T[0]);
    assert T[..0] == [] && T[..1] == [T[0]];
  }

  lemma StuckNoRoom(T: seq<Token>, room: int)
    requires T != [] && Opens(T[0]) && room <= 0
    ensures StuckAt(AValue, T, 0, room, NestingLimitExceeded, false)
  {
    hide Starts, Whole;
    StartsEmpty(AValue);
    var g := if T[0] == BeginArray then SomeItems else SomeMembers;
    SomeWhole(g);
    StartsBracketed(g, []);
    assert [Opener(g)] + [] == [T[0]] && T[..0] == [] && T[..1] == [T[0]];
  }

  // ---- Keys ----

  lemma StartsKey(t: Token, u: Token)
    ensures Starts(SomeMembers, [t]) <==> t.StringToken?
    ensures t.StringToken? ==> !Whole(SomeMembers, [t])
    ensures t.StringToken? ==> (Starts(SomeMembers, [t, u]) <==> u == NameSeparator)
  {
    hide Whole, Rest;
    if Starts(SomeMembers, [t]) {
      var ws :| [t] <= ws && Whole(SomeMembers, ws);
      var p, a, r := Shape(SomeMembers, ws);
      assert [t][0] == ws[0] == p[0];
    }
    if Starts(SomeMembers, [t, u]) {
      var ws :| [t, u] <= ws && Whole(SomeMembers, ws);
      var p, a, r := Shape(SomeMembers, ws);
      assert [t, u][1] == ws[1] == p[1];
    }
    if t.StringToken? {
      var p := [t, NameSeparator];
      StartsEmpty(AValue);
      FirstGoesOn(SomeMembers, p, []);
      assert p + [] == p;
      StartsShorter(SomeMembers, p, 1);
      assert p[..1] == [t];
    }
    if Whole(SomeMembers, [t]) {
      var p, a, r := Shape(SomeMembers, [t]);
    }
  }

  lemma StuckNoKey(T: seq<Token>, room: int)
    requires T != [] && !T[0].StringToken?
    ensures StuckAt(SomeMembers, T, 0, room, UnexpectedToken, false)
  {
    hide Starts, Whole;
    StartsEmpty(SomeMembers);
    StartsKey(T[0], T[0]);
    assert T[..0] == [] && T[..1] == [T[0]];
  }

  lemma StuckNoColon(T: seq<Token>, room: int)
    requires T != [] && T[0].StringToken? && (|T| == 1 || T[1] != NameSeparator)
    ensures StuckAt(SomeMembers, T, 1, room, if |T| == 1 then UnexpectedEof else UnexpectedToken, false)
  {
    hide Starts, Whole, Fits;
    StartsKey(T[0], if |T| == 1 then T[0] else T[1]);
    assert T[..1] == [T[0]] && (|T| > 1 ==> T[..2] == [T[0], T[1]]);
    FitsPlain(T[0], room);
    KeyFits(T, room);
  }

  lemma KeyFits(T: seq<Token>, room: int)
    requires T != [] && T[0].StringToken?
    ensures Fits(T, 1, room)
  {}

  // ---- After an element ----

  lemma StuckAfter(g: Goal, p: seq<Token>, a: seq<Token>, v: Value, R: seq<Token>, room: int)
    requires !g.AValue? && Head(g, p) && a == Flatten(v) && Depth(v) <= room
    requires R == [] || (R[0] != ValueSeparator && R[0] != Closer(g))
    ensures StuckAt(g, p + (a + R), |p| + |a|, room, if R == [] then UnexpectedEof else UnexpectedToken, false)
  {
    hide Starts, Whole, Nest, Fits, Flatten, Depth;
    var T, n := p + (a + R), |p| + |a|;
    ValueNest(a, v, room);
    HeadNest(g, p, room);
    FitsMore(p, a, room);
    FitsWithin(p + a, R, room);
    AfterValue(g, p, a);
    TakeParts(p, a, R);
    ValueHead(a);
    if R != [] {
      AfterFirst(g, p, a, R[0], []);
      assert T[n - 1] == a[|a| - 1];
    }
  }

  lemma FitsWithin(a: seq<Token>, b: seq<Token>, room: int)
    requires Fits(a, |a|, room)
    ensures Fits(a + b, |a|, room)
  {
    hide Nest, Fits;
    FitsPlain(NullToken, room);
    FitsNone(b, room - Nest(a));
    FitsConcat(a, b, 0, room);
  }

  lemma FitsNone(b: seq<Token>, room: int)
    ensures Fits(b, 0, room)
  {}

  lemma TakeParts(p: seq<Token>, a: seq<Token>, R: seq<Token>)
    ensures var T := p + (a + R);
            && T == p + a + R && T[..|p| + |a|] == p + a
            && (R != [] ==> T[..|p| + |a| + 1] == p + (a + ([R[0]] + [])) && T[|p| + |a|] == R[0])
            && (|R| > 1 ==> T[..|p| + |a| + 2] == p + (a + ([R[0]] + [R[1]])) && T[|p| + |a| + 1] == R[1])
  {}

  // A comma and then the closing bracket.
  lemma StuckComma(g: Goal, p: seq<Token>, a: seq<Token>, v: Value, R: seq<Token>, room: int)
    requires !g.AValue? && Head(g, p) && a == Flatten(v) && Depth(v) <= room
    requires |R| > 1 && R[0] == ValueSeparator && R[1] == Closer(g)
    ensures StuckAt(g, p + (a + R), |p| + |a| + 1, room, UnexpectedToken, true)
  {
    hide Starts, Whole, Nest, Fits, Flatten, Depth;
    var T, n := p + (a + R), |p| + |a| + 1;
    ValueNest(a, v, room);
    BehindNest(g, p, a, room);
    TakeParts(p, a, R);
    BehindFits(p, a, R, room);
    StartsEmpty(g);
    AfterFirst(g, p, a, ValueSeparator, []);
    AfterFirst(g, p, a, ValueSeparator, [Closer(g)]);
    AfterFirst(g, p, a, Closer(g), []);
    assert ValueSeparator != Closer(g);
    if Starts(g, [Closer(g)]) {
      StartHead(g, [Closer(g)]);
    }
    assert T[..n - 1] + [T[n]] == p + (a + ([Closer(g)] + []));
  }

  lemma BehindFits(p: seq<Token>, a: seq<Token>, R: seq<Token>, room: int)
    requires R != [] && R[0] == ValueSeparator && Fits(Behind(p, a), |Behind(p, a)|, room)
    ensures Fits(p + (a + R), |p| + |a| + 1, room)
  {
    hide Nest, Fits;
    FitsWithin(Behind(p, a), R[1..], room);
    assert p + (a + R) == Behind(p, a) + R[1..];
  }

  // ---- The parser ----

  // The position an error of this kind at token n behind cursor i is reported at.
  function Place(ts: Tokens, i: nat, n: nat, back: bool): Position
    requires back ==> n > 0
  {
    PeekPos(ts, i + n - if back then 1 else 0)
  }

  // e is the error of being stuck at token n behind cursor i.
  ghost predicate Explains(g: Goal, ts: Tokens, i: nat, room: int, e: Error, n: nat, back: bool)
    requires i <= |ts|
  {
    StuckAt(g, Bare(ts)[i..], n, room, e.kind, back) && (back ==> n > 0) && e.pos == Place(ts, i, n, back)
  }

  // The element with this head and value lies between two cursors.
  ghost predicate Lies(g: Goal, p: seq<Token>, ts: Tokens, i: nat, v: Value, j: nat, room: int) {
    && !g.AValue? && Head(g, p) && Depth(v) <= room && i + |p| + |Flatten(v)| == j <= |ts|
    && Bare(ts)[i..] == p + (Flatten(v) + Bare(ts)[j..])
  }

  // p lies at cursor i.
  predicate HeadAt(g: Goal, p: seq<Token>, ts: Tokens, i: nat) {
    !g.AValue? && Head(g, p) && i + |p| <= |ts| && Bare(ts)[i..] == p + Bare(ts)[i + |p|..]
  }

  lemma FoundElement(g: Goal, p: seq<Token>, ts: Tokens, i: nat, depth: nat, limit: nat)
    requires HeadAt(g, p, ts, i) && depth <= limit && ParseValue(ts, i + |p|, depth, limit).Found?
    ensures var r := ParseValue(ts, i + |p|, depth, limit); Lies(g, p, ts, i, r.value, r.next, limit - depth)
  {
    hide ParseValue, Flatten, Depth, Bare;
    ValueSound(ts, i + |p|, depth, limit);
    var j := ParseValue(ts, i + |p|, depth, limit).next;
    assert Bare(ts)[i + |p|..] == Bare(ts)[i + |p|..j] + Bare(ts)[j..];
  }

  lemma ExplainsFirst(g: Goal, p: seq<Token>, ts: Tokens, i: nat, room: int, e: Error, n: nat, back: bool)
    requires HeadAt(g, p, ts, i) && Explains(AValue, ts, i + |p|, room, e, n, back)
    ensures Explains(g, ts, i, room, e, |p| + n, back)
  {
    hide StuckAt, Bare;
    StuckInFirst(g, p, Bare(ts)[i + |p|..], n, room, e.kind, back);
  }

  // Stuck in the elements after this one.
  lemma ExplainsLater(
    g: Goal, p: seq<Token>, ts: Tokens, i: nat, v: Value, j: nat, room: int, e: Error, n: nat, back: bool)
    requires Lies(g, p, ts, i, v, j, room) && At(ts, j, ValueSeparator) && !At(ts, j + 1, Closer(g))
    requires Explains(g, ts, j + 1, room, e, n, back)
    ensures Explains(g, ts, i, room, e, j + 1 - i + n, back)
  {
    hide StuckAt, Flatten, Depth, Behind, Bare, At;
    CommaAt(ts, j, Closer(g));
    var a, R := Flatten(v), Bare(ts)[j + 1..];
    StuckLater(g, p, a, v, R, n, room, e.kind, back);
    BehindAssoc(p, a, R);
    BehindLength(p, a);
  }

  lemma CommaAt(ts: Tokens, j: nat, t: Token)
    requires At(ts, j, ValueSeparator) && !At(ts, j + 1, t)
    ensures j < |ts| && Bare(ts)[j..] == [ValueSeparator] + Bare(ts)[j + 1..]
    ensures Bare(ts)[j + 1..] == [] || Bare(ts)[j + 1..][0] != t
  {}

  lemma BehindLength(p: seq<Token>, a: seq<Token>)
    ensures |Behind(p, a)| == |p| + |a| + 1
  {}

  // Stuck at the end of an element.
  lemma ExplainsEnd(g: Goal, p: seq<Token>, ts: Tokens, i: nat, v: Value, j: nat, room: int, e: Error)
    returns (n: nat, back: bool)
    requires Lies(g, p, ts, i, v, j, room)
    requires if At(ts, j, ValueSeparator) then At(ts, j + 1, Closer(g)) else !At(ts, j, Closer(g))
    requires e == Misfit(ts, j)
    ensures Explains(g, ts, i, room, e, n, back)
  {
    hide StuckAt, Flatten, Depth;
    var R := Bare(ts)[j..];
    back := At(ts, j, ValueSeparator);
    if back {
      StuckComma(g, p, Flatten(v), v, R, room);
      n := j + 1 - i;
    } else {
      StuckAfter(g, p, Flatten(v), v, R, room);
      n := j - i;
    }
  }

  lemma {:induction false} ValueStuck(ts: Tokens, i: nat, depth: nat, limit: nat) returns (n: nat, back: bool)
    requires i <= |ts| && depth <= limit && ParseValue(ts, i, depth, limit).Fail?
    ensures Explains(AValue, ts, i, limit - depth, ParseValue(ts, i, depth, limit).error, n, back)
    decreases |ts| - i, 1
  {
    hide StuckAt, Bare, ParseItems, ParseMembers;
    var T, room := Bare(ts)[i..], limit - depth;
    n, back := 0, false;
    if i == |ts| {
      assert T == [];
      StuckEmpty(AValue, room);
    } else {
      assert T[0] == ts[i].token;
      if Closes(T[0]) || T[0] == ValueSeparator || T[0] == NameSeparator {
        StuckNoValue(T, room);
      } else if room == 0 {
        StuckNoRoom(T, room);
      } else {
        var g := if T[0] == BeginArray then SomeItems else SomeMembers;
        if g.SomeItems? {
          n, back := ItemsStuck(ts, i + 1, depth + 1, limit, []);
        } else {
          n, back := MembersStuck(ts, i + 1, depth + 1, limit, []);
        }
        assert T == [Opener(g)] + Bare(ts)[i + 1..];
        assert i + 1 < |ts| ==> Bare(ts)[i + 1..][0] == ts[i + 1].token;
        StuckBracketed(g, Bare(ts)[i + 1..], n, room, ParseValue(ts, i, depth, limit).error.kind, back);
        n := n + 1;
      }
    }
  }

  lemma {:induction false} ItemsStuck(ts: Tokens, i: nat, depth: nat, limit: nat, items: seq<Value>)
    returns (n: nat, back: bool)
    requires i <= |ts| && depth <= limit && ParseItems(ts, i, depth, limit, items).Fail?
    ensures Explains(SomeItems, ts, i, limit - depth, ParseItems(ts, i, depth, limit, items).error, n, back)
    decreases |ts| - i, 2
  {
    hide Explains, HeadAt, Lies, ParseValue, ParseItems, At;
    var room := limit - depth;
    ItemsStep(ts, i, depth, limit, items);
    NoHead(ts, i);
    var r := ParseValue(ts, i, depth, limit);
    if r.Fail? {
      n, back := ValueStuck(ts, i, depth, limit);
      ExplainsFirst(SomeItems, [], ts, i, room, r.error, n, back);
    } else {
      FoundElement(SomeItems, [], ts, i, depth, limit);
      if At(ts, r.next, ValueSeparator) && !At(ts, r.next + 1, EndArray) {
        n, back := ItemsStuck(ts, r.next + 1, depth, limit, items + [r.value]);
        var e := ParseItems(ts, r.next + 1, depth, limit, items + [r.value]).error;
        ExplainsLater(SomeItems, [], ts, i, r.value, r.next, room, e, n, back);
        n := r.next + 1 - i + n;
      } else {
        n, back := ExplainsEnd(SomeItems, [], ts, i, r.value, r.next, room, Misfit(ts, r.next));
      }
    }
  }

  lemma NoHead(ts: Tokens, i: nat)
    requires i <= |ts|
    ensures HeadAt(SomeItems, [], ts, i)
  {
    assert [] + Bare(ts)[i..] == Bare(ts)[i..];
  }

  lemma ItemsStep(ts: Tokens, i: nat, depth: nat, limit: nat, items: seq<Value>)
    requires i <= |ts|
    ensures var r := ParseItems(ts, i, depth, limit, items);
            match ParseValue(ts, i, depth, limit)
            case Fail(error) => r == Fail(error)
            case Found(v, j) =>
              if At(ts, j, ValueSeparator) && !At(ts, j + 1, EndArray) then
                j < |ts| && r == ParseItems(ts, j + 1, depth, limit, items + [v])
              else if !At(ts, j, ValueSeparator) && At(ts, j, EndArray) then r.Found?
              else r == Fail(Misfit(ts, j))
  {
    hide ParseValue;
  }

  lemma MembersStep(ts: Tokens, i: nat, depth: nat, limit: nat, members: seq<Member>)
    requires i + 2 <= |ts| && ts[i].token.StringToken? && At(ts, i + 1, NameSeparator)
    ensures var r := ParseMembers(ts, i, depth, limit, members);
            match ParseValue(ts, i + 2, depth, limit)
            case Fail(error) => r == Fail(error)
            case Found(v, j) =>
              if At(ts, j, ValueSeparator) && !At(ts, j + 1, EndObject) then
                j < |ts| && r == ParseMembers(ts, j + 1, depth, limit, members + [Member(ts[i].token.s, v)])
              else if !At(ts, j, ValueSeparator) && At(ts, j, EndObject) then r.Found?
              else r == Fail(Misfit(ts, j))
  {
    hide ParseValue;
  }

  lemma {:induction false} MembersStuck(ts: Tokens, i: nat, depth: nat, limit: nat, members: seq<Member>)
    returns (n: nat, back: bool)
    requires i <= |ts| && depth <= limit && ParseMembers(ts, i, depth, limit, members).Fail?
    ensures Explains(SomeMembers, ts, i, limit - depth, ParseMembers(ts, i, depth, limit, members).error, n, back)
    decreases |ts| - i, 2
  {
    hide StuckAt, Bare, ParseValue;
    var T, room := Bare(ts)[i..], limit - depth;
    if i == |ts| {
      n, back := 0, false;
      assert T == [];
      StuckEmpty(SomeMembers, room);
    } else if !ts[i].token.StringToken? {
      n, back := 0, false;
      StuckNoKey(T, room);
    } else if !At(ts, i + 1, NameSeparator) {
      n, back := 1, false;
      assert i + 1 < |ts| ==> T[1] == ts[i + 1].token;
      StuckNoColon(T, room);
    } else {
      n, back := ValuesStuck(ts, i, depth, limit, members);
    }
  }

  // From the value of a member on.
  lemma {:induction false} ValuesStuck(ts: Tokens, i: nat, depth: nat, limit: nat, members: seq<Member>)
    returns (n: nat, back: bool)
    requires i + 2 <= |ts| && depth <= limit && ParseMembers(ts, i, depth, limit, members).Fail?
    requires ts[i].token.StringToken? && At(ts, i + 1, NameSeparator)
    ensures Explains(SomeMembers, ts, i, limit - depth, ParseMembers(ts, i, depth, limit, members).error, n, back)
    decreases |ts| - i, 1
  {
    hide Explains, HeadAt, Lies, ParseValue, ParseMembers, At;
    var room, p := limit - depth, [ts[i].token, NameSeparator];
    MembersStep(ts, i, depth, limit, members);
    KeyHead(ts, i);
    var r := ParseValue(ts, i + 2, depth, limit);
    if r.Fail? {
      n, back := ValueStuck(ts, i + 2, depth, limit);
      ExplainsFirst(SomeMembers, p, ts, i, room, r.error, n, back);
      n := 2 + n;
    } else {
      FoundElement(SomeMembers, p, ts, i, depth, limit);
      if At(ts, r.next, ValueSeparator) && !At(ts, r.next + 1, EndObject) {
        var more := members + [Member(ts[i].token.s, r.value)];
        n, back := MembersStuck(ts, r.next + 1, depth, limit, more);
        var e := ParseMembers(ts, r.next + 1, depth, limit, more).error;
        ExplainsLater(SomeMembers, p, ts, i, r.value, r.next, room, e, n, back);
        n := r.next + 1 - i + n;
      } else {
        n, back := ExplainsEnd(SomeMembers, p, ts, i, r.value, r.next, room, Misfit(ts, r.next));
      }
    }
  }

  lemma KeyHead(ts: Tokens, i: nat)
    requires i + 2 <= |ts| && ts[i].token.StringToken? && At(ts, i + 1, NameSeparator)
    ensures HeadAt(SomeMembers, [ts[i].token, NameSeparator], ts, i)
  {}
}
