// What equality is: the same value up to the order of members, the two zeros,
// and, in that mode, the case of the letters of keys.
module Equality {
  import opened Numbers
  import opened Values
  import opened Comparing

  // ---- Equal leaves and keys, by themselves ----

  predicate IsZero(x: Num) { x.Finite? && x.coef == 0 }

  predicate SameNumber(x: Num, y: Num) { x == y || (IsZero(x) && IsZero(y)) }

  // The same character, or two cases of one of the letters A to Z.
  predicate SameLetter(c: char, d: char) {
    || c == d
    || (0x41 <= c as int <= 0x5A && d as int == c as int + 0x20)
    || (0x41 <= d as int <= 0x5A && c as int == d as int + 0x20)
  }

  predicate SameKey(a: string, b: string, cs: bool) {
    if cs then a == b else |a| == |b| && forall i :: 0 <= i < |a| ==> SameLetter(a[i], b[i])
  }

  // The members of b are those of a in some order, at every level.
  ghost predicate Same(a: Value, b: Value, cs: bool)
    decreases a
  {
    match a
    case Number(x) => b.Number? && SameNumber(x, b.n)
    case Array(x) =>
      b.Array? && |x| == |b.items| && forall i :: 0 <= i < |x| ==> Same(x[i], b.items[i], cs)
    case Object(x) =>
      && b.Object? && |x| == |b.members|
      && exists p: seq<nat> ::
           && |p| == |x| && Injective(p) && Into(p, |x|)
           && forall i :: 0 <= i < |x| ==>
                SameKey(x[i].key, b.members[p[i]].key, cs) && Same(x[i].value, b.members[p[i]].value, cs)
    case _ => b == a
  }

  // No object of v, at any level, has two members of the same key and value.
  ghost predicate Twinless(v: Value, cs: bool)
    decreases v
  {
    match v
    case Array(items) => forall i :: 0 <= i < |items| ==> Twinless(items[i], cs)
    case Object(members) =>
      && (forall i :: 0 <= i < |members| ==> Twinless(members[i].value, cs))
      && (forall i, j :: 0 <= i < |members| && 0 <= j < |members| && i != j ==>
            !(SameKey(members[i].key, members[j].key, cs) && Same(members[i].value, members[j].value, cs)))
    case _ => true
  }

  // ---- They are what the comparison uses ----

  lemma FloatEqExactly(x: Num, y: Num)
    ensures FloatEq(x, y) <==> !x.NaN? && SameNumber(x, y)
  {}

  lemma LowerCharExactly(c: char, d: char)
    ensures LowerChar(c) == LowerChar(d) <==> SameLetter(c, d)
  {}

  lemma KeysMatchExactly(a: string, b: string, cs: bool)
    ensures KeysMatch(a, b, cs) <==> SameKey(a, b, cs)
  {
    hide LowerChar, SameLetter;
    forall i | 0 <= i < |a| && i < |b|
      ensures LowerChar(a[i]) == LowerChar(b[i]) <==> SameLetter(a[i], b[i])
    {
      LowerCharExactly(a[i], b[i]);
    }
  }

  // ---- Equality of values ----

  // Without not-a-number and twins on the left, equal values are those with the
  // same members in some order.
  lemma {:induction false} SameExactly(a: Value, b: Value, cs: bool)
    requires !HasNaN(a) && NoTwins(a, cs)
    ensures Compare(a, b, cs) <==> Same(a, b, cs)
    decreases a, 1
  {
    hide KeysMatch, SameKey, FloatEq, SameNumber;
    match a
    case Number(x) =>
      if b.Number? {
        FloatEqExactly(x, b.n);
      }
    case Array(x) =>
      if b.Array? && |x| == |b.items| {
        forall i | 0 <= i < |x|
          ensures Compare(x[i], b.items[i], cs) <==> Same(x[i], b.items[i], cs)
        {
          SameExactly(x[i], b.items[i], cs);
        }
      }
    case Object(x) =>
      if b.Object? && |x| == |b.members| {
        SameMembers(x, b.members, cs);
      }
    case _ =>
  }

  lemma {:induction false} SameMembers(x: seq<Member>, y: seq<Member>, cs: bool)
    requires |x| == |y| && !HasNaN(Object(x)) && NoTwins(Object(x), cs)
    ensures Compare(Object(x), Object(y), cs) <==> Same(Object(x), Object(y), cs)
    decreases x, 0
  {
    hide KeysMatch, SameKey, Compare, HasMatch;
    forall i, j | 0 <= i < |x| && 0 <= j < |y|
      ensures MemberEq(x[i], y[j], cs)
              <==> SameKey(x[i].key, y[j].key, cs) && Same(x[i].value, y[j].value, cs)
    {
      KeysMatchExactly(x[i].key, y[j].key, cs);
      SameExactly(x[i].value, y[j].value, cs);
    }
    if Compare(Object(x), Object(y), cs) {
      MatchesAll(x, y, cs);
      var p := seq(|x|, i requires 0 <= i < |x| => MatchIndex(x[i], y, cs));
      MatchesApart(x, y, p, cs);
      assert forall i :: 0 <= i < |x| ==> MemberEq(x[i], y[p[i]], cs);
    }
    if Same(Object(x), Object(y), cs) {
      var p: seq<nat> :|
        && |p| == |x| && Injective(p) && Into(p, |x|)
        && forall i :: 0 <= i < |x| ==>
             SameKey(x[i].key, y[p[i]].key, cs) && Same(x[i].value, y[p[i]].value, cs);
      forall i | 0 <= i < |x|
        ensures HasMatch(x[i], y, cs)
      {
        assert MemberEq(x[i], y[p[i]], cs);
        MatchIs(x[i], y, p[i], cs);
      }
      AllMatch(x, y, cs);
    }
  }

  lemma MatchesAll(x: seq<Member>, y: seq<Member>, cs: bool)
    requires Compare(Object(x), Object(y), cs)
    ensures |x| == |y| && forall i :: 0 <= i < |x| ==> HasMatch(x[i], y, cs)
  {
    hide HasMatch;
  }

  lemma AllMatch(x: seq<Member>, y: seq<Member>, cs: bool)
    requires |x| == |y| && forall i :: 0 <= i < |x| ==> HasMatch(x[i], y, cs)
    ensures Compare(Object(x), Object(y), cs)
  {
    hide HasMatch;
  }

  // Without twins two members never match the same one.
  lemma MatchesApart(x: seq<Member>, y: seq<Member>, p: seq<nat>, cs: bool)
    requires |p| == |x| && !TwinsAt(x, cs) && Into(p, |y|)
    requires forall i :: 0 <= i < |x| ==> NoTwins(x[i].value, cs) && MemberEq(x[i], y[p[i]], cs)
    ensures Injective(p)
  {
    hide KeysMatch, Compare, MemberEq, NoTwins;
    forall i, j | 0 <= i < j < |p|
      ensures p[i] != p[j]
    {
      if p[i] == p[j] {
        MemberBack(x[j], y[p[j]], cs);
        MemberTransitive(x[i], y[p[i]], x[j], cs);
      }
    }
  }

  lemma MemberBack(m: Member, n: Member, cs: bool)
    requires MemberEq(m, n, cs) && NoTwins(m.value, cs)
    ensures MemberEq(n, m, cs)
  {
    hide KeysMatch, Compare, NoTwins;
    Symmetric(m.value, n.value, cs);
    KeysMatchSym(m.key, n.key, cs);
  }

  lemma {:induction false} TwinlessExactly(v: Value, cs: bool)
    requires !HasNaN(v)
    ensures Twinless(v, cs) <==> NoTwins(v, cs)
    decreases v
  {
    hide KeysMatch, SameKey, Compare, Same, MemberEq;
    match v
    case Array(x) =>
      forall i | 0 <= i < |x|
        ensures Twinless(x[i], cs) <==> NoTwins(x[i], cs)
      {
        TwinlessExactly(x[i], cs);
      }
    case Object(x) =>
      forall i | 0 <= i < |x|
        ensures Twinless(x[i].value, cs) <==> NoTwins(x[i].value, cs)
      {
        TwinlessExactly(x[i].value, cs);
      }
      forall i, j | 0 <= i < |x| && 0 <= j < |x| && NoTwins(x[i].value, cs)
        ensures MemberEq(x[i], x[j], cs)
                <==> SameKey(x[i].key, x[j].key, cs) && Same(x[i].value, x[j].value, cs)
      {
        MemberSame(x[i], x[j], cs);
      }
    case _ =>
  }

  lemma MemberSame(m: Member, n: Member, cs: bool)
    requires !HasNaN(m.value) && NoTwins(m.value, cs)
    ensures MemberEq(m, n, cs) <==> SameKey(m.key, n.key, cs) && Same(m.value, n.value, cs)
  {
    hide KeysMatch, SameKey, Compare, Same, NoTwins;
    KeysMatchExactly(m.key, n.key, cs);
    SameExactly(m.value, n.value, cs);
  }

  // The comparison is true of exactly the reorderings.
  lemma ComparesExactly(a: Value, b: Value, cs: bool)
    requires !HasNaN(a) && Twinless(a, cs)
    ensures Compare(a, b, cs) <==> Same(a, b, cs)
  {
    TwinlessExactly(a, cs);
    SameExactly(a, b, cs);
  }

  // ---- With twins and not-a-number ----

  // Every item and member of a is met by one of b, of as many; and a holds no
  // not-a-number.
  ghost predicate Met(a: Value, b: Value, cs: bool)
    decreases a, 1
  {
    match a
    case Number(x) => b.Number? && !x.NaN? && SameNumber(x, b.n)
    case Array(x) =>
      b.Array? && |x| == |b.items| && forall i :: 0 <= i < |x| ==> Met(x[i], b.items[i], cs)
    case Object(x) =>
      b.Object? && |x| == |b.members| && forall i :: 0 <= i < |x| ==> MemberMet(x[i], b.members, cs)
    case _ => b == a
  }

  ghost predicate MemberMet(m: Member, ms: seq<Member>, cs: bool)
    decreases m, 2
  {
    exists j :: 0 <= j < |ms| && SameKey(m.key, ms[j].key, cs) && Met(m.value, ms[j].value, cs)
  }

  // On all values the comparison is true of exactly these.
  lemma {:induction false} MeetsExactly(a: Value, b: Value, cs: bool)
    ensures Compare(a, b, cs) <==> Met(a, b, cs)
    decreases a, 1
  {
    hide KeysMatch, SameKey, FloatEq, SameNumber, HasMatch, MemberMet;
    match a
    case Number(x) =>
      if b.Number? {
        FloatEqExactly(x, b.n);
      }
    case Array(x) =>
      if b.Array? && |x| == |b.items| {
        forall i | 0 <= i < |x|
          ensures Compare(x[i], b.items[i], cs) <==> Met(x[i], b.items[i], cs)
        {
          MeetsExactly(x[i], b.items[i], cs);
        }
      }
    case Object(x) =>
      if b.Object? && |x| == |b.members| {
        forall i | 0 <= i < |x|
          ensures HasMatch(x[i], b.members, cs) <==> MemberMet(x[i], b.members, cs)
        {
          MemberMeets(x[i], b.members, cs);
        }
      }
    case _ =>
  }

  lemma {:induction false} MemberMeets(m: Member, ms: seq<Member>, cs: bool)
    ensures HasMatch(m, ms, cs) <==> MemberMet(m, ms, cs)
    decreases m, 2
  {
    hide KeysMatch, SameKey, Met, Compare;
    forall j | 0 <= j < |ms|
      ensures MemberEq(m, ms[j], cs) <==> SameKey(m.key, ms[j].key, cs) && Met(m.value, ms[j].value, cs)
    {
      KeysMatchExactly(m.key, ms[j].key, cs);
      MeetsExactly(m.value, ms[j].value, cs);
    }
  }
}
