// Structural comparison (cjson-rs-ffi/src/lib.rs, compare_values): objects as
// sets of members, in either case mode.
module Comparing {
  import opened Numbers
  import opened Values

  // ---- The comparison ----

  // Equality of floats: not-a-number equals nothing, the two zeros are equal.
  predicate FloatEq(x: Num, y: Num) {
    match x
    case Finite(_, c, _) => y.Finite? && (x == y || (c == 0 && y.coef == 0))
    case Infinite(neg) => y == Infinite(neg)
    case NaN => false
  }

  function LowerChar(c: char): char {
    if 'A' <= c <= 'Z' then (c as int + 32) as char else c
  }

  predicate KeysMatch(a: string, b: string, caseSensitive: bool) {
    if caseSensitive then a == b
    else |a| == |b| && forall i :: 0 <= i < |a| ==> LowerChar(a[i]) == LowerChar(b[i])
  }

  predicate Compare(a: Value, b: Value, cs: bool)
    decreases a, 1
  {
    match a
    case Null => b == Null
    case Bool(x) => b == Bool(x)
    case Number(x) => b.Number? && FloatEq(x, b.n)
    case String(x) => b == String(x)
    case Array(x) =>
      b.Array? && |x| == |b.items| && forall i :: 0 <= i < |x| ==> Compare(x[i], b.items[i], cs)
    case Object(x) =>
      b.Object? && |x| == |b.members| && forall i :: 0 <= i < |x| ==> HasMatch(x[i], b.members, cs)
  }

  // Some member has a matching key and an equal value.
  predicate HasMatch(m: Member, ms: seq<Member>, cs: bool)
    decreases m, 3
  {
    exists j :: 0 <= j < |ms| && MemberEq(m, ms[j], cs)
  }

  predicate MemberEq(m: Member, n: Member, cs: bool)
    decreases m, 2
  {
    KeysMatch(m.key, n.key, cs) && Compare(m.value, n.value, cs)
  }

  // ---- Keys ----

  lemma KeysMatchTrans(a: string, b: string, c: string, cs: bool)
    requires KeysMatch(a, b, cs) && KeysMatch(b, c, cs)
    ensures KeysMatch(a, c, cs)
  {}

  lemma KeysMatchSym(a: string, b: string, cs: bool)
    ensures KeysMatch(a, b, cs) <==> KeysMatch(b, a, cs)
  {}

  lemma FloatEqEquivalence(x: Num, y: Num, z: Num)
    ensures FloatEq(x, y) <==> FloatEq(y, x)
    ensures FloatEq(x, y) && FloatEq(y, z) ==> FloatEq(x, z)
    ensures FloatEq(x, x) <==> !x.NaN?
  {}

  // ---- Transitivity: on all values ----

  lemma {:induction false} Transitive(a: Value, b: Value, c: Value, cs: bool)
    requires Compare(a, b, cs) && Compare(b, c, cs)
    ensures Compare(a, c, cs)
    decreases a, 1
  {
    hide KeysMatch;
    match a
    case Number(x) => FloatEqEquivalence(x, b.n, c.n);
    case Array(x) =>
      forall i | 0 <= i < |x|
        ensures Compare(x[i], c.items[i], cs)
      {
        Transitive(x[i], b.items[i], c.items[i], cs);
      }
    case Object(x) =>
      forall i | 0 <= i < |x|
        ensures HasMatch(x[i], c.members, cs)
      {
        var j :| 0 <= j < |b.members| && MemberEq(x[i], b.members[j], cs);
        assert HasMatch(b.members[j], c.members, cs);
        var k :| 0 <= k < |c.members| && MemberEq(b.members[j], c.members[k], cs);
        MemberTransitive(x[i], b.members[j], c.members[k], cs);
      }
    case _ =>
  }

  lemma {:induction false} MemberTransitive(m: Member, n: Member, o: Member, cs: bool)
    requires MemberEq(m, n, cs) && MemberEq(n, o, cs)
    ensures MemberEq(m, o, cs)
    decreases m, 0
  {
    KeysMatchTrans(m.key, n.key, o.key, cs);
    Transitive(m.value, n.value, o.value, cs);
  }

  // ---- Reflexivity: exactly on the values without not-a-number ----

  predicate HasNaN(v: Value)
    decreases v
  {
    match v
    case Number(n) => n.NaN?
    case Array(items) => exists i :: 0 <= i < |items| && HasNaN(items[i])
    case Object(members) => exists i :: 0 <= i < |members| && HasNaN(members[i].value)
    case _ => false
  }

  // A value with a not-a-number anywhere equals nothing.
  lemma {:induction false} NaNEqualsNothing(a: Value, b: Value, cs: bool)
    requires HasNaN(a)
    ensures !Compare(a, b, cs)
    decreases a
  {
    hide KeysMatch;
    match a
    case Array(x) =>
      var i :| 0 <= i < |x| && HasNaN(x[i]);
      if b.Array? && i < |b.items| {
        NaNEqualsNothing(x[i], b.items[i], cs);
      }
    case Object(x) =>
      var i :| 0 <= i < |x| && HasNaN(x[i].value);
      if b.Object? {
        forall j | 0 <= j < |b.members|
          ensures !MemberEq(x[i], b.members[j], cs)
        {
          NaNEqualsNothing(x[i].value, b.members[j].value, cs);
        }
        assert !HasMatch(x[i], b.members, cs);
      }
    case _ =>
  }

  lemma {:induction false} WithoutNaN(a: Value, cs: bool)
    requires !HasNaN(a)
    ensures Compare(a, a, cs)
    decreases a
  {
    hide KeysMatch;
    match a
    case Array(x) =>
      forall i | 0 <= i < |x|
        ensures Compare(x[i], x[i], cs)
      {
        WithoutNaN(x[i], cs);
      }
    case Object(x) =>
      forall i | 0 <= i < |x|
        ensures HasMatch(x[i], x, cs)
      {
        WithoutNaN(x[i].value, cs);
        KeyItself(x[i].key, cs);
        assert MemberEq(x[i], x[i], cs);
      }
    case _ =>
  }

  lemma KeyItself(k: string, cs: bool)
    ensures KeysMatch(k, k, cs)
  {}

  lemma ReflexiveExactly(a: Value, cs: bool)
    ensures Compare(a, a, cs) <==> !HasNaN(a)
  {
    if HasNaN(a) {
      NaNEqualsNothing(a, a, cs);
    } else {
      WithoutNaN(a, cs);
    }
  }

  // ---- The two case modes ----

  lemma {:induction false} SensitiveImpliesInsensitive(a: Value, b: Value)
    requires Compare(a, b, true)
    ensures Compare(a, b, false)
    decreases a
  {
    match a
    case Array(x) =>
      forall i | 0 <= i < |x|
        ensures Compare(x[i], b.items[i], false)
      {
        SensitiveImpliesInsensitive(x[i], b.items[i]);
      }
    case Object(x) =>
      forall i | 0 <= i < |x|
        ensures HasMatch(x[i], b.members, false)
      {
        assert HasMatch(x[i], b.members, true);
        var j :| 0 <= j < |b.members| && MemberEq(x[i], b.members[j], true);
        SensitiveImpliesInsensitive(x[i].value, b.members[j].value);
        assert MemberEq(x[i], b.members[j], false);
      }
    case _ =>
  }

  // ---- Pigeonhole ----

  predicate Injective(f: seq<nat>) {
    forall i, j :: 0 <= i < j < |f| ==> f[i] != f[j]
  }

  predicate Into(f: seq<nat>, n: nat) {
    forall i :: 0 <= i < |f| ==> f[i] < n
  }

  function Below(n: nat): (s: set<nat>)
    ensures |s| == n
    ensures forall k: nat :: k in s <==> k < n
  {
    if n == 0 then {} else Below(n - 1) + {n - 1}
  }

  function Image(f: seq<nat>): set<nat> {
    set k | k in f
  }

  lemma {:induction false} ImageSize(f: seq<nat>)
    requires Injective(f)
    ensures |Image(f)| == |f|
  {
    if f != [] {
      var g, last := f[..|f| - 1], f[|f| - 1];
      ImageSize(g);
      assert f == g + [last];
      assert last !in g;
      assert Image(f) == Image(g) + {last};
    }
  }

  lemma SubsetOfSameSize(a: set<nat>, b: set<nat>)
    requires a <= b && |a| == |b|
    ensures a == b
  {
    assert |b - a| == |b| - |a|;
  }

  // An injection of a finite range into itself reaches everything.
  lemma Pigeonhole(f: seq<nat>, k: nat) returns (i: nat)
    requires Injective(f) && Into(f, |f|) && k < |f|
    ensures i < |f| && f[i] == k
  {
    ImageSize(f);
    SubsetOfSameSize(Image(f), Below(|f|));
    assert k in Image(f);
    i :| 0 <= i < |f| && f[i] == k;
  }

  // ---- Symmetry ----

  // No object, at any level, has two members of which one equals the other.
  predicate NoTwins(v: Value, cs: bool)
    decreases v
  {
    match v
    case Array(items) => forall i :: 0 <= i < |items| ==> NoTwins(items[i], cs)
    case Object(members) =>
      && (forall i :: 0 <= i < |members| ==> NoTwins(members[i].value, cs))
      && !TwinsAt(members, cs)
    case _ => true
  }

  predicate TwinsAt(members: seq<Member>, cs: bool) {
    exists i, j :: 0 <= i < |members| && 0 <= j < |members| && i != j && MemberEq(members[i], members[j], cs)
  }

  // The keys of every object are pairwise distinct (up to case, in that mode).
  predicate DistinctKeys(v: Value, cs: bool)
    decreases v
  {
    match v
    case Array(items) => forall i :: 0 <= i < |items| ==> DistinctKeys(items[i], cs)
    case Object(members) =>
      && (forall i :: 0 <= i < |members| ==> DistinctKeys(members[i].value, cs))
      && (forall i, j :: 0 <= i < |members| && 0 <= j < |members| && i != j ==>
            !KeysMatch(members[i].key, members[j].key, cs))
    case _ => true
  }

  lemma {:induction false} DistinctKeysNoTwins(v: Value, cs: bool)
    requires DistinctKeys(v, cs)
    ensures NoTwins(v, cs)
    decreases v
  {
    hide KeysMatch, Compare;
    match v
    case Array(items) =>
      forall i | 0 <= i < |items|
        ensures NoTwins(items[i], cs)
      {
        DistinctKeysNoTwins(items[i], cs);
      }
    case Object(members) =>
      forall i | 0 <= i < |members|
        ensures NoTwins(members[i].value, cs)
      {
        DistinctKeysNoTwins(members[i].value, cs);
      }
    case _ =>
  }

  ghost function MatchIndex(m: Member, ms: seq<Member>, cs: bool): (j: nat)
    requires HasMatch(m, ms, cs)
    ensures j < |ms| && MemberEq(m, ms[j], cs)
  {
    var j :| 0 <= j < |ms| && MemberEq(m, ms[j], cs);
    j
  }

  lemma {:induction false} Symmetric(a: Value, b: Value, cs: bool)
    requires Compare(a, b, cs) && NoTwins(a, cs)
    ensures Compare(b, a, cs)
    decreases a, 1
  {
    hide KeysMatch;
    match a
    case Number(x) => FloatEqEquivalence(x, b.n, x);
    case Array(x) =>
      forall i | 0 <= i < |x|
        ensures Compare(b.items[i], x[i], cs)
      {
        Symmetric(x[i], b.items[i], cs);
      }
    case Object(x) =>
      MembersSymmetric(x, b.members, cs);
    case _ =>
  }

  lemma {:induction false} MembersSymmetric(x: seq<Member>, y: seq<Member>, cs: bool)
    requires |x| == |y| && !TwinsAt(x, cs)
    requires forall i :: 0 <= i < |x| ==> NoTwins(x[i].value, cs) && HasMatch(x[i], y, cs)
    ensures forall k :: 0 <= k < |y| ==> HasMatch(y[k], x, cs)
    decreases x, 0
  {
    hide KeysMatch, Compare, HasMatch, NoTwins;
    var f := seq(|x|, i requires 0 <= i < |x| => MatchIndex(x[i], y, cs));
    forall i | 0 <= i < |x|
      ensures MemberEq(y[f[i]], x[i], cs)
    {
      Symmetric(x[i].value, y[f[i]].value, cs);
      KeysMatchSym(x[i].key, y[f[i]].key, cs);
    }
    forall i, j | 0 <= i < j < |f|
      ensures f[i] != f[j]
    {
      if f[i] == f[j] {
        MemberTransitive(x[i], y[f[j]], x[j], cs);
      }
    }
    forall k | 0 <= k < |y|
      ensures HasMatch(y[k], x, cs)
    {
      var i := Pigeonhole(f, k);
      MatchIs(y[k], x, i, cs);
    }
  }

  lemma MatchIs(m: Member, ms: seq<Member>, j: nat, cs: bool)
    requires j < |ms| && MemberEq(m, ms[j], cs)
    ensures HasMatch(m, ms, cs)
  {}

  // A value with twins, and no not-a-number, equals some value that does not
  // equal it.
  lemma {:induction false} TwinsBreakSymmetry(a: Value, cs: bool) returns (b: Value)
    requires !HasNaN(a) && !NoTwins(a, cs)
    ensures Compare(a, b, cs) && !Compare(b, a, cs)
    decreases a
  {
    hide KeysMatch, Compare, MemberEq, HasMatch;
    match a
    case Array(x) =>
      var i :| 0 <= i < |x| && !NoTwins(x[i], cs);
      var c := TwinsBreakSymmetry(x[i], cs);
      b := Array(x[i := c]);
      ReplacedItem(x, i, c, cs);
    case Object(x) =>
      if TwinsAt(x, cs) {
        var i, j :| 0 <= i < |x| && 0 <= j < |x| && i != j && MemberEq(x[i], x[j], cs);
        var odd := Member(LongKey(x), Null);
        b := Object(x[i := odd]);
        ReplacedMember(x, i, odd, j, cs);
        FreshUnmatched(x, cs);
        UnmatchedDiffers(b.members, i, x, cs);
      } else {
        var i :| 0 <= i < |x| && !NoTwins(x[i].value, cs);
        var c := TwinsBreakSymmetry(x[i].value, cs);
        b := Object(x[i := Member(x[i].key, c)]);
        ReplacedValue(x, i, c, cs);
      }
    case _ =>
  }

  lemma ReplacedItem(x: seq<Value>, i: nat, c: Value, cs: bool)
    requires i < |x| && !HasNaN(Array(x)) && Compare(x[i], c, cs) && !Compare(c, x[i], cs)
    ensures Compare(Array(x), Array(x[i := c]), cs) && !Compare(Array(x[i := c]), Array(x), cs)
  {
    hide KeysMatch;
    var y := x[i := c];
    forall k | 0 <= k < |x|
      ensures Compare(x[k], y[k], cs)
    {
      if k != i {
        WithoutNaN(x[k], cs);
      }
    }
    assert !Compare(y[i], x[i], cs);
  }

  lemma UnmatchedDiffers(y: seq<Member>, i: nat, x: seq<Member>, cs: bool)
    requires i < |y| && !HasMatch(y[i], x, cs)
    ensures !Compare(Object(y), Object(x), cs)
  {
    hide HasMatch;
  }

  lemma ReplacedValue(x: seq<Member>, i: nat, c: Value, cs: bool)
    requires i < |x| && !HasNaN(Object(x)) && !TwinsAt(x, cs)
    requires Compare(x[i].value, c, cs) && !Compare(c, x[i].value, cs)
    ensures var y := x[i := Member(x[i].key, c)];
            Compare(Object(x), Object(y), cs) && !Compare(Object(y), Object(x), cs)
  {
    hide KeysMatch, Compare, HasNaN;
    var m := Member(x[i].key, c);
    KeyItself(x[i].key, cs);
    ReplacedMember(x, i, m, i, cs);
    forall k | 0 <= k < |x|
      ensures !MemberEq(m, x[k], cs)
    {
      if MemberEq(m, x[k], cs) {
        MemberTransitive(x[i], m, x[k], cs);
      }
    }
    UnmatchedDiffers(x[i := m], i, x, cs);
  }

  // Putting m for member i keeps every member of x matched, when member i
  // equals what now stands at j.
  lemma ReplacedMember(x: seq<Member>, i: nat, m: Member, j: nat, cs: bool)
    requires i < |x| && j < |x| && !HasNaN(Object(x))
    requires MemberEq(x[i], x[i := m][j], cs)
    ensures Compare(Object(x), Object(x[i := m]), cs)
  {
    hide KeysMatch;
    var y := x[i := m];
    forall k | 0 <= k < |x|
      ensures HasMatch(x[k], y, cs)
    {
      if k == i {
        MatchIs(x[k], y, j, cs);
      } else {
        WithoutNaN(x[k].value, cs);
        KeyItself(x[k].key, cs);
        MatchIs(x[k], y, k, cs);
      }
    }
  }

  function KeyLengths(x: seq<Member>): (n: nat)
    ensures forall i :: 0 <= i < |x| ==> |x[i].key| < n
  {
    if x == [] then 0 else
      var n := KeyLengths(x[..|x| - 1]);
      assert forall i :: 0 <= i < |x| - 1 ==> x[i] == x[..|x| - 1][i];
      Max(n, |x[|x| - 1].key| + 1)
  }

  // A key longer than any in x.
  function LongKey(x: seq<Member>): (k: string)
    ensures |k| == KeyLengths(x)
  {
    seq(KeyLengths(x), i => 'k')
  }

  lemma FreshUnmatched(x: seq<Member>, cs: bool)
    ensures !HasMatch(Member(LongKey(x), Null), x, cs)
  {}

  // Comparison with a value on the left is symmetric exactly when the value
  // holds a not-a-number (and so equals nothing) or has no twins.
  lemma SymmetricExactly(a: Value, cs: bool)
    ensures (forall b :: Compare(a, b, cs) ==> Compare(b, a, cs)) <==> HasNaN(a) || NoTwins(a, cs)
  {
    if HasNaN(a) {
      forall b
        ensures !Compare(a, b, cs)
      {
        NaNEqualsNothing(a, b, cs);
      }
    } else if NoTwins(a, cs) {
      forall b | Compare(a, b, cs)
        ensures Compare(b, a, cs)
      {
        Symmetric(a, b, cs);
      }
    } else {
      var b := TwinsBreakSymmetry(a, cs);
    }
  }

  // In particular with distinct keys at every level.
  lemma SymmetricWithDistinctKeys(a: Value, b: Value, cs: bool)
    requires DistinctKeys(a, cs) && Compare(a, b, cs)
    ensures Compare(b, a, cs)
  {
    DistinctKeysNoTwins(a, cs);
    Symmetric(a, b, cs);
  }

  // Without distinct keys it can fail: one way {"k": true, "k": true} equals
  // {"k": true, "k": false}, the other way it does not.
  lemma AsymmetricExample()
    ensures var twice := Object([Member("k", Bool(true)), Member("k", Bool(true))]);
            var other := Object([Member("k", Bool(true)), Member("k", Bool(false))]);
            forall cs :: Compare(twice, other, cs) && !Compare(other, twice, cs)
  {
    var t, f := Member("k", Bool(true)), Member("k", Bool(false));
    forall cs
      ensures Compare(Object([t, t]), Object([t, f]), cs) && !Compare(Object([t, f]), Object([t, t]), cs)
    {
      KeyItself("k", cs);
      MatchIs(t, [t, f], 0, cs);
      assert !MemberEq(f, t, cs);
      assert !HasMatch([t, f][1], [t, t], cs);
    }
  }

  // ---- Order of members ----

  // The same value up to the order of members, at every level.
  ghost predicate Shuffled(a: Value, b: Value)
    decreases a
  {
    match a
    case Array(x) =>
      b.Array? && |x| == |b.items| && forall i :: 0 <= i < |x| ==> Shuffled(x[i], b.items[i])
    case Object(x) =>
      && b.Object? && |x| == |b.members|
      && exists p: seq<nat> ::
           && |p| == |x| && Injective(p) && Into(p, |x|)
           && forall i :: 0 <= i < |x| ==>
                x[i].key == b.members[p[i]].key && Shuffled(x[i].value, b.members[p[i]].value)
    case _ => b == a
  }

  // Reordering members, at any level of either side, changes no comparison.
  lemma {:induction false} OrderIrrelevant(a: Value, b: Value, c: Value, cs: bool)
    requires Shuffled(a, b)
    ensures Compare(a, c, cs) <==> Compare(b, c, cs)
    ensures Compare(c, a, cs) <==> Compare(c, b, cs)
    decreases a
  {
    hide KeysMatch, Compare, HasMatch, MemberEq;
    match a
    case Array(x) =>
      forall i, d | 0 <= i < |x|
        ensures Alike(x[i], b.items[i], d, cs)
      {
        OrderIrrelevant(x[i], b.items[i], d, cs);
      }
      ItemsAlike(x, b.items, c, cs);
    case Object(x) =>
      var y := b.members;
      var p: seq<nat> :|
        && |p| == |x| && Injective(p) && Into(p, |x|)
        && forall i :: 0 <= i < |x| ==> x[i].key == y[p[i]].key && Shuffled(x[i].value, y[p[i]].value);
      forall i, d | 0 <= i < |x|
        ensures Alike(x[i].value, y[p[i]].value, d, cs)
      {
        OrderIrrelevant(x[i].value, y[p[i]].value, d, cs);
      }
      MembersAlike(x, y, p, c, cs);
    case _ =>
  }

  // a and b compare alike with c, on either side.
  predicate Alike(a: Value, b: Value, c: Value, cs: bool) {
    && (Compare(a, c, cs) <==> Compare(b, c, cs))
    && (Compare(c, a, cs) <==> Compare(c, b, cs))
  }

  lemma ItemsAlike(x: seq<Value>, y: seq<Value>, c: Value, cs: bool)
    requires |x| == |y|
    requires forall i, d :: 0 <= i < |x| ==> Alike(x[i], y[i], d, cs)
    ensures Alike(Array(x), Array(y), c, cs)
  {
    if c.Array? && |c.items| == |x| {
      forall i | 0 <= i < |x|
        ensures Compare(x[i], c.items[i], cs) <==> Compare(y[i], c.items[i], cs)
        ensures Compare(c.items[i], x[i], cs) <==> Compare(c.items[i], y[i], cs)
      {
        assert Alike(x[i], y[i], c.items[i], cs);
      }
    }
  }

  lemma MembersAlike(x: seq<Member>, y: seq<Member>, p: seq<nat>, c: Value, cs: bool)
    requires |p| == |x| == |y| && Injective(p) && Into(p, |x|)
    requires forall i :: 0 <= i < |x| ==> x[i].key == y[p[i]].key
    requires forall i, d :: 0 <= i < |x| ==> Alike(x[i].value, y[p[i]].value, d, cs)
    ensures Alike(Object(x), Object(y), c, cs)
  {
    hide KeysMatch, HasMatch;
    if c.Object? && |c.members| == |x| {
      forall i, m: Member | 0 <= i < |x|
        ensures MemberEq(x[i], m, cs) <==> MemberEq(y[p[i]], m, cs)
        ensures MemberEq(m, x[i], cs) <==> MemberEq(m, y[p[i]], cs)
      {
        hide Compare;
        assert Alike(x[i].value, y[p[i]].value, m.value, cs);
      }
      MembersReordered(x, y, p, c.members, cs);
    }
  }

  lemma MembersReordered(x: seq<Member>, y: seq<Member>, p: seq<nat>, z: seq<Member>, cs: bool)
    requires |p| == |x| == |y| && Injective(p) && Into(p, |x|)
    requires forall i, m: Member :: 0 <= i < |x| ==> (MemberEq(x[i], m, cs) <==> MemberEq(y[p[i]], m, cs))
    requires forall i, m: Member :: 0 <= i < |x| ==> (MemberEq(m, x[i], cs) <==> MemberEq(m, y[p[i]], cs))
    ensures (forall i :: 0 <= i < |x| ==> HasMatch(x[i], z, cs))
            <==> (forall i :: 0 <= i < |y| ==> HasMatch(y[i], z, cs))
    ensures (forall i :: 0 <= i < |z| ==> HasMatch(z[i], x, cs))
            <==> (forall i :: 0 <= i < |z| ==> HasMatch(z[i], y, cs))
  {
    hide MemberEq, HasMatch;
    forall i | 0 <= i < |x|
      ensures HasMatch(x[i], z, cs) <==> HasMatch(y[p[i]], z, cs)
    {
      SameMatches(x[i], y[p[i]], z, cs);
    }
    if forall i :: 0 <= i < |x| ==> HasMatch(x[i], z, cs) {
      forall k | 0 <= k < |y|
        ensures HasMatch(y[k], z, cs)
      {
        var i := Pigeonhole(p, k);
        assert HasMatch(x[i], z, cs);
      }
    }
    forall i | 0 <= i < |z|
      ensures HasMatch(z[i], x, cs) <==> HasMatch(z[i], y, cs)
    {
      SameTargets(z[i], x, y, p, cs);
    }
  }

  lemma SameMatches(a: Member, b: Member, z: seq<Member>, cs: bool)
    requires forall m: Member :: MemberEq(a, m, cs) <==> MemberEq(b, m, cs)
    ensures HasMatch(a, z, cs) <==> HasMatch(b, z, cs)
  {
    hide MemberEq;
    if HasMatch(a, z, cs) {
      var k :| 0 <= k < |z| && MemberEq(a, z[k], cs);
      MatchIs(b, z, k, cs);
    }
    if HasMatch(b, z, cs) {
      var k :| 0 <= k < |z| && MemberEq(b, z[k], cs);
      MatchIs(a, z, k, cs);
    }
  }

  lemma SameTargets(m: Member, x: seq<Member>, y: seq<Member>, p: seq<nat>, cs: bool)
    requires |p| == |x| == |y| && Injective(p) && Into(p, |x|)
    requires forall i :: 0 <= i < |x| ==> (MemberEq(m, x[i], cs) <==> MemberEq(m, y[p[i]], cs))
    ensures HasMatch(m, x, cs) <==> HasMatch(m, y, cs)
  {
    hide MemberEq;
    if HasMatch(m, x, cs) {
      var i :| 0 <= i < |x| && MemberEq(m, x[i], cs);
      MatchIs(m, y, p[i], cs);
    } else if HasMatch(m, y, cs) {
      var k :| 0 <= k < |y| && MemberEq(m, y[k], cs);
      var i := Pigeonhole(p, k);
      MatchIs(m, x, i, cs);
    }
  }
}
