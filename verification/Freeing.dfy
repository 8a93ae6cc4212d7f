// What freeing a tree takes away (cjson-rs-ffi/src/convert.rs, free_cjson).
module Freeing {
  import opened Memory
  import opened Forests
  import opened Links

  // The tree under c lies in memory as the forest says, strings included.
  predicate Freeable(m: Nodes, t: Strings, f: Forest, c: Ptr) {
    && Keyed(f) && c in f.cells && m.Keys !! t.Keys
    && (forall x :: x in Below(f, c) ==> x in f.cells && LinkedAt(m, f, x))
    && StringsOf(f, Below(f, c)) <= t.Keys
  }

  lemma RootFreeable(m: Nodes, f: Forest, c: Ptr)
    requires Inv(f) && Linked(m, f) && c in f.cells
    ensures Freeable(m, f.strs, f, c)
  {
    hide Shaped, Owned, LinkedAt;
  }

  lemma MinusLinkedAt(m: Nodes, f: Forest, x: Ptr, gone: set<Ptr>)
    requires Keyed(f) && x in f.cells && LinkedAt(m, f, x) && x !in gone
    requires forall i :: 0 <= i < |f.kids[x]| ==> f.kids[x][i] !in gone
    ensures LinkedAt(m - gone, f, x)
  {
    forall i | 0 <= i < |f.kids[x]|
      ensures StrungAt(m - gone, f.kids[x], i)
    {
      assert StrungAt(m, f.kids[x], i);
    }
  }

  lemma BelowAnyStep(f: Forest, ks: seq<Ptr>, i: nat)
    requires i < |ks|
    ensures BelowAny(f, ks[..i + 1]) == BelowAny(f, ks[..i]) + Below(f, ks[i])
  {
    assert ks[..i + 1] == ks[..i] + [ks[i]];
  }

  lemma StringsOfSum(f: Forest, a: set<Ptr>, b: set<Ptr>)
    ensures StringsOf(f, a + b) == StringsOf(f, a) + StringsOf(f, b)
  {}

  // The strings one node owns.
  lemma NodeStrings(f: Forest, c: Ptr)
    requires Inv(f) && c in f.cells
    ensures forall q :: q in StringsOf(f, {c}) <==>
              q != NULL && (q == Held(f.cells[c], TextSlot) || q == Held(f.cells[c], KeySlot))
  {
    hide Shaped, Owned;
    OwnsFact(f, c, TextSlot);
    OwnsFact(f, c, KeySlot);
    forall q | q in StringsOf(f, {c})
      ensures q != NULL && (q == Held(f.cells[c], TextSlot) || q == Held(f.cells[c], KeySlot))
    {
      OwnedFact(f, q);
    }
  }

  // After the first i children of c are gone, child i is intact.
  lemma FreeKid(m: Nodes, t: Strings, f: Forest, c: Ptr, i: nat)
    requires Inv(f) && Freeable(m, t, f, c) && i < |f.kids[c]|
    ensures var gone := BelowAny(f, f.kids[c][..i]);
            && Freeable(m - gone, t - StringsOf(f, gone), f, f.kids[c][i])
            && f.kids[c][i] in m - gone && m[f.kids[c][i]].next == At(f.kids[c], i + 1)
            && Below(f, f.kids[c][i]) < Below(f, c)
  {
    hide Shaped, Owned, LinkedAt, BelowAny, Below;
    var ks := f.kids[c];
    var k := ks[i];
    var gone := BelowAny(f, ks[..i]);
    KidAbove(f, c, k);
    KidNext(m, t, f, c, i);
    forall x | x in Below(f, k)
      ensures x in f.cells && x in Below(f, c) && x !in gone && LinkedAt(m - gone, f, x)
    {
      KidInside(f, c, i, x);
      forall j | 0 <= j < |f.kids[x]|
        ensures f.kids[x][j] !in gone
      {
        KidAbove(f, x, f.kids[x][j]);
        BelowKid(f, k, x, f.kids[x][j]);
        KidInside(f, c, i, f.kids[x][j]);
      }
      MinusLinkedAt(m, f, x, gone);
    }
    BelowSelf(f, c);
    KidOutside(f, c, i);
    KidInside(f, c, i, k) by {
      BelowSelf(f, k);
    }
    StringsApart(f, Below(f, k), Below(f, c), gone);
  }

  lemma StringsApart(f: Forest, a: set<Ptr>, b: set<Ptr>, gone: set<Ptr>)
    requires a <= b && a !! gone
    ensures StringsOf(f, a) <= StringsOf(f, b) && StringsOf(f, a) !! StringsOf(f, gone)
  {}

  lemma KidNext(m: Nodes, t: Strings, f: Forest, c: Ptr, i: nat)
    requires Inv(f) && Freeable(m, t, f, c) && i < |f.kids[c]|
    ensures f.kids[c][i] in m && m[f.kids[c][i]].next == At(f.kids[c], i + 1)
  {
    hide Shaped, Owned;
    BelowSelf(f, c);
    assert LinkedAt(m, f, c);
    assert StrungAt(m, f.kids[c], i);
  }

  lemma BelowSelf(f: Forest, c: Ptr)
    requires Inv(f) && c in f.cells
    ensures c in Below(f, c)
  {
    hide Shaped, Owned;
    SelfAbove(f, c);
  }

  lemma BelowKid(f: Forest, k: Ptr, x: Ptr, y: Ptr)
    requires Inv(f) && x in f.cells && x in Below(f, k) && y in f.kids[x]
    ensures y in Below(f, k)
  {
    hide Shaped, Owned;
    KidAbove(f, x, y);
  }

  // What is below child i of c is below c, and below no earlier child.
  lemma KidInside(f: Forest, c: Ptr, i: nat, x: Ptr)
    requires Inv(f) && c in f.cells && i < |f.kids[c]| && x in Below(f, f.kids[c][i])
    ensures x in f.cells && x in Below(f, c) && x !in BelowAny(f, f.kids[c][..i])
  {
    hide Shaped, Owned;
    var k := f.kids[c][i];
    KidAbove(f, c, k);
    AncestorsNest(f, x, k);
    ListFact(f, c);
    if j :| j in f.kids[c][..i] && j in f.above[x] {
      KidsApart(f, c, j, k, x);
    }
  }

  lemma KidOutside(f: Forest, c: Ptr, i: nat)
    requires Inv(f) && c in f.cells && i < |f.kids[c]|
    ensures c !in Below(f, f.kids[c][i])
  {
    hide Shaped, Owned;
    KidAbove(f, c, f.kids[c][i]);
  }

  // With the children gone, the node and its strings are what is left.
  lemma FreeLast(f: Forest, c: Ptr)
    requires Inv(f) && c in f.cells
    ensures Below(f, c) == BelowAny(f, f.kids[c]) + {c} && c !in BelowAny(f, f.kids[c])
    ensures StringsOf(f, Below(f, c)) == StringsOf(f, BelowAny(f, f.kids[c])) + StringsOf(f, {c})
    ensures StringsOf(f, BelowAny(f, f.kids[c])) !! StringsOf(f, {c})
  {
    hide Shaped, Owned, Below, BelowAny;
    BelowSplits(f, c);
    StringsOfSum(f, BelowAny(f, f.kids[c]), {c});
  }
}
