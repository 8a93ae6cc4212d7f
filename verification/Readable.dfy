// Which trees can be read: the one whose keys are all at hand, exactly, and in
// one way only.
module Readable {
  import opened Bytes
  import opened Memory
  import opened Forests
  import opened Links
  import opened Heaps
  import opened Trees

  predicate NoReferences(f: Forest, xs: set<Ptr>) {
    forall x :: x in xs ==> x in f.cells && !f.cells[x].isRef
  }

  predicate KeysIn(f: Forest, texts: Strings, xs: set<Ptr>) {
    forall x :: x in xs && x in f.cells && f.cells[x].isConst ==> f.cells[x].key in texts
  }

  function TextIn(texts: Strings, q: Ptr): Option<string> {
    if q != NULL && q in texts then Some(UpToNul(texts[q])) else None
  }

  // ---- Trees of the forest ----

  // A node below p stands for a tree when none of its nodes is a reference and
  // all of its const keys are lent, and not otherwise.
  lemma ShownExactly(f: Forest, lent: Strings, p: Ptr)
    requires Inv(f) && p in f.cells
    ensures (exists t: Tree :: t.at == p && Shown(f, lent, t))
            <==> NoReferences(f, Below(f, p)) && KeysIn(f, lent, Below(f, p))
  {
    hide Inv, Shown;
    if NoReferences(f, Below(f, p)) && KeysIn(f, lent, Below(f, p)) {
      var t := ShownBelow(f, lent, p);
    }
    if t: Tree :| t.at == p && Shown(f, lent, t) {
      BelowNodes(f, p);
      forall x | x in Below(f, p)
        ensures !f.cells[x].isRef && (f.cells[x].isConst ==> f.cells[x].key in lent)
      {
        ShownParts(f, lent, t, x);
      }
    }
  }

  lemma BelowNodes(f: Forest, p: Ptr)
    requires Inv(f)
    ensures forall x :: x in Below(f, p) ==> x in f.cells && p in f.above[x]
  {
    hide Shaped, Owned;
  }

  lemma {:induction false} ShownBelow(f: Forest, lent: Strings, p: Ptr) returns (t: Tree)
    requires Inv(f) && p in f.cells && NoReferences(f, Below(f, p)) && KeysIn(f, lent, Below(f, p))
    ensures t.at == p && Shown(f, lent, t)
    decreases Below(f, p), 1
  {
    hide Shaped, Owned, UpToNul, Below, Shown;
    ShownNode(f, lent, p);
    var c := f.cells[p];
    var kids := ShownKids(f, lent, p, 0);
    t := Tree(p, c.kind, c.number, TextIn(f.strs, c.text), TextIn(if c.isConst then lent else f.strs, c.key), kids);
    assert f.kids[p][0..] == f.kids[p];
    ShownIntro(f, lent, t);
  }

  lemma ShownNode(f: Forest, lent: Strings, p: Ptr)
    requires Inv(f) && p in f.cells && NoReferences(f, Below(f, p)) && KeysIn(f, lent, Below(f, p))
    ensures var c := f.cells[p];
            && !c.isRef
            && Reads(f.strs, c.text, TextIn(f.strs, c.text))
            && var texts := if c.isConst then lent else f.strs;
            Reads(texts, c.key, TextIn(texts, c.key))
  {
    hide Shaped, Owned, UpToNul;
    SelfAbove(f, p);
    OwnsFact(f, p, TextSlot);
    OwnsFact(f, p, KeySlot);
  }

  lemma {:induction false} ShownKids(f: Forest, lent: Strings, p: Ptr, i: nat) returns (ts: seq<Tree>)
    requires Inv(f) && p in f.cells && i <= |f.kids[p]|
    requires NoReferences(f, Below(f, p)) && KeysIn(f, lent, Below(f, p))
    ensures Ats(ts) == f.kids[p][i..] && forall j :: 0 <= j < |ts| ==> Shown(f, lent, ts[j])
    decreases Below(f, p), 0, |f.kids[p]| - i
  {
    hide Shaped, Owned, UpToNul, Shown;
    if i == |f.kids[p]| {
      ts := [];
    } else {
      var k := f.kids[p][i];
      KidBelow(f, p, k);
      var first := ShownBelow(f, lent, k);
      var tail := ShownKids(f, lent, p, i + 1);
      ts := [first] + tail;
      assert f.kids[p][i..] == [k] + f.kids[p][i + 1..];
      assert Ats(ts) == [k] + Ats(tail);
    }
  }

  // Each node of a shown tree is plain, or has a key that is lent.
  lemma {:induction false} ShownParts(f: Forest, lent: Strings, t: Tree, x: Ptr)
    requires Inv(f) && Shown(f, lent, t) && x in f.cells && t.at in f.above[x]
    ensures !f.cells[x].isRef && (f.cells[x].isConst ==> f.cells[x].key in lent)
    decreases t
  {
    hide Shaped, Owned, Shown, UpToNul;
    ShownStep(f, lent, t);
    if x != t.at {
      var k := KidTowards(f, t.at, x);
      var i :| 0 <= i < |t.kids| && f.kids[t.at][i] == k;
      ShownParts(f, lent, t.kids[i], x);
    } else if f.cells[x].isConst {
      ConstFact(f, x);
    }
  }

  // ---- Trees read through pointers ----

  // Pointers lead one way only.
  lemma {:induction false} ChainUnique(nodes: Nodes, start: Ptr, ks: seq<Ptr>, js: seq<Ptr>)
    requires Chain(nodes, start, ks) && Chain(nodes, start, js)
    ensures ks == js
    decreases |ks|
  {
    if ks != [] && js != [] {
      ChainTail(nodes, start, ks);
      ChainTail(nodes, start, js);
      ChainUnique(nodes, nodes[start].next, ks[1..], js[1..]);
      assert ks == [start] + ks[1..] && js == [start] + js[1..];
    }
  }

  lemma ChainTail(nodes: Nodes, start: Ptr, ks: seq<Ptr>)
    requires Chain(nodes, start, ks) && ks != []
    ensures ks[0] == start && start != NULL && start in nodes && Chain(nodes, nodes[start].next, ks[1..])
  {}

  // What is read at an address is one tree.
  lemma {:induction false} ViewsUnique(nodes: Nodes, texts: Strings, t: Tree, u: Tree)
    requires Views(nodes, texts, t) && Views(nodes, texts, u) && t.at == u.at
    ensures t == u
    decreases t
  {
    hide Chain, UpToNul;
    ChainUnique(nodes, nodes[t.at].child, Ats(t.kids), Ats(u.kids));
    assert |Ats(t.kids)| == |Ats(u.kids)|;
    forall i | 0 <= i < |t.kids|
      ensures t.kids[i] == u.kids[i]
    {
      assert t.kids[i].at == Ats(t.kids)[i] && u.kids[i].at == Ats(u.kids)[i];
      ViewsUnique(nodes, texts, t.kids[i], u.kids[i]);
    }
    assert t.kids == u.kids;
  }

  lemma ViewedKids(m: Nodes, f: Forest, texts: Strings, t: Tree)
    requires Inv(f) && Linked(m, f) && Views(m, texts, t) && t.at in f.cells && !f.cells[t.at].isRef
    ensures f.kids[t.at] == Ats(t.kids)
    ensures forall i :: 0 <= i < |t.kids| ==> t.kids[i].at in f.kids[t.at]
  {
    hide Shaped, Owned, Linked, Chain, UpToNul;
    ListChained(m, f, t.at);
    ChainUnique(m, m[t.at].child, f.kids[t.at], Ats(t.kids));
    forall i | 0 <= i < |t.kids|
      ensures t.kids[i].at in f.kids[t.at]
    {
      assert Ats(t.kids)[i] == t.kids[i].at;
    }
  }

  // A view of nodes that are no references is a tree of the forest.
  lemma {:induction false} ViewsShown(m: Nodes, f: Forest, texts: Strings, t: Tree)
    requires Inv(f) && Linked(m, f) && Holds(texts, f.strs) && Views(m, texts, t)
    requires t.at in f.cells && NoReferences(f, Below(f, t.at))
    ensures Shown(f, texts, t)
    decreases t
  {
    hide Shaped, Owned, Linked, Chain, UpToNul, Views, Below, Shown, ShownCell;
    ViewedCell(m, f, texts, t);
    ViewedKids(m, f, texts, t);
    forall i | 0 <= i < |t.kids|
      ensures Shown(f, texts, t.kids[i])
    {
      ViewsKid(m, texts, t, i);
      KidBelow(f, t.at, t.kids[i].at);
      ViewsShown(m, f, texts, t.kids[i]);
    }
    ShownIntro(f, texts, t);
  }

  lemma ViewsKid(m: Nodes, texts: Strings, t: Tree, i: nat)
    requires Views(m, texts, t) && i < |t.kids|
    ensures Views(m, texts, t.kids[i])
  {}

  lemma ViewedCell(m: Nodes, f: Forest, texts: Strings, t: Tree)
    requires Inv(f) && Linked(m, f) && Holds(texts, f.strs) && Views(m, texts, t)
    requires t.at in f.cells && NoReferences(f, Below(f, t.at))
    ensures t.at in f.kids && !f.cells[t.at].isRef && ShownCell(f.cells[t.at], f.strs, texts, t)
  {
    hide Shaped, Owned, Linked, Chain, UpToNul;
    SelfAbove(f, t.at);
    KindKept(m, f, t.at);
    OwnsFact(f, t.at, TextSlot);
    OwnsFact(f, t.at, KeySlot);
  }

  // Without references below it, a node can be read exactly when every const
  // key below it can.
  lemma ReadableExactly(m: Nodes, f: Forest, lent: Strings, p: Ptr)
    requires Inv(f) && Linked(m, f) && p in f.cells && NoReferences(f, Below(f, p))
    ensures (exists t: Tree :: t.at == p && Views(m, lent + f.strs, t)) <==> KeysIn(f, lent + f.strs, Below(f, p))
  {
    hide Inv, Linked, Views, Shown, NoReferences, KeysIn, Below;
    var texts := lent + f.strs;
    assert Holds(texts, f.strs) && Holds(texts, texts);
    ShownExactly(f, texts, p);
    if t: Tree :| t.at == p && Shown(f, texts, t) {
      ShownViews(m, f, texts, texts, t);
    }
    if t: Tree :| t.at == p && Views(m, texts, t) {
      ViewsShown(m, f, texts, t);
    }
  }
}
