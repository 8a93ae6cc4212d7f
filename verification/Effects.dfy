// What the list moves do to the trees read on either side: a parent gains or
// loses exactly one child, and nothing else that is read changes.
module Effects {
  import opened Bytes
  import opened Values
  import opened Memory
  import opened Forests
  import opened Links
  import opened Heaps
  import Comparing
  import opened Trees
  import opened Readable

  // ---- What is read stays while what it is made of stays ----

  // The nodes met when t is read, through references as well.
  function Spans(t: Tree): set<Ptr>
    decreases t
  {
    {t.at} + set i, a | 0 <= i < |t.kids| && a in Spans(t.kids[i]) :: a
  }

  // Reading what lies below the trees ts meets none of xs.
  predicate Apart(ts: seq<Tree>, xs: set<Ptr>) {
    forall t, j :: t in ts && 0 <= j < |t.kids| ==> Spans(t.kids[j]) !! xs
  }

  // Reading t meets no string of qs.
  predicate Unfreed(m: Nodes, t: Tree, qs: set<Ptr>) {
    forall a :: a in Spans(t) && a in m ==> m[a].text !in qs && m[a].key !in qs
  }

  predicate SameBody(a: Node, b: Node) {
    a.kind == b.kind && a.number == b.number && a.text == b.text && a.child == b.child
  }

  predicate SameOutside(m: Nodes, n: Nodes, xs: set<Ptr>) {
    forall a :: a in m && a !in xs ==> a in n && n[a] == m[a]
  }

  predicate SameTexts(x: Strings, y: Strings, qs: set<Ptr>) {
    forall q :: q in x && q !in qs ==> q in y && y[q] == x[q]
  }

  lemma {:induction false} ViewsOutside(
    m: Nodes, x: Strings, n: Nodes, y: Strings, t: Tree, xs: set<Ptr>, qs: set<Ptr>)
    requires Views(m, x, t) && SameOutside(m, n, xs) && SameTexts(x, y, qs) && Spans(t) !! xs && Unfreed(m, t, qs)
    ensures Views(n, y, t)
    decreases t
  {
    hide UpToNul;
    assert t.at in Spans(t);
    SpansKids(t);
    forall i | 0 <= i < |t.kids|
      ensures Views(n, y, t.kids[i])
    {
      ViewsOutside(m, x, n, y, t.kids[i], xs, qs);
    }
    ChainOutside(m, n, t, xs);
    assert t.at in m && t.at in n;
  }

  lemma SpansKids(t: Tree)
    ensures t.at in Spans(t)
    ensures forall i :: 0 <= i < |t.kids| ==> Spans(t.kids[i]) <= Spans(t) && t.kids[i].at in Spans(t.kids[i])
  {}

  lemma ChainOutside(m: Nodes, n: Nodes, t: Tree, xs: set<Ptr>)
    requires SameOutside(m, n, xs) && t.at in m && Chain(m, m[t.at].child, Ats(t.kids))
    requires forall i :: 0 <= i < |t.kids| ==> t.kids[i].at !in xs
    ensures Chain(n, m[t.at].child, Ats(t.kids))
  {
    var ks := Ats(t.kids);
    forall i | 0 <= i < |ks|
      ensures ks[i] != NULL && ks[i] in n && n[ks[i]].next == At(ks, i + 1)
    {
      assert ks[i] == t.kids[i].at;
    }
  }

  // The root may find itself in another list, and under another key.
  lemma ViewsRelisted(
    m: Nodes, x: Strings, n: Nodes, y: Strings,
    ts: seq<Tree>, t: Tree, key: Option<string>, xs: set<Ptr>, qs: set<Ptr>)
    requires Views(m, x, t) && SameOutside(m, n, xs) && SameTexts(x, y, qs)
    requires t in ts && Apart(ts, xs) && forall s :: s in t.kids ==> Unfreed(m, s, qs)
    requires t.at in m && t.at in n && SameBody(m[t.at], n[t.at]) && m[t.at].text !in qs && Reads(y, n[t.at].key, key)
    ensures Views(n, y, t.(key := key))
  {
    hide UpToNul, Spans;
    SpansKids(t);
    forall i | 0 <= i < |t.kids|
      ensures t.kids[i].at !in xs && Views(n, y, t.kids[i])
    {
      assert Spans(t.kids[i]) !! xs;
      SpansKids(t.kids[i]);
      ViewsOutside(m, x, n, y, t.kids[i], xs, qs);
    }
    ChainOutside(m, n, t, xs);
  }

  // ---- Attaching and detaching ----

  // The nodes whose links change when the list of t does.
  function ListNodes(t: Tree): set<Ptr> {
    {t.at} + set s | s in t.kids :: s.at
  }

  // A node with the same cell and children has the same body, and outside the
  // list of p it has the same links too.
  lemma BodyKept(m: Nodes, f: Forest, n: Nodes, g: Forest, x: Ptr)
    requires Inv(f) && Linked(m, f) && Keyed(g) && Linked(n, g)
    requires x in f.cells && x in g.cells && g.cells[x] == f.cells[x] && g.kids[x] == f.kids[x]
    ensures x in m && x in n && SameBody(m[x], n[x]) && m[x].key == n[x].key
  {
    hide Shaped, Owned;
    LinkedFact(m, f, x);
    LinkedFact(n, g, x);
  }

  lemma NodeOutside(m: Nodes, f: Forest, n: Nodes, g: Forest, p: Ptr, x: Ptr)
    requires Inv(f) && Linked(m, f) && Keyed(g) && Linked(n, g) && p in f.cells
    requires x in f.cells && x in g.cells && x != p && x !in f.kids[p]
    requires g.cells[x] == f.cells[x] && g.kids[x] == f.kids[x] && g.up[x] == f.up[x]
    requires f.up[x] != NULL && f.up[x] != p ==> f.up[x] in g.cells && g.kids[f.up[x]] == f.kids[f.up[x]]
    ensures x in m && x in n && m[x] == n[x]
  {
    hide Shaped, Owned, Linked;
    UpFact(f, x);
    SameNode(m, n, f, g, x);
  }

  // The trees listed by t, and one more, keep what lies below them.
  lemma ViewsAlong(
    m: Nodes, f: Forest, n: Nodes, g: Forest, x: Strings, y: Strings,
    t: Tree, u: Tree, ts: seq<Tree>, s: Tree, xs: set<Ptr>, qs: set<Ptr>)
    requires Inv(f) && Linked(m, f) && Keyed(g) && Linked(n, g) && t.at in f.cells && !f.cells[t.at].isRef
    requires Views(m, x, t) && Views(m, x, u) && (s in t.kids || s == u)
    requires s.at in f.cells ==> s.at in g.cells && g.cells[s.at] == f.cells[s.at] && g.kids[s.at] == f.kids[s.at]
    requires SameOutside(m, n, xs) && SameTexts(x, y, qs) && s in ts && Apart(ts, xs) && Unfreed(m, s, qs)
    ensures Views(n, y, s)
  {
    hide Shaped, Owned, UpToNul, Linked, Views, Apart, Unfreed;
    LinkedKeys(m, f);
    ViewsParts(m, x, t);
    ViewsParts(m, x, u);
    ViewsParts(m, x, s);
    BodyKept(m, f, n, g, s.at);
    UnfreedRoot(m, s, qs);
    ReadsKept(m, x, y, s, qs);
    UnfreedParts(m, s, qs);
    ViewsRelisted(m, x, n, y, ts, s, s.key, xs, qs);
  }

  lemma UnfreedPart(m: Nodes, t: Tree, s: Tree, qs: set<Ptr>)
    requires Unfreed(m, t, qs) && s in t.kids
    ensures Unfreed(m, s, qs)
  {
    SpansKids(t);
    var i :| 0 <= i < |t.kids| && t.kids[i] == s;
  }

  lemma UnfreedParts(m: Nodes, t: Tree, qs: set<Ptr>)
    requires Unfreed(m, t, qs)
    ensures forall s :: s in t.kids ==> Unfreed(m, s, qs)
  {
    hide Unfreed;
    forall s | s in t.kids
      ensures Unfreed(m, s, qs)
    {
      UnfreedPart(m, t, s, qs);
    }
  }

  lemma ReadsKept(m: Nodes, x: Strings, y: Strings, t: Tree, qs: set<Ptr>)
    requires Views(m, x, t) && SameTexts(x, y, qs) && t.at in m && m[t.at].text !in qs && m[t.at].key !in qs
    ensures Reads(y, m[t.at].text, t.text) && Reads(y, m[t.at].key, t.key)
  {
    hide UpToNul, Chain;
  }

  lemma UnfreedRoot(m: Nodes, t: Tree, qs: set<Ptr>)
    requires Unfreed(m, t, qs) && t.at in m
    ensures m[t.at].text !in qs && m[t.at].key !in qs
  {
    assert t.at in Spans(t);
  }

  lemma ViewsParts(m: Nodes, x: Strings, t: Tree)
    requires Views(m, x, t)
    ensures t.at in m && t.at != NULL && forall s :: s in t.kids ==> Views(m, x, s)
  {
    hide UpToNul, Chain;
  }

  // A list with new children.
  lemma Relisted(m: Nodes, f: Forest, n: Nodes, g: Forest, x: Strings, y: Strings, t: Tree, kids: seq<Tree>)
    requires Inv(f) && Linked(m, f) && Inv(g) && Linked(n, g) && Views(m, x, t)
    requires t.at in m && t.at in f.cells && t.at in g.cells && g.cells[t.at] == f.cells[t.at] && !f.cells[t.at].isRef
    requires g.kids[t.at] == Ats(kids) && forall s :: s in kids ==> Views(n, y, s)
    requires Reads(y, m[t.at].text, t.text) && Reads(y, m[t.at].key, t.key)
    ensures Views(n, y, t.(kids := kids))
  {
    hide Shaped, Owned, Linked, Chain, UpToNul;
    KindKept(m, f, t.at);
    KindKept(n, g, t.at);
    ListChained(n, g, t.at);
  }

  // Attaching u as child k of t.
  lemma InsertEffect(m: Nodes, f: Forest, n: Nodes, texts: Strings, t: Tree, k: nat, u: Tree)
    requires Inv(f) && Linked(m, f) && CanPut(f, t.at, u.at) && k <= |t.kids| && k <= |f.kids[t.at]|
    requires var g := Put(f, t.at, k, u.at); Keyed(g) && Linked(n, g)
    requires Views(m, texts, t) && Views(m, texts, u) && Apart(t.kids + [u], ListNodes(t) + {u.at})
    ensures Views(n, texts, t.(kids := t.kids[..k] + [u] + t.kids[k..]))
    ensures Views(n, texts, u)
  {
    hide Shaped, Owned, UpToNul, Put, Linked, Views, Apart, Chain, ListNodes, Unfreed;
    var p, c := t.at, u.at;
    var g, all, xs := Put(f, p, k, c), t.kids + [u], ListNodes(t) + {c};
    var kids := t.kids[..k] + [u] + t.kids[k..];
    ViewedKids(m, f, texts, t);
    LinkedKeys(m, f);
    forall a | a in m && a !in xs
      ensures a in n && n[a] == m[a]
    {
      PutOutside(m, f, n, t, k, c, a);
    }
    forall s | s in all
      ensures Views(n, texts, s)
    {
      PutListed(m, f, texts, t, k, u, s);
      NothingFreed(m, texts, s);
      ViewsAlong(m, f, n, g, texts, texts, t, u, all, s, xs, {});
    }
    assert Ats(kids) == Inserted(f.kids[p], k, c);
    PutAt(f, p, k, c, p);
    PutKeepsInv(f, p, k, c);
    NothingFreed(m, texts, t);
    Relisted(m, f, n, g, texts, texts, t, kids);
  }

  lemma NothingFreed(m: Nodes, x: Strings, t: Tree)
    ensures Unfreed(m, t, {})
    ensures Views(m, x, t) ==> t.at in m && Reads(x, m[t.at].text, t.text) && Reads(x, m[t.at].key, t.key)
  {
    hide UpToNul, Chain;
  }

  lemma PutOutside(m: Nodes, f: Forest, n: Nodes, t: Tree, k: nat, c: Ptr, a: Ptr)
    requires Inv(f) && Linked(m, f) && CanPut(f, t.at, c) && k <= |f.kids[t.at]| && f.kids[t.at] == Ats(t.kids)
    requires var g := Put(f, t.at, k, c); Keyed(g) && Linked(n, g)
    requires a in f.cells && a !in ListNodes(t) + {c}
    ensures a in m && a in n && n[a] == m[a]
  {
    hide Shaped, Owned, Linked, Put;
    var p := t.at;
    PutAt(f, p, k, c, a);
    UpFact(f, a);
    if f.up[a] != NULL {
      PutAt(f, p, k, c, f.up[a]);
    }
    NotListed(t, a);
    NodeOutside(m, f, n, Put(f, p, k, c), p, a);
  }

  lemma NotListed(t: Tree, a: Ptr)
    requires a !in ListNodes(t)
    ensures a != t.at && a !in Ats(t.kids)
  {
    forall i | 0 <= i < |t.kids|
      ensures Ats(t.kids)[i] != a
    {
      assert t.kids[i] in t.kids;
    }
  }

  lemma PutListed(m: Nodes, f: Forest, texts: Strings, t: Tree, k: nat, u: Tree, s: Tree)
    requires Inv(f) && CanPut(f, t.at, u.at) && k <= |f.kids[t.at]|
    requires Views(m, texts, t) && f.kids[t.at] == Ats(t.kids) && s in t.kids + [u]
    ensures var g := Put(f, t.at, k, u.at);
            && s.at in f.cells && s.at in g.cells && s.at in f.kids && s.at in g.kids
            && g.cells[s.at] == f.cells[s.at] && g.kids[s.at] == f.kids[s.at]
  {
    hide Shaped, Owned, Put, Views;
    var p, c := t.at, u.at;
    SelfAbove(f, p);
    if s in t.kids {
      var i :| 0 <= i < |t.kids| && t.kids[i] == s;
      assert f.kids[p][i] == s.at;
      KidAbove(f, p, s.at);
    }
    PutAt(f, p, k, c, s.at);
  }

  // Detaching child k of t.
  lemma DetachEffect(m: Nodes, f: Forest, n: Nodes, texts: Strings, t: Tree, k: nat)
    requires Inv(f) && Linked(m, f) && k < |t.kids| && CanTake(f, t.at, k)
    requires var g := Take(f, t.at, k); Keyed(g) && Linked(n, g)
    requires Views(m, texts, t) && Apart(t.kids, ListNodes(t))
    ensures f.kids[t.at][k] == t.kids[k].at
    ensures Views(n, texts, t.(kids := t.kids[..k] + t.kids[k + 1..]))
    ensures Views(n, texts, t.kids[k])
  {
    hide Shaped, Owned, UpToNul, Take, Linked, Views, Apart, Chain, ListNodes, Unfreed;
    var g, xs := Take(f, t.at, k), ListNodes(t);
    var kids := t.kids[..k] + t.kids[k + 1..];
    KidRef(f, t.at);
    ViewedKids(m, f, texts, t);
    LinkedKeys(m, f);
    forall a | a in m && a !in xs
      ensures a in n && n[a] == m[a]
    {
      TakeOutside(m, f, n, t, k, a);
    }
    forall s | s in t.kids
      ensures Views(n, texts, s)
    {
      ListedKid(f, t, s);
      TakeAt(f, t.at, k, s.at);
      NothingFreed(m, texts, s);
      ViewsAlong(m, f, n, g, texts, texts, t, t, t.kids, s, xs, {});
    }
    assert Ats(kids) == Removed(f.kids[t.at], k);
    TakeAt(f, t.at, k, t.at);
    TakeKeepsInv(f, t.at, k);
    NothingFreed(m, texts, t);
    Relisted(m, f, n, g, texts, texts, t, kids);
  }

  lemma TakeOutside(m: Nodes, f: Forest, n: Nodes, t: Tree, k: nat, a: Ptr)
    requires Inv(f) && Linked(m, f) && CanTake(f, t.at, k) && f.kids[t.at] == Ats(t.kids)
    requires var g := Take(f, t.at, k); Keyed(g) && Linked(n, g)
    requires a in f.cells && a !in ListNodes(t)
    ensures a in m && a in n && n[a] == m[a]
  {
    hide Shaped, Owned, Linked, Take, ListNodes;
    var p := t.at;
    NotListed(t, a);
    TakeAt(f, p, k, a);
    UpFact(f, a);
    if f.up[a] != NULL {
      TakeAt(f, p, k, f.up[a]);
    }
    NodeOutside(m, f, n, Take(f, p, k), p, a);
  }

  lemma ListedKid(f: Forest, t: Tree, s: Tree)
    requires Inv(f) && t.at in f.cells && f.kids[t.at] == Ats(t.kids) && s in t.kids
    ensures s.at in f.kids[t.at] && s.at in f.cells && s.at != t.at && f.up[s.at] == t.at
    ensures s.at in f.kids
  {
    hide Shaped, Owned;
    var i :| 0 <= i < |t.kids| && t.kids[i] == s;
    assert f.kids[t.at][i] == s.at;
    KidAbove(f, t.at, s.at);
  }

  // ---- Replacing ----

  // A tree that takes a key if it has none.
  function KeyedAs(u: Tree, key: Option<string>): Tree {
    if u.key == None then u.(key := key) else u
  }

  // Replace, node by node.
  lemma ReplaceAt(f: Forest, p: Ptr, k: nat, r: Ptr, a: Ptr)
    requires Inv(f) && CanReplace(f, p, k, r) && a in f.cells
    ensures var item, g := f.kids[p][k], Replace(f, p, k, r);
            && (a in g.cells <==> item !in f.above[a])
            && (item !in f.above[a] ==>
                  && a in g.kids && a in g.up
                  && g.cells[a] == (if a == r && KeyMoves(f, item, r) then f.cells[a].(key := f.cells[item].key)
                                    else f.cells[a])
                  && g.kids[a] == (if a == p then f.kids[p][k := r] else f.kids[a])
                  && g.up[a] == (if a == r then p else f.up[a]))
  {
    hide Shaped, Owned, Take, Put, Drop, Swap;
    var item := f.kids[p][k];
    SwapAt(f, p, k, r, a);
    SwapRoot(f, p, k, r);
    SelfAbove(f, item);
    if item in f.above[a] {
      DropGone(Swap(f, p, k, r), item, a);
    } else {
      DropAt(Swap(f, p, k, r), item, a);
    }
  }

  lemma SwapAt(f: Forest, p: Ptr, k: nat, r: Ptr, a: Ptr)
    requires Inv(f) && CanReplace(f, p, k, r) && a in f.cells
    ensures var item, g := f.kids[p][k], Swap(f, p, k, r);
            && g.strs == f.strs && a in g.cells && a in g.kids && a in g.up && a in g.above
            && (item in g.above[a] <==> item in f.above[a])
            && (a != item ==>
                  g.cells[a] == (if a == r && KeyMoves(f, item, r) then f.cells[a].(key := f.cells[item].key)
                                 else f.cells[a]))
            && g.kids[a] == (if a == p then f.kids[p][k := r] else f.kids[a])
            && (a != item ==> g.up[a] == (if a == r then p else f.up[a]))
  {
    hide Shaped, Owned, Take, Put;
    var item := f.kids[p][k];
    KidAbove(f, p, item);
    CanPutTaken(f, p, k, r);
    var f1 := Take(f, p, k);
    TakeAt(f, p, k, a);
    TakeAt(f, p, k, p);
    PutAt(f1, p, k, r, a);
    assert Inserted(Removed(f.kids[p], k), k, r) == f.kids[p][k := r];
  }

  lemma DropGone(f: Forest, c: Ptr, x: Ptr)
    requires Keyed(f) && x in f.cells && c in f.above[x]
    ensures x !in Drop(f, c).cells
  {}

  // The strings freed with the old child.
  function Freed(f: Forest, p: Ptr, k: nat, r: Ptr): set<Ptr>
    requires CanReplace(f, p, k, r)
  {
    f.strs.Keys - Replace(f, p, k, r).strs.Keys
  }

  // A key that moves is not freed.
  lemma MovedKeyStays(f: Forest, p: Ptr, k: nat, r: Ptr)
    requires Inv(f) && CanReplace(f, p, k, r) && !ConstKeyMoves(f, p, k, r) && KeyMoves(f, f.kids[p][k], r)
    ensures f.cells[f.kids[p][k]].key !in Freed(f, p, k, r)
  {
    hide Shaped, Owned, Take, Put, Drop;
    var item := f.kids[p][k];
    OwnsFact(f, item, KeySlot);
    CanPutTaken(f, p, k, r);
    SwapRoot(f, p, k, r);
    StringStays(Swap(f, p, k, r), item, r, f.cells[item].key);
  }

  lemma StringStays(f: Forest, c: Ptr, x: Ptr, q: Ptr)
    requires Keyed(f) && x in Drop(f, c).cells && q in f.strs && f.owner[q].at == x
    ensures q in Drop(f, c).strs
  {}

  // Replacing child k of t by u changes t in that place only; u comes with the
  // key of the old child if it had none. Nothing else that is read may rest on
  // what is freed or relinked.
  lemma ReplaceEffect(m: Nodes, f: Forest, n: Nodes, x: Strings, y: Strings, t: Tree, k: nat, u: Tree)
    requires Inv(f) && Linked(m, f) && k < |t.kids| && CanReplace(f, t.at, k, u.at) && !ConstKeyMoves(f, t.at, k, u.at)
    requires var g := Replace(f, t.at, k, u.at); Keyed(g) && Linked(n, g)
    requires Views(m, x, t) && Views(m, x, u)
    requires var freed := Freed(f, t.at, k, u.at);
             var rest := t.(kids := t.kids[..k] + t.kids[k + 1..]);
             && SameTexts(x, y, freed) && Unfreed(m, rest, freed) && Unfreed(m, u, freed)
             && Apart(rest.kids + [u], ListNodes(t) + {u.at} + Below(f, t.kids[k].at))
    ensures Views(n, y, t.(kids := t.kids[k := KeyedAs(u, t.kids[k].key)]))
  {
    hide Shaped, Owned, UpToNul, Replace, Linked, Views, Apart, Chain, ListNodes, Unfreed, Freed, CanReplace;
    hide ConstKeyMoves, Below;
    var p, r, item := t.at, u.at, t.kids[k];
    var g, freed := Replace(f, p, k, r), Freed(f, p, k, r);
    var rest := t.(kids := t.kids[..k] + t.kids[k + 1..]);
    var all, xs := rest.kids + [u], ListNodes(t) + {r} + Below(f, item.at);
    var kids := t.kids[k := KeyedAs(u, item.key)];
    CanReplaceParts(f, p, k, r);
    ViewedKids(m, f, x, t);
    LinkedKeys(m, f);
    forall a | a in m && a !in xs
      ensures a in n && n[a] == m[a]
    {
      ReplaceOutside(m, f, n, t, k, r, a);
    }
    forall s | s in rest.kids
      ensures Views(n, y, s)
    {
      ReplaceListed(f, t, k, r, s);
      UnfreedPart(m, rest, s, freed);
      ViewsAlong(m, f, n, g, x, y, t, u, all, s, xs, freed);
    }
    ReplacedView(m, f, n, x, y, t, k, u, all, xs);
    assert Ats(kids) == f.kids[p][k := r];
    KidAbove(f, p, item.at);
    ReplaceAt(f, p, k, r, p);
    ReplaceKeepsInv(f, p, k, r);
    forall s | s in kids
      ensures Views(n, y, s)
    {
      KidsWithout(t.kids, k, KeyedAs(u, item.key), s);
    }
    UnfreedRoot(m, rest, freed);
    ReadsKept(m, x, y, t, freed);
    Relisted(m, f, n, g, x, y, t, kids);
  }

  lemma CanReplaceParts(f: Forest, p: Ptr, k: nat, r: Ptr)
    requires CanReplace(f, p, k, r)
    ensures Keyed(f) && p in f.cells && !f.cells[p].isRef && r in f.cells && k < |f.kids[p]| && f.kids[p][k] in f.cells
    ensures f.up[r] == NULL && r !in f.above[p] && r != f.kids[p][k]
  {}

  lemma ReplaceOutside(m: Nodes, f: Forest, n: Nodes, t: Tree, k: nat, r: Ptr, a: Ptr)
    requires Inv(f) && Linked(m, f) && CanReplace(f, t.at, k, r) && f.kids[t.at] == Ats(t.kids)
    requires var g := Replace(f, t.at, k, r); Keyed(g) && Linked(n, g)
    requires a in f.cells && a !in ListNodes(t) + {r} + Below(f, f.kids[t.at][k])
    ensures a in m && a in n && n[a] == m[a]
  {
    hide Shaped, Owned, Linked, Replace, ListNodes;
    var p := t.at;
    NotListed(t, a);
    ReplaceAt(f, p, k, r, a);
    AboveFact(f, a);
    UpFact(f, a);
    if f.up[a] != NULL {
      ReplaceAt(f, p, k, r, f.up[a]);
    }
    NodeOutside(m, f, n, Replace(f, p, k, r), p, a);
  }

  lemma ReplaceListed(f: Forest, t: Tree, k: nat, r: Ptr, s: Tree)
    requires Inv(f) && CanReplace(f, t.at, k, r) && f.kids[t.at] == Ats(t.kids)
    requires k < |t.kids| && s in t.kids[..k] + t.kids[k + 1..]
    ensures var g := Replace(f, t.at, k, r);
            && s in t.kids && s.at in f.cells && s.at in g.cells && s.at in f.kids && s.at in g.kids
            && g.cells[s.at] == f.cells[s.at] && g.kids[s.at] == f.kids[s.at]
  {
    hide Shaped, Owned, Replace;
    var p, item := t.at, t.kids[k].at;
    var i :| 0 <= i < |t.kids| && i != k && t.kids[i] == s;
    ListedKid(f, t, s);
    ListedKid(f, t, t.kids[k]);
    ListFact(f, p);
    assert f.kids[p][i] == s.at && f.kids[p][k] == item;
    KidAbove(f, p, s.at);
    KidAbove(f, p, item);
    ReplaceAt(f, p, k, r, s.at);
  }

  // The replacement in its new place.
  lemma ReplacedView(
    m: Nodes, f: Forest, n: Nodes, x: Strings, y: Strings, t: Tree, k: nat, u: Tree, ts: seq<Tree>, xs: set<Ptr>)
    requires Inv(f) && Linked(m, f) && k < |t.kids| && CanReplace(f, t.at, k, u.at) && !ConstKeyMoves(f, t.at, k, u.at)
    requires var g := Replace(f, t.at, k, u.at); Keyed(g) && Linked(n, g)
    requires Views(m, x, t) && Views(m, x, u) && f.kids[t.at][k] == t.kids[k].at
    requires var freed := Freed(f, t.at, k, u.at); SameTexts(x, y, freed) && Unfreed(m, u, freed)
    requires SameOutside(m, n, xs) && u in ts && Apart(ts, xs)
    ensures Views(n, y, KeyedAs(u, t.kids[k].key))
  {
    hide Shaped, Owned, UpToNul, Replace, Linked, Views, Apart, Chain, Unfreed, Freed, CanReplace, Below;
    var p, r, item := t.at, u.at, t.kids[k];
    var freed := Freed(f, p, k, r);
    CanReplaceParts(f, p, k, r);
    KidAbove(f, p, item.at);
    AboveFact(f, r);
    ReplaceAt(f, p, k, r, r);
    LinkedFact(m, f, r);
    LinkedFact(n, Replace(f, p, k, r), r);
    LinkedFact(m, f, item.at);
    UnfreedRoot(m, u, freed);
    ReadsKept(m, x, y, u, freed);
    ViewsParts(m, x, t);
    ReadsKey(m, x, u);
    ReadsKey(m, x, item);
    if KeyMoves(f, item.at, r) {
      MovedKeyStays(f, p, k, r);
    }
    UnfreedParts(m, u, freed);
    ViewsRelisted(m, x, n, y, ts, u, KeyedAs(u, item.key).key, xs, freed);
  }

  lemma ReadsKey(m: Nodes, x: Strings, t: Tree)
    requires Views(m, x, t)
    ensures t.at in m && Reads(x, m[t.at].key, t.key)
  {
    hide UpToNul, Chain;
  }

  lemma KidsWithout(ts: seq<Tree>, k: nat, u: Tree, s: Tree)
    requires k < |ts| && s in ts[k := u]
    ensures s == u || s in ts[..k] + ts[k + 1..]
  {
    var i :| 0 <= i < |ts| && ts[k := u][i] == s;
    if i < k {
      assert (ts[..k] + ts[k + 1..])[i] == s;
    } else if i > k {
      assert (ts[..k] + ts[k + 1..])[i - 1] == s;
    }
  }

  // ---- Trees without references meet the conditions ----

  ghost predicate OwnTree(m: Nodes, f: Forest, x: Strings, t: Tree) {
    Views(m, x, t) && t.at in f.cells && NoReferences(f, Below(f, t.at))
  }

  // What is read is then exactly the subtree.
  lemma {:induction false} OwnedSpans(m: Nodes, f: Forest, x: Strings, t: Tree)
    requires Inv(f) && Linked(m, f) && OwnTree(m, f, x, t)
    ensures Spans(t) == Below(f, t.at)
    decreases t
  {
    hide Shaped, Owned, Linked, UpToNul, Views, Chain, Below, BelowAny;
    SelfBelow(f, t.at);
    ViewedKids(m, f, x, t);
    ViewsParts(m, x, t);
    BelowSplits(f, t.at);
    forall i | 0 <= i < |t.kids|
      ensures Spans(t.kids[i]) == Below(f, t.kids[i].at)
    {
      OwnedPart(m, f, x, t, t.kids[i]);
      OwnedSpans(m, f, x, t.kids[i]);
    }
    BelowKids(f, t);
  }

  lemma SelfBelow(f: Forest, p: Ptr)
    requires Inv(f) && p in f.cells
    ensures p in Below(f, p)
  {
    hide Shaped, Owned;
    SelfAbove(f, p);
  }

  lemma OwnedPart(m: Nodes, f: Forest, x: Strings, t: Tree, s: Tree)
    requires Inv(f) && Linked(m, f) && OwnTree(m, f, x, t) && s in t.kids
    ensures OwnTree(m, f, x, s) && f.kids[t.at] == Ats(t.kids) && s.at in f.kids[t.at]
  {
    hide Shaped, Owned, Linked, UpToNul, Views, Chain, Below;
    SelfBelow(f, t.at);
    ViewedKids(m, f, x, t);
    ViewsParts(m, x, t);
    KidBelow(f, t.at, s.at);
  }

  lemma BelowKids(f: Forest, t: Tree)
    requires Keyed(f) && t.at in f.cells && f.kids[t.at] == Ats(t.kids)
    ensures BelowAny(f, f.kids[t.at]) == set i, a | 0 <= i < |t.kids| && a in Below(f, t.kids[i].at) :: a
  {
    forall x, k | k in f.kids[t.at] && x in f.above && k in f.above[x]
      ensures exists i :: 0 <= i < |t.kids| && x in Below(f, t.kids[i].at)
    {
      var i :| 0 <= i < |t.kids| && Ats(t.kids)[i] == k;
      assert x in Below(f, t.kids[i].at);
    }
    forall i, x | 0 <= i < |t.kids| && x in Below(f, t.kids[i].at)
      ensures x in BelowAny(f, f.kids[t.at])
    {
      assert Ats(t.kids)[i] in f.kids[t.at];
    }
  }

  // A node two levels down is above no node of the list, nor above any root.
  lemma GrandkidApart(f: Forest, p: Ptr, s: Ptr, g: Ptr, b: Ptr)
    requires Inv(f) && p in f.cells && s in f.cells && (s in f.kids[p] || CanPut(f, p, s)) && g in f.kids[s]
    requires b == p || b in f.kids[p] || (b in f.cells && f.up[b] == NULL)
    ensures b !in Below(f, g)
  {
    hide Shaped, Owned;
    KidAbove(f, s, g);
    SelfAbove(f, p);
    if s in f.kids[p] {
      KidAbove(f, p, s);
    } else {
      InsideApart(f, p, s, g);
    }
    if b in f.kids[p] {
      KidAbove(f, p, b);
    } else if b != p {
      AboveFact(f, b);
    }
  }

  lemma PartApart(m: Nodes, f: Forest, x: Strings, t: Tree, s: Tree, j: nat, b: Ptr)
    requires Inv(f) && Linked(m, f) && OwnTree(m, f, x, s) && j < |s.kids|
    requires t.at in f.cells && f.kids[t.at] == Ats(t.kids) && (s.at in f.kids[t.at] || CanPut(f, t.at, s.at))
    requires b in ListNodes(t) || (b in f.cells && f.up[b] == NULL)
    ensures b !in Spans(s.kids[j])
  {
    hide Shaped, Owned, Linked, UpToNul, Views, Below, OwnTree;
    OwnedPart(m, f, x, s, s.kids[j]);
    OwnedSpans(m, f, x, s.kids[j]);
    if r :| r in t.kids && r.at == b {
      ListedKid(f, t, r);
    }
    OwnRoot(m, f, x, s);
    GrandkidApart(f, t.at, s.at, s.kids[j].at, b);
  }

  lemma OwnRoot(m: Nodes, f: Forest, x: Strings, t: Tree)
    requires Inv(f) && OwnTree(m, f, x, t)
    ensures t.at in f.cells && t.at in f.kids && !f.cells[t.at].isRef && Views(m, x, t)
  {
    hide Shaped, Owned, UpToNul, Views, Below;
    SelfBelow(f, t.at);
  }

  lemma OwnedApart(m: Nodes, f: Forest, x: Strings, t: Tree, ts: seq<Tree>, xs: set<Ptr>)
    requires Inv(f) && Linked(m, f) && OwnTree(m, f, x, t)
    requires forall s :: s in ts ==> s in t.kids || (OwnTree(m, f, x, s) && CanPut(f, t.at, s.at))
    requires forall b :: b in xs ==> b in ListNodes(t) || (b in f.cells && f.up[b] == NULL)
    ensures Apart(ts, xs)
  {
    hide Shaped, Owned, Linked, UpToNul, Views, Below, OwnTree, Spans, CanPut, ListNodes;
    OwnRoot(m, f, x, t);
    ViewedKids(m, f, x, t);
    forall s, j, b | s in ts && 0 <= j < |s.kids| && b in xs
      ensures b !in Spans(s.kids[j])
    {
      if s in t.kids {
        OwnedPart(m, f, x, t, s);
      }
      PartApart(m, f, x, t, s, j, b);
    }
  }

  // Nothing below the other children or below the replacement is freed.
  lemma BeyondApart(m: Nodes, f: Forest, x: Strings, t: Tree, k: nat, u: Tree, s: Tree, a: Ptr)
    requires Inv(f) && Linked(m, f) && OwnTree(m, f, x, t) && OwnTree(m, f, x, u)
    requires k < |t.kids| && CanReplace(f, t.at, k, u.at) && s in t.kids[..k] + t.kids[k + 1..] + [u]
    requires f.kids[t.at] == Ats(t.kids) && a in Spans(s)
    ensures a in f.cells && t.kids[k].at !in f.above[a]
    ensures s.at in f.cells && s.at in f.above[a] && OwnTree(m, f, x, s)
  {
    hide Shaped, Owned, Linked, UpToNul, Views, OwnTree;
    var p, item := t.at, t.kids[k].at;
    assert Ats(t.kids)[k] == item;
    OwnRoot(m, f, x, t);
    KidAbove(f, p, item);
    SelfAbove(f, p);
    if s == u {
      OwnRoot(m, f, x, u);
      OwnedSpans(m, f, x, u);
      InsideApart(f, p, u.at, a);
      if item in f.above[a] {
        AncestorsNest(f, a, item);
      }
    } else {
      var i :| 0 <= i < |t.kids| && i != k && t.kids[i] == s;
      assert Ats(t.kids)[i] == s.at;
      OwnedPart(m, f, x, t, s);
      OwnedSpans(m, f, x, s);
      ListFact(f, p);
      if item in f.above[a] {
        KidsApart(f, p, s.at, item, a);
      }
    }
  }

  lemma ReplaceApart(m: Nodes, f: Forest, x: Strings, t: Tree, k: nat, u: Tree)
    requires Inv(f) && Linked(m, f) && OwnTree(m, f, x, t) && OwnTree(m, f, x, u)
    requires k < |t.kids| && CanReplace(f, t.at, k, u.at)
    ensures Apart(t.kids[..k] + t.kids[k + 1..] + [u], ListNodes(t) + {u.at} + Below(f, t.kids[k].at))
  {
    hide Shaped, Owned, Linked, UpToNul, Views, OwnTree, Spans, CanReplace, ListNodes;
    var ts := t.kids[..k] + t.kids[k + 1..] + [u];
    CanReplaceParts(f, t.at, k, u.at);
    CanReplacePut(f, t.at, k, u.at);
    OwnRoot(m, f, x, t);
    ViewedKids(m, f, x, t);
    OwnedApart(m, f, x, t, ts, ListNodes(t) + {u.at});
    forall s, j, a | s in ts && 0 <= j < |s.kids| && a in Below(f, t.kids[k].at)
      ensures a !in Spans(s.kids[j])
    {
      SpansKids(s);
      if a in Spans(s.kids[j]) {
        BeyondApart(m, f, x, t, k, u, s, a);
        assert false;
      }
    }
  }

  lemma CanReplacePut(f: Forest, p: Ptr, k: nat, r: Ptr)
    requires CanReplace(f, p, k, r)
    ensures CanPut(f, p, r)
  {}

  // A node that is not freed reads no string that is.
  lemma NodeUnfreed(m: Nodes, f: Forest, lent: Strings, p: Ptr, k: nat, r: Ptr, a: Ptr)
    requires Inv(f) && Linked(m, f) && CanReplace(f, p, k, r) && !ConstKeyMoves(f, p, k, r)
    requires a in f.cells && f.kids[p][k] !in f.above[a] && !f.cells[a].isRef
    requires f.cells[a].isConst ==> f.cells[a].key in lent
    requires lent.Keys !! f.strs.Keys
    ensures a in m && m[a].text !in Freed(f, p, k, r) && m[a].key !in Freed(f, p, k, r)
  {
    hide Shaped, Owned, Linked, Drop, Put, Take;
    var item := f.kids[p][k];
    KindKept(m, f, a);
    SelfAbove(f, a);
    OwnsFact(f, a, TextSlot);
    OwnsFact(f, a, KeySlot);
    CanPutTaken(f, p, k, r);
    SwapRoot(f, p, k, r);
    ReplaceAt(f, p, k, r, a);
    SlotStays(f, p, k, r, a, TextSlot);
    SlotStays(f, p, k, r, a, KeySlot);
  }

  lemma SlotStays(f: Forest, p: Ptr, k: nat, r: Ptr, a: Ptr, s: Slot)
    requires Inv(f) && CanReplace(f, p, k, r) && !ConstKeyMoves(f, p, k, r)
    requires a in f.cells && f.kids[p][k] !in f.above[a]
    ensures Held(f.cells[a], s) !in Freed(f, p, k, r)
  {
    hide Shaped, Owned, Drop, Put, Take;
    var q := Held(f.cells[a], s);
    var item := f.kids[p][k];
    KidAbove(f, p, item);
    SelfAbove(f, item);
    OwnsFact(f, a, s);
    OwnsFact(f, item, KeySlot);
    CanPutTaken(f, p, k, r);
    SwapRoot(f, p, k, r);
    ReplaceAt(f, p, k, r, a);
    if q != NULL {
      StringStays(Swap(f, p, k, r), item, a, q);
    }
  }

  // So replacing in a tree without references, its const keys lent, needs
  // nothing more.
  lemma ReplaceOwned(m: Nodes, f: Forest, n: Nodes, lent: Strings, t: Tree, k: nat, u: Tree)
    requires Inv(f) && Linked(m, f) && k < |t.kids| && CanReplace(f, t.at, k, u.at) && !ConstKeyMoves(f, t.at, k, u.at)
    requires var g := Replace(f, t.at, k, u.at); Keyed(g) && Linked(n, g)
    requires OwnTree(m, f, lent + f.strs, t) && OwnTree(m, f, lent + f.strs, u) && lent.Keys !! f.strs.Keys
    requires KeysIn(f, lent, Below(f, t.at)) && KeysIn(f, lent, Below(f, u.at))
    ensures var g := Replace(f, t.at, k, u.at);
            Views(n, lent + g.strs, t.(kids := t.kids[k := KeyedAs(u, t.kids[k].key)]))
  {
    hide Shaped, Owned, UpToNul, Replace, Linked, Views, Apart, Chain, ListNodes, Spans, CanReplace, ConstKeyMoves;
    hide Below, OwnTree, Freed, Unfreed;
    var x, g, freed := lent + f.strs, Replace(f, t.at, k, u.at), Freed(f, t.at, k, u.at);
    var rest := t.(kids := t.kids[..k] + t.kids[k + 1..]);
    OwnRoot(m, f, x, t);
    OwnRoot(m, f, x, u);
    ReplaceApart(m, f, x, t, k, u);
    ReplaceTexts(f, lent, t.at, k, u.at);
    RestUnfreed(m, f, lent, t, k, u);
    ReplaceEffect(m, f, n, x, lent + g.strs, t, k, u);
  }

  lemma ReplaceTexts(f: Forest, lent: Strings, p: Ptr, k: nat, r: Ptr)
    requires Inv(f) && CanReplace(f, p, k, r) && lent.Keys !! f.strs.Keys
    ensures SameTexts(lent + f.strs, lent + Replace(f, p, k, r).strs, Freed(f, p, k, r))
  {
    hide Shaped, Owned, Put, Take;
    CanPutTaken(f, p, k, r);
    DropTexts(Swap(f, p, k, r), f.kids[p][k]);
  }

  lemma DropTexts(f: Forest, c: Ptr)
    ensures forall q :: q in Drop(f, c).strs ==> q in f.strs && Drop(f, c).strs[q] == f.strs[q]
  {}

  lemma RestUnfreed(m: Nodes, f: Forest, lent: Strings, t: Tree, k: nat, u: Tree)
    requires Inv(f) && Linked(m, f) && k < |t.kids| && CanReplace(f, t.at, k, u.at) && !ConstKeyMoves(f, t.at, k, u.at)
    requires OwnTree(m, f, lent + f.strs, t) && OwnTree(m, f, lent + f.strs, u) && lent.Keys !! f.strs.Keys
    requires KeysIn(f, lent, Below(f, t.at)) && KeysIn(f, lent, Below(f, u.at))
    ensures var freed := Freed(f, t.at, k, u.at);
            && Unfreed(m, t.(kids := t.kids[..k] + t.kids[k + 1..]), freed) && Unfreed(m, u, freed)
  {
    hide Shaped, Owned, UpToNul, Replace, Linked, Views, CanReplace, ConstKeyMoves, Below, Freed, OwnTree;
    var x, p, r, freed := lent + f.strs, t.at, u.at, Freed(f, t.at, k, u.at);
    var rest := t.(kids := t.kids[..k] + t.kids[k + 1..]);
    OwnRoot(m, f, x, t);
    ViewedKids(m, f, x, t);
    CanReplaceParts(f, p, k, r);
    assert Ats(t.kids)[k] == t.kids[k].at;
    KidAbove(f, p, t.kids[k].at);
    forall a | a in Spans(rest) + Spans(u) && a in m
      ensures m[a].text !in freed && m[a].key !in freed
    {
      if a != p {
        var s := RestSpan(t, k, u, a);
        BeyondApart(m, f, x, t, k, u, s, a);
      }
      if a in Spans(rest) {
        RestWithin(t, k, a);
      }
      OwnedNode(m, f, lent, t, u, a);
      NodeUnfreed(m, f, lent, p, k, r, a);
    }
  }

  lemma RestSpan(t: Tree, k: nat, u: Tree, a: Ptr) returns (s: Tree)
    requires k < |t.kids| && a != t.at
    requires a in Spans(t.(kids := t.kids[..k] + t.kids[k + 1..])) + Spans(u)
    ensures s in t.kids[..k] + t.kids[k + 1..] + [u] && a in Spans(s)
  {
    s := u;
    if a !in Spans(u) {
      var kids := t.kids[..k] + t.kids[k + 1..];
      var i :| 0 <= i < |kids| && a in Spans(kids[i]);
      s := kids[i];
    }
  }

  lemma RestWithin(t: Tree, k: nat, a: Ptr)
    requires k < |t.kids| && a in Spans(t.(kids := t.kids[..k] + t.kids[k + 1..]))
    ensures a in Spans(t)
  {
    var kids := t.kids[..k] + t.kids[k + 1..];
    if a != t.at {
      var i :| 0 <= i < |kids| && a in Spans(kids[i]);
      assert kids[i] in t.kids;
    }
  }

  lemma OwnedNode(m: Nodes, f: Forest, lent: Strings, t: Tree, u: Tree, a: Ptr)
    requires Inv(f) && Linked(m, f) && OwnTree(m, f, lent + f.strs, t) && OwnTree(m, f, lent + f.strs, u)
    requires KeysIn(f, lent, Below(f, t.at)) && KeysIn(f, lent, Below(f, u.at)) && a in Spans(t) + Spans(u)
    ensures a in f.cells && !f.cells[a].isRef && (f.cells[a].isConst ==> f.cells[a].key in lent)
  {
    hide Shaped, Owned, UpToNul, Linked, Views, Below, Spans;
    OwnedSpans(m, f, lent + f.strs, t);
    OwnedSpans(m, f, lent + f.strs, u);
  }

  // ---- Looking up after replacing ----

  // The first child with a matching key, as get_object_item finds it.
  function Lookup(ts: seq<Tree>, key: string, cs: bool): (k: nat)
    ensures k <= |ts|
  {
    if ts == [] || HasKey(ts[0], key, cs) then 0 else 1 + Lookup(ts[1..], key, cs)
  }

  predicate HasKey(t: Tree, key: string, cs: bool) {
    t.key.Some? && Comparing.KeysMatch(t.key.value, key, cs)
  }

  lemma {:induction false} LookupIs(ts: seq<Tree>, key: string, cs: bool, k: nat)
    requires k <= |ts|
    ensures Lookup(ts, key, cs) == k <==>
            (forall j :: 0 <= j < k ==> !HasKey(ts[j], key, cs)) && (k < |ts| ==> HasKey(ts[k], key, cs))
  {
    hide HasKey;
    if ts != [] && !HasKey(ts[0], key, cs) && k > 0 {
      LookupIs(ts[1..], key, cs, k - 1);
    }
  }

  // The replacement keeps a key of its own, so the key that found the old
  // child finds the replacement exactly when that had none or a matching one.
  lemma ReplacedFound(ts: seq<Tree>, k: nat, u: Tree, key: string, cs: bool)
    requires k < |ts| && Lookup(ts, key, cs) == k
    ensures Lookup(ts[k := KeyedAs(u, ts[k].key)], key, cs) == k <==> u.key == None || HasKey(u, key, cs)
  {
    hide Comparing.KeysMatch, Lookup;
    LookupIs(ts, key, cs, k);
    LookupIs(ts[k := KeyedAs(u, ts[k].key)], key, cs, k);
  }

  // So a child found under "k" is lost when its replacement is keyed "z".
  lemma ReplacedLost(t: Tree, u: Tree)
    requires t.key == Some("k") && u.key == Some("z")
    ensures Lookup([t], "k", true) == 0
    ensures Lookup([t][0 := KeyedAs(u, t.key)], "k", true) != 0
  {
    assert !HasKey(u, "k", true) by {
      assert "z"[0] != "k"[0];
    }
    LookupIs([t], "k", true, 0);
    ReplacedFound([t], 0, u, "k", true);
  }

  // The calls on nodes look up what the tree shows.
  lemma MatchesKey(h: Heap, t: Tree, i: nat, key: string, cs: bool)
    requires Views(h.nodes, h.Texts(), t) && i < |t.kids|
    ensures h.Named(t.kids[i].at) && (h.Matches(t.kids[i].at, key, cs) <==> HasKey(t.kids[i], key, cs))
  {
    hide Comparing.KeysMatch, UpToNul;
  }

  // As values: inserting into an array inserts one item, and into an object
  // one member under the key of the child.
  lemma InsertValue(t: Tree, k: nat, u: Tree, v: Value)
    requires k <= |t.kids| && ValueOf(t).Some? && ValueOf(u) == Some(v)
    ensures var w := ValueOf(t.(kids := t.kids[..k] + [u] + t.kids[k..]));
            match ValueOf(t).value
            case Array(items) => k <= |items| && w == Some(Array(items[..k] + [v] + items[k..]))
            case Object(members) =>
              k <= |members| && w == Some(Object(members[..k] + [Member(Or(u.key), v)] + members[k..]))
            case other => w == Some(other)
  {
    hide ItemsOf, MembersOf;
    match t.kind
    case ArrayKind => InsertItems(t.kids, k, u, v);
    case ObjectKind => InsertMembers(t.kids, k, u, v);
    case _ =>
  }

  lemma {:induction false} InsertItems(ts: seq<Tree>, k: nat, u: Tree, v: Value)
    requires k <= |ts| && ItemsOf(ts).Some? && ValueOf(u) == Some(v)
    ensures var items := ItemsOf(ts).value;
            |items| == |ts| && ItemsOf(ts[..k] + [u] + ts[k..]) == Some(items[..k] + [v] + items[k..])
    decreases |ts|
  {
    hide ValueOf;
    var items, us := ItemsOf(ts).value, ts[..k] + [u] + ts[k..];
    ItemsLength(ts);
    if k == 0 {
      assert us[0] == u && us[1..] == ts;
      assert items[..k] + [v] + items[k..] == [v] + items;
    } else {
      assert us[0] == ts[0] && us[1..] == ts[1..][..k - 1] + [u] + ts[1..][k - 1..];
      InsertItems(ts[1..], k - 1, u, v);
      var tail := ItemsOf(ts[1..]).value;
      assert items == [items[0]] + tail;
      assert items[..k] + [v] + items[k..] == [items[0]] + (tail[..k - 1] + [v] + tail[k - 1..]);
    }
  }

  lemma {:induction false} ItemsLength(ts: seq<Tree>)
    requires ItemsOf(ts).Some?
    ensures |ItemsOf(ts).value| == |ts|
  {
    hide ValueOf;
    if ts != [] {
      ItemsLength(ts[1..]);
    }
  }

  lemma {:induction false} InsertMembers(ts: seq<Tree>, k: nat, u: Tree, v: Value)
    requires k <= |ts| && MembersOf(ts).Some? && ValueOf(u) == Some(v)
    ensures var members := MembersOf(ts).value;
            && |members| == |ts|
            && MembersOf(ts[..k] + [u] + ts[k..]) == Some(members[..k] + [Member(Or(u.key), v)] + members[k..])
    decreases |ts|
  {
    hide ValueOf;
    var members, us := MembersOf(ts).value, ts[..k] + [u] + ts[k..];
    var m := Member(Or(u.key), v);
    MembersLength(ts);
    if k == 0 {
      assert us[0] == u && us[1..] == ts;
      assert members[..k] + [m] + members[k..] == [m] + members;
    } else {
      assert us[0] == ts[0] && us[1..] == ts[1..][..k - 1] + [u] + ts[1..][k - 1..];
      InsertMembers(ts[1..], k - 1, u, v);
      var tail := MembersOf(ts[1..]).value;
      assert members == [members[0]] + tail;
      assert members[..k] + [m] + members[k..] == [members[0]] + (tail[..k - 1] + [m] + tail[k - 1..]);
    }
  }

  lemma {:induction false} MembersLength(ts: seq<Tree>)
    requires MembersOf(ts).Some?
    ensures |MembersOf(ts).value| == |ts|
  {
    hide ValueOf;
    if ts != [] {
      MembersLength(ts[1..]);
    }
  }
}
