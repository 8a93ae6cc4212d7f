// Adding under a name and by reference: what is read of the parent afterwards.
module Adding {
  import opened Bytes
  import opened Memory
  import opened Forests
  import opened Links
  import opened Heaps
  import opened Trees
  import opened Readable
  import opened Effects

  // ---- Under a name ----

  // h is f with q for the key of c.
  predicate Rekeyed(f: Forest, h: Forest, c: Ptr, q: Ptr) {
    && c in f.cells && h.kids == f.kids && h.up == f.up && h.above == f.above && h.cells.Keys == f.cells.Keys
    && h.cells[c].(key := NULL, isConst := false) == f.cells[c].(key := NULL, isConst := false)
    && h.cells[c].key == q
    && forall a :: a in f.cells && a != c ==> h.cells[a] == f.cells[a]
  }

  // u becomes the last child of t, keyed as the string at q says.
  lemma KeyedEffect(
    m: Nodes, f: Forest, h: Forest, n: Nodes, x: Strings, y: Strings,
    t: Tree, u: Tree, q: Ptr, key: Option<string>, qs: set<Ptr>)
    requires Inv(f) && Linked(m, f) && CanPut(f, t.at, u.at)
    requires Rekeyed(f, h, u.at, q) && Inv(h) && CanPut(h, t.at, u.at)
    requires var g := Put(h, t.at, |h.kids[t.at]|, u.at); Keyed(g) && Linked(n, g)
    requires Views(m, x, t) && Views(m, x, u) && Apart(t.kids + [u], ListNodes(t) + {u.at})
    requires SameTexts(x, y, qs) && Unfreed(m, t, qs) && (forall s :: s in u.kids ==> Unfreed(m, s, qs))
    requires u.at in m && m[u.at].text !in qs && Reads(y, q, key)
    ensures Views(n, y, t.(kids := t.kids + [u.(key := key)]))
  {
    hide Shaped, Owned, UpToNul, Put, Linked, Views, Apart, ListNodes, Unfreed, Reads, SameTexts, SameOutside;
    var kids := t.kids + [u.(key := key)];
    ViewedKids(m, f, x, t);
    KeyedRest(m, f, h, n, t, u.at, q);
    KeyedKids(m, f, h, n, x, y, t, u, q, qs);
    KeyedChild(m, f, h, n, x, y, t, u, q, key, qs);
    KeyedParent(m, f, h, n, t, u.at, q);
    assert Ats(kids) == Inserted(h.kids[t.at], |h.kids[t.at]|, u.at);
    UnfreedRoot(m, t, qs);
    ReadsKept(m, x, y, t, qs);
    Relisted(m, f, n, Put(h, t.at, |h.kids[t.at]|, u.at), x, y, t, kids);
  }

  lemma KeyedRest(m: Nodes, f: Forest, h: Forest, n: Nodes, t: Tree, c: Ptr, q: Ptr)
    requires Inv(f) && Linked(m, f) && Rekeyed(f, h, c, q) && CanPut(h, t.at, c) && f.kids[t.at] == Ats(t.kids)
    requires var g := Put(h, t.at, |h.kids[t.at]|, c); Keyed(g) && Linked(n, g)
    ensures SameOutside(m, n, ListNodes(t) + {c})
  {
    hide Shaped, Owned, Linked, Put, ListNodes;
    LinkedKeys(m, f);
    forall a | a in m && a !in ListNodes(t) + {c}
      ensures a in n && n[a] == m[a]
    {
      KeyedOutside(m, f, h, n, t, c, q, a);
    }
  }

  lemma KeyedKids(
    m: Nodes, f: Forest, h: Forest, n: Nodes, x: Strings, y: Strings, t: Tree, u: Tree, q: Ptr, qs: set<Ptr>)
    requires Inv(f) && Linked(m, f) && CanPut(f, t.at, u.at) && Rekeyed(f, h, u.at, q) && CanPut(h, t.at, u.at)
    requires var g := Put(h, t.at, |h.kids[t.at]|, u.at); Keyed(g) && Linked(n, g)
    requires Views(m, x, t) && Views(m, x, u) && Apart(t.kids + [u], ListNodes(t) + {u.at})
    requires SameTexts(x, y, qs) && Unfreed(m, t, qs) && SameOutside(m, n, ListNodes(t) + {u.at})
    requires f.kids[t.at] == Ats(t.kids)
    ensures forall s :: s in t.kids ==> Views(n, y, s)
  {
    hide Shaped, Owned, UpToNul, Put, Linked, Views, Apart, ListNodes, Unfreed, SameTexts, SameOutside, Rekeyed;
    UnfreedParts(m, t, qs);
    forall s | s in t.kids
      ensures Views(n, y, s)
    {
      KeyedSibling(f, h, t, u.at, q, s);
      ViewsAlong(m, f, n, Put(h, t.at, |h.kids[t.at]|, u.at), x, y, t, u, t.kids + [u], s,
                 ListNodes(t) + {u.at}, qs);
    }
  }

  lemma KeyedChild(
    m: Nodes, f: Forest, h: Forest, n: Nodes, x: Strings, y: Strings,
    t: Tree, u: Tree, q: Ptr, key: Option<string>, qs: set<Ptr>)
    requires Inv(f) && Linked(m, f) && CanPut(f, t.at, u.at) && Rekeyed(f, h, u.at, q) && CanPut(h, t.at, u.at)
    requires var g := Put(h, t.at, |h.kids[t.at]|, u.at); Keyed(g) && Linked(n, g)
    requires Views(m, x, u) && Apart(t.kids + [u], ListNodes(t) + {u.at}) && SameTexts(x, y, qs)
    requires SameOutside(m, n, ListNodes(t) + {u.at}) && (forall s :: s in u.kids ==> Unfreed(m, s, qs))
    requires u.at in m && m[u.at].text !in qs && Reads(y, q, key)
    ensures Views(n, y, u.(key := key))
  {
    hide Shaped, Owned, UpToNul, Put, Linked, Views, Apart, ListNodes, Unfreed, SameTexts, SameOutside, Rekeyed;
    KeyedNode(m, f, h, n, t.at, u.at, q);
    ViewsRelisted(m, x, n, y, t.kids + [u], u, key, ListNodes(t) + {u.at}, qs);
  }

  lemma KeyedParent(m: Nodes, f: Forest, h: Forest, n: Nodes, t: Tree, c: Ptr, q: Ptr)
    requires Inv(f) && Linked(m, f) && CanPut(f, t.at, c) && Rekeyed(f, h, c, q) && Inv(h) && CanPut(h, t.at, c)
    ensures var g := Put(h, t.at, |h.kids[t.at]|, c);
            Inv(g) && t.at in m && t.at in g.cells && t.at in g.kids && g.cells[t.at] == f.cells[t.at]
            && g.kids[t.at] == Inserted(h.kids[t.at], |h.kids[t.at]|, c)
  {
    hide Shaped, Owned, Put, Linked;
    LinkedKeys(m, f);
    SelfAbove(f, t.at);
    PutAt(h, t.at, |h.kids[t.at]|, c, t.at);
    PutKeepsInv(h, t.at, |h.kids[t.at]|, c);
  }

  lemma KeyedSibling(f: Forest, h: Forest, t: Tree, c: Ptr, q: Ptr, s: Tree)
    requires Inv(f) && CanPut(f, t.at, c) && Rekeyed(f, h, c, q) && CanPut(h, t.at, c)
    requires f.kids[t.at] == Ats(t.kids) && s in t.kids
    ensures var g := Put(h, t.at, |h.kids[t.at]|, c);
            s.at in f.cells && s.at in f.kids && s.at in g.cells && s.at in g.kids
            && g.cells[s.at] == f.cells[s.at] && g.kids[s.at] == f.kids[s.at]
  {
    hide Shaped, Owned, Put;
    ListedKid(f, t, s);
    PutAt(h, t.at, |h.kids[t.at]|, c, s.at);
    RootApart(f, t.at, c, s.at);
  }

  lemma KeyedNode(m: Nodes, f: Forest, h: Forest, n: Nodes, p: Ptr, c: Ptr, q: Ptr)
    requires Inv(f) && Linked(m, f) && CanPut(f, p, c) && Rekeyed(f, h, c, q) && CanPut(h, p, c)
    requires var g := Put(h, p, |h.kids[p]|, c); Keyed(g) && Linked(n, g)
    ensures c in m && c in n && SameBody(m[c], n[c]) && n[c].key == q
  {
    hide Shaped, Owned, Put, Linked;
    SelfAbove(f, p);
    PutAt(h, p, |h.kids[p]|, c, c);
    KeyedBody(m, f, n, Put(h, p, |h.kids[p]|, c), c);
  }

  lemma RootApart(f: Forest, p: Ptr, c: Ptr, x: Ptr)
    requires Inv(f) && CanPut(f, p, c) && x in f.cells && f.up[x] == p
    ensures x != c
  {
    hide Shaped, Owned;
    assert p != NULL;
  }

  lemma KeyedOutside(m: Nodes, f: Forest, h: Forest, n: Nodes, t: Tree, c: Ptr, q: Ptr, a: Ptr)
    requires Inv(f) && Linked(m, f) && Rekeyed(f, h, c, q) && CanPut(h, t.at, c) && f.kids[t.at] == Ats(t.kids)
    requires var g := Put(h, t.at, |h.kids[t.at]|, c); Keyed(g) && Linked(n, g)
    requires a in f.cells && a !in ListNodes(t) + {c}
    ensures a in m && a in n && n[a] == m[a]
  {
    hide Shaped, Owned, Linked, Put;
    var p, k := t.at, |h.kids[t.at]|;
    PutAt(h, p, k, c, a);
    UpFact(f, a);
    if f.up[a] != NULL {
      PutAt(h, p, k, c, f.up[a]);
    }
    NotListed(t, a);
    NodeOutside(m, f, n, Put(h, p, k, c), p, a);
  }

  // What is read of a node does not depend on its key and list links.
  lemma KeyedBody(m: Nodes, f: Forest, n: Nodes, g: Forest, x: Ptr)
    requires Inv(f) && Linked(m, f) && Keyed(g) && Linked(n, g) && x in f.cells && x in g.cells
    requires g.cells[x].(key := NULL, isConst := false) == f.cells[x].(key := NULL, isConst := false)
    requires g.kids[x] == f.kids[x]
    ensures x in m && x in n && SameBody(m[x], n[x]) && n[x].key == g.cells[x].key
  {
    hide Shaped, Owned;
    LinkedFact(m, f, x);
    LinkedFact(n, g, x);
  }

  // The key that the node owned.
  function KeyFreed(c: Cell): set<Ptr> {
    {Held(c, KeySlot)} - {NULL}
  }

  // Adding u to t under a new copy of a name, which frees the key that u
  // owned.
  lemma NamedEffect(
    m: Nodes, f: Forest, n: Nodes, x: Strings, y: Strings, t: Tree, u: Tree, q: Ptr, name: string)
    requires Inv(f) && Linked(m, f) && CanName(f, t.at, u.at, q)
    requires var g := AddNamed(f, t.at, u.at, q, name); Keyed(g) && Linked(n, g)
    requires Views(m, x, t) && Views(m, x, u) && Apart(t.kids + [u], ListNodes(t) + {u.at})
    requires var freed := KeyFreed(f.cells[u.at]);
             && SameTexts(x, y, freed) && Unfreed(m, t, freed) && (forall s :: s in u.kids ==> Unfreed(m, s, freed))
             && u.at in m && m[u.at].text !in freed
    requires q in y && y[q] == name
    ensures Views(n, y, t.(kids := t.kids + [u.(key := Some(UpToNul(name)))]))
  {
    hide Shaped, Owned, UpToNul, Put, Linked, Views, Apart, ListNodes, Unfreed;
    var h := Install(f, u.at, KeySlot, q, name);
    InstallKeepsInv(f, u.at, KeySlot, q, name);
    CanPutInstalled(f, t.at, u.at, KeySlot, q, name);
    KeyedEffect(m, f, h, n, x, y, t, u, q, Some(UpToNul(name)), KeyFreed(f.cells[u.at]));
  }

  // Adding u to t under a borrowed name.
  lemma BorrowedEffect(
    m: Nodes, f: Forest, n: Nodes, x: Strings, y: Strings, t: Tree, u: Tree, name: Ptr)
    requires Inv(f) && Linked(m, f) && CanBorrow(f, t.at, u.at, name)
    requires var g := AddBorrowed(f, t.at, u.at, name); Keyed(g) && Linked(n, g)
    requires Views(m, x, t) && Views(m, x, u) && Apart(t.kids + [u], ListNodes(t) + {u.at})
    requires var freed := KeyFreed(f.cells[u.at]);
             && SameTexts(x, y, freed) && Unfreed(m, t, freed) && (forall s :: s in u.kids ==> Unfreed(m, s, freed))
             && u.at in m && m[u.at].text !in freed
    requires name in y
    ensures Views(n, y, t.(kids := t.kids + [u.(key := Some(UpToNul(y[name])))]))
  {
    hide Shaped, Owned, UpToNul, Put, Linked, Views, Apart, ListNodes, Unfreed;
    var h := Borrow(f, u.at, name);
    BorrowKeepsInv(f, u.at, name);
    CanPutBorrowed(f, t.at, u.at, name);
    KeyedEffect(m, f, h, n, x, y, t, u, name, Some(UpToNul(y[name])), KeyFreed(f.cells[u.at]));
  }

  // ---- Trees without references ----

  // No node but c reads the key of c, when every const key is lent.
  lemma KeyUnread(m: Nodes, f: Forest, lent: Strings, c: Ptr, a: Ptr)
    requires Inv(f) && Linked(m, f) && c in f.cells && a in f.cells && !f.cells[a].isRef
    requires (f.cells[a].isConst ==> f.cells[a].key in lent) && lent.Keys !! f.strs.Keys
    ensures a in m && m[a].text !in KeyFreed(f.cells[c]) && (a != c ==> m[a].key !in KeyFreed(f.cells[c]))
  {
    hide Shaped, Owned, Linked;
    KindKept(m, f, a);
    OwnsFact(f, a, TextSlot);
    OwnsFact(f, a, KeySlot);
    OwnsFact(f, c, KeySlot);
  }

  lemma TreeUnread(m: Nodes, f: Forest, x: Strings, lent: Strings, c: Ptr, t: Tree)
    requires Inv(f) && Linked(m, f) && OwnTree(m, f, x, t) && c in f.cells && c !in Below(f, t.at)
    requires KeysIn(f, lent, Below(f, t.at)) && lent.Keys !! f.strs.Keys
    ensures Unfreed(m, t, KeyFreed(f.cells[c]))
  {
    hide Shaped, Owned, Linked, UpToNul, Views, Below, Spans, KeyFreed;
    OwnedSpans(m, f, x, t);
    forall a | a in Spans(t) && a in m
      ensures m[a].text !in KeyFreed(f.cells[c]) && m[a].key !in KeyFreed(f.cells[c])
    {
      KeyUnread(m, f, lent, c, a);
    }
  }

  lemma KidsUnread(m: Nodes, f: Forest, x: Strings, lent: Strings, u: Tree)
    requires Inv(f) && Linked(m, f) && OwnTree(m, f, x, u)
    requires KeysIn(f, lent, Below(f, u.at)) && lent.Keys !! f.strs.Keys
    ensures forall s :: s in u.kids ==> Unfreed(m, s, KeyFreed(f.cells[u.at]))
    ensures u.at in m && m[u.at].text !in KeyFreed(f.cells[u.at])
  {
    hide Shaped, Owned, Linked, UpToNul, Views, Spans, KeyFreed, OwnTree;
    OwnRoot(m, f, x, u);
    SelfBelow(f, u.at);
    KeyUnread(m, f, lent, u.at, u.at);
    forall s | s in u.kids
      ensures Unfreed(m, s, KeyFreed(f.cells[u.at]))
    {
      OwnedPart(m, f, x, u, s);
      KidAbove(f, u.at, s.at);
      KidBelow(f, u.at, s.at);
      TreeUnread(m, f, x, lent, u.at, s);
    }
  }

  // Adding to a tree without references, its const keys lent, needs nothing more.
  lemma NamedOwned(m: Nodes, f: Forest, n: Nodes, lent: Strings, t: Tree, u: Tree, q: Ptr, name: string)
    requires Inv(f) && Linked(m, f) && CanName(f, t.at, u.at, q) && q !in lent
    requires var g := AddNamed(f, t.at, u.at, q, name); Keyed(g) && Linked(n, g)
    requires OwnTree(m, f, lent + f.strs, t) && OwnTree(m, f, lent + f.strs, u) && lent.Keys !! f.strs.Keys
    requires KeysIn(f, lent, Below(f, t.at)) && KeysIn(f, lent, Below(f, u.at))
    ensures var g := AddNamed(f, t.at, u.at, q, name);
            Views(n, lent + g.strs, t.(kids := t.kids + [u.(key := Some(UpToNul(name)))]))
  {
    hide Shaped, Owned, UpToNul, Put, Linked, Views, Apart, ListNodes, Unfreed, AddNamed, Below, OwnTree, KeysIn;
    var x, g := lent + f.strs, AddNamed(f, t.at, u.at, q, name);
    OwnRoot(m, f, x, t);
    OwnRoot(m, f, x, u);
    RootOutside(f, t.at, u.at);
    OwnedApart(m, f, x, t, t.kids + [u], ListNodes(t) + {u.at});
    TreeUnread(m, f, x, lent, u.at, t);
    KidsUnread(m, f, x, lent, u);
    NamedStrings(f, t.at, u.at, q, name);
    TextsAfter(lent, f.strs, KeyFreed(f.cells[u.at]), q, name);
    NamedEffect(m, f, n, x, lent + g.strs, t, u, q, name);
  }

  lemma RootOutside(f: Forest, p: Ptr, c: Ptr)
    requires Inv(f) && CanPut(f, p, c)
    ensures c !in Below(f, p)
  {
    hide Shaped, Owned;
    AboveFact(f, c);
    SelfAbove(f, p);
  }

  lemma NamedStrings(f: Forest, p: Ptr, c: Ptr, q: Ptr, name: string)
    requires Inv(f) && CanName(f, p, c, q)
    ensures AddNamed(f, p, c, q, name).strs == (f.strs - KeyFreed(f.cells[c]))[q := name] && q !in f.strs
  {
    hide Shaped, Owned, Put;
    CanPutInstalled(f, p, c, KeySlot, q, name);
    PutStrings(Install(f, c, KeySlot, q, name), p, c);
  }

  lemma TextsAfter(lent: Strings, strs: Strings, freed: set<Ptr>, q: Ptr, name: string)
    requires q !in lent && q !in strs
    ensures SameTexts(lent + strs, lent + (strs - freed)[q := name], freed)
  {}

  lemma TextsLeft(lent: Strings, strs: Strings, freed: set<Ptr>)
    ensures SameTexts(lent + strs, lent + (strs - freed), freed)
  {}

  lemma PutStrings(f: Forest, p: Ptr, c: Ptr)
    requires CanPut(f, p, c)
    ensures Put(f, p, |f.kids[p]|, c).strs == f.strs
  {}

  lemma BorrowedOwned(m: Nodes, f: Forest, n: Nodes, lent: Strings, t: Tree, u: Tree, name: Ptr)
    requires Inv(f) && Linked(m, f) && CanBorrow(f, t.at, u.at, name) && name in lent
    requires var g := AddBorrowed(f, t.at, u.at, name); Keyed(g) && Linked(n, g)
    requires OwnTree(m, f, lent + f.strs, t) && OwnTree(m, f, lent + f.strs, u) && lent.Keys !! f.strs.Keys
    requires KeysIn(f, lent, Below(f, t.at)) && KeysIn(f, lent, Below(f, u.at))
    ensures var g := AddBorrowed(f, t.at, u.at, name);
            Views(n, lent + g.strs, t.(kids := t.kids + [u.(key := Some(UpToNul(lent[name])))]))
  {
    hide Shaped, Owned, UpToNul, Put, Linked, Views, Apart, ListNodes, Unfreed, AddBorrowed, Below, OwnTree, KeysIn;
    var x, g := lent + f.strs, AddBorrowed(f, t.at, u.at, name);
    OwnRoot(m, f, x, t);
    OwnRoot(m, f, x, u);
    RootOutside(f, t.at, u.at);
    OwnedApart(m, f, x, t, t.kids + [u], ListNodes(t) + {u.at});
    TreeUnread(m, f, x, lent, u.at, t);
    KidsUnread(m, f, x, lent, u);
    BorrowedStrings(f, t.at, u.at, name);
    TextsLeft(lent, f.strs, KeyFreed(f.cells[u.at]));
    BorrowedEffect(m, f, n, x, lent + g.strs, t, u, name);
  }

  lemma BorrowedStrings(f: Forest, p: Ptr, c: Ptr, name: Ptr)
    requires Inv(f) && CanBorrow(f, p, c, name)
    ensures AddBorrowed(f, p, c, name).strs == f.strs - KeyFreed(f.cells[c])
  {
    hide Shaped, Owned, Put;
    CanPutBorrowed(f, p, c, name);
    PutStrings(Borrow(f, c, name), p, c);
  }

  // ---- By reference ----

  lemma {:induction false} SpansKnown(m: Nodes, x: Strings, t: Tree)
    requires Views(m, x, t)
    ensures Spans(t) <= m.Keys
    decreases t
  {
    hide UpToNul, Chain;
    forall i | 0 <= i < |t.kids|
      ensures Spans(t.kids[i]) <= m.Keys
    {
      SpansKnown(m, x, t.kids[i]);
    }
  }

  // The node that wrap_as_reference makes.
  function Wrapper(n: Node): Node {
    BLANK.(kind := n.kind, isRef := true, text := n.text, number := n.number, child := n.child)
  }

  lemma WrapperCell(n: Node)
    ensures CellOf(Wrapper(n)) == ReferenceTo(n) && Unlinked(Wrapper(n))
  {}

  // A new node with the text, number and child pointer of another reads as that
  // one does, without its key.
  lemma WrapperView(m: Nodes, x: Strings, s: Tree, r: Ptr)
    requires Views(m, x, s) && r != NULL && r !in m
    ensures s.at in m && Views(m[r := Wrapper(m[s.at])], x, s.(at := r, key := None))
  {
    hide UpToNul, Chain;
    var n := m[r := Wrapper(m[s.at])];
    assert forall p :: p in m ==> p in n && n[p] == m[p];
    forall i | 0 <= i < |s.kids|
      ensures Views(n, x, s.kids[i])
    {
      ViewsFrame(m, x, n, x, s.kids[i]);
    }
    ChainGrows(m, n, m[s.at].child, Ats(s.kids));
  }

  lemma ChainGrows(m: Nodes, n: Nodes, start: Ptr, ks: seq<Ptr>)
    requires Chain(m, start, ks) && forall p :: p in m ==> p in n && n[p] == m[p]
    ensures Chain(n, start, ks)
  {}

  // Adding a reference to s to the list of t: the new child, at r, reads as s
  // does, apart from the key.
  lemma ReferenceEffect(m: Nodes, f: Forest, n: Nodes, x: Strings, t: Tree, s: Tree, r: Ptr)
    requires Inv(f) && Linked(m, f) && CanRefer(f, t.at, r) && s.at in m
    requires var g := AddReference(f, t.at, r, ReferenceTo(m[s.at])); Keyed(g) && Linked(n, g)
    requires Views(m, x, t) && Views(m, x, s) && Apart(t.kids + [s], ListNodes(t))
    ensures Views(n, x, t.(kids := t.kids + [s.(at := r, key := None)]))
  {
    hide Shaped, Owned, UpToNul, Put, New, Linked, Views, Apart, ListNodes, CanPut;
    var cell, w := ReferenceTo(m[s.at]), Wrapper(m[s.at]);
    var h, m1, u := New(f, r, cell), m[r := w], s.(at := r, key := None);
    LinkedKeys(m, f);
    WrapperCell(m[s.at]);
    CanPutNew(f, t.at, r, cell);
    NewKeepsInv(f, r, cell);
    NewLinked(m, f, r, w);
    WrapperView(m, x, s, r);
    ViewsFrame(m, x, m1, x, t);
    ReferenceApart(m, x, t, s, r);
    ViewedKids(m, f, x, t);
    var k := |t.kids|;
    InsertEffect(m1, h, n, x, t, k, u);
    assert t.kids[..k] + [u] + t.kids[k..] == t.kids + [u];
  }

  lemma ReferenceApart(m: Nodes, x: Strings, t: Tree, s: Tree, r: Ptr)
    requires Views(m, x, t) && Views(m, x, s) && r !in m && Apart(t.kids + [s], ListNodes(t))
    ensures Apart(t.kids + [s.(at := r, key := None)], ListNodes(t) + {r})
  {
    hide UpToNul, Views, Spans, ListNodes;
    var u := s.(at := r, key := None);
    SpansKnown(m, x, t);
    SpansKnown(m, x, s);
    SpansKids(t);
    SpansKids(s);
    forall v, j | v in t.kids + [u] && 0 <= j < |v.kids|
      ensures Spans(v.kids[j]) !! ListNodes(t) + {r}
    {
      if v in t.kids {
        SpansKids(v);
        assert v in t.kids + [s];
      } else {
        assert s in t.kids + [s] && v.kids == s.kids;
      }
    }
  }

  // An item without references below it that is not above t meets the condition.
  lemma ReferenceOwned(m: Nodes, f: Forest, x: Strings, t: Tree, s: Tree)
    requires Inv(f) && Linked(m, f) && OwnTree(m, f, x, t) && OwnTree(m, f, x, s) && s.at !in f.above[t.at]
    ensures Apart(t.kids + [s], ListNodes(t))
  {
    hide Shaped, Owned, Linked, UpToNul, Views, Below, OwnTree, Spans, ListNodes;
    OwnRoot(m, f, x, t);
    OwnRoot(m, f, x, s);
    ViewedKids(m, f, x, t);
    OwnedApart(m, f, x, t, t.kids, ListNodes(t));
    forall j, b | 0 <= j < |s.kids| && b in ListNodes(t)
      ensures b !in Spans(s.kids[j])
    {
      OwnedPart(m, f, x, s, s.kids[j]);
      OwnedSpans(m, f, x, s.kids[j]);
      NotAboveList(f, t, s.at, s.kids[j].at, b);
    }
  }

  lemma NotAboveList(f: Forest, t: Tree, s: Ptr, k: Ptr, b: Ptr)
    requires Inv(f) && t.at in f.cells && f.kids[t.at] == Ats(t.kids) && s in f.cells && k in f.kids[s]
    requires s !in f.above[t.at] && b in ListNodes(t)
    ensures b !in Below(f, k)
  {
    hide Shaped, Owned;
    KidAbove(f, s, k);
    if b != t.at {
      var v :| v in t.kids && v.at == b;
      ListedKid(f, t, v);
      KidAbove(f, t.at, b);
    }
    SelfAbove(f, t.at);
    if k in f.above[t.at] {
      AncestorsNest(f, t.at, k);
    }
  }
}
