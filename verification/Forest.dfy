// What the nodes in memory stand for: a forest of ordered lists of children,
// with every string owned by one node. Each mutator of the library is one of
// the moves below; each move keeps the forest well formed.
module Forests {
  import opened Numbers
  import opened Memory

  // A node without its list links. The child pointer of a reference is
  // borrowed, so it is data here.
  datatype Cell = Cell(kind: Kind, isRef: bool, isConst: bool, text: Ptr, number: Num, key: Ptr, alias: Ptr)

  datatype Slot = TextSlot | KeySlot

  // Who owns a string: a node, and which field of it.
  datatype Owner = Owner(at: Ptr, slot: Slot)

  datatype Forest = Forest(
    cells: map<Ptr, Cell>,
    kids: map<Ptr, seq<Ptr>>,
    up: map<Ptr, Ptr>,
    above: map<Ptr, set<Ptr>>,
    strs: Strings,
    owner: map<Ptr, Owner>)

  const EMPTY := Forest(map[], map[], map[], map[], map[], map[])

  // The string a field owns: a reference does not own its text, nor a node
  // with a const key its key.
  function Held(c: Cell, s: Slot): Ptr {
    match s
    case TextSlot => if c.isRef then NULL else c.text
    case KeySlot => if c.isConst then NULL else c.key
  }

  // ---- Well-formedness ----

  predicate Keyed(f: Forest) {
    && f.kids.Keys == f.up.Keys == f.above.Keys == f.cells.Keys
    && f.owner.Keys == f.strs.Keys
    && NULL !in f.cells && NULL !in f.strs
    && f.cells.Keys !! f.strs.Keys
  }

  // The children of p are distinct nodes whose parent is p.
  predicate ListAt(f: Forest, p: Ptr)
    requires Keyed(f) && p in f.cells
  {
    var ks := f.kids[p];
    && (forall i :: 0 <= i < |ks| ==> ks[i] in f.cells && f.up[ks[i]] == p)
    && (forall i, j :: 0 <= i < j < |ks| ==> ks[i] != ks[j])
    && (f.cells[p].isRef ==> ks == [])
  }

  // A node with a parent is one of that parent's children.
  predicate UpAt(f: Forest, x: Ptr)
    requires Keyed(f) && x in f.cells
  {
    f.up[x] == NULL || (f.up[x] in f.cells && x in f.kids[f.up[x]])
  }

  // `above` is the node with its ancestors, and it is not its own ancestor.
  predicate AboveAt(f: Forest, x: Ptr)
    requires Keyed(f) && x in f.cells
  {
    var p := f.up[x];
    if p == NULL then f.above[x] == {x}
    else p in f.cells && x !in f.above[p] && f.above[x] == {x} + f.above[p]
  }

  predicate Shaped(f: Forest)
    requires Keyed(f)
  {
    && (forall p :: p in f.cells ==> ListAt(f, p))
    && (forall x :: x in f.cells ==> UpAt(f, x))
    && (forall x :: x in f.cells ==> AboveAt(f, x))
  }

  // Every string has the owner recorded for it, and no other.
  predicate OwnsAt(f: Forest, x: Ptr, s: Slot)
    requires Keyed(f) && x in f.cells
  {
    var q := Held(f.cells[x], s);
    q != NULL ==> q in f.strs && f.owner[q] == Owner(x, s)
  }

  predicate OwnedAt(f: Forest, q: Ptr)
    requires Keyed(f) && q in f.strs
  {
    f.owner[q].at in f.cells && Held(f.cells[f.owner[q].at], f.owner[q].slot) == q
  }

  predicate Owned(f: Forest)
    requires Keyed(f)
  {
    && (forall x, s :: x in f.cells ==> OwnsAt(f, x, s))
    && (forall q :: q in f.strs ==> OwnedAt(f, q))
    && (forall x :: x in f.cells && f.cells[x].isConst ==> f.cells[x].key != NULL)
  }

  predicate Inv(f: Forest) {
    Keyed(f) && Shaped(f) && Owned(f)
  }

  predicate Root(f: Forest, x: Ptr)
    requires Keyed(f)
  {
    x in f.cells && f.up[x] == NULL
  }

  lemma ListFact(f: Forest, x: Ptr)
    requires Inv(f) && x in f.cells
    ensures ListAt(f, x)
  {
    hide ListAt, UpAt, AboveAt, Owned;
  }

  lemma UpFact(f: Forest, x: Ptr)
    requires Inv(f) && x in f.cells
    ensures UpAt(f, x)
  {
    hide ListAt, UpAt, AboveAt, Owned;
  }

  lemma AboveFact(f: Forest, x: Ptr)
    requires Inv(f) && x in f.cells
    ensures AboveAt(f, x)
  {
    hide ListAt, UpAt, AboveAt, Owned;
  }

  lemma OwnsFact(f: Forest, x: Ptr, s: Slot)
    requires Inv(f) && x in f.cells
    ensures OwnsAt(f, x, s)
  {
    hide OwnsAt, OwnedAt, Shaped;
  }

  lemma OwnedFact(f: Forest, q: Ptr)
    requires Inv(f) && q in f.strs
    ensures OwnedAt(f, q)
  {
    hide OwnsAt, OwnedAt, Shaped;
  }

  // ---- Subtrees ----

  // The nodes of the subtree under c, and the strings they own.
  function Below(f: Forest, c: Ptr): set<Ptr> {
    set x | x in f.above && c in f.above[x]
  }

  function BelowAny(f: Forest, ks: seq<Ptr>): set<Ptr> {
    set x | x in f.above && exists k :: k in ks && k in f.above[x]
  }

  function StringsOf(f: Forest, xs: set<Ptr>): set<Ptr> {
    set q | q in f.owner && f.owner[q].at in xs
  }

  lemma {:induction false} AncestorsNest(f: Forest, x: Ptr, a: Ptr)
    requires Inv(f) && x in f.cells && a in f.above[x]
    ensures a in f.cells && f.above[a] <= f.above[x]
    decreases f.above[x]
  {
    hide ListAt, UpAt, Shaped, Owned;
    AboveFact(f, x);
    if a != x {
      AncestorsNest(f, f.up[x], a);
    }
  }

  lemma SelfAbove(f: Forest, x: Ptr)
    requires Inv(f) && x in f.cells
    ensures x in f.above[x]
  {
    hide ListAt, UpAt, Shaped, Owned;
    AboveFact(f, x);
  }

  // A subtree is its root and the subtrees of the root's children, which are
  // pairwise apart.
  lemma {:induction false} BelowSplits(f: Forest, c: Ptr)
    requires Inv(f) && c in f.cells
    ensures Below(f, c) == {c} + BelowAny(f, f.kids[c])
    ensures c !in BelowAny(f, f.kids[c])
  {
    hide Owned, AboveAt, ListAt, UpAt;
    forall x | x in f.cells
      ensures c in f.above[x] <==> x == c || exists k :: k in f.kids[c] && k in f.above[x]
    {
      SelfAbove(f, c);
      if c in f.above[x] && x != c {
        var k := KidTowards(f, c, x);
      }
      if k :| k in f.kids[c] && k in f.above[x] {
        KidAbove(f, c, k);
        AncestorsNest(f, x, k);
      }
    }
    if k :| k in f.kids[c] && k in f.above[c] {
      KidAbove(f, c, k);
    }
  }

  lemma KidAbove(f: Forest, c: Ptr, k: Ptr)
    requires Inv(f) && c in f.cells && k in f.kids[c]
    ensures k in f.cells && f.up[k] == c && k !in f.above[c] && f.above[k] == {k} + f.above[c] && c in f.above[c]
  {
    hide UpAt, Shaped, Owned;
    ListFact(f, c);
    AboveFact(f, c);
    AboveFact(f, k);
    assert c != NULL;
  }

  lemma {:induction false} KidTowards(f: Forest, c: Ptr, x: Ptr) returns (k: Ptr)
    requires Inv(f) && x in f.cells && c in f.above[x] && x != c
    ensures c in f.cells && k in f.kids[c] && k in f.above[x]
    decreases f.above[x]
  {
    hide ListAt, Shaped, Owned;
    AboveFact(f, x);
    UpFact(f, x);
    if f.up[x] == c {
      k := x;
    } else {
      k := KidTowards(f, c, f.up[x]);
    }
  }

  lemma {:induction false} KidsApart(f: Forest, c: Ptr, j: Ptr, k: Ptr, x: Ptr)
    requires Inv(f) && x in f.cells && c in f.cells && j in f.kids[c] && k in f.kids[c]
    requires j in f.above[x] && k in f.above[x]
    ensures j == k
    decreases f.above[x]
  {
    hide ListAt, UpAt, Shaped, Owned;
    AboveFact(f, x);
    KidAbove(f, c, j);
    KidAbove(f, c, k);
    if x != j && x != k {
      KidsApart(f, c, j, k, f.up[x]);
    }
  }

  lemma KidBelow(f: Forest, p: Ptr, k: Ptr)
    requires Inv(f) && p in f.cells && k in f.kids[p]
    ensures k in f.cells && Below(f, k) < Below(f, p)
  {
    hide Shaped, Owned;
    KidAbove(f, p, k);
    forall x | x in Below(f, k)
      ensures x in Below(f, p)
    {
      AncestorsNest(f, x, k);
    }
    assert p in Below(f, p) && p !in Below(f, k);
  }

  // ---- Attaching and detaching ----

  function Inserted(ks: seq<Ptr>, k: nat, c: Ptr): seq<Ptr>
    requires k <= |ks|
  {
    ks[..k] + [c] + ks[k..]
  }

  function Removed(ks: seq<Ptr>, k: nat): seq<Ptr>
    requires k < |ks|
  {
    ks[..k] + ks[k + 1..]
  }

  // c may become a child of p: it is detached, and p is not inside it.
  predicate CanPut(f: Forest, p: Ptr, c: Ptr) {
    Keyed(f) && p in f.cells && !f.cells[p].isRef && Root(f, c) && c !in f.above[p]
  }

  // Make c child number k of p.
  function Put(f: Forest, p: Ptr, k: nat, c: Ptr): Forest
    requires CanPut(f, p, c) && k <= |f.kids[p]|
  {
    f.(
      kids := f.kids[p := Inserted(f.kids[p], k, c)],
      up := f.up[c := p],
      above := map x | x in f.above :: if c in f.above[x] then f.above[x] + f.above[p] else f.above[x])
  }

  predicate CanTake(f: Forest, p: Ptr, k: nat) {
    Keyed(f) && p in f.cells && k < |f.kids[p]| && f.kids[p][k] in f.cells
  }

  // Detach child number k of p.
  function Take(f: Forest, p: Ptr, k: nat): Forest
    requires CanTake(f, p, k)
  {
    var c := f.kids[p][k];
    f.(
      kids := f.kids[p := Removed(f.kids[p], k)],
      up := f.up[c := NULL],
      above := map x | x in f.above :: if c in f.above[x] then f.above[x] - f.above[p] else f.above[x])
  }

  // Put and Take, node by node.
  lemma PutAt(f: Forest, p: Ptr, k: nat, c: Ptr, x: Ptr)
    requires CanPut(f, p, c) && k <= |f.kids[p]| && x in f.cells
    ensures var g := Put(f, p, k, c);
            && Keyed(g) && SameDomains(f, g) && f.cells == g.cells
            && g.kids[x] == (if x == p then Inserted(f.kids[p], k, c) else f.kids[x])
            && g.up[x] == (if x == c then p else f.up[x])
            && g.above[x] == (if c in f.above[x] then f.above[x] + f.above[p] else f.above[x])
  {}

  lemma TakeAt(f: Forest, p: Ptr, k: nat, x: Ptr)
    requires CanTake(f, p, k) && x in f.cells
    ensures var g := Take(f, p, k);
            var c := f.kids[p][k];
            && Keyed(g) && SameDomains(f, g) && f.cells == g.cells
            && g.kids[x] == (if x == p then Removed(f.kids[p], k) else f.kids[x])
            && g.up[x] == (if x == c then NULL else f.up[x])
            && g.above[x] == (if c in f.above[x] then f.above[x] - f.above[p] else f.above[x])
  {}

  lemma PutKeepsInv(f: Forest, p: Ptr, k: nat, c: Ptr)
    requires Inv(f) && CanPut(f, p, c) && k <= |f.kids[p]|
    ensures Inv(Put(f, p, k, c))
  {
    hide Put, ListAt, UpAt, AboveAt, Owned;
    var g := Put(f, p, k, c);
    PutKeyed(f, p, k, c);
    OwnersKept(f, g);
    forall x | x in g.cells
      ensures ListAt(g, x) && UpAt(g, x) && AboveAt(g, x)
    {
      PutLists(f, p, k, c, x);
      PutUp(f, p, k, c, x);
      PutAbove(f, p, k, c, x);
    }
  }

  lemma PutKeyed(f: Forest, p: Ptr, k: nat, c: Ptr)
    requires Inv(f) && CanPut(f, p, c) && k <= |f.kids[p]|
    ensures Keyed(Put(f, p, k, c)) && SameOwners(f, Put(f, p, k, c))
  {
    hide Shaped, Owned;
  }

  predicate SameOwners(f: Forest, g: Forest) {
    g.cells == f.cells && g.strs == f.strs && g.owner == f.owner
  }

  lemma OwnersKept(f: Forest, g: Forest)
    requires Inv(f) && Keyed(g) && SameOwners(f, g)
    ensures Owned(g)
  {
    hide Shaped;
    forall x, s | x in g.cells
      ensures OwnsAt(g, x, s)
    {
      OwnsFact(f, x, s);
    }
    forall q | q in g.strs
      ensures OwnedAt(g, q)
    {
      OwnedFact(f, q);
    }
  }

  lemma PutLists(f: Forest, p: Ptr, k: nat, c: Ptr, x: Ptr)
    requires Inv(f) && CanPut(f, p, c) && k <= |f.kids[p]| && x in f.cells
    requires Keyed(Put(f, p, k, c))
    ensures ListAt(Put(f, p, k, c), x)
  {
    hide AboveAt, UpAt, Shaped, Owned;
    ListFact(f, x);
  }

  lemma PutUp(f: Forest, p: Ptr, k: nat, c: Ptr, x: Ptr)
    requires Inv(f) && CanPut(f, p, c) && k <= |f.kids[p]| && x in f.cells
    requires Keyed(Put(f, p, k, c))
    ensures UpAt(Put(f, p, k, c), x)
  {
    hide AboveAt, ListAt, Shaped, Owned;
    UpFact(f, x);
    InsertedHas(f.kids[p], k, c);
  }

  lemma InsertedHas(ks: seq<Ptr>, k: nat, c: Ptr)
    requires k <= |ks|
    ensures forall x :: x in Inserted(ks, k, c) <==> x == c || x in ks
  {
    assert ks == ks[..k] + ks[k..];
  }

  lemma RemovedHas(ks: seq<Ptr>, k: nat)
    requires k < |ks|
    ensures forall x :: x in ks <==> x == ks[k] || x in Removed(ks, k)
  {
    assert ks == ks[..k] + [ks[k]] + ks[k + 1..];
  }

  lemma PutAbove(f: Forest, p: Ptr, k: nat, c: Ptr, x: Ptr)
    requires Inv(f) && CanPut(f, p, c) && k <= |f.kids[p]| && x in f.cells
    requires Keyed(Put(f, p, k, c))
    ensures AboveAt(Put(f, p, k, c), x)
  {
    hide ListAt, UpAt, Shaped, Owned;
    var g := Put(f, p, k, c);
    AboveFact(f, x);
    AboveFact(f, c);
    if x == c {
      assert g.above[p] == f.above[p];
    } else if c in f.above[x] && x in f.above[p] {
      AncestorsNest(f, p, x);
    }
  }

  lemma TakeKeepsInv(f: Forest, p: Ptr, k: nat)
    requires Inv(f) && CanTake(f, p, k)
    ensures Inv(Take(f, p, k)) && CanPut(Take(f, p, k), p, f.kids[p][k])
  {
    hide Take, ListAt, UpAt, AboveAt, Owned;
    var g := Take(f, p, k);
    TakeKeyed(f, p, k);
    OwnersKept(f, g);
    forall x | x in g.cells
      ensures ListAt(g, x) && UpAt(g, x) && AboveAt(g, x)
    {
      TakeLists(f, p, k, x);
      TakeUp(f, p, k, x);
      TakeAbove(f, p, k, x);
    }
  }

  lemma TakeKeyed(f: Forest, p: Ptr, k: nat)
    requires Inv(f) && CanTake(f, p, k)
    ensures Keyed(Take(f, p, k)) && SameOwners(f, Take(f, p, k))
    ensures CanPut(Take(f, p, k), p, f.kids[p][k])
  {
    hide Shaped, Owned;
    KidAbove(f, p, f.kids[p][k]);
    KidRef(f, p);
  }

  lemma KidRef(f: Forest, p: Ptr)
    requires Inv(f) && p in f.cells && f.kids[p] != []
    ensures !f.cells[p].isRef
  {
    hide Shaped, Owned;
    ListFact(f, p);
  }

  lemma TakeLists(f: Forest, p: Ptr, k: nat, x: Ptr)
    requires Inv(f) && CanTake(f, p, k) && x in f.cells
    requires Keyed(Take(f, p, k))
    ensures ListAt(Take(f, p, k), x)
  {
    hide AboveAt, UpAt, Shaped, Owned;
    ListFact(f, x);
    ListFact(f, p);
  }

  lemma TakeUp(f: Forest, p: Ptr, k: nat, x: Ptr)
    requires Inv(f) && CanTake(f, p, k) && x in f.cells
    requires Keyed(Take(f, p, k))
    ensures UpAt(Take(f, p, k), x)
  {
    hide AboveAt, ListAt, Shaped, Owned;
    UpFact(f, x);
    RemovedHas(f.kids[p], k);
  }

  lemma TakeAbove(f: Forest, p: Ptr, k: nat, x: Ptr)
    requires Inv(f) && CanTake(f, p, k) && x in f.cells
    requires Keyed(Take(f, p, k))
    ensures AboveAt(Take(f, p, k), x)
  {
    hide ListAt, UpAt, Shaped, Owned;
    var c := f.kids[p][k];
    KidAbove(f, p, c);
    AboveFact(f, x);
    if x != c && c in f.above[x] && x in f.above[p] {
      AncestorsNest(f, p, x);
    }
  }

  // Detaching what was attached gives the forest back, and the other way round.
  lemma TakeUndoesPut(f: Forest, p: Ptr, k: nat, c: Ptr)
    requires Inv(f) && CanPut(f, p, c) && k <= |f.kids[p]|
    ensures CanTake(Put(f, p, k, c), p, k)
    ensures Take(Put(f, p, k, c), p, k) == f
  {
    hide Inv, Keyed, Shaped, Owned, Put, Take, CanPut;
    PutTakes(f, p, k, c);
    var h := Take(Put(f, p, k, c), p, k);
    forall x | x in f.cells
      ensures SameAt(f, h, x)
    {
      TakenBack(f, p, k, c, x);
    }
    Extensional(f, h);
  }

  lemma PutTakes(f: Forest, p: Ptr, k: nat, c: Ptr)
    requires Inv(f) && CanPut(f, p, c) && k <= |f.kids[p]|
    ensures CanTake(Put(f, p, k, c), p, k) && Put(f, p, k, c).kids[p][k] == c
    ensures Keyed(f) && SameDomains(f, Take(Put(f, p, k, c), p, k))
  {
    hide Shaped, Owned, Put, Take;
    PutAt(f, p, k, c, p);
    TakeAt(Put(f, p, k, c), p, k, p);
  }

  lemma TakenBack(f: Forest, p: Ptr, k: nat, c: Ptr, x: Ptr)
    requires Inv(f) && CanPut(f, p, c) && k <= |f.kids[p]| && x in f.cells
    requires CanTake(Put(f, p, k, c), p, k)
    ensures SameAt(f, Take(Put(f, p, k, c), p, k), x)
  {
    hide Shaped, Owned, Put, Take;
    var g := Put(f, p, k, c);
    PutAt(f, p, k, c, x);
    PutAt(f, p, k, c, p);
    TakeAt(g, p, k, x);
    assert Removed(Inserted(f.kids[p], k, c), k) == f.kids[p];
    if c in f.above[x] {
      InsideApart(f, p, c, x);
    }
  }

  // Two forests alike node by node are the same.
  predicate SameDomains(f: Forest, h: Forest) {
    SameOwners(f, h) && h.kids.Keys == f.kids.Keys && h.up.Keys == f.up.Keys && h.above.Keys == f.above.Keys
  }

  predicate SameAt(f: Forest, h: Forest, x: Ptr) {
    && x in f.kids && x in h.kids && x in f.up && x in h.up && x in f.above && x in h.above
    && h.kids[x] == f.kids[x] && h.up[x] == f.up[x] && h.above[x] == f.above[x]
  }

  lemma Extensional(f: Forest, h: Forest)
    requires Keyed(f) && SameDomains(f, h)
    requires forall x :: x in f.cells ==> SameAt(f, h, x)
    ensures f == h
  {
    assert h.kids == f.kids;
    assert h.up == f.up;
    assert h.above == f.above;
  }

  // Nothing inside the detached c is above p.
  lemma {:induction false} InsideApart(f: Forest, p: Ptr, c: Ptr, x: Ptr)
    requires Inv(f) && CanPut(f, p, c) && x in f.cells && c in f.above[x]
    ensures f.above[x] !! f.above[p]
    decreases f.above[x]
  {
    hide Shaped, Owned;
    AboveFact(f, x);
    AboveFact(f, c);
    if x != c {
      InsideApart(f, p, c, f.up[x]);
      if x in f.above[p] {
        AncestorsNest(f, p, x);
      }
    }
  }

  lemma PutUndoesTake(f: Forest, p: Ptr, k: nat)
    requires Inv(f) && CanTake(f, p, k)
    ensures CanPut(Take(f, p, k), p, f.kids[p][k])
    ensures Put(Take(f, p, k), p, k, f.kids[p][k]) == f
  {
    hide Inv, Shaped, Owned, Put, Take, CanPut;
    TakePuts(f, p, k);
    var h := Put(Take(f, p, k), p, k, f.kids[p][k]);
    forall x | x in f.cells
      ensures SameAt(f, h, x)
    {
      PutBack(f, p, k, x);
    }
    Extensional(f, h);
  }

  lemma TakePuts(f: Forest, p: Ptr, k: nat)
    requires Inv(f) && CanTake(f, p, k)
    ensures CanPut(Take(f, p, k), p, f.kids[p][k]) && |Take(f, p, k).kids[p]| == |f.kids[p]| - 1
    ensures Keyed(f) && SameDomains(f, Put(Take(f, p, k), p, k, f.kids[p][k]))
  {
    hide Shaped, Owned;
    TakeKeyed(f, p, k);
  }

  lemma PutBack(f: Forest, p: Ptr, k: nat, x: Ptr)
    requires Inv(f) && CanTake(f, p, k) && x in f.cells
    requires CanPut(Take(f, p, k), p, f.kids[p][k]) && k <= |Take(f, p, k).kids[p]|
    ensures SameAt(f, Put(Take(f, p, k), p, k, f.kids[p][k]), x)
  {
    hide Shaped, Owned, Put, Take, CanPut;
    var c := f.kids[p][k];
    var g := Take(f, p, k);
    TakeAt(f, p, k, x);
    TakeAt(f, p, k, p);
    PutAt(g, p, k, c, x);
    KidAbove(f, p, c);
    assert Inserted(Removed(f.kids[p], k), k, c) == f.kids[p];
    if c in f.above[x] {
      AncestorsNest(f, x, c);
    }
  }

  // ---- New nodes, strings and keys ----

  predicate Unused(f: Forest, p: Ptr) {
    p != NULL && p !in f.cells && p !in f.strs
  }

  // A new detached node, which owns no string yet.
  function New(f: Forest, p: Ptr, c: Cell): Forest {
    f.(cells := f.cells[p := c], kids := f.kids[p := []], up := f.up[p := NULL], above := f.above[p := {p}])
  }

  function WithHeld(c: Cell, s: Slot, q: Ptr): Cell {
    match s
    case TextSlot => c.(text := q)
    case KeySlot => c.(key := q, isConst := false)
  }

  // The string at q, newly allocated, becomes the text or the key of x; the
  // string x owned there before is freed.
  function Install(f: Forest, x: Ptr, s: Slot, q: Ptr, text: string): Forest
    requires x in f.cells
  {
    var was := {Held(f.cells[x], s)};
    f.(
      cells := f.cells[x := WithHeld(f.cells[x], s, q)],
      strs := (f.strs - was)[q := text],
      owner := (f.owner - was)[q := Owner(x, s)])
  }

  // x takes a name it does not own as its key; the key it owned is freed.
  function Borrow(f: Forest, x: Ptr, name: Ptr): Forest
    requires x in f.cells
  {
    var was := {Held(f.cells[x], KeySlot)};
    f.(
      cells := f.cells[x := f.cells[x].(key := name, isConst := true)],
      strs := f.strs - was,
      owner := f.owner - was)
  }

  // The key of a moves to b, if a has one and b has none.
  predicate KeyMoves(f: Forest, a: Ptr, b: Ptr)
    requires a in f.cells && b in f.cells
  {
    f.cells[a].key != NULL && f.cells[b].key == NULL
  }

  function MoveKey(f: Forest, a: Ptr, b: Ptr): Forest
    requires a in f.cells && b in f.cells
  {
    if !KeyMoves(f, a, b) then f else
      var q := f.cells[a].key;
      f.(
        cells := f.cells[b := f.cells[b].(key := q)][a := f.cells[a].(key := NULL)],
        owner := if f.cells[a].isConst then f.owner else f.owner[q := Owner(b, KeySlot)])
  }

  // The forest without some nodes and the strings they own.
  function Without(f: Forest, gone: set<Ptr>): Forest {
    var lost := StringsOf(f, gone);
    Forest(f.cells - gone, f.kids - gone, f.up - gone, f.above - gone, f.strs - lost, f.owner - lost)
  }

  // Free the tree under the detached c, with every string it owns.
  function Drop(f: Forest, c: Ptr): Forest {
    Without(f, Below(f, c))
  }

  lemma NewKeepsInv(f: Forest, p: Ptr, c: Cell)
    requires Inv(f) && Unused(f, p)
    requires Held(c, TextSlot) == NULL && Held(c, KeySlot) == NULL && !c.isConst
    ensures Inv(New(f, p, c)) && Root(New(f, p, c), p)
  {
    hide Shaped, Owned;
    var g := New(f, p, c);
    assert Keyed(g);
    assert Shaped(g) by {
      forall x | x in g.cells
        ensures ListAt(g, x) && UpAt(g, x) && AboveAt(g, x)
      {
        if x != p {
          ListFact(f, x);
          UpFact(f, x);
          AboveFact(f, x);
        }
      }
      ShapedIntro(g);
    }
    assert Owned(g) by {
      forall x, s | x in g.cells
        ensures OwnsAt(g, x, s)
      {
        if x != p {
          OwnsFact(f, x, s);
        }
      }
      forall q | q in g.strs
        ensures OwnedAt(g, q)
      {
        OwnedFact(f, q);
      }
      forall x | x in g.cells && g.cells[x].isConst
        ensures g.cells[x].key != NULL
      {
        ConstFact(f, x);
      }
      OwnedIntro(g);
    }
  }

  lemma ShapedIntro(f: Forest)
    requires Keyed(f) && forall x :: x in f.cells ==> ListAt(f, x) && UpAt(f, x) && AboveAt(f, x)
    ensures Shaped(f)
  {
    hide ListAt, UpAt, AboveAt;
  }

  lemma OwnedIntro(f: Forest)
    requires Keyed(f)
    requires forall x, s :: x in f.cells ==> OwnsAt(f, x, s)
    requires forall q :: q in f.strs ==> OwnedAt(f, q)
    requires forall x :: x in f.cells && f.cells[x].isConst ==> f.cells[x].key != NULL
    ensures Owned(f)
  {
    hide OwnsAt, OwnedAt;
  }

  lemma ConstFact(f: Forest, x: Ptr)
    requires Inv(f) && x in f.cells && f.cells[x].isConst
    ensures f.cells[x].key != NULL
  {
    hide Shaped, OwnsAt, OwnedAt;
  }

  // Moves that touch neither lists nor reference flags keep the shape.
  lemma ShapeKept(f: Forest, g: Forest)
    requires Inv(f) && Keyed(g) && g.cells.Keys == f.cells.Keys
    requires g.kids == f.kids && g.up == f.up && g.above == f.above
    requires forall x :: x in f.cells ==> g.cells[x].isRef == f.cells[x].isRef
    ensures Shaped(g)
  {
    hide Shaped, Owned;
    forall x | x in g.cells
      ensures ListAt(g, x) && UpAt(g, x) && AboveAt(g, x)
    {
      ListFact(f, x);
      UpFact(f, x);
      AboveFact(f, x);
    }
    ShapedIntro(g);
  }

  lemma InstallKeepsInv(f: Forest, x: Ptr, s: Slot, q: Ptr, text: string)
    requires Inv(f) && x in f.cells && Unused(f, q) && (s.TextSlot? ==> !f.cells[x].isRef)
    ensures Inv(Install(f, x, s, q, text))
  {
    hide Shaped, Owned, Install, OwnsAt, OwnedAt;
    var g := Install(f, x, s, q, text);
    InstallKeyed(f, x, s, q, text);
    ShapeKept(f, g);
    forall y, t | y in g.cells
      ensures OwnsAt(g, y, t)
    {
      InstallOwns(f, x, s, q, text, y, t);
    }
    forall r | r in g.strs
      ensures OwnedAt(g, r)
    {
      InstallOwned(f, x, s, q, text, r);
    }
    OwnedIntro(g);
  }

  lemma InstallKeyed(f: Forest, x: Ptr, s: Slot, q: Ptr, text: string)
    requires Inv(f) && x in f.cells && Unused(f, q)
    ensures var g := Install(f, x, s, q, text);
            && Keyed(g) && g.cells.Keys == f.cells.Keys && g.kids == f.kids && g.up == f.up && g.above == f.above
            && (forall y :: y in f.cells ==> g.cells[y].isRef == f.cells[y].isRef)
            && (forall y :: y in g.cells && g.cells[y].isConst ==> g.cells[y].key != NULL)
  {
    hide Shaped, Owned;
    var g := Install(f, x, s, q, text);
    forall y | y in g.cells && g.cells[y].isConst
      ensures g.cells[y].key != NULL
    {
      ConstFact(f, y);
    }
  }

  lemma InstallOwns(f: Forest, x: Ptr, s: Slot, q: Ptr, text: string, y: Ptr, t: Slot)
    requires Inv(f) && x in f.cells && y in f.cells && Unused(f, q) && (s.TextSlot? ==> !f.cells[x].isRef)
    requires Keyed(Install(f, x, s, q, text))
    ensures OwnsAt(Install(f, x, s, q, text), y, t)
  {
    hide Shaped, Owned;
    OwnsFact(f, y, t);
    OwnsFact(f, x, s);
  }

  lemma InstallOwned(f: Forest, x: Ptr, s: Slot, q: Ptr, text: string, r: Ptr)
    requires Inv(f) && x in f.cells && Unused(f, q) && (s.TextSlot? ==> !f.cells[x].isRef)
    requires Keyed(Install(f, x, s, q, text)) && r in Install(f, x, s, q, text).strs
    ensures OwnedAt(Install(f, x, s, q, text), r)
  {
    hide Shaped, Owned;
    if r != q {
      OwnedFact(f, r);
    }
  }

  lemma BorrowKeepsInv(f: Forest, x: Ptr, name: Ptr)
    requires Inv(f) && x in f.cells && name != NULL
    ensures Inv(Borrow(f, x, name))
  {
    hide Shaped, Owned;
    var g := Borrow(f, x, name);
    assert Keyed(g);
    ShapeKept(f, g);
    forall y, t | y in g.cells
      ensures OwnsAt(g, y, t)
    {
      OwnsFact(f, y, t);
      OwnsFact(f, x, KeySlot);
    }
    forall r | r in g.strs
      ensures OwnedAt(g, r)
    {
      OwnedFact(f, r);
    }
    forall y | y in g.cells && g.cells[y].isConst
      ensures g.cells[y].key != NULL
    {
      if y != x {
        ConstFact(f, y);
      }
    }
    OwnedIntro(g);
  }

  lemma MoveKeyKeepsInv(f: Forest, a: Ptr, b: Ptr)
    requires Inv(f) && a in f.cells && b in f.cells && a != b
    requires KeyMoves(f, a, b) ==> !f.cells[a].isConst
    ensures Inv(MoveKey(f, a, b))
  {
    hide Shaped, Owned;
    var g := MoveKey(f, a, b);
    if KeyMoves(f, a, b) {
      OwnsFact(f, a, KeySlot);
      assert Keyed(g);
      ShapeKept(f, g);
      if f.cells[b].isConst {
        ConstFact(f, b);
      }
      forall y, t | y in g.cells
        ensures OwnsAt(g, y, t)
      {
        OwnsFact(f, y, t);
      }
      forall r | r in g.strs
        ensures OwnedAt(g, r)
      {
        OwnedFact(f, r);
      }
      forall y | y in g.cells && g.cells[y].isConst
        ensures g.cells[y].key != NULL
      {
        ConstFact(f, y);
      }
      OwnedIntro(g);
    }
  }

  lemma DropAt(f: Forest, c: Ptr, x: Ptr)
    requires Keyed(f) && x in f.cells && c !in f.above[x]
    ensures var g := Drop(f, c);
            && Keyed(g) && x in g.cells && g.cells[x] == f.cells[x] && g.kids[x] == f.kids[x]
            && g.up[x] == f.up[x] && g.above[x] == f.above[x]
  {}

  lemma DropKeepsInv(f: Forest, c: Ptr)
    requires Inv(f) && Root(f, c)
    ensures Inv(Drop(f, c))
  {
    hide Shaped, Owned;
    var g := Drop(f, c);
    assert Keyed(g);
    assert Shaped(g) by {
      forall x | x in g.cells
        ensures ListAt(g, x) && UpAt(g, x) && AboveAt(g, x)
      {
        DropShape(f, c, x);
      }
      ShapedIntro(g);
    }
    forall y, t | y in g.cells
      ensures OwnsAt(g, y, t)
    {
      OwnsFact(f, y, t);
    }
    forall r | r in g.strs
      ensures OwnedAt(g, r)
    {
      OwnedFact(f, r);
    }
    forall y | y in g.cells && g.cells[y].isConst
      ensures g.cells[y].key != NULL
    {
      ConstFact(f, y);
    }
    OwnedIntro(g);
  }

  lemma DropShape(f: Forest, c: Ptr, x: Ptr)
    requires Inv(f) && Root(f, c) && x in f.cells && c !in f.above[x]
    ensures Keyed(Drop(f, c)) && ListAt(Drop(f, c), x) && UpAt(Drop(f, c), x) && AboveAt(Drop(f, c), x)
  {
    hide Shaped, Owned, Drop;
    DropAt(f, c, x);
    ListFact(f, x);
    UpFact(f, x);
    AboveFact(f, x);
    if f.up[x] != NULL {
      DropAt(f, c, f.up[x]);
    }
    forall i | 0 <= i < |f.kids[x]|
      ensures c !in f.above[f.kids[x][i]]
      ensures f.kids[x][i] in Drop(f, c).cells && Drop(f, c).up[f.kids[x][i]] == x
    {
      KidAbove(f, x, f.kids[x][i]);
      DropAt(f, c, f.kids[x][i]);
    }
  }

  // ---- Freeing undoes building ----

  lemma DropNew(f: Forest, p: Ptr, c: Cell)
    requires Inv(f) && Unused(f, p)
    ensures Drop(New(f, p, c), p) == f
  {
    hide Shaped, Owned, Below;
    BelowNew(f, p, c);
    OwnsNothing(f, p);
    WithoutNew(f, p, c);
  }

  // An address that is not in use owns no string.
  lemma OwnsNothing(f: Forest, p: Ptr)
    requires Inv(f) && p !in f.cells
    ensures StringsOf(f, {p}) == {}
  {
    hide Shaped, Owned;
    forall q | q in f.owner
      ensures f.owner[q].at != p
    {
      OwnedFact(f, q);
    }
  }

  lemma WithoutNew(f: Forest, p: Ptr, c: Cell)
    requires Keyed(f) && Unused(f, p) && StringsOf(f, {p}) == {}
    ensures Without(New(f, p, c), {p}) == f
  {
    RemovesAdded(f.cells, p, c);
    RemovesAdded(f.kids, p, []);
    RemovesAdded(f.up, p, NULL);
    RemovesAdded(f.above, p, {p});
    RemovesNone(f.strs);
    RemovesNone(f.owner);
    hide Keyed;
    assert StringsOf(New(f, p, c), {p}) == StringsOf(f, {p});
  }

  lemma RemovesAdded<V>(m: map<Ptr, V>, p: Ptr, v: V)
    requires p !in m
    ensures m[p := v] - {p} == m
  {}

  lemma RemovesNone<V>(m: map<Ptr, V>)
    ensures m - {} == m
  {}

  lemma BelowNew(f: Forest, p: Ptr, c: Cell)
    requires Inv(f) && Unused(f, p)
    ensures Below(New(f, p, c), p) == {p}
  {
    hide Shaped, Owned;
    forall x | x in f.cells
      ensures p !in f.above[x]
    {
      if p in f.above[x] {
        AncestorsNest(f, x, p);
      }
    }
  }

  lemma DropInstall(f: Forest, x: Ptr, s: Slot, q: Ptr, text: string)
    requires Inv(f) && x in f.cells && Unused(f, q)
    ensures Drop(Install(f, x, s, q, text), x) == Drop(f, x)
  {
    hide Shaped, Owned;
    var g := Install(f, x, s, q, text);
    SelfAbove(f, x);
    OwnsFact(f, x, s);
    var gone := Below(f, x);
    assert Below(g, x) == gone;
    assert g.cells - gone == f.cells - gone;
    assert g.strs - StringsOf(g, gone) == f.strs - StringsOf(f, gone);
    assert g.owner - StringsOf(g, gone) == f.owner - StringsOf(f, gone);
  }

  lemma DropPut(f: Forest, p: Ptr, k: nat, c: Ptr)
    requires Inv(f) && CanPut(f, p, c) && Root(f, p) && k <= |f.kids[p]|
    ensures Drop(Put(f, p, k, c), p) == Drop(Drop(f, c), p)
  {
    hide Shaped, Owned, Put, Drop, Without;
    var g := Put(f, p, k, c);
    SelfAbove(f, p);
    SelfAbove(f, c);
    PutAt(f, p, k, c, p);
    assert Below(g, p) == Below(f, c) + Below(f, p) by {
      forall x | x in f.cells
        ensures p in g.above[x] <==> c in f.above[x] || p in f.above[x]
      {
        PutAt(f, p, k, c, x);
      }
    }
    DropTwice(f, c, p);
    forall x | x in f.cells && x !in Below(f, c) + Below(f, p)
      ensures g.kids[x] == f.kids[x] && g.up[x] == f.up[x] && g.above[x] == f.above[x]
    {
      PutAt(f, p, k, c, x);
    }
    DropAlike(f, g, Below(f, c) + Below(f, p));
    DropIs(g, p);
  }

  lemma DropIs(f: Forest, c: Ptr)
    ensures Drop(f, c) == Without(f, Below(f, c))
  {}

  lemma DropTwice(f: Forest, c: Ptr, p: Ptr)
    requires Keyed(f)
    ensures Drop(Drop(f, c), p) == Without(f, Below(f, c) + Below(f, p))
  {
    var g := Drop(f, c);
    var both := Below(f, c) + Below(f, p);
    assert Below(g, p) == Below(f, p) - Below(f, c);
    var h := Drop(g, p);
    assert h.cells == f.cells - both;
    assert h.kids == f.kids - both;
    assert h.up == f.up - both;
    assert h.above == f.above - both;
    assert h.strs == f.strs - StringsOf(f, both);
    assert h.owner == f.owner - StringsOf(f, both);
  }

  lemma DropAlike(f: Forest, g: Forest, gone: set<Ptr>)
    requires Keyed(f) && Keyed(g) && SameDomains(f, g)
    requires forall x :: x in f.cells && x !in gone ==>
               g.kids[x] == f.kids[x] && g.up[x] == f.up[x] && g.above[x] == f.above[x]
    ensures Without(f, gone) == Without(g, gone)
  {
    assert f.kids - gone == g.kids - gone;
    assert f.up - gone == g.up - gone;
    assert f.above - gone == g.above - gone;
  }

  // ---- Replacing ----

  predicate CanReplace(f: Forest, p: Ptr, k: nat, r: Ptr) {
    CanTake(f, p, k) && r != f.kids[p][k] && CanPut(f, p, r)
  }

  lemma CanPutTaken(f: Forest, p: Ptr, k: nat, r: Ptr)
    requires CanReplace(f, p, k, r)
    ensures CanPut(Take(f, p, k), p, r) && |Take(f, p, k).kids[p]| == |f.kids[p]| - 1
    ensures var g := Put(Take(f, p, k), p, k, r); g.cells == f.cells && g.strs == f.strs && g.owner == f.owner
  {}

  // Child k of p gives its place, and its key if r has none, to r.
  function Swap(f: Forest, p: Ptr, k: nat, r: Ptr): Forest
    requires CanReplace(f, p, k, r)
  {
    CanPutTaken(f, p, k, r);
    MoveKey(Put(Take(f, p, k), p, k, r), f.kids[p][k], r)
  }

  // ... and is freed.
  function Replace(f: Forest, p: Ptr, k: nat, r: Ptr): Forest
    requires CanReplace(f, p, k, r)
  {
    Drop(Swap(f, p, k, r), f.kids[p][k])
  }

  // The key that moves is a borrowed one.
  predicate ConstKeyMoves(f: Forest, p: Ptr, k: nat, r: Ptr)
    requires CanReplace(f, p, k, r)
  {
    KeyMoves(f, f.kids[p][k], r) && f.cells[f.kids[p][k]].isConst
  }

  lemma SwapKeepsInv(f: Forest, p: Ptr, k: nat, r: Ptr)
    requires Inv(f) && CanReplace(f, p, k, r) && !ConstKeyMoves(f, p, k, r)
    ensures Inv(Swap(f, p, k, r))
  {
    hide Inv, Shaped, Owned, Take, Put, MoveKey;
    CanPutTaken(f, p, k, r);
    TakeKeepsInv(f, p, k);
    PutKeepsInv(Take(f, p, k), p, k, r);
    MoveKeyKeepsInv(Put(Take(f, p, k), p, k, r), f.kids[p][k], r);
  }

  // The replaced child is detached, and r is not inside it.
  lemma SwapRoot(f: Forest, p: Ptr, k: nat, r: Ptr)
    requires Inv(f) && CanReplace(f, p, k, r)
    ensures Keyed(Swap(f, p, k, r)) && Root(Swap(f, p, k, r), f.kids[p][k])
    ensures r in Drop(Swap(f, p, k, r), f.kids[p][k]).cells
    ensures Keyed(Drop(Swap(f, p, k, r), f.kids[p][k]))
  {
    hide Shaped, Owned, Take, Put, Drop;
    var item := f.kids[p][k];
    var g := Take(f, p, k);
    KidAbove(f, p, item);
    AboveFact(f, r);
    OwnsFact(f, item, KeySlot);
    CanPutTaken(f, p, k, r);
    TakeAt(f, p, k, item);
    TakeAt(f, p, k, p);
    TakeAt(f, p, k, r);
    PutAt(g, p, k, r, item);
    PutAt(g, p, k, r, r);
    DropAt(Swap(f, p, k, r), item, r);
  }

  lemma ReplaceKeepsInv(f: Forest, p: Ptr, k: nat, r: Ptr)
    requires Inv(f) && CanReplace(f, p, k, r) && !ConstKeyMoves(f, p, k, r)
    ensures Inv(Replace(f, p, k, r))
  {
    hide Inv, Shaped, Owned, Swap, Drop;
    SwapKeepsInv(f, p, k, r);
    SwapRoot(f, p, k, r);
    DropKeepsInv(Swap(f, p, k, r), f.kids[p][k]);
  }

  // Replacing leaves every string with exactly one owner just when the key
  // that moves, if any, is not borrowed: after moving a borrowed key no
  // assignment of owners fits.
  lemma ReplaceKeepsOwnership(f: Forest, p: Ptr, k: nat, r: Ptr)
    requires Inv(f) && CanReplace(f, p, k, r)
    ensures (exists o :: Inv(Replace(f, p, k, r).(owner := o))) <==> !ConstKeyMoves(f, p, k, r)
  {
    hide Inv, Replace, CanReplace;
    if ConstKeyMoves(f, p, k, r) {
      forall o
        ensures !Inv(Replace(f, p, k, r).(owner := o))
      {
        BorrowedKeyUnowned(f, p, k, r, o);
      }
    } else {
      ReplaceKeepsInv(f, p, k, r);
      var g := Replace(f, p, k, r);
      assert g.(owner := g.owner) == g;
    }
  }

  lemma BorrowedKeyUnowned(f: Forest, p: Ptr, k: nat, r: Ptr, o: map<Ptr, Owner>)
    requires Inv(f) && CanReplace(f, p, k, r) && ConstKeyMoves(f, p, k, r)
    ensures !Inv(Replace(f, p, k, r).(owner := o))
  {
    hide Inv, Replace;
    BorrowedKeyHeld(f, p, k, r);
    HeldTwice(f, Replace(f, p, k, r).(owner := o), r, f.cells[f.kids[p][k]].key);
  }

  // The replacement takes the borrowed name for a key of its own, and what is
  // left of the forest owns no string it did not own.
  lemma BorrowedKeyHeld(f: Forest, p: Ptr, k: nat, r: Ptr)
    requires Inv(f) && CanReplace(f, p, k, r) && ConstKeyMoves(f, p, k, r)
    ensures var h, name := Replace(f, p, k, r), f.cells[f.kids[p][k]].key;
            && r in h.cells && Held(h.cells[r], KeySlot) == name && name != NULL
            && h.strs.Keys <= f.strs.Keys
            && (name in h.strs ==> OthersKeep(f, h, r, name))
  {
    hide Shaped, Owned, Swap, Drop, ConstKeyMoves;
    var item := f.kids[p][k];
    SwapBorrowed(f, p, k, r);
    SwapRoot(f, p, k, r);
    DropCells(Swap(f, p, k, r), item);
  }

  lemma SwapBorrowed(f: Forest, p: Ptr, k: nat, r: Ptr)
    requires Inv(f) && CanReplace(f, p, k, r) && ConstKeyMoves(f, p, k, r)
    ensures var g, name := Swap(f, p, k, r), f.cells[f.kids[p][k]].key;
            && name != NULL && g.strs == f.strs && g.owner == f.owner
            && r in g.cells && Held(g.cells[r], KeySlot) == name
            && (name in f.strs ==> OthersKeep(f, g, r, name))
  {
    hide Shaped, Owned, Take, Put;
    CanPutTaken(f, p, k, r);
    if f.cells[r].isConst {
      ConstFact(f, r);
    }
    if f.cells[f.kids[p][k]].key in f.strs {
      OwnedFact(f, f.cells[f.kids[p][k]].key);
    }
  }

  // The owner of q is left, and it is not the key of r.
  predicate OthersKeep(f: Forest, h: Forest, r: Ptr, q: Ptr) {
    && q in f.owner && f.owner[q] != Owner(r, KeySlot)
    && f.owner[q].at in h.cells && Held(h.cells[f.owner[q].at], f.owner[q].slot) == q
  }

  lemma HeldTwice(f: Forest, h: Forest, r: Ptr, q: Ptr)
    requires r in h.cells && Held(h.cells[r], KeySlot) == q && q != NULL
    requires q in h.strs ==> OthersKeep(f, h, r, q)
    ensures !Inv(h)
  {
    hide Shaped, Owned;
    if Inv(h) {
      OwnsFact(h, r, KeySlot);
      OwnsFact(h, f.owner[q].at, f.owner[q].slot);
    }
  }

  lemma DropCells(f: Forest, c: Ptr)
    requires Keyed(f)
    ensures var g := Drop(f, c);
            && (forall x :: x in g.cells ==> x in f.cells && g.cells[x] == f.cells[x])
            && (forall x :: x in f.cells && c !in f.above[x] ==> x in g.cells)
            && (forall q :: q in g.strs ==> q in f.strs)
            && (forall q :: q in g.strs && f.owner[q].at in f.cells ==> f.owner[q].at in g.cells)
  {}
}
