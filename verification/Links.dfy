// How a forest lies in memory: every node linked into its list by next and
// prev, every parent pointing at its first child. The pointer writes of the
// library carry this from one forest to the next.
module Links {
  import opened Memory
  import opened Forests

  function CellOf(n: Node): Cell {
    Cell(n.kind, n.isRef, n.isConst, n.text, n.number, n.key, if n.isRef then n.child else NULL)
  }

  // The list of children of x, and x itself. The first child has no prev.
  predicate LinkedAt(nodes: Nodes, f: Forest, x: Ptr)
    requires Keyed(f) && x in f.cells
  {
    var ks := f.kids[x];
    && x in nodes
    && CellOf(nodes[x]) == f.cells[x]
    && (!f.cells[x].isRef ==> nodes[x].child == At(ks, 0))
    && (f.up[x] == NULL ==> nodes[x].next == NULL && nodes[x].prev == NULL)
    && forall i :: 0 <= i < |ks| ==> StrungAt(nodes, ks, i)
  }

  // Element i of a list, joined to its neighbours.
  predicate StrungAt(nodes: Nodes, ks: seq<Ptr>, i: nat)
    requires i < |ks|
  {
    ks[i] in nodes && nodes[ks[i]].next == At(ks, i + 1) && nodes[ks[i]].prev == At(ks, i - 1)
  }

  predicate Linked(nodes: Nodes, f: Forest)
    requires Keyed(f)
  {
    nodes.Keys == f.cells.Keys && forall x :: x in f.cells ==> LinkedAt(nodes, f, x)
  }

  // The forest fixes every field of every node.
  lemma LinkedUnique(m: Nodes, n: Nodes, f: Forest)
    requires Inv(f) && Linked(m, f) && Linked(n, f)
    ensures m == n
  {
    hide LinkedAt, Shaped, Owned;
    forall x | x in f.cells
      ensures m[x] == n[x]
    {
      UpFact(f, x);
      SameNode(m, n, f, f, x);
    }
  }

  // A node with the same cell, children and place in both forests is the same
  // node in both memories.
  lemma SameNode(m: Nodes, n: Nodes, f: Forest, g: Forest, x: Ptr)
    requires Inv(f) && Keyed(g) && Linked(m, f) && Linked(n, g)
    requires x in f.cells && x in g.cells && f.cells[x] == g.cells[x] && f.kids[x] == g.kids[x] && f.up[x] == g.up[x]
    requires f.up[x] != NULL ==> f.up[x] in g.cells && f.up[x] in f.cells && f.kids[f.up[x]] == g.kids[f.up[x]]
    ensures x in m && x in n && m[x] == n[x]
  {
    hide Shaped, Owned;
    assert LinkedAt(m, f, x) && LinkedAt(n, g, x);
    if f.up[x] != NULL {
      UpFact(f, x);
      var p := f.up[x];
      assert LinkedAt(m, f, p) && LinkedAt(n, g, p);
      var i :| 0 <= i < |f.kids[p]| && f.kids[p][i] == x;
      assert StrungAt(m, f.kids[p], i) && StrungAt(n, f.kids[p], i);
    }
  }

  // ---- Splicing in ----

  // Put c between two neighbours in the list of p, either of which may be NULL.
  function Splice(nodes: Nodes, p: Ptr, before: Ptr, after: Ptr, c: Ptr): Nodes
    requires p in nodes && c in nodes
    requires (before != NULL ==> before in nodes) && (after != NULL ==> after in nodes)
  {
    var n1 := nodes[c := nodes[c].(prev := before, next := after)];
    var n2 := if before == NULL then n1[p := n1[p].(child := c)] else n1[before := n1[before].(next := c)];
    if after == NULL then n2 else n2[after := n2[after].(prev := c)]
  }

  lemma SpliceField(nodes: Nodes, p: Ptr, before: Ptr, after: Ptr, c: Ptr, y: Ptr)
    requires p in nodes && c in nodes && y in nodes && !nodes[p].isRef
    requires (before != NULL ==> before in nodes) && (after != NULL ==> after in nodes)
    requires c != before && c != after
    ensures var m := Splice(nodes, p, before, after, c);
            && m.Keys == nodes.Keys
            && CellOf(m[y]) == CellOf(nodes[y])
            && m[y].child == (if y == p && before == NULL then c else nodes[y].child)
            && m[y].next == (if y == c then after else if before != NULL && y == before then c else nodes[y].next)
            && m[y].prev == (if y == c then before else if after != NULL && y == after then c else nodes[y].prev)
  {}

  lemma SpliceLinked(nodes: Nodes, f: Forest, p: Ptr, k: nat, c: Ptr)
    requires Inv(f) && Linked(nodes, f) && CanPut(f, p, c) && k <= |f.kids[p]|
    ensures Neighbour(nodes, f, p, k - 1) && Neighbour(nodes, f, p, k)
    ensures Keyed(Put(f, p, k, c))
    ensures Linked(Splice(nodes, p, At(f.kids[p], k - 1), At(f.kids[p], k), c), Put(f, p, k, c))
  {
    hide Shaped, Owned, Splice, Put, LinkedAt;
    var ks := f.kids[p];
    NeighbourOk(nodes, f, p, k - 1);
    NeighbourOk(nodes, f, p, k);
    var m := Splice(nodes, p, At(ks, k - 1), At(ks, k), c);
    PutAt(f, p, k, c, p);
    SpliceKeys(nodes, p, At(ks, k - 1), At(ks, k), c);
    forall x | x in f.cells
      ensures LinkedAt(m, Put(f, p, k, c), x)
    {
      if x == p {
        SpliceParent(nodes, f, p, k, c);
      } else {
        SpliceElsewhere(nodes, f, p, k, c, x);
      }
    }
  }

  lemma SpliceKeys(nodes: Nodes, p: Ptr, before: Ptr, after: Ptr, c: Ptr)
    requires p in nodes && c in nodes
    requires (before != NULL ==> before in nodes) && (after != NULL ==> after in nodes)
    ensures Splice(nodes, p, before, after, c).Keys == nodes.Keys
  {}

  // The neighbour of a place in the list of p is NULL or one of its children.
  predicate Neighbour(nodes: Nodes, f: Forest, p: Ptr, i: int)
    requires Keyed(f) && p in f.cells
  {
    var b := At(f.kids[p], i);
    b != NULL ==> b in nodes && b in f.cells && f.up[b] == p
  }

  lemma NeighbourOk(nodes: Nodes, f: Forest, p: Ptr, i: int)
    requires Inv(f) && Linked(nodes, f) && p in f.cells
    ensures Neighbour(nodes, f, p, i)
    ensures 0 <= i < |f.kids[p]| ==> f.kids[p][i] != NULL
  {
    hide Shaped, Owned;
    ListFact(f, p);
  }

  lemma SpliceElsewhere(nodes: Nodes, f: Forest, p: Ptr, k: nat, c: Ptr, x: Ptr)
    requires Inv(f) && Linked(nodes, f) && CanPut(f, p, c) && k <= |f.kids[p]| && x in f.cells && x != p
    requires Neighbour(nodes, f, p, k - 1) && Neighbour(nodes, f, p, k)
    requires Keyed(Put(f, p, k, c))
    ensures LinkedAt(Splice(nodes, p, At(f.kids[p], k - 1), At(f.kids[p], k), c), Put(f, p, k, c), x)
  {
    hide Shaped, Owned, Splice, Put, Linked;
    LinkedFact(nodes, f, x);
    LinkedFact(nodes, f, p);
    var before, after := At(f.kids[p], k - 1), At(f.kids[p], k);
    var m := Splice(nodes, p, before, after, c);
    ListFact(f, x);
    PutAt(f, p, k, c, x);
    SpliceField(nodes, p, before, after, c, x);
    forall i | 0 <= i < |f.kids[x]|
      ensures StrungAt(m, f.kids[x], i)
    {
      assert StrungAt(nodes, f.kids[x], i);
      SpliceField(nodes, p, before, after, c, f.kids[x][i]);
    }
  }

  lemma LinkedFact(nodes: Nodes, f: Forest, x: Ptr)
    requires Keyed(f) && Linked(nodes, f) && x in f.cells
    ensures LinkedAt(nodes, f, x) && nodes.Keys == f.cells.Keys
  {
    hide LinkedAt;
  }

  lemma SpliceParent(nodes: Nodes, f: Forest, p: Ptr, k: nat, c: Ptr)
    requires Inv(f) && Linked(nodes, f) && CanPut(f, p, c) && k <= |f.kids[p]|
    requires Neighbour(nodes, f, p, k - 1) && Neighbour(nodes, f, p, k)
    requires Keyed(Put(f, p, k, c))
    ensures LinkedAt(Splice(nodes, p, At(f.kids[p], k - 1), At(f.kids[p], k), c), Put(f, p, k, c), p)
  {
    hide Shaped, Owned, Splice, Put, Linked, StrungAt;
    LinkedFact(nodes, f, p);
    LinkedFact(nodes, f, c);
    var ks := f.kids[p];
    var before, after := At(ks, k - 1), At(ks, k);
    var m := Splice(nodes, p, before, after, c);
    NeighbourOk(nodes, f, p, k - 1);
    PutAt(f, p, k, c, p);
    SpliceField(nodes, p, before, after, c, p);
    ListFact(f, p);
    forall i | 0 <= i < |ks| + 1
      ensures StrungAt(m, Inserted(ks, k, c), i)
    {
      SpliceKid(nodes, ks, p, k, c, i);
    }
  }

  predicate Distinct(ks: seq<Ptr>) {
    forall i, j :: 0 <= i < j < |ks| ==> ks[i] != ks[j]
  }

  lemma SpliceKid(nodes: Nodes, ks: seq<Ptr>, p: Ptr, k: nat, c: Ptr, i: nat)
    requires p in nodes && c in nodes && !nodes[p].isRef && k <= |ks| && i <= |ks|
    requires c !in ks && c != NULL && Distinct(ks) && NULL !in ks
    requires forall j :: 0 <= j < |ks| ==> StrungAt(nodes, ks, j)
    requires (0 < k ==> ks[k - 1] in nodes) && (k < |ks| ==> ks[k] in nodes)
    ensures StrungAt(Splice(nodes, p, At(ks, k - 1), At(ks, k), c), Inserted(ks, k, c), i)
  {
    hide Splice;
    if i == k {
      SpliceField(nodes, p, At(ks, k - 1), At(ks, k), c, c);
    } else {
      var j := if i < k then i else i - 1;
      assert StrungAt(nodes, ks, j);
      SpliceField(nodes, p, At(ks, k - 1), At(ks, k), c, ks[j]);
    }
  }

  // ---- Splicing out ----

  // Join the neighbours of c to each other, p to the second if there is no
  // first, and clear the links of c.
  function Unsplice(nodes: Nodes, p: Ptr, before: Ptr, after: Ptr, c: Ptr): Nodes
    requires p in nodes && c in nodes
    requires (before != NULL ==> before in nodes) && (after != NULL ==> after in nodes)
  {
    var n1 := if before == NULL then nodes[p := nodes[p].(child := after)]
              else nodes[before := nodes[before].(next := after)];
    var n2 := if after == NULL then n1 else n1[after := n1[after].(prev := before)];
    n2[c := n2[c].(next := NULL, prev := NULL)]
  }

  lemma UnspliceField(nodes: Nodes, p: Ptr, before: Ptr, after: Ptr, c: Ptr, y: Ptr)
    requires p in nodes && c in nodes && y in nodes && !nodes[p].isRef
    requires (before != NULL ==> before in nodes) && (after != NULL ==> after in nodes)
    ensures var m := Unsplice(nodes, p, before, after, c);
            && m.Keys == nodes.Keys
            && CellOf(m[y]) == CellOf(nodes[y])
            && m[y].child == (if y == p && before == NULL then after else nodes[y].child)
            && m[y].next == (if y == c then NULL else if before != NULL && y == before then after else nodes[y].next)
            && m[y].prev == (if y == c then NULL else if after != NULL && y == after then before else nodes[y].prev)
  {}

  lemma UnspliceLinked(nodes: Nodes, f: Forest, p: Ptr, k: nat)
    requires Inv(f) && Linked(nodes, f) && CanTake(f, p, k)
    ensures Neighbour(nodes, f, p, k - 1) && Neighbour(nodes, f, p, k + 1)
    ensures Keyed(Take(f, p, k))
    ensures Linked(Unsplice(nodes, p, At(f.kids[p], k - 1), At(f.kids[p], k + 1), f.kids[p][k]), Take(f, p, k))
  {
    hide Shaped, Owned, Unsplice, Take, LinkedAt;
    var ks := f.kids[p];
    NeighbourOk(nodes, f, p, k - 1);
    NeighbourOk(nodes, f, p, k + 1);
    KidRef(f, p);
    TakeAt(f, p, k, p);
    UnspliceKeys(nodes, p, At(ks, k - 1), At(ks, k + 1), ks[k]);
    var m := Unsplice(nodes, p, At(ks, k - 1), At(ks, k + 1), ks[k]);
    forall x | x in f.cells
      ensures LinkedAt(m, Take(f, p, k), x)
    {
      if x == p {
        UnspliceParent(nodes, f, p, k);
      } else {
        UnspliceElsewhere(nodes, f, p, k, x);
      }
    }
  }

  lemma UnspliceKeys(nodes: Nodes, p: Ptr, before: Ptr, after: Ptr, c: Ptr)
    requires p in nodes && c in nodes
    requires (before != NULL ==> before in nodes) && (after != NULL ==> after in nodes)
    ensures Unsplice(nodes, p, before, after, c).Keys == nodes.Keys
  {}

  lemma UnspliceElsewhere(nodes: Nodes, f: Forest, p: Ptr, k: nat, x: Ptr)
    requires Inv(f) && Linked(nodes, f) && CanTake(f, p, k) && x in f.cells && x != p && !f.cells[p].isRef
    requires Neighbour(nodes, f, p, k - 1) && Neighbour(nodes, f, p, k + 1)
    requires Keyed(Take(f, p, k))
    ensures LinkedAt(Unsplice(nodes, p, At(f.kids[p], k - 1), At(f.kids[p], k + 1), f.kids[p][k]), Take(f, p, k), x)
  {
    hide Shaped, Owned, Unsplice, Take, Linked;
    LinkedFact(nodes, f, x);
    LinkedFact(nodes, f, p);
    var before, after, c := At(f.kids[p], k - 1), At(f.kids[p], k + 1), f.kids[p][k];
    var m := Unsplice(nodes, p, before, after, c);
    ListFact(f, x);
    KidAbove(f, p, c);
    TakeAt(f, p, k, x);
    UnspliceField(nodes, p, before, after, c, x);
    forall i | 0 <= i < |f.kids[x]|
      ensures StrungAt(m, f.kids[x], i)
    {
      assert StrungAt(nodes, f.kids[x], i);
      UnspliceField(nodes, p, before, after, c, f.kids[x][i]);
    }
  }

  lemma UnspliceParent(nodes: Nodes, f: Forest, p: Ptr, k: nat)
    requires Inv(f) && Linked(nodes, f) && CanTake(f, p, k) && !f.cells[p].isRef
    requires Neighbour(nodes, f, p, k - 1) && Neighbour(nodes, f, p, k + 1)
    requires Keyed(Take(f, p, k))
    ensures LinkedAt(Unsplice(nodes, p, At(f.kids[p], k - 1), At(f.kids[p], k + 1), f.kids[p][k]), Take(f, p, k), p)
  {
    hide Shaped, Owned, Unsplice, Take, Linked, StrungAt;
    LinkedFact(nodes, f, p);
    var ks := f.kids[p];
    var before, after, c := At(ks, k - 1), At(ks, k + 1), ks[k];
    var m := Unsplice(nodes, p, before, after, c);
    NeighbourOk(nodes, f, p, k - 1);
    KidAbove(f, p, c);
    TakeAt(f, p, k, p);
    UnspliceField(nodes, p, before, after, c, p);
    ListFact(f, p);
    forall i | 0 <= i < |ks| - 1
      ensures StrungAt(m, Removed(ks, k), i)
    {
      UnspliceKid(nodes, ks, p, k, i);
    }
  }

  lemma UnspliceKid(nodes: Nodes, ks: seq<Ptr>, p: Ptr, k: nat, i: nat)
    requires p in nodes && !nodes[p].isRef && k < |ks| && i < |ks| - 1
    requires Distinct(ks) && NULL !in ks && forall j :: 0 <= j < |ks| ==> ks[j] in nodes
    requires forall j :: 0 <= j < |ks| ==> StrungAt(nodes, ks, j)
    ensures StrungAt(Unsplice(nodes, p, At(ks, k - 1), At(ks, k + 1), ks[k]), Removed(ks, k), i)
  {
    hide Unsplice;
    var j := if i < k then i else i + 1;
    assert StrungAt(nodes, ks, j);
    UnspliceField(nodes, p, At(ks, k - 1), At(ks, k + 1), ks[k], ks[j]);
  }

  // ---- The other moves ----

  predicate Unlinked(n: Node) {
    n.next == NULL && n.prev == NULL && (!n.isRef ==> n.child == NULL)
  }

  lemma NewLinked(nodes: Nodes, f: Forest, p: Ptr, n: Node)
    requires Inv(f) && Linked(nodes, f) && Unused(f, p) && Unlinked(n)
    ensures Keyed(New(f, p, CellOf(n))) && Linked(nodes[p := n], New(f, p, CellOf(n)))
  {
    hide Shaped, Owned, Linked, LinkedAt, New;
    LinkedKeys(nodes, f);
    NewKeyed(f, p, CellOf(n));
    forall x | x in New(f, p, CellOf(n)).cells
      ensures LinkedAt(nodes[p := n], New(f, p, CellOf(n)), x)
    {
      NewLinkedAt(nodes, f, p, n, x);
    }
    LinkedIntro(nodes[p := n], New(f, p, CellOf(n)));
  }

  lemma NewKeyed(f: Forest, p: Ptr, c: Cell)
    requires Keyed(f) && Unused(f, p)
    ensures Keyed(New(f, p, c)) && New(f, p, c).cells.Keys == f.cells.Keys + {p}
  {}

  lemma NewLinkedAt(nodes: Nodes, f: Forest, p: Ptr, n: Node, x: Ptr)
    requires Inv(f) && Linked(nodes, f) && Unused(f, p) && Unlinked(n) && x in New(f, p, CellOf(n)).cells
    requires Keyed(New(f, p, CellOf(n)))
    ensures LinkedAt(nodes[p := n], New(f, p, CellOf(n)), x)
  {
    hide Shaped, Owned, Linked;
    if x != p {
      LinkedKeys(nodes, f);
      LinkedFact(nodes, f, x);
      ListFact(f, x);
      var m, ks := nodes[p := n], f.kids[x];
      forall i | 0 <= i < |ks|
        ensures StrungAt(m, ks, i)
      {
        assert StrungAt(nodes, ks, i);
      }
    }
  }

  lemma LinkedKeys(nodes: Nodes, f: Forest)
    requires Keyed(f) && Linked(nodes, f)
    ensures nodes.Keys == f.cells.Keys
  {}

  lemma LinkedIntro(nodes: Nodes, f: Forest)
    requires Keyed(f) && nodes.Keys == f.cells.Keys && forall x :: x in f.cells ==> LinkedAt(nodes, f, x)
    ensures Linked(nodes, f)
  {
    hide LinkedAt;
  }

  // Writes that leave the links alone.
  predicate SameLinks(a: Node, b: Node) {
    a.next == b.next && a.prev == b.prev && a.child == b.child && a.isRef == b.isRef
  }

  lemma RelabelLinked(nodes: Nodes, f: Forest, m: Nodes, g: Forest)
    requires Inv(f) && Linked(nodes, f) && Keyed(g) && m.Keys == nodes.Keys && g.cells.Keys == f.cells.Keys
    requires g.kids == f.kids && g.up == f.up
    requires forall x :: x in nodes ==> SameLinks(nodes[x], m[x])
    requires forall x :: x in m && x in g.cells ==> CellOf(m[x]) == g.cells[x]
    ensures Linked(m, g)
  {
    hide Shaped, Owned, Linked;
    LinkedKeys(nodes, f);
    forall x | x in g.cells
      ensures LinkedAt(m, g, x)
    {
      LinkedFact(nodes, f, x);
      forall i | 0 <= i < |f.kids[x]|
        ensures StrungAt(m, f.kids[x], i)
      {
        assert StrungAt(nodes, f.kids[x], i);
      }
    }
    LinkedIntro(m, g);
  }

  lemma DropLinked(nodes: Nodes, f: Forest, c: Ptr)
    requires Inv(f) && Linked(nodes, f) && Root(f, c)
    ensures Keyed(Drop(f, c)) && Linked(nodes - Below(f, c), Drop(f, c))
  {
    hide Shaped, Owned, Linked, Drop;
    LinkedKeys(nodes, f);
    DropKeys(f, c);
    var m, g := nodes - Below(f, c), Drop(f, c);
    forall x | x in g.cells
      ensures LinkedAt(m, g, x)
    {
      DropAt(f, c, x);
      LinkedFact(nodes, f, x);
      forall i | 0 <= i < |f.kids[x]|
        ensures StrungAt(m, f.kids[x], i)
      {
        assert StrungAt(nodes, f.kids[x], i);
        KidAbove(f, x, f.kids[x][i]);
      }
    }
    LinkedIntro(m, g);
  }

  lemma DropKeys(f: Forest, c: Ptr)
    requires Keyed(f)
    ensures Keyed(Drop(f, c)) && Drop(f, c).cells.Keys == f.cells.Keys - Below(f, c)
  {}
}
