// What a tree of nodes says, apart from where it lies: kinds, numbers, texts
// and keys. A tree read through pointers, a tree the forest owns, and a tree
// just built are related to it; cjson_to_value is its value.
module Trees {
  import opened Bytes
  import opened Numbers
  import opened Values
  import opened Memory
  import opened Forests
  import opened Links
  import opened Heaps

  datatype Tree = Tree(at: Ptr, kind: Kind, number: Num, text: Option<string>, key: Option<string>, kids: seq<Tree>)

  function Ats(ts: seq<Tree>): (ks: seq<Ptr>)
    ensures |ks| == |ts| && forall i :: 0 <= i < |ts| ==> ks[i] == ts[i].at
  {
    seq(|ts|, i requires 0 <= i < |ts| => ts[i].at)
  }

  // ---- The value of a tree (cjson_to_value) ----

  function Or(s: Option<string>): string {
    match s
    case Some(t) => t
    case None => ""
  }

  function ValueOf(t: Tree): Option<Value>
    decreases t, 1
  {
    match t.kind
    case NullKind => Some(Null)
    case TrueKind => Some(Bool(true))
    case FalseKind => Some(Bool(false))
    case NumberKind => Some(Number(t.number))
    case StringKind => Some(String(Or(t.text)))
    case RawKind => Some(String(Or(t.text)))
    case ArrayKind => (match ItemsOf(t.kids) case Some(items) => Some(Array(items)) case None => None)
    case ObjectKind => (match MembersOf(t.kids) case Some(ms) => Some(Object(ms)) case None => None)
    case InvalidKind => None
  }

  function ItemsOf(ts: seq<Tree>): Option<seq<Value>>
    decreases ts, 0
  {
    if ts == [] then Some([])
    else match ValueOf(ts[0])
      case None => None
      case Some(v) => Before([v], ItemsOf(ts[1..]))
  }

  function MembersOf(ts: seq<Tree>): Option<seq<Member>>
    decreases ts, 0
  {
    if ts == [] then Some([])
    else match ValueOf(ts[0])
      case None => None
      case Some(v) => Before([Member(Or(ts[0].key), v)], MembersOf(ts[1..]))
  }

  function Before<T>(a: seq<T>, b: Option<seq<T>>): Option<seq<T>> {
    match b
    case Some(s) => Some(a + s)
    case None => None
  }

  lemma BeforeNone<T>(b: Option<seq<T>>)
    ensures Before([], b) == b
  {
    if b.Some? {
      assert [] + b.value == b.value;
    }
  }

  lemma BeforeTwice<T>(a: seq<T>, b: seq<T>, c: Option<seq<T>>)
    ensures Before(a, Before(b, c)) == Before(a + b, c)
  {
    if c.Some? {
      assert a + (b + c.value) == a + b + c.value;
    }
  }

  // ---- Trees read through pointers ----

  // A string field: NULL, or a readable string.
  predicate Reads(texts: Strings, p: Ptr, s: Option<string>) {
    if p == NULL then s == None else p in texts && s == Some(UpToNul(texts[p]))
  }

  // Following child and next from t.at shows t. Lists may be borrowed.
  ghost predicate Views(nodes: Nodes, texts: Strings, t: Tree)
    decreases t
  {
    && t.at != NULL && t.at in nodes
    && var n := nodes[t.at];
    && n.kind == t.kind && n.number == t.number && Reads(texts, n.text, t.text) && Reads(texts, n.key, t.key)
    && Chain(nodes, n.child, Ats(t.kids))
    && forall i :: 0 <= i < |t.kids| ==> Views(nodes, texts, t.kids[i])
  }

  // A view survives as long as its nodes and strings do.
  lemma {:induction false} ViewsFrame(m: Nodes, x: Strings, n: Nodes, y: Strings, t: Tree)
    requires Views(m, x, t)
    requires forall p :: p in m ==> p in n && n[p] == m[p]
    requires forall q :: q in x ==> q in y && y[q] == x[q]
    ensures Views(n, y, t)
    decreases t
  {
    hide UpToNul;
    forall i | 0 <= i < |t.kids|
      ensures Views(n, y, t.kids[i])
    {
      ViewsFrame(m, x, n, y, t.kids[i]);
    }
  }

  // ---- Trees the forest owns ----

  // Nothing is lent: such a tree has no const key.
  const OWN: Strings := map[]

  // A tree of owned nodes, none of them a reference. Its texts and keys are its
  // own, except that const keys are read among the names the caller lends.
  predicate Shown(f: Forest, lent: Strings, t: Tree)
    decreases t
  {
    && t.at in f.cells && t.at in f.kids
    && ShownCell(f.cells[t.at], f.strs, lent, t)
    && f.kids[t.at] == Ats(t.kids)
    && forall i :: 0 <= i < |t.kids| ==> Shown(f, lent, t.kids[i])
  }

  predicate ShownCell(c: Cell, texts: Strings, lent: Strings, t: Tree) {
    && !c.isRef && c.kind == t.kind && c.number == t.number
    && Reads(texts, c.text, t.text) && Reads(if c.isConst then lent else texts, c.key, t.key)
  }

  // A shown tree stays shown while its nodes and all strings stay.
  lemma {:induction false} ShownFrame(f: Forest, g: Forest, lent: Strings, t: Tree)
    requires Inv(f) && Shown(f, lent, t)
    requires forall x :: x in f.cells && t.at in f.above[x] ==> Unchanged(f, g, x)
    requires Holds(g.strs, f.strs)
    ensures Shown(g, lent, t)
    decreases t
  {
    hide Shaped, Owned, UpToNul;
    SelfAbove(f, t.at);
    assert Unchanged(f, g, t.at);
    forall i | 0 <= i < |t.kids|
      ensures Shown(g, lent, t.kids[i])
    {
      var k := t.kids[i].at;
      assert k == f.kids[t.at][i];
      KidAbove(f, t.at, k);
      forall x | x in f.cells && k in f.above[x]
        ensures Unchanged(f, g, x)
      {
        AncestorsNest(f, x, k);
      }
      ShownFrame(f, g, lent, t.kids[i]);
    }
  }

  predicate Unchanged(f: Forest, g: Forest, x: Ptr) {
    x in f.cells && x in f.kids && x in g.cells && x in g.kids && g.cells[x] == f.cells[x] && g.kids[x] == f.kids[x]
  }

  lemma {:induction false} ShownWithout(f: Forest, c: Ptr, lent: Strings, t: Tree)
    requires Keyed(f) && Shown(Drop(f, c), lent, t)
    ensures Shown(f, lent, t)
    decreases t
  {
    hide UpToNul;
    forall i | 0 <= i < |t.kids|
      ensures Shown(f, lent, t.kids[i])
    {
      ShownWithout(f, c, lent, t.kids[i]);
    }
  }

  // A shown tree can be read through pointers.
  lemma {:induction false} ShownViews(nodes: Nodes, f: Forest, lent: Strings, texts: Strings, t: Tree)
    requires Inv(f) && Linked(nodes, f) && Shown(f, lent, t) && Holds(texts, f.strs) && Holds(texts, lent)
    ensures Views(nodes, texts, t)
    decreases t
  {
    hide Shaped, Owned, UpToNul, Linked, Chain;
    ListChained(nodes, f, t.at);
    KindKept(nodes, f, t.at);
    TreeAt(f, t.at);
    forall i | 0 <= i < |t.kids|
      ensures Views(nodes, texts, t.kids[i])
    {
      ShownViews(nodes, f, lent, texts, t.kids[i]);
    }
  }

  predicate Holds(texts: Strings, strs: Strings) {
    forall q :: q in strs ==> q in texts && texts[q] == strs[q]
  }

  lemma TreeAt(f: Forest, x: Ptr)
    requires Inv(f) && x in f.cells
    ensures x != NULL
  {}

  // ---- Trees under construction ----

  // f is D with one new tree, t, and nothing else: freeing t gives D back.
  predicate Grown(f: Forest, D: Forest, t: Tree) {
    Inv(f) && Root(f, t.at) && Drop(f, t.at) == D && Shown(f, OWN, t)
  }

  lemma GrownNew(D: Forest, p: Ptr, c: Cell)
    requires Inv(D) && Unused(D, p) && !c.isRef && !c.isConst && c.text == NULL && c.key == NULL
    ensures Grown(New(D, p, c), D, Tree(p, c.kind, c.number, None, None, []))
  {
    hide Shaped, Owned, Drop;
    NewKeepsInv(D, p, c);
    DropNew(D, p, c);
  }

  lemma GrownInstall(f: Forest, D: Forest, t: Tree, s: Slot, q: Ptr, text: string)
    requires Grown(f, D, t) && Unused(f, q) && Held(f.cells[t.at], s) == NULL
    ensures Grown(Install(f, t.at, s, q, text), D, WithText(t, s, UpToNul(text)))
  {
    hide Shaped, Owned, Drop, UpToNul, Shown;
    var u := WithText(t, s, UpToNul(text));
    ShownStep(f, OWN, t);
    InstallKeepsInv(f, t.at, s, q, text);
    DropInstall(f, t.at, s, q, text);
    var g := Install(f, t.at, s, q, text);
    forall i | 0 <= i < |t.kids|
      ensures Shown(g, OWN, t.kids[i])
    {
      KidAbove(f, t.at, t.kids[i].at);
      ShownFrame(f, g, OWN, t.kids[i]);
    }
    ShownIntro(g, OWN, u);
  }

  function WithText(t: Tree, s: Slot, text: string): Tree {
    match s
    case TextSlot => t.(text := Some(text))
    case KeySlot => t.(key := Some(text))
  }

  lemma ShownStep(f: Forest, lent: Strings, t: Tree)
    requires Shown(f, lent, t)
    ensures t.at in f.cells && t.at in f.kids && ShownCell(f.cells[t.at], f.strs, lent, t)
    ensures f.kids[t.at] == Ats(t.kids)
    ensures forall i :: 0 <= i < |t.kids| ==> t.kids[i].at in f.kids[t.at] && Shown(f, lent, t.kids[i])
  {
    forall i | 0 <= i < |t.kids|
      ensures t.kids[i].at in f.kids[t.at]
    {
      assert Ats(t.kids)[i] == t.kids[i].at;
    }
  }

  lemma ShownIntro(f: Forest, lent: Strings, t: Tree)
    requires t.at in f.cells && t.at in f.kids && ShownCell(f.cells[t.at], f.strs, lent, t)
    requires f.kids[t.at] == Ats(t.kids)
    requires forall i :: 0 <= i < |t.kids| ==> Shown(f, lent, t.kids[i])
    ensures Shown(f, lent, t)
  {}

  // Appending a new tree u to a new tree t.
  lemma GrownPut(f: Forest, g: Forest, D: Forest, t: Tree, u: Tree)
    requires Grown(f, D, t) && Grown(g, f, u)
    ensures CanPut(g, t.at, u.at) && g.kids[t.at] == Ats(t.kids)
    ensures Grown(Put(g, t.at, |t.kids|, u.at), D, t.(kids := t.kids + [u]))
  {
    hide Shaped, Owned, Drop, UpToNul, Shown, Put, ShownCell;
    var p, k, c := t.at, |t.kids|, u.at;
    ShownStep(f, OWN, t);
    ShownStep(g, OWN, u);
    GrownApart(f, g, D, t, u);
    var h := Put(g, p, k, c);
    PutKeepsInv(g, p, k, c);
    DropPut(g, p, k, c);
    PutAt(g, p, k, c, p);
    assert h.kids[p] == Ats(t.kids + [u]);
    forall i | 0 <= i < |t.kids| + 1
      ensures Shown(h, OWN, (t.kids + [u])[i])
    {
      if i < |t.kids| {
        ShownWithout(g, c, OWN, t.kids[i]);
        ShownPut(g, p, k, c, OWN, t.kids[i]);
      } else {
        ShownPut(g, p, k, c, OWN, u);
      }
    }
    ShownCellKids(h.cells[p], h.strs, OWN, t, t.kids + [u]);
    ShownIntro(h, OWN, t.(kids := t.kids + [u]));
  }

  lemma ShownCellKids(c: Cell, texts: Strings, lent: Strings, t: Tree, kids: seq<Tree>)
    requires ShownCell(c, texts, lent, t)
    ensures ShownCell(c, texts, lent, t.(kids := kids))
  {
    hide UpToNul;
  }

  lemma GrownApart(f: Forest, g: Forest, D: Forest, t: Tree, u: Tree)
    requires Grown(f, D, t) && Grown(g, f, u) && t.at in f.cells && t.at in f.kids
    requires ShownCell(f.cells[t.at], f.strs, OWN, t) && f.kids[t.at] == Ats(t.kids)
    ensures CanPut(g, t.at, u.at) && Root(g, t.at) && g.kids[t.at] == f.kids[t.at] && g.above[t.at] == {t.at}
    ensures g.cells[t.at] == f.cells[t.at] && ShownCell(g.cells[t.at], g.strs, OWN, t)
    ensures t.at != u.at && u.at !in g.above[t.at]
    ensures forall i :: 0 <= i < |t.kids| ==> t.kids[i].at !in g.above[t.at]
  {
    hide Shaped, Owned, UpToNul, Shown;
    AboveFact(g, t.at);
    forall i | 0 <= i < |t.kids|
      ensures t.kids[i].at !in g.above[t.at]
    {
      assert t.kids[i].at == g.kids[t.at][i];
      KidAbove(g, t.at, t.kids[i].at);
    }
  }

  lemma ShownPut(g: Forest, p: Ptr, k: nat, c: Ptr, lent: Strings, t: Tree)
    requires Inv(g) && CanPut(g, p, c) && k <= |g.kids[p]| && Shown(g, lent, t) && t.at !in g.above[p]
    ensures Shown(Put(g, p, k, c), lent, t)
  {
    hide Shaped, Owned, UpToNul, Shown, Put;
    PutAt(g, p, k, c, p);
    forall x | x in g.cells && t.at in g.above[x]
      ensures Unchanged(g, Put(g, p, k, c), x)
    {
      PutAt(g, p, k, c, x);
    }
    ShownFrame(g, Put(g, p, k, c), lent, t);
  }

  // Nothing of the old forest has moved or changed.
  lemma GrownKeeps(m: Nodes, D: Forest, n: Nodes, f: Forest, t: Tree)
    requires Inv(D) && Linked(m, D) && Grown(f, D, t) && Linked(n, f)
    ensures forall p :: p in m ==> p in n && n[p] == m[p]
    ensures forall q :: q in D.strs ==> q in f.strs && f.strs[q] == D.strs[q]
  {
    hide Shaped, Owned, Shown, Linked;
    LinkedKeys(m, D);
    forall p | p in m
      ensures p in n && n[p] == m[p]
    {
      UpFact(D, p);
      SameNode(m, n, D, f, p);
    }
  }
}
