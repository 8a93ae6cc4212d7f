// Calls on trees, seen from outside: the value that is read afterwards.
module Calls {
  import opened Bytes
  import opened Values
  import M = Memory
  import F = Forests
  import L = Links
  import opened Heaps
  import opened Trees
  import opened Readable
  import opened Building
  import opened Equality
  import opened Effects
  import opened Adding

  // A readable item of the heap with this value.
  ghost predicate Holding(h: Heap, item: M.Ptr, t: Tree, v: Value)
    reads h
  {
    h.Valid() && item != M.NULL && item == t.at && Views(h.nodes, h.Texts(), t) && ValueOf(t) == Some(v)
  }

  // An array that gains an item reads as the array with the value of the item at
  // its place, and with it at the end when there is no such place.
  method InsertThenRead(h: Heap, arr: M.Ptr, which: int, item: M.Ptr,
                        ghost t: Tree, ghost items: seq<Value>, ghost u: Tree, ghost v: Value)
    returns (r: Option<Value>)
    requires Holding(h, arr, t, Array(items)) && Holding(h, item, u, v) && F.CanPut(h.forest, arr, item)
    requires Apart(t.kids + [u], ListNodes(t) + {item})
    modifies h`nodes, h`forest
    ensures h.Valid()
    ensures which < 0 ==> r == Some(Array(items))
    ensures 0 <= which < |items| ==> r == Some(Array(items[..which] + [v] + items[which..]))
    ensures which >= |items| ==> r == Some(Array(items + [v]))
  {
    hide F.Shaped, F.Owned, F.Put, L.Linked, Views, ValueOf, Apart, ListNodes;
    ghost var m, f := h.nodes, h.forest;
    ArrayListed(m, f, h.Texts(), t, items);
    var ok := h.InsertItemInArray(arr, which, item);
    ghost var s := t;
    if ok {
      ghost var k := if which < |items| then which else |items|;
      s := t.(kids := t.kids[..k] + [u] + t.kids[k..]);
      InsertEffect(m, f, h.nodes, h.Texts(), t, k, u);
      InsertValue(t, k, u, v);
      assert items[..|items|] + [v] + items[|items|..] == items + [v];
    } else {
      L.LinkedUnique(m, h.nodes, f);
    }
    r := CjsonToValue(h, arr, s);
  }

  lemma ArrayListed(m: M.Nodes, f: F.Forest, x: M.Strings, t: Tree, items: seq<Value>)
    requires F.Inv(f) && L.Linked(m, f) && Views(m, x, t) && ValueOf(t) == Some(Array(items))
    requires t.at in f.cells && !f.cells[t.at].isRef
    ensures t.at in f.kids && f.cells[t.at].kind == M.ArrayKind && |f.kids[t.at]| == |t.kids| == |items|
  {
    hide F.Shaped, F.Owned, L.Linked, M.UpToNul, M.Chain, ItemsOf;
    ViewedKids(m, f, x, t);
    KindKept(m, f, t.at);
    ItemsLength(t.kids);
  }

  // ---- Adding to an object ----

  // A subtree without references, whose const keys the caller lends.
  ghost predicate Lendable(h: Heap, p: M.Ptr)
    reads h
  {
    var below := F.Below(h.forest, p);
    NoReferences(h.forest, below) && KeysIn(h.forest, h.lent, below)
  }

  lemma ObjectKept(m: M.Nodes, f: F.Forest, x: M.Strings, t: Tree, members: seq<Member>)
    requires F.Inv(f) && L.Linked(m, f) && Views(m, x, t) && ValueOf(t) == Some(Object(members))
    ensures t.at in f.cells && f.cells[t.at].kind == M.ObjectKind && |t.kids| == |members|
  {
    hide F.Shaped, F.Owned, L.Linked, M.UpToNul, M.Chain, MembersOf;
    L.LinkedKeys(m, f);
    KindKept(m, f, t.at);
    MembersLength(t.kids);
  }

  lemma ValueAnywhere(u: Tree, at: M.Ptr, key: Option<string>)
    ensures ValueOf(u.(at := at, key := key)) == ValueOf(u) && ValueOf(u.(key := key)) == ValueOf(u)
  {}

  lemma AppendMember(t: Tree, members: seq<Member>, u: Tree, v: Value, key: string)
    requires ValueOf(t) == Some(Object(members)) && |t.kids| == |members| && ValueOf(u) == Some(v)
    ensures ValueOf(t.(kids := t.kids + [u.(key := Some(key))])) == Some(Object(members + [Member(key, v)]))
  {
    hide ValueOf;
    var k, w := |t.kids|, u.(key := Some(key));
    ValueAnywhere(u, u.at, Some(key));
    InsertValue(t, k, w, v);
    assert t.kids[..k] + [w] + t.kids[k..] == t.kids + [w];
    assert members[..k] + [Member(key, v)] + members[k..] == members + [Member(key, v)];
  }

  // An object that gains an item under a name reads as the object with one more
  // member, unless the name could not be copied; then it reads as before.
  method AddThenRead(h: Heap, obj: M.Ptr, name: string, item: M.Ptr,
                     ghost t: Tree, ghost members: seq<Member>, ghost u: Tree, ghost v: Value)
    returns (r: Option<Value>)
    requires Holding(h, obj, t, Object(members)) && Holding(h, item, u, v) && F.CanPut(h.forest, obj, item)
    requires Lendable(h, obj) && Lendable(h, item)
    modifies h
    ensures h.Valid()
    ensures r == if h.grants(old(h.calls)) then Some(Object(members + [Member(M.UpToNul(name), v)]))
                 else Some(Object(members))
  {
    hide F.Shaped, F.Owned, F.Put, L.Linked, Views, ValueOf, F.Below, AddNamed, CanName, M.UpToNul;
    ghost var m, f, lent := h.nodes, h.forest, h.lent;
    ObjectKept(m, f, h.Texts(), t, members);
    var ok;
    ghost var q;
    ok, q := h.AddItemToObject(obj, Some(name), item);
    ghost var s := t;
    if ok {
      s := t.(kids := t.kids + [u.(key := Some(M.UpToNul(name)))]);
      NamedStrings(f, obj, item, q, name);
      NamedOwned(m, f, h.nodes, lent, t, u, q, name);
      AppendMember(t, members, u, v, M.UpToNul(name));
    } else {
      L.LinkedUnique(m, h.nodes, f);
    }
    r := CjsonToValue(h, obj, s);
  }

  // The same under a name that the caller lends, which takes no allocation.
  method AddLentThenRead(h: Heap, obj: M.Ptr, name: M.Ptr, item: M.Ptr,
                         ghost t: Tree, ghost members: seq<Member>, ghost u: Tree, ghost v: Value)
    returns (r: Option<Value>)
    requires Holding(h, obj, t, Object(members)) && Holding(h, item, u, v) && F.CanPut(h.forest, obj, item)
    requires Lendable(h, obj) && Lendable(h, item) && name in h.lent
    modifies h
    ensures h.Valid()
    ensures r == Some(Object(members + [Member(M.UpToNul(h.lent[name]), v)]))
  {
    hide F.Shaped, F.Owned, F.Put, L.Linked, Views, ValueOf, F.Below, AddBorrowed, M.UpToNul;
    ghost var m, f, lent := h.nodes, h.forest, h.lent;
    ObjectKept(m, f, h.Texts(), t, members);
    var ok := h.AddItemToObjectCS(obj, name, item);
    BorrowedOwned(m, f, h.nodes, lent, t, u, name);
    AppendMember(t, members, u, v, M.UpToNul(lent[name]));
    r := CjsonToValue(h, obj, t.(kids := t.kids + [u.(key := Some(M.UpToNul(lent[name])))]));
  }

  // ---- References ----

  // An array that gains a reference to an item reads as the array with the value
  // of the item at the end, unless the wrapper could not be allocated.
  method ReferThenRead(h: Heap, arr: M.Ptr, item: M.Ptr,
                       ghost t: Tree, ghost items: seq<Value>, ghost u: Tree, ghost v: Value)
    returns (r: Option<Value>)
    requires Holding(h, arr, t, Array(items)) && Holding(h, item, u, v)
    requires arr in h.forest.cells && !h.forest.cells[arr].isRef && item in h.forest.cells
    requires Apart(t.kids + [u], ListNodes(t))
    modifies h
    ensures h.Valid()
    ensures r == if h.grants(old(h.calls)) then Some(Array(items + [v])) else Some(Array(items))
  {
    hide F.Shaped, F.Owned, F.Put, L.Linked, Views, ValueOf, Apart, ListNodes, AddReference, CanRefer;
    ghost var m, f := h.nodes, h.forest;
    ArrayListed(m, f, h.Texts(), t, items);
    L.LinkedKeys(m, f);
    var ok;
    ghost var w;
    ok, w := h.AddItemReferenceToArray(arr, item);
    ghost var s := t;
    if ok {
      ghost var k, c := |t.kids|, u.(at := w, key := None);
      s := t.(kids := t.kids + [c]);
      ReferenceStrings(f, arr, w, ReferenceTo(m[item]));
      ReferenceEffect(m, f, h.nodes, h.Texts(), t, u, w);
      ValueAnywhere(u, w, None);
      InsertValue(t, k, c, v);
      assert t.kids[..k] + [c] + t.kids[k..] == t.kids + [c];
      assert items[..k] + [v] + items[k..] == items + [v];
    } else {
      L.LinkedUnique(m, h.nodes, f);
    }
    r := CjsonToValue(h, arr, s);
  }

  lemma ReferenceStrings(f: F.Forest, p: M.Ptr, r: M.Ptr, c: F.Cell)
    requires CanRefer(f, p, r)
    ensures AddReference(f, p, r, c).strs == f.strs
  {}

  // ---- Detaching and replacing ----

  lemma {:induction false} ItemsConcat(a: seq<Tree>, b: seq<Tree>)
    ensures ItemsOf(a + b) == match ItemsOf(a) case Some(items) => Before(items, ItemsOf(b)) case None => None
    decreases |a|
  {
    hide ValueOf;
    if a == [] {
      assert a + b == b;
      BeforeNone(ItemsOf(b));
    } else {
      assert (a + b)[1..] == a[1..] + b;
      ItemsConcat(a[1..], b);
      if ValueOf(a[0]).Some? && ItemsOf(a[1..]).Some? {
        BeforeTwice([ValueOf(a[0]).value], ItemsOf(a[1..]).value, ItemsOf(b));
      }
    }
  }

  lemma {:induction false} MembersConcat(a: seq<Tree>, b: seq<Tree>)
    ensures MembersOf(a + b) == match MembersOf(a) case Some(members) => Before(members, MembersOf(b)) case None => None
    decreases |a|
  {
    hide ValueOf;
    if a == [] {
      assert a + b == b;
      BeforeNone(MembersOf(b));
    } else {
      assert (a + b)[1..] == a[1..] + b;
      MembersConcat(a[1..], b);
      if ValueOf(a[0]).Some? && MembersOf(a[1..]).Some? {
        BeforeTwice([Member(Or(a[0].key), ValueOf(a[0]).value)], MembersOf(a[1..]).value, MembersOf(b));
      }
    }
  }

  lemma SplitAt<T>(s: seq<T>, k: nat, e: T)
    requires k < |s|
    ensures s == s[..k] + ([s[k]] + s[k + 1..]) && s[k := e] == s[..k] + ([e] + s[k + 1..])
  {}

  lemma SplitBack<T>(s: seq<T>, x: seq<T>, d: T, y: seq<T>, e: T)
    requires s == x + ([d] + y)
    ensures |x| < |s| && s[..|x|] == x && s[|x|] == d && s[|x| + 1..] == y && s[|x| := e] == x + ([e] + y)
  {}

  lemma ItemsFrom(u: Tree, ts: seq<Tree>)
    ensures ItemsOf([u] + ts) == match ValueOf(u) case Some(v) => Before([v], ItemsOf(ts)) case None => None
  {
    hide ValueOf;
    assert ([u] + ts)[1..] == ts;
  }

  lemma MembersFrom(u: Tree, ts: seq<Tree>)
    ensures MembersOf([u] + ts)
            == match ValueOf(u) case Some(v) => Before([Member(Or(u.key), v)], MembersOf(ts)) case None => None
  {
    hide ValueOf;
    assert ([u] + ts)[1..] == ts;
  }

  // The values of a list with item k cut out, and with another put for it.
  lemma ItemsWithout(ts: seq<Tree>, items: seq<Value>, k: nat, u: Tree, v: Value)
    requires k < |ts| && ItemsOf(ts) == Some(items) && ValueOf(u) == Some(v)
    ensures k < |items|
    ensures ItemsOf(ts[..k] + ts[k + 1..]) == Some(items[..k] + items[k + 1..])
    ensures ItemsOf(ts[k := u]) == Some(items[k := v])
  {
    hide ValueOf, ItemsOf;
    var a, b := ts[..k], ts[k + 1..];
    SplitAt(ts, k, u);
    ItemsConcat(a, [ts[k]] + b);
    ItemsConcat(a, [u] + b);
    ItemsConcat(a, b);
    ItemsFrom(ts[k], b);
    ItemsFrom(u, b);
    ItemsLength(a);
    SplitBack(items, ItemsOf(a).value, ValueOf(ts[k]).value, ItemsOf(b).value, v);
  }

  lemma MembersWithout(ts: seq<Tree>, members: seq<Member>, k: nat, u: Tree, v: Value)
    requires k < |ts| && MembersOf(ts) == Some(members) && ValueOf(u) == Some(v)
    ensures k < |members| && members[k].key == Or(ts[k].key)
    ensures MembersOf(ts[..k] + ts[k + 1..]) == Some(members[..k] + members[k + 1..])
    ensures MembersOf(ts[k := u]) == Some(members[k := Member(Or(u.key), v)])
  {
    hide ValueOf, MembersOf;
    var a, b := ts[..k], ts[k + 1..];
    SplitAt(ts, k, u);
    MembersConcat(a, [ts[k]] + b);
    MembersConcat(a, [u] + b);
    MembersConcat(a, b);
    MembersFrom(ts[k], b);
    MembersFrom(u, b);
    MembersLength(a);
    SplitBack(members, MembersOf(a).value, Member(Or(ts[k].key), ValueOf(ts[k]).value), MembersOf(b).value,
              Member(Or(u.key), v));
  }

  // A list reads without the item that was detached from it.
  method DetachThenRead(h: Heap, parent: M.Ptr, item: M.Ptr, ghost k: nat, ghost t: Tree, ghost v: Value)
    returns (r: Option<Value>)
    requires Holding(h, parent, t, v) && (v.Array? || v.Object?)
    requires F.CanTake(h.forest, parent, k) && h.forest.kids[parent][k] == item && k < |t.kids|
    requires Apart(t.kids, ListNodes(t))
    modifies h`nodes, h`forest
    ensures h.Valid()
    ensures v.Array? ==> k < |v.items| && r == Some(Array(v.items[..k] + v.items[k + 1..]))
    ensures v.Object? ==> k < |v.members| && r == Some(Object(v.members[..k] + v.members[k + 1..]))
  {
    hide F.Shaped, F.Owned, F.Take, L.Linked, Views, Apart, ListNodes, ItemsOf, MembersOf;
    ghost var m, f := h.nodes, h.forest;
    ghost var x := h.Texts();
    ItemThere(f, parent, k);
    h.Detach(parent, item, k);
    DetachEffect(m, f, h.nodes, x, t, k);
    ViewsParts(m, x, t);
    if v.Array? {
      ItemsWithout(t.kids, v.items, k, t, v);
    } else {
      MembersWithout(t.kids, v.members, k, t, v);
    }
    r := CjsonToValue(h, parent, t.(kids := t.kids[..k] + t.kids[k + 1..]));
  }

  // A list reads with the replacement in the place of the item; in an object it
  // goes by its own key, or by the key of the item if it has none.
  method ReplaceThenRead(h: Heap, parent: M.Ptr, item: M.Ptr, replacement: M.Ptr,
                         ghost k: nat, ghost t: Tree, ghost v: Value, ghost u: Tree, ghost w: Value)
    returns (r: Option<Value>)
    requires Holding(h, parent, t, v) && (v.Array? || v.Object?) && Holding(h, replacement, u, w)
    requires F.CanReplace(h.forest, parent, k, replacement) && h.forest.kids[parent][k] == item && k < |t.kids|
    requires !F.ConstKeyMoves(h.forest, parent, k, replacement)
    requires Lendable(h, parent) && Lendable(h, replacement)
    modifies h
    ensures h.Valid()
    ensures v.Array? ==> k < |v.items| && r == Some(Array(v.items[k := w]))
    ensures v.Object? ==>
              && k < |v.members|
              && var key := if u.key.Some? then u.key.value else v.members[k].key;
              r == Some(Object(v.members[k := Member(key, w)]))
  {
    hide F.Shaped, F.Owned, F.Replace, L.Linked, Views, ItemsOf, MembersOf, F.Below, F.CanReplace, F.ConstKeyMoves;
    ghost var m, f, lent := h.nodes, h.forest, h.lent;
    CanReplaceParts(f, parent, k, replacement);
    ItemThere(f, parent, k);
    L.LinkedKeys(m, f);
    var ok := h.ReplaceViaPointer(parent, item, replacement, k);
    ReplaceOwned(m, f, h.nodes, lent, t, k, u);
    ghost var c := KeyedAs(u, t.kids[k].key);
    ValueAnywhere(u, u.at, t.kids[k].key);
    if v.Array? {
      ItemsWithout(t.kids, v.items, k, c, w);
    } else {
      MembersWithout(t.kids, v.members, k, c, w);
    }
    r := CjsonToValue(h, parent, t.(kids := t.kids[k := c]));
  }

  lemma ItemThere(f: F.Forest, p: M.Ptr, k: nat)
    requires F.Inv(f) && p in f.cells && k < |f.kids[p]|
    ensures f.kids[p][k] != M.NULL
  {
    hide F.Owned;
  }

  // ---- Finding ----

  predicate GoesBy(t: Tree, key: string, cs: bool) {
    t.key.Some? && SameKey(t.key.value, key, cs)
  }

  // The item found under a key is the first child whose key is the same, up to
  // the case of letters in that mode; NULL when there is none.
  method Find(h: Heap, obj: M.Ptr, key: string, cs: bool, ghost t: Tree) returns (r: M.Ptr)
    requires obj != M.NULL && obj == t.at && Views(h.nodes, h.Texts(), t)
    ensures (forall j :: 0 <= j < |t.kids| ==> !GoesBy(t.kids[j], key, cs)) ==> r == M.NULL
    ensures forall k ::
              && 0 <= k < |t.kids| && GoesBy(t.kids[k], key, cs)
              && (forall j :: 0 <= j < k ==> !GoesBy(t.kids[j], key, cs))
              ==> r == t.kids[k].at
  {
    hide Views, SameKey, HasKey, M.Chain;
    ViewsStep(h.nodes, h.Texts(), t);
    forall j | 0 <= j < |t.kids|
      ensures h.Named(t.kids[j].at)
      ensures h.Matches(t.kids[j].at, key, cs) <==> GoesBy(t.kids[j], key, cs)
    {
      MatchesKey(h, t, j, key, cs);
      HasKeyExactly(t.kids[j], key, cs);
    }
    ghost var k;
    r, k := h.GetObjectItem(obj, Some(key), cs, Ats(t.kids));
  }

  lemma HasKeyExactly(t: Tree, key: string, cs: bool)
    ensures HasKey(t, key, cs) <==> GoesBy(t, key, cs)
  {
    hide SameKey;
    if t.key.Some? {
      KeysMatchExactly(t.key.value, key, cs);
    }
  }

  // "NAME" finds a child keyed "name" when case does not matter, and only then.
  lemma CapitalsFind(t: Tree, cs: bool)
    requires t.key == Some("name")
    ensures HasKey(t, "NAME", cs) <==> !cs
  {
    HasKeyExactly(t, "NAME", cs);
    assert "name"[0] != "NAME"[0];
  }
}
