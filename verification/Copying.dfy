// Deep copies and typed arrays (cjson-rs-ffi/src/convert.rs, duplicate;
// cjson-rs-ffi/src/lib.rs, create_numeric_array).
module Copying {
  import opened Bytes
  import opened Numbers
  import opened Values
  import opened Memory
  import opened Forests
  import opened Links
  import opened Heaps
  import opened Trees
  import opened Building

  // t says what s says; only the root when `deep` is false.
  predicate Copy(t: Tree, s: Tree, deep: bool)
    decreases s
  {
    && t.kind == s.kind && t.number == s.number && t.text == s.text && t.key == s.key
    && if !deep then t.kids == []
       else |t.kids| == |s.kids| && forall i :: 0 <= i < |s.kids| ==> Copy(t.kids[i], s.kids[i], true)
  }

  // A tree wherever it lies.
  function Nowhere(t: Tree): Tree
    decreases t
  {
    t.(at := NULL, kids := seq(|t.kids|, i requires 0 <= i < |t.kids| => Nowhere(t.kids[i])))
  }

  // A deep copy is the same tree in another place, and a shallow one the same
  // root without children.
  lemma {:induction false} CopyExactly(t: Tree, s: Tree, deep: bool)
    ensures Copy(t, s, deep) <==> Nowhere(t) == if deep then Nowhere(s) else Nowhere(s).(kids := [])
    decreases s
  {
    var x, y := Nowhere(t), Nowhere(s);
    assert |x.kids| == |t.kids| && |y.kids| == |s.kids|;
    if deep && |t.kids| == |s.kids| {
      forall i | 0 <= i < |s.kids|
        ensures Copy(t.kids[i], s.kids[i], true) <==> x.kids[i] == y.kids[i]
      {
        CopyExactly(t.kids[i], s.kids[i], true);
      }
      if Copy(t, s, true) {
        assert x.kids == y.kids;
      }
    }
  }

  // A deep copy has the same value.
  lemma {:induction false} CopyValue(t: Tree, s: Tree)
    requires Copy(t, s, true)
    ensures ValueOf(t) == ValueOf(s)
    decreases s, 1
  {
    if t.kind == ArrayKind || t.kind == ObjectKind {
      CopyItems(t.kids, s.kids);
    }
  }

  lemma {:induction false} CopyItems(ts: seq<Tree>, us: seq<Tree>)
    requires |ts| == |us| && forall i :: 0 <= i < |us| ==> Copy(ts[i], us[i], true)
    ensures ItemsOf(ts) == ItemsOf(us) && MembersOf(ts) == MembersOf(us)
    decreases us, 0
  {
    hide ValueOf;
    if us != [] {
      assert ts[0].key == us[0].key;
      CopyValue(ts[0], us[0]);
      CopyItems(ts[1..], us[1..]);
    }
  }

  // The source can still be read, as before, while the copy grows.
  lemma StillViews(m: Nodes, D: Forest, n: Nodes, f: Forest, t: Tree, lent: Strings, s: Tree)
    requires Inv(D) && Linked(m, D) && Grown(f, D, t) && Linked(n, f) && lent.Keys !! f.strs.Keys
    requires Views(m, lent + D.strs, s)
    ensures Views(n, lent + f.strs, s)
    ensures forall p :: p in m ==> p in n && n[p] == m[p]
    ensures forall q :: q in D.strs ==> q in f.strs && f.strs[q] == D.strs[q]
  {
    hide Inv, Linked, Grown, Views;
    GrownKeeps(m, D, n, f, t);
    ViewsFrame(m, lent + D.strs, n, lent + f.strs, s);
  }

  // A fresh copy of the tree at item, disjoint from it and with every flag
  // cleared; or NULL, just when some allocation failed, with the heap as it
  // was. The source may use references and const keys. It is not touched.
  method Duplicate(h: Heap, item: Ptr, deep: bool, ghost s: Tree) returns (p: Ptr, ghost t: Tree)
    requires h.Valid() && (item != NULL ==> item == s.at && Views(h.nodes, h.Texts(), s))
    modifies h
    ensures h.Valid() && h.calls >= old(h.calls)
    ensures p == NULL <==> item == NULL || h.Refused(old(h.calls), h.calls)
    ensures p == NULL ==> h.forest == old(h.forest) && h.nodes == old(h.nodes) && h.strs == old(h.strs)
    ensures p != NULL ==> t.at == p && Grown(h.forest, old(h.forest), t) && Copy(t, s, deep)
    ensures forall q :: q in old(h.nodes) ==> q in h.nodes && h.nodes[q] == old(h.nodes)[q]
    decreases s, 1
  {
    hide Inv, Linked, Grown, New, Views, Copy, UpToNul;
    ghost var D, m := h.forest, h.nodes;
    t := Tree(NULL, InvalidKind, BLANK.number, None, None, []);
    if item == NULL {
      return NULL, t;
    }
    ViewsStep(m, h.Texts(), s);
    p := h.NewNode(InvalidKind, false);
    if p == NULL {
      return;
    }
    var n := h.nodes[item];
    assert n == m[item];
    h.SetValue(p, n.kind, n.number, D, CellOf(BLANK));
    t := Tree(p, n.kind, n.number, None, None, []);
    GrownNew(D, p, CellOf(BLANK.(kind := n.kind, number := n.number)));
    StillViews(m, D, h.nodes, h.forest, t, h.lent, s);
    ViewsStep(h.nodes, h.Texts(), s);
    var ok := CopyString(h, p, TextSlot, h.nodes[item].text, D, t, s.text);
    t := t.(text := s.text);
    if ok {
      StillViews(m, D, h.nodes, h.forest, t, h.lent, s);
      ViewsStep(h.nodes, h.Texts(), s);
      ok := CopyString(h, p, KeySlot, h.nodes[item].key, D, t, s.key);
      t := t.(key := s.key);
    }
    if ok && deep {
      ok, t := CopyChildren(h, p, n.child, D, m, t, s);
    }
    if !ok {
      p := NULL;
      LinkedUnique(m, h.nodes, D);
      return;
    }
    CopyIntro(t, s, deep);
    StillViews(m, D, h.nodes, h.forest, t, h.lent, s);
  }

  lemma CopyIntro(t: Tree, s: Tree, deep: bool)
    requires t.kind == s.kind && t.number == s.number && t.text == s.text && t.key == s.key
    requires if !deep then t.kids == []
             else |t.kids| == |s.kids| && forall i :: 0 <= i < |s.kids| ==> Copy(t.kids[i], s.kids[i], true)
    ensures Copy(t, s, deep)
  {}

  function Saying(t: Tree, slot: Slot, was: Option<string>): Tree {
    match slot
    case TextSlot => t.(text := was)
    case KeySlot => t.(key := was)
  }

  // Copy the string at q, if any; the new tree is freed on failure.
  method CopyString(h: Heap, p: Ptr, slot: Slot, q: Ptr, ghost D: Forest, ghost t: Tree, ghost was: Option<string>)
    returns (ok: bool)
    requires h.Valid() && Grown(h.forest, D, t) && t.at == p && Reads(h.Texts(), q, was)
    requires if slot == TextSlot then t.text == None else t.key == None
    modifies h
    ensures h.Valid() && h.calls >= old(h.calls)
    ensures ok <==> !h.Refused(old(h.calls), h.calls)
    ensures !ok ==> h.forest == D
    ensures ok ==> Grown(h.forest, D, Saying(t, slot, was))
  {
    hide Inv, Linked, Grown, UpToNul;
    if q != NULL {
      ok := GiveString(h, p, slot, h.TextAt(q), D, t);
      UpToNulTwice(old(h.Texts())[q]);
    } else {
      ok := true;
      assert Saying(t, slot, was) == t;
    }
  }

  // The next child to copy is where it was.
  lemma StillChained(
    m: Nodes, D: Forest, n: Nodes, f: Forest, t: Tree, lent: Strings, first: Ptr, s: Tree, i: nat)
    requires Inv(D) && Linked(m, D) && Grown(f, D, t) && Linked(n, f) && lent.Keys !! f.strs.Keys
    requires Views(m, lent + D.strs, s) && Chain(m, first, Ats(s.kids)) && At(Ats(s.kids), i) != NULL
    ensures i < |s.kids| && s.kids[i].at == At(Ats(s.kids), i) && Views(n, lent + f.strs, s.kids[i])
    ensures s.kids[i].at in n && n[s.kids[i].at].next == At(Ats(s.kids), i + 1)
  {
    hide Inv, Linked, Grown, Views, UpToNul;
    StillViews(m, D, n, f, t, lent, s);
    ViewsStep(n, lent + f.strs, s);
  }

  // Copy and append every child; the new tree is freed on failure.
  method CopyChildren(h: Heap, p: Ptr, first: Ptr, ghost D: Forest, ghost m: Nodes, ghost t0: Tree, ghost s: Tree)
    returns (ok: bool, ghost t: Tree)
    requires h.Valid() && Inv(D) && Linked(m, D) && Grown(h.forest, D, t0) && t0.at == p && t0.kids == []
    requires Views(m, h.lent + D.strs, s) && Chain(m, first, Ats(s.kids))
    modifies h
    ensures h.Valid() && h.calls >= old(h.calls)
    ensures ok <==> !h.Refused(old(h.calls), h.calls)
    ensures !ok ==> h.forest == D
    ensures ok ==> Grown(h.forest, D, t) && t == t0.(kids := t.kids) && |t.kids| == |s.kids|
    ensures ok ==> forall i :: 0 <= i < |s.kids| ==> Copy(t.kids[i], s.kids[i], true)
    decreases s, 0
  {
    hide Inv, Linked, Grown, Views, UpToNul, Copy, Drop, Put, CanPut, Chain;
    ChainStarts(m, first, s);
    t := t0;
    var src := first;
    ghost var i := 0;
    while src != NULL
      invariant 0 <= i <= |s.kids| && src == At(Ats(s.kids), i)
      invariant h.Valid() && h.calls >= old(h.calls) && !h.Refused(old(h.calls), h.calls)
      invariant Grown(h.forest, D, t) && t == t0.(kids := t.kids) && |t.kids| == i
      invariant forall j :: 0 <= j < i ==> Copy(t.kids[j], s.kids[j], true)
      decreases |s.kids| - i
    {
      ghost var f := h.forest;
      StillChained(m, D, h.nodes, f, t, h.lent, first, s, i);
      var dst;
      ghost var u: Tree;
      dst, u := Duplicate(h, src, true, s.kids[i]);
      if dst == NULL {
        GrownDrop(f, D, t);
        h.Delete(p);
        return false, t;
      }
      GrownPut(f, h.forest, D, t, u);
      h.AttachChild(p, dst);
      t := t.(kids := t.kids + [u]);
      StillChained(m, D, h.nodes, h.forest, t, h.lent, first, s, i);
      src := h.nodes[src].next;
      i := i + 1;
    }
    ChainEnds(m, first, s, i);
    return true, t;
  }

  // ---- Typed arrays ----

  function AsValues(ns: seq<Num>): (vs: seq<Value>)
    ensures |vs| == |ns| && forall i :: 0 <= i < |ns| ==> vs[i] == Number(ns[i])
  {
    seq(|ns|, i requires 0 <= i < |ns| => Number(ns[i]))
  }

  lemma {:induction false} NumberTrees(ts: seq<Tree>, ns: seq<Num>)
    requires |ts| == |ns| && forall i :: 0 <= i < |ts| ==> ts[i].kind == NumberKind && ts[i].number == ns[i]
    ensures ItemsOf(ts) == Some(AsValues(ns))
  {
    if ts != [] {
      NumberTrees(ts[1..], ns[1..]);
      assert ValueOf(ts[0]) == Some(Number(ns[0]));
      assert AsValues(ns) == [Number(ns[0])] + AsValues(ns[1..]);
    }
  }

  method NewNumber(h: Heap, number: Num) returns (n: Ptr, ghost u: Tree)
    requires h.Valid()
    modifies h
    ensures h.Valid() && h.calls == old(h.calls) + 1
    ensures n == NULL <==> h.Refused(old(h.calls), h.calls)
    ensures n == NULL ==> h.forest == old(h.forest)
    ensures n != NULL ==> Grown(h.forest, old(h.forest), u) && u == Tree(n, NumberKind, number, None, None, [])
  {
    hide Inv, Linked, Grown, New;
    ghost var f := h.forest;
    n := h.NewNode(NumberKind, false);
    u := Tree(n, NumberKind, number, None, None, []);
    if n != NULL {
      h.SetValue(n, NumberKind, number, f, CellOf(BLANK.(kind := NumberKind, isRef := false)));
      GrownNew(f, n, CellOf(BLANK.(kind := NumberKind, number := number)));
    }
  }

  // An array of the first `count` numbers; or NULL, for no numbers, a negative
  // count or a failed allocation, with the heap as it was.
  method CreateNumericArray(h: Heap, values: Option<seq<Num>>, count: int) returns (arr: Ptr, ghost t: Tree)
    requires h.Valid() && (values.Some? ==> count <= |values.value|)
    modifies h
    ensures h.Valid() && h.calls >= old(h.calls)
    ensures arr == NULL <==> values.None? || count < 0 || h.Refused(old(h.calls), h.calls)
    ensures arr == NULL ==> h.forest == old(h.forest) && h.nodes == old(h.nodes) && h.strs == old(h.strs)
    ensures arr != NULL ==> t.at == arr && Grown(h.forest, old(h.forest), t)
                            && ValueOf(t) == Some(Array(AsValues(values.value[..count])))
  {
    hide Inv, Linked, Grown, New, Put, CanPut, Drop, ItemsOf;
    ghost var D, m := h.forest, h.nodes;
    t := Tree(NULL, ArrayKind, BLANK.number, None, None, []);
    if values.None? || count < 0 {
      return NULL, t;
    }
    arr := h.NewNode(ArrayKind, false);
    if arr == NULL {
      return;
    }
    t := t.(at := arr);
    GrownNew(D, arr, CellOf(BLANK.(kind := ArrayKind, isRef := false)));
    for i := 0 to count
      invariant h.Valid() && h.calls >= old(h.calls) && !h.Refused(old(h.calls), h.calls)
      invariant Grown(h.forest, D, t) && t.at == arr && t.kind == ArrayKind && |t.kids| == i
      invariant forall j :: 0 <= j < i ==> t.kids[j].kind == NumberKind && t.kids[j].number == values.value[j]
    {
      ghost var f := h.forest;
      var n;
      ghost var u: Tree;
      n, u := NewNumber(h, values.value[i]);
      if n == NULL {
        GrownDrop(f, D, t);
        h.Delete(arr);
        arr := NULL;
        LinkedUnique(m, h.nodes, D);
        return;
      }
      GrownPut(f, h.forest, D, t, u);
      h.AttachChild(arr, n);
      t := t.(kids := t.kids + [u]);
    }
    NumberTrees(t.kids, values.value[..count]);
  }
}
