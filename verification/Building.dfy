// Building, reading and copying trees (cjson-rs-ffi/src/convert.rs and
// cjson-rs-ffi/src/lib.rs): all or nothing under every allocation schedule.
module Building {
  import opened Bytes
  import opened Values
  import opened Memory
  import opened Forests
  import opened Links
  import opened Heaps
  import opened Trees

  // ---- What C strings keep of a value ----

  function Cut(v: Value): Value
    decreases v, 1
  {
    match v
    case String(s) => String(UpToNul(s))
    case Array(items) => Array(CutItems(items))
    case Object(members) => Object(CutMembers(members))
    case _ => v
  }

  function CutItems(items: seq<Value>): (r: seq<Value>)
    ensures |r| == |items|
    decreases items, 0
  {
    if items == [] then [] else [Cut(items[0])] + CutItems(items[1..])
  }

  function CutMembers(members: seq<Member>): (r: seq<Member>)
    ensures |r| == |members|
    decreases members, 0
  {
    if members == [] then []
    else [Member(UpToNul(members[0].key), Cut(members[0].value))] + CutMembers(members[1..])
  }

  // No string and no key holds U+0000.
  predicate FreeOfNul(v: Value)
    decreases v
  {
    match v
    case String(s) => 0 as char !in s
    case Array(items) => forall i :: 0 <= i < |items| ==> FreeOfNul(items[i])
    case Object(members) =>
      forall i :: 0 <= i < |members| ==> 0 as char !in members[i].key && FreeOfNul(members[i].value)
    case _ => true
  }

  lemma {:induction false} CutExact(v: Value)
    ensures Cut(v) == v <==> FreeOfNul(v)
    decreases v, 1
  {
    match v
    case String(s) => UpToNulExact(s);
    case Array(items) => CutItemsExact(items);
    case Object(members) => CutMembersExact(members);
    case _ =>
  }

  lemma {:induction false} CutItemsExact(items: seq<Value>)
    ensures CutItems(items) == items <==> forall i :: 0 <= i < |items| ==> FreeOfNul(items[i])
    decreases items, 0
  {
    if items != [] {
      CutExact(items[0]);
      CutItemsExact(items[1..]);
      assert items == [items[0]] + items[1..];
      assert forall i :: 1 <= i < |items| ==> items[i] == items[1..][i - 1];
    }
  }

  lemma {:induction false} CutMembersExact(members: seq<Member>)
    ensures CutMembers(members) == members
            <==> forall i :: 0 <= i < |members| ==> 0 as char !in members[i].key && FreeOfNul(members[i].value)
    decreases members, 0
  {
    if members != [] {
      CutExact(members[0].value);
      UpToNulExact(members[0].key);
      CutMembersExact(members[1..]);
      assert members == [members[0]] + members[1..];
      assert forall i :: 1 <= i < |members| ==> members[i] == members[1..][i - 1];
    }
  }

  // ---- Building a tree from a value ----

  // The children of an array or object with their keys.
  function Entries(v: Value): seq<(Option<string>, Value)> {
    match v
    case Array(items) => seq(|items|, i requires 0 <= i < |items| => (None, items[i]))
    case Object(members) =>
      seq(|members|, i requires 0 <= i < |members| => (Some(members[i].key), members[i].value))
    case _ => []
  }

  predicate Stands(t: Tree, e: (Option<string>, Value)) {
    && ValueOf(t) == Some(Cut(e.1))
    && (e.0.Some? ==> t.key == Some(UpToNul(e.0.value)))
  }

  lemma {:induction false} ItemsStand(ts: seq<Tree>, items: seq<Value>)
    requires |ts| == |items|
    requires forall i :: 0 <= i < |ts| ==> ValueOf(ts[i]) == Some(Cut(items[i]))
    ensures ItemsOf(ts) == Some(CutItems(items))
  {
    hide ValueOf, Cut;
    if ts != [] {
      ItemsStand(ts[1..], items[1..]);
    }
  }

  lemma {:induction false} MembersStand(ts: seq<Tree>, members: seq<Member>)
    requires |ts| == |members|
    requires forall i :: 0 <= i < |ts| ==> Stands(ts[i], (Some(members[i].key), members[i].value))
    ensures MembersOf(ts) == Some(CutMembers(members))
  {
    hide ValueOf, Cut, UpToNul;
    if ts != [] {
      assert Stands(ts[0], (Some(members[0].key), members[0].value));
      MembersStand(ts[1..], members[1..]);
    }
  }

  lemma TreeStands(t: Tree, v: Value)
    requires t.kind == KindOf(v)
    requires v.Number? ==> t.number == v.n
    requires v.String? ==> t.text == Some(UpToNul(v.s))
    requires |t.kids| == |Entries(v)| && forall i :: 0 <= i < |t.kids| ==> Stands(t.kids[i], Entries(v)[i])
    ensures ValueOf(t) == Some(Cut(v))
  {
    hide UpToNul, Stands;
    match v
    case Array(items) =>
      forall i | 0 <= i < |items|
        ensures ValueOf(t.kids[i]) == Some(Cut(items[i]))
      {
        StandsValue(t.kids[i], Entries(v)[i]);
      }
      ItemsStand(t.kids, items);
    case Object(members) =>
      assert forall i :: 0 <= i < |members| ==> Entries(v)[i] == (Some(members[i].key), members[i].value);
      MembersStand(t.kids, members);
    case _ =>
  }

  lemma StandsValue(t: Tree, e: (Option<string>, Value))
    requires Stands(t, e)
    ensures ValueOf(t) == Some(Cut(e.1))
  {}

  function KindOf(v: Value): Kind {
    match v
    case Null => NullKind
    case Bool(b) => if b then TrueKind else FalseKind
    case Number(_) => NumberKind
    case String(_) => StringKind
    case Array(_) => ArrayKind
    case Object(_) => ObjectKind
  }

  // Give a new tree a copy of a string, in the field of its root that has none;
  // when it cannot be allocated the tree is freed.
  method GiveString(h: Heap, x: Ptr, slot: Slot, s: string, ghost D: Forest, ghost t: Tree) returns (ok: bool)
    requires h.Valid() && Grown(h.forest, D, t) && t.at == x
    requires if slot == TextSlot then t.text == None else t.key == None
    modifies h
    ensures h.Valid() && h.calls == old(h.calls) + 1
    ensures ok <==> !h.Refused(old(h.calls), h.calls)
    ensures h.forest == D || ok
    ensures ok ==> Grown(h.forest, D, WithText(t, slot, UpToNul(s)))
  {
    hide Inv, Linked, Grown, Install, UpToNul, Drop;
    ghost var f := h.forest;
    GrownDrop(f, D, t);
    var buf := h.AllocCstr(s);
    assert h.grants(old(h.calls)) <==> !h.Refused(old(h.calls), h.calls);
    if buf == NULL {
      h.Delete(x);
      return false;
    }
    GrownCell(f, D, t);
    FreshUnused(h.nodes, f, buf);
    h.StoreString(x, slot, buf, s);
    GrownInstall(f, D, t, slot, buf, s);
    return true;
  }

  // A fresh tree with the value of v; or NULL, just when some allocation
  // failed, with the heap as it was.
  method ValueToCjson(h: Heap, v: Value) returns (p: Ptr, ghost t: Tree)
    requires h.Valid()
    modifies h
    ensures h.Valid() && h.calls >= old(h.calls)
    ensures p == NULL <==> h.Refused(old(h.calls), h.calls)
    ensures p == NULL ==> h.forest == old(h.forest) && h.nodes == old(h.nodes) && h.strs == old(h.strs)
    ensures p != NULL ==> t.at == p && Grown(h.forest, old(h.forest), t) && ValueOf(t) == Some(Cut(v)) && t.key == None
    decreases v, 2
  {
    hide Inv, Linked, Grown, Shown, ValueOf, Cut, New, Install, UpToNul, Stands;
    ghost var D := h.forest;
    t := Tree(NULL, InvalidKind, BLANK.number, None, None, []);
    p := h.NewNode(InvalidKind, false);
    if p == NULL {
      return;
    }
    h.SetValue(p, KindOf(v), if v.Number? then v.n else BLANK.number, D, CellOf(BLANK));
    t := Tree(p, KindOf(v), if v.Number? then v.n else BLANK.number, None, None, []);
    ghost var cell := CellOf(BLANK.(kind := t.kind, number := t.number));
    GrownNew(D, p, cell);
    match v {
      case String(s) =>
        var ok := GiveString(h, p, TextSlot, s, D, t);
        if !ok {
          p := NULL;
          LinkedUnique(old(h.nodes), h.nodes, D);
          return;
        }
        t := WithText(t, TextSlot, UpToNul(s));
      case Array(_) =>
        var ok;
        ok, t := AppendChildren(h, p, v, D, t);
        if !ok {
          GrownDrop(h.forest, D, t);
          h.Delete(p);
          p := NULL;
          LinkedUnique(old(h.nodes), h.nodes, D);
          return;
        }
      case Object(_) =>
        var ok;
        ok, t := AppendChildren(h, p, v, D, t);
        if !ok {
          GrownDrop(h.forest, D, t);
          h.Delete(p);
          p := NULL;
          LinkedUnique(old(h.nodes), h.nodes, D);
          return;
        }
      case _ =>
    }
    TreeStands(t, v);
  }

  lemma GrownDrop(f: Forest, D: Forest, t: Tree)
    requires Grown(f, D, t)
    ensures Inv(f) && Root(f, t.at) && Drop(f, t.at) == D && t.at != NULL
  {}

  // Append the children of v to the new node at parent.
  method AppendChildren(h: Heap, parent: Ptr, v: Value, ghost D: Forest, ghost t0: Tree)
    returns (ok: bool, ghost t: Tree)
    requires h.Valid() && Grown(h.forest, D, t0) && t0.at == parent && t0.kids == []
    modifies h
    ensures h.Valid() && h.calls >= old(h.calls)
    ensures Grown(h.forest, D, t) && t == t0.(kids := t.kids)
    ensures ok <==> !h.Refused(old(h.calls), h.calls)
    ensures ok ==> |t.kids| == |Entries(v)| && forall i :: 0 <= i < |t.kids| ==> Stands(t.kids[i], Entries(v)[i])
    decreases v, 1
  {
    hide Inv, Linked, Grown, Shown, Put, CanPut, Stands;
    t := t0;
    var prev := NULL;
    var entries := Entries(v);
    for i := 0 to |entries|
      invariant h.Valid() && h.calls >= old(h.calls) && !h.Refused(old(h.calls), h.calls)
      invariant Grown(h.forest, D, t) && t == t0.(kids := t.kids)
      invariant |t.kids| == i && forall j :: 0 <= j < i ==> Stands(t.kids[j], entries[j])
      invariant prev == At(Ats(t.kids), i - 1)
    {
      ghost var f := h.forest;
      var child;
      ghost var u: Tree;
      child, u := BuildChild(h, v, i);
      if child == NULL {
        return false, t;
      }
      GrownPut(f, h.forest, D, t, u);
      h.LinkLast(parent, prev, child);
      t := t.(kids := t.kids + [u]);
      prev := child;
    }
    return true, t;
  }

  // One child, with its key.
  method BuildChild(h: Heap, v: Value, i: nat) returns (child: Ptr, ghost u: Tree)
    requires h.Valid() && i < |Entries(v)|
    modifies h
    ensures h.Valid() && h.calls >= old(h.calls)
    ensures child == NULL <==> h.Refused(old(h.calls), h.calls)
    ensures child == NULL ==> h.forest == old(h.forest)
    ensures child != NULL ==> u.at == child && Grown(h.forest, old(h.forest), u) && Stands(u, Entries(v)[i])
    decreases v, 0
  {
    hide Inv, Linked, Grown, ValueOf, Cut, Install, UpToNul, Drop;
    var e := Entries(v)[i];
    ghost var f := h.forest;
    EntryLess(v, i);
    child, u := ValueToCjson(h, e.1);
    if child == NULL {
      return;
    }
    if e.0.Some? {
      var ok := GiveString(h, child, KeySlot, e.0.value, f, u);
      if !ok {
        child := NULL;
        return;
      }
      KeepsValue(u, UpToNul(e.0.value));
      u := WithText(u, KeySlot, UpToNul(e.0.value));
    }
  }

  lemma KeepsValue(t: Tree, key: string)
    ensures ValueOf(WithText(t, KeySlot, key)) == ValueOf(t)
  {}

  lemma EntryLess(v: Value, i: nat)
    requires i < |Entries(v)|
    ensures v decreases to Entries(v)[i].1
  {}

  lemma GrownCell(f: Forest, D: Forest, t: Tree)
    requires Grown(f, D, t)
    ensures t.at in f.cells && !f.cells[t.at].isRef && !f.cells[t.at].isConst
    ensures (t.key == None ==> Held(f.cells[t.at], KeySlot) == NULL)
    ensures (t.text == None ==> Held(f.cells[t.at], TextSlot) == NULL)
  {
    hide UpToNul;
  }

  // ---- Reading a tree back ----

  method CjsonToValue(h: Heap, item: Ptr, ghost t: Tree) returns (r: Option<Value>)
    requires item != NULL ==> item == t.at && Views(h.nodes, h.Texts(), t)
    ensures r == if item == NULL then None else ValueOf(t)
    decreases t, 1
  {
    hide UpToNul, Views;
    if item == NULL {
      return None;
    }
    ViewsStep(h.nodes, h.Texts(), t);
    var n := h.nodes[item];
    match n.kind {
      case NullKind => return Some(Null);
      case TrueKind => return Some(Bool(true));
      case FalseKind => return Some(Bool(false));
      case NumberKind => return Some(Number(n.number));
      case StringKind => return Some(String(if n.text == NULL then "" else h.TextAt(n.text)));
      case RawKind => return Some(String(if n.text == NULL then "" else h.TextAt(n.text)));
      case ArrayKind =>
        var items := ReadItems(h, n.child, t);
        return if items.None? then None else Some(Array(items.value));
      case ObjectKind =>
        var members := ReadMembers(h, n.child, t);
        return if members.None? then None else Some(Object(members.value));
      case InvalidKind => return None;
    }
  }

  lemma ViewsStep(nodes: Nodes, texts: Strings, t: Tree)
    requires Views(nodes, texts, t)
    ensures t.at != NULL && t.at in nodes
    ensures var n := nodes[t.at];
            && n.kind == t.kind && n.number == t.number && Reads(texts, n.text, t.text) && Reads(texts, n.key, t.key)
            && Chain(nodes, n.child, Ats(t.kids))
    ensures forall i :: 0 <= i < |t.kids| ==> Views(nodes, texts, t.kids[i])
  {}

  method ReadItems(h: Heap, first: Ptr, ghost t: Tree) returns (r: Option<seq<Value>>)
    requires Chain(h.nodes, first, Ats(t.kids))
    requires forall i :: 0 <= i < |t.kids| ==> Views(h.nodes, h.Texts(), t.kids[i])
    ensures r == ItemsOf(t.kids)
    decreases t, 0
  {
    hide Views, ValueOf;
    var items: seq<Value> := [];
    var cur := first;
    ghost var i := 0;
    BeforeNone(ItemsOf(t.kids));
    assert t.kids[0..] == t.kids;
    while cur != NULL
      invariant 0 <= i <= |t.kids| && cur == At(Ats(t.kids), i)
      invariant ItemsOf(t.kids) == Before(items, ItemsOf(t.kids[i..]))
      decreases |t.kids| - i
    {
      ghost var u := t.kids[i];
      assert t.kids[i..] == [u] + t.kids[i + 1..];
      var v := CjsonToValue(h, cur, u);
      if v.None? {
        return None;
      }
      BeforeTwice(items, [v.value], ItemsOf(t.kids[i + 1..]));
      items := items + [v.value];
      cur := h.nodes[cur].next;
      i := i + 1;
    }
    ChainEnds(h.nodes, first, t, i);
    assert t.kids[i..] == [] && items + [] == items;
    return Some(items);
  }

  // A walk along a chain ends past its last node.
  lemma ChainStarts(nodes: Nodes, first: Ptr, t: Tree)
    requires Chain(nodes, first, Ats(t.kids))
    ensures first == At(Ats(t.kids), 0)
  {}

  lemma ChainStep(nodes: Nodes, first: Ptr, t: Tree, i: nat)
    requires Chain(nodes, first, Ats(t.kids)) && At(Ats(t.kids), i) != NULL
    ensures i < |t.kids| && At(Ats(t.kids), i) == t.kids[i].at && t.kids[i].at in nodes
    ensures nodes[t.kids[i].at].next == At(Ats(t.kids), i + 1)
  {}

  lemma ChainEnds(nodes: Nodes, first: Ptr, t: Tree, i: nat)
    requires Chain(nodes, first, Ats(t.kids)) && i <= |t.kids| && At(Ats(t.kids), i) == NULL
    ensures i == |t.kids|
  {}

  method ReadMembers(h: Heap, first: Ptr, ghost t: Tree) returns (r: Option<seq<Member>>)
    requires Chain(h.nodes, first, Ats(t.kids))
    requires forall i :: 0 <= i < |t.kids| ==> Views(h.nodes, h.Texts(), t.kids[i])
    ensures r == MembersOf(t.kids)
    decreases t, 0
  {
    hide Views, ValueOf, UpToNul;
    var members: seq<Member> := [];
    var cur := first;
    ghost var i := 0;
    BeforeNone(MembersOf(t.kids));
    assert t.kids[0..] == t.kids;
    while cur != NULL
      invariant 0 <= i <= |t.kids| && cur == At(Ats(t.kids), i)
      invariant MembersOf(t.kids) == Before(members, MembersOf(t.kids[i..]))
      decreases |t.kids| - i
    {
      ghost var u := t.kids[i];
      assert t.kids[i..] == [u] + t.kids[i + 1..];
      ViewsStep(h.nodes, h.Texts(), u);
      var key := if h.nodes[cur].key == NULL then "" else h.TextAt(h.nodes[cur].key);
      var v := CjsonToValue(h, cur, u);
      if v.None? {
        return None;
      }
      BeforeTwice(members, [Member(key, v.value)], MembersOf(t.kids[i + 1..]));
      members := members + [Member(key, v.value)];
      cur := h.nodes[cur].next;
      i := i + 1;
    }
    ChainEnds(h.nodes, first, t, i);
    assert t.kids[i..] == [] && members + [] == members;
    return Some(members);
  }
}
