// The C heap under the tree interface (cjson-rs-ffi/src/convert.rs and the
// mutators of cjson-rs-ffi/src/lib.rs): allocation that may fail, raw pointers
// into a memory of nodes and strings, and the calls that relink them. Reading
// or freeing an address that is not live is ruled out by every method.
module Heaps {
  import opened Bytes
  import opened Numbers
  import opened Memory
  import opened Forests
  import opened Links
  import opened Freeing
  import Comparing

  class Heap {
    var nodes: Nodes
    var strs: Strings
    // Strings owned by the caller: const keys, and texts that references borrow.
    const lent: Strings
    // Which calls to the allocator succeed, and how many were made.
    const grants: nat -> bool
    var calls: nat
    // What the nodes stand for.
    ghost var forest: Forest

    ghost predicate Valid()
      reads this
    {
      && Inv(forest) && Linked(nodes, forest) && strs == forest.strs
      && lent.Keys !! forest.cells.Keys && lent.Keys !! strs.Keys && NULL !in lent
    }

    // Some allocation between two moments failed.
    ghost predicate Refused(from: nat, to: nat) {
      exists k :: from <= k < to && !grants(k)
    }

    constructor (lent: Strings, grants: nat -> bool)
      requires NULL !in lent
      ensures Valid() && forest == EMPTY && this.lent == lent && this.grants == grants
    {
      nodes, strs, calls := map[], map[], 0;
      this.lent, this.grants := lent, grants;
      forest := EMPTY;
    }

    // ---- Allocation ----

    method Malloc() returns (p: Ptr)
      modifies this`calls
      ensures calls == old(calls) + 1
      ensures p != NULL <==> grants(old(calls))
      ensures p != NULL ==> p !in nodes && p !in strs && p !in lent
    {
      calls := calls + 1;
      if grants(calls - 1) {
        ghost var q := FreshAddress(nodes.Keys + strs.Keys + lent.Keys);
        p :| p != NULL && p !in nodes && p !in strs && p !in lent;
      } else {
        p := NULL;
      }
    }

    method AllocNode() returns (p: Ptr)
      modifies this`calls, this`nodes
      ensures calls == old(calls) + 1
      ensures p != NULL <==> grants(old(calls))
      ensures p == NULL ==> nodes == old(nodes)
      ensures p != NULL ==> p !in old(nodes) && p !in strs && p !in lent && nodes == old(nodes)[p := BLANK]
    {
      p := Malloc();
      if p == NULL {
        return;
      }
      nodes := nodes[p := BLANK];
    }

    method AllocCstr(s: string) returns (p: Ptr)
      modifies this`calls, this`strs
      ensures calls == old(calls) + 1
      ensures p != NULL <==> grants(old(calls))
      ensures p == NULL ==> strs == old(strs)
      ensures p != NULL ==> p !in nodes && p !in old(strs) && p !in lent && strs == old(strs)[p := s]
    {
      p := Malloc();
      if p == NULL {
        return;
      }
      strs := strs[p := s];
    }

    // Only a live address may be freed.
    method Free(p: Ptr)
      requires p in nodes || p in strs
      modifies this`nodes, this`strs
      ensures nodes == old(nodes) - {p} && strs == old(strs) - {p}
    {
      nodes, strs := nodes - {p}, strs - {p};
    }

    method NewNode(kind: Kind, isRef: bool) returns (p: Ptr)
      requires Valid()
      modifies this`calls, this`nodes, this`forest
      ensures Valid() && calls == old(calls) + 1
      ensures p == NULL <==> Refused(old(calls), calls)
      ensures p == NULL ==> forest == old(forest) && nodes == old(nodes)
      ensures p != NULL ==> Unused(old(forest), p) && p !in lent && p !in old(nodes)
      ensures p != NULL ==> nodes == old(nodes)[p := BLANK.(kind := kind, isRef := isRef)]
      ensures p != NULL ==> forest == New(old(forest), p, CellOf(BLANK.(kind := kind, isRef := isRef)))
    {
      hide Inv, Linked, New;
      p := AllocNode();
      assert !Refused(old(calls), calls) <==> grants(old(calls));
      if p == NULL {
        return;
      }
      ghost var n := BLANK.(kind := kind, isRef := isRef);
      FreshUnused(old(nodes), forest, p);
      nodes := nodes[p := nodes[p].(kind := kind, isRef := isRef)];
      assert nodes == old(nodes)[p := n];
      NewDone(old(nodes), forest, p, n);
      forest := New(forest, p, CellOf(n));
    }

    // ---- Lists ----

    // Append child to the list of parent.
    method AttachChild(parent: Ptr, child: Ptr)
      requires Valid() && CanPut(forest, parent, child)
      modifies this`nodes, this`forest
      ensures Valid()
      ensures forest == Put(old(forest), parent, |old(forest).kids[parent]|, child)
    {
      hide Inv, Put, Linked, Keyed, CanPut, Splice, StrungAt;
      ghost var f, m := forest, nodes;
      ListLinked(m, f, parent, child);
      ghost var ks := f.kids[parent];
      if nodes[parent].child == NULL {
        nodes := nodes[parent := nodes[parent].(child := child)];
        nodes := nodes[child := nodes[child].(prev := NULL)];
        nodes := nodes[child := nodes[child].(next := NULL)];
        SpliceFirst(m, parent, child, nodes);
        SpliceDone(m, f, parent, |ks|, child, nodes);
        forest := Put(f, parent, |ks|, child);
        return;
      }
      var tail := nodes[parent].child;
      ghost var i := 0;
      while nodes[tail].next != NULL
        invariant 0 <= i < |ks| && tail == ks[i] && nodes == m && forest == f
        decreases |ks| - i
      {
        StrungFact(m, ks, i);
        tail := nodes[tail].next;
        i := i + 1;
      }
      StrungFact(m, ks, i);
      assert i == |ks| - 1;
      nodes := nodes[tail := nodes[tail].(next := child)];
      nodes := nodes[child := nodes[child].(prev := tail)];
      nodes := nodes[child := nodes[child].(next := NULL)];
      SpliceLast(m, parent, tail, child, nodes);
      SpliceDone(m, f, parent, |ks|, child, nodes);
      forest := Put(f, parent, |ks|, child);
    }

    // Take item out of the list of parent; item == NULL is ignored.
    method Detach(parent: Ptr, item: Ptr, ghost k: nat)
      requires Valid()
      requires item != NULL ==> CanTake(forest, parent, k) && forest.kids[parent][k] == item
      modifies this`nodes, this`forest
      ensures Valid()
      ensures forest == if item == NULL then old(forest) else Take(old(forest), parent, k)
    {
      hide Inv, Take, Linked, Keyed, Unsplice, StrungAt;
      if item == NULL {
        return;
      }
      ghost var f, m := forest, nodes;
      KidLinked(m, f, parent, k);
      ghost var ks := f.kids[parent];
      var prev := nodes[item].prev;
      var next := nodes[item].next;
      if prev != NULL {
        nodes := nodes[prev := nodes[prev].(next := next)];
      } else if parent != NULL {
        nodes := nodes[parent := nodes[parent].(child := next)];
      }
      if next != NULL {
        nodes := nodes[next := nodes[next].(prev := prev)];
      }
      nodes := nodes[item := nodes[item].(next := NULL)];
      nodes := nodes[item := nodes[item].(prev := NULL)];
      UnspliceDone(m, f, parent, k, nodes) by {
        UnspliceIs(m, parent, prev, next, item, nodes);
      }
      forest := Take(f, parent, k);
    }

    // The child number `which` of a list, or NULL.
    method ChildAtIndex(parent: Ptr, which: int, ghost ks: seq<Ptr>) returns (r: Ptr)
      requires parent != NULL ==> parent in nodes && Chain(nodes, nodes[parent].child, ks)
      ensures r == if parent == NULL then NULL else At(ks, which)
    {
      if parent == NULL || which < 0 {
        return NULL;
      }
      var cur := nodes[parent].child;
      var i := 0;
      while cur != NULL
        invariant 0 <= i <= |ks| && cur == At(ks, i) && i <= which
        decreases |ks| - i
      {
        if i == which {
          return cur;
        }
        cur := nodes[cur].next;
        i := i + 1;
      }
      return NULL;
    }

    // ---- Freeing ----

    // Free a tree: every node under `node` and every string those nodes own,
    // each once, and nothing else. f is the forest the tree was part of.
    method FreeCjson(node: Ptr, ghost f: Forest)
      requires Inv(f) && (node != NULL ==> Freeable(nodes, strs, f, node))
      modifies this`nodes, this`strs
      ensures nodes == if node == NULL then old(nodes) else old(nodes) - Below(f, node)
      ensures strs == if node == NULL then old(strs) else old(strs) - StringsOf(f, Below(f, node))
      decreases if node == NULL then {} else Below(f, node)
    {
      hide Inv, Below, BelowAny, StringsOf, Freeable, LinkedAt;
      if node == NULL {
        return;
      }
      ghost var m, t := nodes, strs;
      FreeHead(m, t, f, node);
      ghost var ks := f.kids[node];
      if !nodes[node].isRef {
        var cur := nodes[node].child;
        ghost var i := 0;
        BelowNone(f);
        assert ks[..0] == [];
        while cur != NULL
          invariant 0 <= i <= |ks| && cur == At(ks, i)
          invariant nodes == m - BelowAny(f, ks[..i]) && strs == t - StringsOf(f, BelowAny(f, ks[..i]))
          decreases |ks| - i
        {
          FreeKid(m, t, f, node, i);
          BelowAnyStep(f, ks, i);
          StringsOfSum(f, BelowAny(f, ks[..i]), Below(f, ks[i]));
          var next := nodes[cur].next;
          FreeCjson(cur, f);
          cur := next;
          i := i + 1;
        }
        NoNull(m, t, f, node, i);
        assert ks[..i] == ks;
        if nodes[node].text != NULL {
          Free(nodes[node].text);
        }
      } else {
        BelowNone(f);
      }
      if nodes[node].key != NULL && !nodes[node].isConst {
        Free(nodes[node].key);
      }
      Free(node);
    }

    // cJSON_Delete of a detached item.
    method Delete(item: Ptr)
      requires Valid() && (item != NULL ==> Root(forest, item))
      modifies this`nodes, this`strs, this`forest
      ensures Valid()
      ensures forest == if item == NULL then old(forest) else Drop(old(forest), item)
    {
      hide Inv, Drop, Linked;
      if item != NULL {
        DropDone(nodes, forest, item);
      }
      FreeCjson(item, forest);
      if item != NULL {
        forest := Drop(forest, item);
      }
    }

    // ---- Looking up ----

    predicate Known(p: Ptr)
      reads this
    {
      p in strs || p in lent
    }

    // Every string that can be read.
    function Texts(): Strings
      reads this
    {
      lent + strs
    }

    // Reading a C string stops at its first NUL.
    function TextAt(p: Ptr): string
      requires Known(p)
      reads this
    {
      UpToNul(Texts()[p])
    }

    predicate Named(x: Ptr)
      reads this
    {
      x in nodes && (nodes[x].key != NULL ==> Known(nodes[x].key))
    }

    predicate Matches(x: Ptr, key: string, cs: bool)
      requires Named(x)
      reads this
    {
      nodes[x].key != NULL && Comparing.KeysMatch(TextAt(nodes[x].key), key, cs)
    }

    // The first child with a matching key, or NULL; k is its place.
    method GetObjectItem(obj: Ptr, key: Option<string>, cs: bool, ghost ks: seq<Ptr>) returns (r: Ptr, ghost k: nat)
      requires obj != NULL ==> obj in nodes && Chain(nodes, nodes[obj].child, ks)
      requires obj != NULL ==> forall i :: 0 <= i < |ks| ==> Named(ks[i])
      ensures obj == NULL || key.None? ==> r == NULL
      ensures obj != NULL && key.Some? ==> k <= |ks| && r == At(ks, k)
      ensures obj != NULL && key.Some? ==> forall j :: 0 <= j < k ==> !Matches(ks[j], key.value, cs)
      ensures obj != NULL && key.Some? && k < |ks| ==> Matches(ks[k], key.value, cs)
    {
      hide Comparing.KeysMatch, UpToNul;
      k := 0;
      if obj == NULL || key.None? {
        return NULL, k;
      }
      var cur := nodes[obj].child;
      while cur != NULL
        invariant k <= |ks| && cur == At(ks, k)
        invariant forall j :: 0 <= j < k ==> !Matches(ks[j], key.value, cs)
        decreases |ks| - k
      {
        if nodes[cur].key != NULL && Comparing.KeysMatch(TextAt(nodes[cur].key), key.value, cs) {
          return cur, k;
        }
        cur := nodes[cur].next;
        k := k + 1;
      }
      return NULL, k;
    }

    // Detach the first child with a matching key, if there is one.
    method DetachObjectItem(obj: Ptr, key: Option<string>, cs: bool) returns (r: Ptr, ghost k: nat)
      requires Valid()
      requires obj != NULL ==> obj in forest.cells && !forest.cells[obj].isRef
      requires obj != NULL ==> forall i :: 0 <= i < |forest.kids[obj]| ==> Named(forest.kids[obj][i])
      modifies this`nodes, this`forest
      ensures Valid()
      ensures obj == NULL || key.None? ==> r == NULL
      ensures obj != NULL && key.Some? ==>
                && k <= |old(forest).kids[obj]| && r == At(old(forest).kids[obj], k)
                && (forall j :: 0 <= j < k ==> old(!Matches(forest.kids[obj][j], key.value, cs)))
                && (k < |old(forest).kids[obj]| ==> old(Matches(forest.kids[obj][k], key.value, cs)))
      ensures r == NULL ==> forest == old(forest)
      ensures r != NULL ==> CanTake(old(forest), obj, k) && forest == Take(old(forest), obj, k)
    {
      hide Shaped, Owned, Linked, Take, Chain, CanTake, Matches, Named;
      if obj != NULL {
        ListChained(nodes, forest, obj);
      }
      r, k := GetObjectItem(obj, key, cs, if obj == NULL then [] else forest.kids[obj]);
      if r == NULL {
        return;
      }
      Detach(obj, r, k);
    }

    // ---- Adding ----

    // Insert at a place, or append when there is no such place; false, and no
    // change, for a negative place or when the target is not an arr.
    method InsertItemInArray(arr: Ptr, which: int, newitem: Ptr) returns (ok: bool)
      requires Valid() && (arr != NULL ==> arr in forest.cells)
      requires arr != NULL && newitem != NULL && which >= 0 && forest.cells[arr].kind == ArrayKind ==>
                 CanPut(forest, arr, newitem)
      modifies this`nodes, this`forest
      ensures Valid()
      ensures ok <==> arr != NULL && newitem != NULL && which >= 0 && old(forest).cells[arr].kind == ArrayKind
      ensures !ok ==> forest == old(forest)
      ensures ok && which < |old(forest).kids[arr]| ==> forest == Put(old(forest), arr, which, newitem)
      ensures ok && which >= |old(forest).kids[arr]| ==>
                forest == Put(old(forest), arr, |old(forest).kids[arr]|, newitem)
    {
      hide Shaped, Owned, Put, Linked, CanPut, Splice, StrungAt, Chain;
      if arr == NULL || newitem == NULL || which < 0 {
        return false;
      }
      KindKept(nodes, forest, arr);
      if nodes[arr].kind != ArrayKind {
        return false;
      }
      ghost var f, m := forest, nodes;
      ListLinked(m, f, arr, newitem);
      ListChained(m, f, arr);
      ghost var ks := f.kids[arr];
      var existing := ChildAtIndex(arr, which, ks);
      if existing == NULL {
        AttachChild(arr, newitem);
        return true;
      }
      StrungFact(m, ks, which);
      assert existing in ks;
      nodes := nodes[newitem := nodes[newitem].(prev := nodes[existing].prev)];
      nodes := nodes[newitem := nodes[newitem].(next := existing)];
      if nodes[existing].prev == NULL {
        nodes := nodes[arr := nodes[arr].(child := newitem)];
      } else {
        var before := nodes[existing].prev;
        nodes := nodes[before := nodes[before].(next := newitem)];
      }
      nodes := nodes[existing := nodes[existing].(prev := newitem)];
      SpliceMiddle(m, arr, m[existing].prev, existing, newitem, nodes);
      SpliceDone(m, f, arr, which, newitem, nodes);
      forest := Put(f, arr, which, newitem);
      return true;
    }

    // Append, when the target is an arr.
    method AddItemToArray(arr: Ptr, item: Ptr) returns (ok: bool)
      requires Valid() && (arr != NULL ==> arr in forest.cells)
      requires arr != NULL && item != NULL && forest.cells[arr].kind == ArrayKind ==> CanPut(forest, arr, item)
      modifies this`nodes, this`forest
      ensures Valid()
      ensures ok <==> arr != NULL && item != NULL && old(forest).cells[arr].kind == ArrayKind
      ensures !ok ==> forest == old(forest)
      ensures ok ==> forest == Put(old(forest), arr, |old(forest).kids[arr]|, item)
    {
      hide Shaped, Owned, Put, Linked, CanPut;
      if arr == NULL || item == NULL {
        return false;
      }
      KindKept(nodes, forest, arr);
      if nodes[arr].kind != ArrayKind {
        return false;
      }
      AttachChild(arr, item);
      return true;
    }

    // Free the key of x, unless it is const.
    method FreeKey(x: Ptr)
      requires x in nodes && NULL !in strs && nodes.Keys !! strs.Keys
      requires Held(CellOf(nodes[x]), KeySlot) != NULL ==> Held(CellOf(nodes[x]), KeySlot) in strs
      modifies this`nodes, this`strs
      ensures nodes == old(nodes) && strs == old(strs) - {Held(CellOf(old(nodes)[x]), KeySlot)}
    {
      if nodes[x].key != NULL && !nodes[x].isConst {
        Free(nodes[x].key);
      }
    }

    // Put the new string at buf in the place of the key of child.
    method StoreKey(child: Ptr, buf: Ptr, ghost text: string)
      requires Inv(forest) && Linked(nodes, forest) && child in forest.cells && Unused(forest, buf)
      requires strs == forest.strs[buf := text]
      requires lent.Keys !! forest.cells.Keys && lent.Keys !! strs.Keys && NULL !in lent
      modifies this`nodes, this`strs, this`forest
      ensures Valid() && forest == Install(old(forest), child, KeySlot, buf, text)
    {
      hide Inv, Linked, Install;
      ghost var f, m := forest, nodes;
      CellKeys(m, f, child);
      InstallDone(m, f, child, KeySlot, buf, text);
      FreeKey(child);
      nodes := nodes[child := nodes[child].(isConst := false)];
      nodes := nodes[child := nodes[child].(key := buf)];
      assert nodes == m[child := m[child].(key := buf, isConst := false)];
      assert strs == (f.strs - {Held(f.cells[child], KeySlot)})[buf := text];
      forest := Install(f, child, KeySlot, buf, text);
    }

    // Give child a copy of key, freeing the key it owns, and append it.
    method AttachNamedChild(parent: Ptr, key: Option<string>, child: Ptr) returns (ok: bool, ghost q: Ptr)
      requires Valid() && (parent != NULL && key.Some? && child != NULL ==> CanPut(forest, parent, child))
      modifies this`nodes, this`strs, this`calls, this`forest
      ensures Valid() && calls <= old(calls) + 1
      ensures ok <==> parent != NULL && key.Some? && child != NULL && grants(old(calls))
      ensures !ok ==> forest == old(forest)
      ensures ok ==> CanName(old(forest), parent, child, q)
      ensures ok ==> forest == AddNamed(old(forest), parent, child, q, key.value)
    {
      hide Inv, Linked, CanPut, Install, Put;
      q := NULL;
      if parent == NULL || key.None? || child == NULL {
        return false, q;
      }
      ghost var f := forest;
      CanPutCells(nodes, f, parent, child);
      var buf := AllocCstr(key.value);
      if buf == NULL {
        return false, q;
      }
      q := buf;
      StoreKey(child, buf, key.value);
      CanPutInstalled(f, parent, child, KeySlot, q, key.value);
      AttachChild(parent, child);
      return true, q;
    }

    method AddItemToObject(obj: Ptr, name: Option<string>, item: Ptr) returns (ok: bool, ghost q: Ptr)
      requires Valid() && (obj != NULL ==> obj in forest.cells)
      requires obj != NULL && name.Some? && item != NULL && forest.cells[obj].kind == ObjectKind ==>
                 CanPut(forest, obj, item)
      modifies this`nodes, this`strs, this`calls, this`forest
      ensures Valid()
      ensures ok <==> obj != NULL && name.Some? && item != NULL && old(forest).cells[obj].kind == ObjectKind
                      && grants(old(calls))
      ensures !ok ==> forest == old(forest)
      ensures ok ==> CanName(old(forest), obj, item, q)
      ensures ok ==> forest == AddNamed(old(forest), obj, item, q, name.value)
    {
      hide Inv, Linked, CanPut, Install, Put, AddNamed, CanName;
      q := NULL;
      if obj == NULL || name.None? || item == NULL {
        return false, q;
      }
      KindKept(nodes, forest, obj);
      if nodes[obj].kind != ObjectKind {
        return false, q;
      }
      ok, q := AttachNamedChild(obj, name, item);
    }

    // The item takes the caller's name itself as its key, and does not own it.
    method AddItemToObjectCS(obj: Ptr, name: Ptr, item: Ptr) returns (ok: bool)
      requires Valid() && (obj != NULL ==> obj in forest.cells)
      requires obj != NULL && name != NULL && item != NULL && forest.cells[obj].kind == ObjectKind ==>
                 CanPut(forest, obj, item)
      modifies this`nodes, this`strs, this`forest
      ensures Valid()
      ensures ok <==> obj != NULL && name != NULL && item != NULL && old(forest).cells[obj].kind == ObjectKind
      ensures !ok ==> forest == old(forest)
      ensures ok ==> CanBorrow(old(forest), obj, item, name)
      ensures ok ==> forest == AddBorrowed(old(forest), obj, item, name)
    {
      hide Inv, Linked, CanPut, Borrow, Put;
      if obj == NULL || name == NULL || item == NULL {
        return false;
      }
      KindKept(nodes, forest, obj);
      if nodes[obj].kind != ObjectKind {
        return false;
      }
      ghost var f, m, t := forest, nodes, strs;
      CanPutCells(m, f, obj, item);
      CellKeys(m, f, item);
      BorrowDone(m, f, item, name);
      FreeKey(item);
      nodes := nodes[item := nodes[item].(isConst := true)];
      nodes := nodes[item := nodes[item].(key := name)];
      assert nodes == m[item := m[item].(key := name, isConst := true)];
      assert strs == t - {Held(f.cells[item], KeySlot)};
      forest := Borrow(f, item, name);
      CanPutBorrowed(f, obj, item, name);
      AttachChild(obj, item);
      return true;
    }

    // ---- References ----

    // A new node that borrows the text and the children of item.
    method WrapAsReference(item: Ptr) returns (r: Ptr)
      requires Valid() && item in forest.cells
      modifies this`calls, this`nodes, this`forest
      ensures Valid() && calls == old(calls) + 1
      ensures r != NULL <==> grants(old(calls))
      ensures r == NULL ==> forest == old(forest)
      ensures r != NULL ==> Unused(old(forest), r) && forest == New(old(forest), r, ReferenceTo(old(nodes[item])))
    {
      hide Inv, Linked, New;
      ghost var f, m := forest, nodes;
      KindKept(m, f, item);
      r := NewNode(nodes[item].kind, true);
      if r == NULL {
        return;
      }
      nodes := nodes[r := nodes[r].(text := nodes[item].text)];
      nodes := nodes[r := nodes[r].(number := nodes[item].number)];
      nodes := nodes[r := nodes[r].(child := nodes[item].child)];
      ghost var n := BLANK.(kind := m[item].kind, isRef := true,
                            text := m[item].text, number := m[item].number, child := m[item].child);
      assert nodes == m[r := n];
      NewDone(m, f, r, n);
      forest := New(f, r, CellOf(n));
    }

    method AddItemReferenceToArray(arr: Ptr, item: Ptr) returns (ok: bool, ghost r: Ptr)
      requires Valid() && (arr != NULL ==> arr in forest.cells && !forest.cells[arr].isRef)
      requires item != NULL ==> item in forest.cells
      modifies this`calls, this`nodes, this`forest
      ensures Valid()
      ensures ok <==> arr != NULL && item != NULL && old(forest).cells[arr].kind == ArrayKind && grants(old(calls))
      ensures !ok ==> forest == old(forest)
      ensures ok ==> CanRefer(old(forest), arr, r)
      ensures ok ==> forest == AddReference(old(forest), arr, r, ReferenceTo(old(nodes[item])))
    {
      hide Inv, Linked, New, Put, CanPut;
      r := NULL;
      if arr == NULL || item == NULL {
        return false, r;
      }
      ghost var f, m := forest, nodes;
      KindKept(m, f, arr);
      KindKept(m, f, item);
      if nodes[arr].kind != ArrayKind {
        return false, r;
      }
      var wrapped := WrapAsReference(item);
      if wrapped == NULL {
        return false, r;
      }
      r := wrapped;
      CanPutNew(f, arr, r, ReferenceTo(m[item]));
      AttachChild(arr, wrapped);
      return true, r;
    }

    // As above with a key; when the key cannot be copied the wrapper is freed.
    method AddItemReferenceToObject(obj: Ptr, name: Option<string>, item: Ptr)
      returns (ok: bool, ghost r: Ptr, ghost q: Ptr)
      requires Valid() && (obj != NULL ==> obj in forest.cells && !forest.cells[obj].isRef)
      requires item != NULL ==> item in forest.cells
      modifies this`calls, this`nodes, this`strs, this`forest
      ensures Valid()
      ensures ok <==> obj != NULL && name.Some? && item != NULL && old(forest).cells[obj].kind == ObjectKind
                      && grants(old(calls)) && grants(old(calls) + 1)
      ensures !ok ==> forest == old(forest)
      ensures ok ==> CanRefer(old(forest), obj, r)
                     && CanName(New(old(forest), r, ReferenceTo(old(nodes[item]))), obj, r, q)
      ensures ok ==> forest == AddNamed(New(old(forest), r, ReferenceTo(old(nodes[item]))), obj, r, q, name.value)
    {
      hide Inv, Linked, New, Put, CanPut, Drop, AddNamed, CanName, Unused;
      r, q := NULL, NULL;
      if obj == NULL || name.None? || item == NULL {
        return false, r, q;
      }
      ghost var f, m := forest, nodes;
      KindKept(m, f, obj);
      KindKept(m, f, item);
      if nodes[obj].kind != ObjectKind {
        return false, r, q;
      }
      var wrapped := WrapAsReference(item);
      if wrapped == NULL {
        return false, r, q;
      }
      r := wrapped;
      UnusedKnown(f, obj, r);
      CanPutNew(f, obj, r, ReferenceTo(m[item]));
      ok, q := AttachNamedChild(obj, name, wrapped);
      if !ok {
        DropNew(f, r, ReferenceTo(m[item]));
        Delete(wrapped);
        return false, r, q;
      }
    }

    // ---- Replacing ----

    // Link replacement between the neighbours of item.
    method TakePlace(parent: Ptr, item: Ptr, replacement: Ptr)
      requires parent in nodes && item in nodes && replacement in nodes
      requires SoundLinks(nodes, nodes[item].prev, nodes[item].next, item, replacement)
      modifies this`nodes
      ensures nodes == Splice(old(nodes), parent, old(nodes)[item].prev, old(nodes)[item].next, replacement)
    {
      var before, after := nodes[item].prev, nodes[item].next;
      nodes := nodes[replacement := nodes[replacement].(prev := before)];
      nodes := nodes[replacement := nodes[replacement].(next := after)];
      if before != NULL {
        nodes := nodes[before := nodes[before].(next := replacement)];
      } else {
        nodes := nodes[parent := nodes[parent].(child := replacement)];
      }
      if after != NULL {
        nodes := nodes[after := nodes[after].(prev := replacement)];
      }
      SpliceIs(old(nodes), parent, before, after, replacement, nodes);
    }

    // Put replacement in the place of item, hand it the key of item if it has
    // none, and free item.
    method ReplaceViaPointer(parent: Ptr, item: Ptr, replacement: Ptr, ghost k: nat) returns (ok: bool)
      requires Valid()
      requires parent != NULL && item != NULL && replacement != NULL ==>
                 && CanReplace(forest, parent, k, replacement) && forest.kids[parent][k] == item
                 && !ConstKeyMoves(forest, parent, k, replacement)
      modifies this`nodes, this`strs, this`forest
      ensures Valid()
      ensures ok <==> parent != NULL && item != NULL && replacement != NULL
      ensures forest == if ok then Replace(old(forest), parent, k, replacement) else old(forest)
    {
      hide Inv, Linked, CanReplace, ConstKeyMoves, Replace, Swap, Splice, Freeable;
      if parent == NULL || item == NULL || replacement == NULL {
        return false;
      }
      ghost var f, m := forest, nodes;
      ReplaceLinked(m, f, parent, k, replacement);
      TakePlace(parent, item, replacement);
      ghost var n := nodes;
      SpliceKeys(m, parent, m[item].prev, m[item].next, replacement);
      if nodes[item].key != NULL {
        if nodes[replacement].key == NULL {
          nodes := nodes[replacement := nodes[replacement].(key := nodes[item].key)];
          nodes := nodes[item := nodes[item].(key := NULL)];
        }
      }
      nodes := nodes[item := nodes[item].(prev := NULL)];
      nodes := nodes[item := nodes[item].(next := NULL)];
      KeyThenLinks(n, item, replacement, nodes);
      ReplaceIs(m, parent, m[item].prev, m[item].next, item, replacement);
      SwapDone(m, f, parent, k, replacement, nodes);
      FreeCjson(item, Swap(f, parent, k, replacement));
      forest := Replace(f, parent, k, replacement);
      return true;
    }

    // ---- Building ----

    // Append child when the last child is at hand.
    method LinkLast(parent: Ptr, prev: Ptr, child: Ptr)
      requires Valid() && CanPut(forest, parent, child)
      requires prev == At(forest.kids[parent], |forest.kids[parent]| - 1)
      modifies this`nodes, this`forest
      ensures Valid()
      ensures forest == Put(old(forest), parent, |old(forest).kids[parent]|, child)
    {
      hide Inv, Put, Linked, CanPut, Splice, StrungAt;
      ghost var f, m := forest, nodes;
      ListLinked(m, f, parent, child);
      DetachedLinks(m, f, parent, child);
      ghost var ks := f.kids[parent];
      if prev != NULL {
        assert prev in ks;
      }
      nodes := nodes[child := nodes[child].(prev := prev)];
      if prev == NULL {
        nodes := nodes[parent := nodes[parent].(child := child)];
      } else {
        nodes := nodes[prev := nodes[prev].(next := child)];
      }
      LinkLastIs(m, parent, prev, child, nodes);
      SpliceDone(m, f, parent, |ks|, child, nodes);
      forest := Put(f, parent, |ks|, child);
    }

    // Store a new string in a field that owns none.
    method StoreString(x: Ptr, slot: Slot, buf: Ptr, ghost text: string)
      requires Inv(forest) && Linked(nodes, forest) && x in forest.cells && Unused(forest, buf)
      requires strs == forest.strs[buf := text]
      requires lent.Keys !! forest.cells.Keys && lent.Keys !! strs.Keys && NULL !in lent
      requires Held(forest.cells[x], slot) == NULL && !forest.cells[x].isRef && !forest.cells[x].isConst
      modifies this`nodes, this`forest
      ensures Valid() && forest == Install(old(forest), x, slot, buf, text)
    {
      hide Inv, Linked, Install;
      ghost var f, m := forest, nodes;
      CellKeys(m, f, x);
      InstallDone(m, f, x, slot, buf, text);
      match slot {
        case TextSlot => nodes := nodes[x := nodes[x].(text := buf)];
        case KeySlot => nodes := nodes[x := nodes[x].(key := buf)];
      }
      assert strs == (f.strs - {NULL})[buf := text];
      forest := Install(f, x, slot, buf, text);
    }

    // Set the type and the number of a new node.
    method SetValue(p: Ptr, kind: Kind, number: Num, ghost f: Forest, ghost c: Cell)
      requires Valid() && Inv(f) && Unused(f, p) && forest == New(f, p, c)
      requires Held(c, TextSlot) == NULL && Held(c, KeySlot) == NULL && !c.isConst
      modifies this`nodes, this`forest
      ensures Valid() && forest == New(f, p, c.(kind := kind, number := number))
    {
      hide Inv, Linked, New;
      ghost var m := nodes;
      NewCell(f, p, c);
      KindKept(m, forest, p);
      nodes := nodes[p := nodes[p].(kind := kind)];
      nodes := nodes[p := nodes[p].(number := number)];
      RelabelDone(m, f, p, c, kind, number);
      assert nodes == m[p := m[p].(kind := kind, number := number)];
      forest := New(f, p, c.(kind := kind, number := number));
    }
  }

  lemma StrungFact(m: Nodes, ks: seq<Ptr>, i: nat)
    requires i < |ks| && NULL !in ks && (forall j :: 0 <= j < |ks| ==> ks[j] in m) && StrungAt(m, ks, i)
    ensures ks[i] in m && m[ks[i]].next == At(ks, i + 1) && m[ks[i]].prev == At(ks, i - 1)
    ensures m[ks[i]].next == NULL <==> i == |ks| - 1
    ensures m[ks[i]].prev == NULL <==> i == 0
    ensures m[ks[i]].prev != NULL ==> m[ks[i]].prev in m && m[ks[i]].prev in ks
  {}

  // Splicing c in as child k of p is the move Put.
  lemma SpliceDone(m: Nodes, f: Forest, p: Ptr, k: nat, c: Ptr, n: Nodes)
    requires Inv(f) && Linked(m, f) && CanPut(f, p, c) && k <= |f.kids[p]|
    requires p in m && c in m && Neighbour(m, f, p, k - 1) && Neighbour(m, f, p, k)
    requires n == Splice(m, p, At(f.kids[p], k - 1), At(f.kids[p], k), c)
    ensures var g := Put(f, p, k, c);
            Inv(g) && Linked(n, g) && g.cells == f.cells && g.strs == f.strs
  {
    hide Inv, Linked, CanPut, Splice, Put;
    SpliceLinked(m, f, p, k, c);
    PutKeepsInv(f, p, k, c);
    PutSame(f, p, k, c);
  }

  lemma PutSame(f: Forest, p: Ptr, k: nat, c: Ptr)
    requires CanPut(f, p, c) && k <= |f.kids[p]|
    ensures Put(f, p, k, c).cells == f.cells && Put(f, p, k, c).strs == f.strs
  {}

  // What a walk along the children of a parent may rely on.
  lemma ListLinked(m: Nodes, f: Forest, parent: Ptr, child: Ptr)
    requires Inv(f) && Linked(m, f) && CanPut(f, parent, child)
    ensures parent in f.kids
    ensures var ks := f.kids[parent];
            && parent in m && child in m && child != parent && child !in ks && NULL !in ks && !m[parent].isRef
            && m[parent].child == At(ks, 0)
            && (forall i :: 0 <= i < |ks| ==> ks[i] in m && StrungAt(m, ks, i))
            && (forall i :: Neighbour(m, f, parent, i))
  {
    hide Shaped, Owned, StrungAt;
    ListFact(f, parent);
    SelfAbove(f, parent);
    assert LinkedAt(m, f, parent) && LinkedAt(m, f, child);
    forall i | 0 <= i < |f.kids[parent]|
      ensures f.kids[parent][i] in m
    {
      assert LinkedAt(m, f, f.kids[parent][i]);
    }
    forall i
      ensures Neighbour(m, f, parent, i)
    {
      NeighbourOk(m, f, parent, i);
    }
  }

  lemma SpliceFirst(m: Nodes, parent: Ptr, child: Ptr, n: Nodes)
    requires parent in m && child in m && child != parent
    requires n == m[parent := m[parent].(child := child)][child := m[child].(prev := NULL, next := NULL)]
    ensures n == Splice(m, parent, NULL, NULL, child)
  {}

  lemma SpliceLast(m: Nodes, parent: Ptr, tail: Ptr, child: Ptr, n: Nodes)
    requires parent in m && child in m && tail in m && tail != child && tail != NULL
    requires n == m[tail := m[tail].(next := child)][child := m[child].(prev := tail, next := NULL)]
    ensures n == Splice(m, parent, tail, NULL, child)
  {}

  lemma KidLinked(m: Nodes, f: Forest, p: Ptr, k: nat)
    requires Inv(f) && Linked(m, f) && CanTake(f, p, k)
    ensures p in f.kids && k < |f.kids[p]|
    ensures var ks := f.kids[p];
            && p in m && p != NULL && ks[k] in m && !m[p].isRef && p != ks[k]
            && m[ks[k]].next == At(ks, k + 1) && m[ks[k]].prev == At(ks, k - 1)
            && At(ks, k + 1) != ks[k] && At(ks, k - 1) != ks[k] && (At(ks, k - 1) == At(ks, k + 1) ==> |ks| == 1)
            && Neighbour(m, f, p, k - 1) && Neighbour(m, f, p, k + 1)
  {
    hide Shaped, Owned;
    ListFact(f, p);
    KidRef(f, p);
    KidAbove(f, p, f.kids[p][k]);
    NeighbourOk(m, f, p, k - 1);
    NeighbourOk(m, f, p, k + 1);
    assert LinkedAt(m, f, p) && LinkedAt(m, f, f.kids[p][k]);
    assert StrungAt(m, f.kids[p], k);
  }

  lemma UnspliceIs(m: Nodes, p: Ptr, before: Ptr, after: Ptr, c: Ptr, n: Nodes)
    requires p in m && c in m && c != before && c != after
    requires (before != NULL ==> before in m) && (after != NULL ==> after in m)
    requires var n1 := if before == NULL then m[p := m[p].(child := after)] else m[before := m[before].(next := after)];
             var n2 := if after == NULL then n1 else n1[after := n1[after].(prev := before)];
             n == n2[c := n2[c].(next := NULL)][c := n2[c].(next := NULL, prev := NULL)]
    ensures n == Unsplice(m, p, before, after, c)
  {}

  lemma UnspliceDone(m: Nodes, f: Forest, p: Ptr, k: nat, n: Nodes)
    requires Inv(f) && Linked(m, f) && CanTake(f, p, k)
    requires p in m && f.kids[p][k] in m && Neighbour(m, f, p, k - 1) && Neighbour(m, f, p, k + 1)
    requires n == Unsplice(m, p, At(f.kids[p], k - 1), At(f.kids[p], k + 1), f.kids[p][k])
    ensures var g := Take(f, p, k);
            Inv(g) && Linked(n, g) && g.cells == f.cells && g.strs == f.strs
  {
    hide Inv, Linked, Unsplice, Take;
    UnspliceLinked(m, f, p, k);
    TakeKeepsInv(f, p, k);
    TakeSame(f, p, k);
  }

  lemma TakeSame(f: Forest, p: Ptr, k: nat)
    requires CanTake(f, p, k)
    ensures Take(f, p, k).cells == f.cells && Take(f, p, k).strs == f.strs
  {}

  // What freeing a node relies on, and what is left of the tree at its end.
  lemma FreeHead(m: Nodes, t: Strings, f: Forest, c: Ptr)
    requires Inv(f) && Freeable(m, t, f, c)
    ensures c in f.cells && c in f.kids && c in m && c !in t && CellOf(m[c]) == f.cells[c]
    ensures NULL !in f.kids[c]
    ensures m[c].isRef ==> f.kids[c] == []
    ensures !m[c].isRef ==> m[c].child == At(f.kids[c], 0)
    ensures Below(f, c) == BelowAny(f, f.kids[c]) + {c} && c !in BelowAny(f, f.kids[c])
    ensures forall q :: q in StringsOf(f, {c}) <==>
              q != NULL && (q == Held(f.cells[c], TextSlot) || q == Held(f.cells[c], KeySlot))
    ensures StringsOf(f, Below(f, c)) == StringsOf(f, BelowAny(f, f.kids[c])) + StringsOf(f, {c})
    ensures StringsOf(f, BelowAny(f, f.kids[c])) !! StringsOf(f, {c})
    ensures StringsOf(f, {c}) <= t.Keys && StringsOf(f, {c}) !! m.Keys
    ensures Held(f.cells[c], TextSlot) != NULL ==> Held(f.cells[c], TextSlot) != Held(f.cells[c], KeySlot)
  {
    hide Shaped, Owned, BelowAny, Below;
    BelowSelf(f, c);
    ListFact(f, c);
    FreeLast(f, c);
    NodeStrings(f, c);
    OwnsFact(f, c, TextSlot);
    OwnsFact(f, c, KeySlot);
  }

  lemma BelowNone(f: Forest)
    ensures BelowAny(f, []) == {} && StringsOf(f, {}) == {}
  {}

  // The walk ends when every child has been visited.
  lemma NoNull(m: Nodes, t: Strings, f: Forest, c: Ptr, i: nat)
    requires Inv(f) && Freeable(m, t, f, c) && c in f.kids && i <= |f.kids[c]| && At(f.kids[c], i) == NULL
    ensures i == |f.kids[c]|
  {
    hide Inv, Freeable;
    FreeHead(m, t, f, c);
  }

  lemma DropDone(m: Nodes, f: Forest, c: Ptr)
    requires Inv(f) && Linked(m, f) && Root(f, c)
    ensures Freeable(m, f.strs, f, c)
    ensures var g := Drop(f, c);
            && Inv(g) && Linked(m - Below(f, c), g) && g.strs == f.strs - StringsOf(f, Below(f, c))
            && g.cells.Keys <= f.cells.Keys
  {
    hide Shaped, Owned, Linked;
    RootFreeable(m, f, c);
    DropLinked(m, f, c);
    DropKeepsInv(f, c);
  }

  lemma KindKept(m: Nodes, f: Forest, x: Ptr)
    requires Inv(f) && Linked(m, f) && x in f.cells
    ensures x in m && x in f.kids && m[x].kind == f.cells[x].kind && CellOf(m[x]) == f.cells[x]
  {
    hide Shaped, Owned;
    assert LinkedAt(m, f, x);
  }

  lemma ListChained(m: Nodes, f: Forest, p: Ptr)
    requires Inv(f) && Linked(m, f) && p in f.cells && !f.cells[p].isRef
    ensures p in m && p in f.kids && Chain(m, m[p].child, f.kids[p])
    ensures forall i :: 0 <= i < |f.kids[p]| ==> CanTake(f, p, i)
  {
    hide Shaped, Owned;
    ListFact(f, p);
    assert LinkedAt(m, f, p);
    forall i | 0 <= i < |f.kids[p]|
      ensures f.kids[p][i] != NULL && f.kids[p][i] in m && m[f.kids[p][i]].next == At(f.kids[p], i + 1)
    {
      assert StrungAt(m, f.kids[p], i);
    }
  }

  lemma SpliceMiddle(m: Nodes, p: Ptr, before: Ptr, after: Ptr, c: Ptr, n: Nodes)
    requires p in m && c in m && after in m && after != NULL && before != c && after != c
    requires before != NULL ==> before in m
    requires var n1 := m[c := m[c].(prev := before)][c := m[c].(prev := before, next := after)];
             var n2 := if before == NULL then n1[p := n1[p].(child := c)] else n1[before := n1[before].(next := c)];
             n == n2[after := n2[after].(prev := c)]
    ensures n == Splice(m, p, before, after, c)
  {}

  // Naming and appending in one move.
  predicate CanName(f: Forest, p: Ptr, c: Ptr, q: Ptr) {
    CanPut(f, p, c) && Unused(f, q)
  }

  function AddNamed(f: Forest, p: Ptr, c: Ptr, q: Ptr, key: string): (g: Forest)
    requires CanName(f, p, c, q)
  {
    CanPutInstalled(f, p, c, KeySlot, q, key);
    Put(Install(f, c, KeySlot, q, key), p, |f.kids[p]|, c)
  }

  predicate CanBorrow(f: Forest, p: Ptr, c: Ptr, name: Ptr) {
    CanPut(f, p, c) && name != NULL
  }

  function AddBorrowed(f: Forest, p: Ptr, c: Ptr, name: Ptr): (g: Forest)
    requires CanBorrow(f, p, c, name)
  {
    CanPutBorrowed(f, p, c, name);
    Put(Borrow(f, c, name), p, |f.kids[p]|, c)
  }

  lemma CanPutInstalled(f: Forest, p: Ptr, c: Ptr, s: Slot, q: Ptr, text: string)
    requires CanPut(f, p, c) && Unused(f, q)
    ensures CanPut(Install(f, c, s, q, text), p, c) && Install(f, c, s, q, text).kids == f.kids
  {}

  lemma CanPutBorrowed(f: Forest, p: Ptr, c: Ptr, name: Ptr)
    requires CanPut(f, p, c)
    ensures CanPut(Borrow(f, c, name), p, c) && Borrow(f, c, name).kids == f.kids
  {}

  lemma CanPutCells(m: Nodes, f: Forest, p: Ptr, c: Ptr)
    requires Inv(f) && Linked(m, f) && CanPut(f, p, c)
    ensures c in f.cells && p in f.kids && m.Keys == f.cells.Keys
  {
    hide Shaped, Owned, LinkedAt;
  }

  lemma CellKeys(m: Nodes, f: Forest, c: Ptr)
    requires Inv(f) && Linked(m, f) && c in f.cells
    ensures c in m && CellOf(m[c]) == f.cells[c] && m.Keys == f.cells.Keys
    ensures NULL !in f.strs && f.cells.Keys !! f.strs.Keys
    ensures Held(f.cells[c], KeySlot) != NULL ==> Held(f.cells[c], KeySlot) in f.strs
  {
    hide Shaped, Owned;
    OwnsFact(f, c, KeySlot);
    assert LinkedAt(m, f, c);
  }

  // Storing the address of a new string in a field is the move Install.
  lemma InstallDone(m: Nodes, f: Forest, x: Ptr, s: Slot, q: Ptr, text: string)
    requires Inv(f) && Linked(m, f) && x in f.cells && x in m && Unused(f, q) && (s.TextSlot? ==> !f.cells[x].isRef)
    ensures var g := Install(f, x, s, q, text);
            var n := if s.TextSlot? then m[x].(text := q) else m[x].(key := q, isConst := false);
            && Inv(g) && Linked(m[x := n], g)
            && g.cells.Keys == f.cells.Keys && g.kids == f.kids && g.up == f.up
            && g.strs == (f.strs - {Held(f.cells[x], s)})[q := text]
  {
    hide Shaped, Owned, Linked;
    InstallKeepsInv(f, x, s, q, text);
    var g := Install(f, x, s, q, text);
    var n := if s.TextSlot? then m[x].(text := q) else m[x].(key := q, isConst := false);
    forall y | y in m && y in g.cells
      ensures CellOf(m[x := n][y]) == g.cells[y]
    {
      KindKept(m, f, y);
    }
    RelabelLinked(m, f, m[x := n], g);
  }

  lemma BorrowDone(m: Nodes, f: Forest, x: Ptr, name: Ptr)
    requires Inv(f) && Linked(m, f) && x in f.cells && x in m && name != NULL
    ensures var g := Borrow(f, x, name);
            && Inv(g) && Linked(m[x := m[x].(key := name, isConst := true)], g)
            && g.cells.Keys == f.cells.Keys && g.strs == f.strs - {Held(f.cells[x], KeySlot)}
  {
    hide Shaped, Owned, Linked;
    BorrowKeepsInv(f, x, name);
    var g := Borrow(f, x, name);
    var n := m[x].(key := name, isConst := true);
    forall y | y in m && y in g.cells
      ensures CellOf(m[x := n][y]) == g.cells[y]
    {
      KindKept(m, f, y);
    }
    RelabelLinked(m, f, m[x := n], g);
  }

  // What wrap_as_reference stores in the new node.
  function ReferenceTo(n: Node): Cell {
    Cell(n.kind, true, false, n.text, n.number, NULL, n.child)
  }

  predicate CanRefer(f: Forest, p: Ptr, r: Ptr) {
    Keyed(f) && p in f.cells && !f.cells[p].isRef && p in f.above && f.above[p] <= f.cells.Keys && Unused(f, r)
  }

  function AddReference(f: Forest, p: Ptr, r: Ptr, c: Cell): Forest
    requires CanRefer(f, p, r)
  {
    Put(New(f, r, c), p, |f.kids[p]|, r)
  }

  lemma CanPutNew(f: Forest, p: Ptr, r: Ptr, c: Cell)
    requires Inv(f) && p in f.cells && !f.cells[p].isRef && Unused(f, r)
    ensures CanRefer(f, p, r) && CanPut(New(f, r, c), p, r) && New(f, r, c).kids[p] == f.kids[p]
    ensures Root(New(f, r, c), r)
  {
    hide Shaped, Owned;
    forall a | a in f.above[p]
      ensures a in f.cells
    {
      AncestorsNest(f, p, a);
    }
  }

  lemma UnusedKnown(f: Forest, x: Ptr, p: Ptr)
    requires Inv(f) && x in f.cells && Unused(f, p)
    ensures x != p && p != NULL
  {}

  lemma FreshUnused(m: Nodes, f: Forest, p: Ptr)
    requires Inv(f) && Linked(m, f) && p != NULL && p !in m && p !in f.strs
    ensures Unused(f, p)
  {
    hide Shaped, Owned, LinkedAt;
  }

  // A new node in memory is the move New.
  lemma NewDone(m: Nodes, f: Forest, p: Ptr, n: Node)
    requires Inv(f) && Linked(m, f) && Unused(f, p) && Unlinked(n)
    requires Held(CellOf(n), TextSlot) == NULL && Held(CellOf(n), KeySlot) == NULL && !n.isConst
    ensures var g := New(f, p, CellOf(n));
            Inv(g) && Linked(m[p := n], g) && g.cells.Keys == f.cells.Keys + {p} && g.strs == f.strs
  {
    hide Shaped, Owned, Linked;
    NewLinked(m, f, p, n);
    NewKeepsInv(f, p, CellOf(n));
  }

  lemma SpliceIs(m: Nodes, p: Ptr, before: Ptr, after: Ptr, c: Ptr, n: Nodes)
    requires p in m && c in m && (before != NULL ==> before in m) && (after != NULL ==> after in m)
    requires var n1 := m[c := m[c].(prev := before)][c := m[c].(prev := before, next := after)];
             var n2 := if before != NULL then n1[before := n1[before].(next := c)] else n1[p := n1[p].(child := c)];
             n == if after != NULL then n2[after := n2[after].(prev := c)] else n2
    ensures n == Splice(m, p, before, after, c)
  {
    assert m[c := m[c].(prev := before)][c := m[c].(prev := before, next := after)]
        == m[c := m[c].(prev := before, next := after)];
  }

  function GiveKey(m: Nodes, c: Ptr, r: Ptr): Nodes
    requires c in m && r in m
  {
    if m[c].key == NULL || m[r].key != NULL then m
    else m[r := m[r].(key := m[c].key)][c := m[c].(key := NULL)]
  }

  function ClearLinks(m: Nodes, c: Ptr): Nodes
    requires c in m
  {
    m[c := m[c].(prev := NULL, next := NULL)]
  }

  lemma KeyThenLinks(m: Nodes, c: Ptr, r: Ptr, n: Nodes)
    requires c in m && r in m && c != r
    requires var n1 := GiveKey(m, c, r);
             n == n1[c := n1[c].(prev := NULL)][c := n1[c].(prev := NULL, next := NULL)]
    ensures n == GiveKey(ClearLinks(m, c), c, r)
  {}

  // The neighbours of c are apart from c and r.
  predicate SoundLinks(m: Nodes, before: Ptr, after: Ptr, c: Ptr, r: Ptr) {
    && (before != NULL ==> before in m && before != c && before != r && before != after)
    && (after != NULL ==> after in m && after != c && after != r)
  }

  // Putting r in the place of c is taking c out and putting r in.
  lemma ReplaceIs(m: Nodes, p: Ptr, before: Ptr, after: Ptr, c: Ptr, r: Ptr)
    requires p in m && c in m && r in m && p != c && p != r && r != c && !m[p].isRef
    requires m[c].next == after && m[c].prev == before && c != NULL && r != NULL && SoundLinks(m, before, after, c, r)
    ensures var n := Unsplice(m, p, before, after, c);
            && p in n && r in n && (before != NULL ==> before in n) && (after != NULL ==> after in n)
            && c in Splice(m, p, before, after, r)
            && ClearLinks(Splice(m, p, before, after, r), c) == Splice(n, p, before, after, r)
  {
    hide Splice, Unsplice;
    var n := Unsplice(m, p, before, after, c);
    UnspliceKeys(m, p, before, after, c);
    UnspliceField(m, p, before, after, c, p);
    SpliceKeys(m, p, before, after, r);
    SpliceKeys(n, p, before, after, r);
    var a, b := ClearLinks(Splice(m, p, before, after, r), c), Splice(n, p, before, after, r);
    forall y | y in m
      ensures y in a && y in b && a[y] == b[y]
    {
      SpliceField(m, p, before, after, r, y);
      UnspliceField(m, p, before, after, c, y);
      SpliceField(n, p, before, after, r, y);
    }
    assert a.Keys == b.Keys;
  }

  lemma ReplaceLinked(m: Nodes, f: Forest, p: Ptr, k: nat, r: Ptr)
    requires Inv(f) && Linked(m, f) && CanReplace(f, p, k, r)
    ensures p in f.kids && k < |f.kids[p]|
    ensures var ks := f.kids[p];
            var c := ks[k];
            && p in m && c in m && r in m && p != c && p != r && r != c && r != NULL && !m[p].isRef
            && m[c].next == At(ks, k + 1) && m[c].prev == At(ks, k - 1)
            && SoundLinks(m, At(ks, k - 1), At(ks, k + 1), c, r)
            && Neighbour(m, f, p, k - 1) && Neighbour(m, f, p, k + 1)
  {
    hide Shaped, Owned, LinkedAt;
    KidLinked(m, f, p, k);
    ListLinked(m, f, p, r);
    ListFact(f, p);
  }

  lemma SwapDone(m: Nodes, f: Forest, p: Ptr, k: nat, r: Ptr, n: Nodes)
    requires Inv(f) && Linked(m, f) && CanReplace(f, p, k, r) && !ConstKeyMoves(f, p, k, r)
    requires p in f.kids && k < |f.kids[p]| && p in m && f.kids[p][k] in m && r in m
    requires Neighbour(m, f, p, k - 1) && Neighbour(m, f, p, k + 1)
    requires var before, after, c := At(f.kids[p], k - 1), At(f.kids[p], k + 1), f.kids[p][k];
             var n1 := Unsplice(m, p, before, after, c);
             && p in n1 && r in n1 && (before != NULL ==> before in n1) && (after != NULL ==> after in n1)
             && c in Splice(n1, p, before, after, r) && r in Splice(n1, p, before, after, r)
             && n == GiveKey(Splice(n1, p, before, after, r), c, r)
    ensures var g := Swap(f, p, k, r);
            var h := Replace(f, p, k, r);
            && Inv(g) && Freeable(n, f.strs, g, f.kids[p][k])
            && Inv(h) && Linked(n - Below(g, f.kids[p][k]), h)
            && h.strs == f.strs - StringsOf(g, Below(g, f.kids[p][k])) && h.cells.Keys <= f.cells.Keys
  {
    hide Inv, Linked, Swap, Drop, Splice, Unsplice, GiveKey, Freeable, MoveKey, Mid;
    var before, after, c := At(f.kids[p], k - 1), At(f.kids[p], k + 1), f.kids[p][k];
    var n1 := Unsplice(m, p, before, after, c);
    SwapKeepsInv(f, p, k, r);
    SwapRoot(f, p, k, r);
    MidLinked(m, f, p, k, r, n1, Splice(n1, p, before, after, r));
    SwapIs(f, p, k, r);
    MoveKeyLinked(Splice(n1, p, before, after, r), Mid(f, p, k, r), c, r);
    DropDone(n, Swap(f, p, k, r), c);
  }

  // The forest after the links, before the key.
  function Mid(f: Forest, p: Ptr, k: nat, r: Ptr): Forest
    requires CanReplace(f, p, k, r)
  {
    CanPutTaken(f, p, k, r);
    Put(Take(f, p, k), p, k, r)
  }

  lemma SwapIs(f: Forest, p: Ptr, k: nat, r: Ptr)
    requires CanReplace(f, p, k, r)
    ensures r in Mid(f, p, k, r).cells && f.kids[p][k] in Mid(f, p, k, r).cells
    ensures Swap(f, p, k, r) == MoveKey(Mid(f, p, k, r), f.kids[p][k], r)
  {
    hide Take, Put, MoveKey;
    CanPutTaken(f, p, k, r);
  }

  lemma MidLinked(m: Nodes, f: Forest, p: Ptr, k: nat, r: Ptr, n1: Nodes, n2: Nodes)
    requires Inv(f) && Linked(m, f) && CanReplace(f, p, k, r)
    requires p in f.kids && k < |f.kids[p]| && p in m && f.kids[p][k] in m && r in m
    requires Neighbour(m, f, p, k - 1) && Neighbour(m, f, p, k + 1)
    requires var before, after, c := At(f.kids[p], k - 1), At(f.kids[p], k + 1), f.kids[p][k];
             && n1 == Unsplice(m, p, before, after, c)
             && p in n1 && r in n1 && (before != NULL ==> before in n1) && (after != NULL ==> after in n1)
             && n2 == Splice(n1, p, before, after, r)
    ensures Inv(Mid(f, p, k, r)) && Linked(n2, Mid(f, p, k, r))
    ensures Mid(f, p, k, r).cells == f.cells && Mid(f, p, k, r).strs == f.strs
  {
    hide Inv, Linked, Take, Put, Splice, Unsplice, CanPut, CanTake;
    var ks := f.kids[p];
    CanPutTaken(f, p, k, r);
    UnspliceDone(m, f, p, k, n1);
    var f1 := Take(f, p, k);
    TakeAt(f, p, k, p) by {
      CanTakeCells(f, p, k);
    }
    assert At(f1.kids[p], k - 1) == At(ks, k - 1) && At(f1.kids[p], k) == At(ks, k + 1);
    ListLinked(n1, f1, p, r);
    SpliceDone(n1, f1, p, k, r, n2);
  }

  lemma CanTakeCells(f: Forest, p: Ptr, k: nat)
    requires CanTake(f, p, k)
    ensures p in f.cells && f.kids[p][k] in f.cells
  {}

  lemma MoveKeyLinked(n: Nodes, f: Forest, c: Ptr, r: Ptr)
    requires Inv(f) && Linked(n, f) && c in f.cells && r in f.cells && c != r && Keyed(MoveKey(f, c, r))
    requires c in n && r in n
    ensures Linked(GiveKey(n, c, r), MoveKey(f, c, r))
    ensures MoveKey(f, c, r).strs == f.strs && MoveKey(f, c, r).cells.Keys == f.cells.Keys
  {
    hide Shaped, Owned, Linked;
    forall y | y in n && y in f.cells
      ensures CellOf(n[y]) == f.cells[y]
    {
      KindKept(n, f, y);
    }
    RelabelLinked(n, f, GiveKey(n, c, r), MoveKey(f, c, r));
  }

  lemma DetachedLinks(m: Nodes, f: Forest, p: Ptr, c: Ptr)
    requires Inv(f) && Linked(m, f) && CanPut(f, p, c)
    ensures c in m && m[c].next == NULL && c != NULL
  {
    hide Shaped, Owned;
    assert LinkedAt(m, f, c);
  }

  lemma LinkLastIs(m: Nodes, p: Ptr, prev: Ptr, c: Ptr, n: Nodes)
    requires p in m && c in m && c != p && c != prev && m[c].next == NULL && (prev != NULL ==> prev in m)
    requires var n1 := m[c := m[c].(prev := prev)];
             n == if prev == NULL then n1[p := n1[p].(child := c)] else n1[prev := n1[prev].(next := c)]
    ensures n == Splice(m, p, prev, NULL, c)
  {}

  lemma NewCell(f: Forest, p: Ptr, c: Cell)
    ensures p in New(f, p, c).cells && New(f, p, c).cells[p] == c
  {}

  lemma RelabelDone(m: Nodes, f: Forest, p: Ptr, c: Cell, kind: Kind, number: Num)
    requires Inv(f) && Unused(f, p) && Inv(New(f, p, c)) && Linked(m, New(f, p, c)) && p in m
    requires Held(c, TextSlot) == NULL && Held(c, KeySlot) == NULL && !c.isConst
    ensures var g := New(f, p, c.(kind := kind, number := number));
            && Inv(g) && Linked(m[p := m[p].(kind := kind, number := number)], g)
            && g.cells.Keys == New(f, p, c).cells.Keys && g.strs == f.strs && New(f, p, c).strs == f.strs
  {
    hide Shaped, Owned, Linked;
    var g, n := New(f, p, c.(kind := kind, number := number)), m[p := m[p].(kind := kind, number := number)];
    NewKeepsInv(f, p, c.(kind := kind, number := number));
    forall y | y in n && y in g.cells
      ensures CellOf(n[y]) == g.cells[y]
    {
      KindKept(m, New(f, p, c), y);
    }
    RelabelLinked(m, New(f, p, c), n, g);
  }
}
