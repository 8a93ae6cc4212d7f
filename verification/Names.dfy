// Keys borrowed from the caller: as long as the caller lends every name, each
// tree without references can be read after any run.
module Names {
  import opened Memory
  import opened Forests
  import opened Links
  import opened Heaps
  import opened Trees
  import opened Readable
  import opened Runs

  // Every const key is one the caller lends.
  predicate NamesLent(f: Forest, lent: set<Ptr>) {
    forall x :: x in f.cells && f.cells[x].isConst ==> f.cells[x].key in lent
  }

  predicate LendsName(m: Move, lent: set<Ptr>) {
    m.Borrowed? ==> m.name in lent
  }

  lemma StepNamesLent(f: Forest, m: Move, lent: set<Ptr>)
    requires Inv(f) && Allowed(f, m) && NamesLent(f, lent) && LendsName(m, lent)
    ensures NamesLent(Step(f, m), lent)
  {
    hide Shaped, Owned, Take, Put, Drop, Replace, Grown, AddNamed, AddBorrowed, AddReference, CanPut;
    match m
    case Grow(g, t) => GrownNames(f, g, t, lent);
    case Insert(p, k, c) => PutSame(f, p, k, c);
    case Named(p, c, q, key) => AddedNames(f, p, c, q, key, lent);
    case Borrowed(p, c, name) => BorrowedNames(f, p, c, name, lent);
    case Reference(p, r, cell) => ReferenceNames(f, p, r, cell, lent);
    case Detach(p, k) => TakeSame(f, p, k);
    case Replacement(p, k, r) => ReplaceNames(f, p, k, r, lent);
    case Delete(c) => DropCells(f, c);
    case _ =>
  }

  lemma AddedNames(f: Forest, p: Ptr, c: Ptr, q: Ptr, key: string, lent: set<Ptr>)
    requires Inv(f) && CanName(f, p, c, q) && NamesLent(f, lent)
    ensures NamesLent(AddNamed(f, p, c, q, key), lent)
  {
    hide Shaped, Owned, Put;
    CanPutInstalled(f, p, c, KeySlot, q, key);
    PutSame(Install(f, c, KeySlot, q, key), p, |f.kids[p]|, c);
  }

  lemma BorrowedNames(f: Forest, p: Ptr, c: Ptr, name: Ptr, lent: set<Ptr>)
    requires Inv(f) && CanBorrow(f, p, c, name) && NamesLent(f, lent) && name in lent
    ensures NamesLent(AddBorrowed(f, p, c, name), lent)
  {
    hide Shaped, Owned, Put;
    CanPutBorrowed(f, p, c, name);
    PutSame(Borrow(f, c, name), p, |f.kids[p]|, c);
  }

  lemma ReferenceNames(f: Forest, p: Ptr, r: Ptr, cell: Cell, lent: set<Ptr>)
    requires Inv(f) && CanRefer(f, p, r) && Bare(cell) && NamesLent(f, lent)
    ensures NamesLent(AddReference(f, p, r, cell), lent)
  {
    hide Shaped, Owned, Put;
    CanPutNew(f, p, r, cell);
    PutSame(New(f, r, cell), p, |f.kids[p]|, r);
  }

  lemma ReplaceNames(f: Forest, p: Ptr, k: nat, r: Ptr, lent: set<Ptr>)
    requires Inv(f) && CanReplace(f, p, k, r) && !ConstKeyMoves(f, p, k, r) && NamesLent(f, lent)
    ensures NamesLent(Replace(f, p, k, r), lent)
  {
    hide Shaped, Owned, Take, Put, Drop;
    CanPutTaken(f, p, k, r);
    SwapRoot(f, p, k, r);
    if f.cells[r].isConst {
      ConstFact(f, r);
    }
    DropCells(Swap(f, p, k, r), f.kids[p][k]);
  }

  lemma GrownNames(f: Forest, g: Forest, t: Tree, lent: set<Ptr>)
    requires Inv(f) && Grown(g, f, t) && NamesLent(f, lent)
    ensures NamesLent(g, lent)
  {
    hide Shaped, Owned, Shown;
    forall x | x in g.cells && g.cells[x].isConst
      ensures g.cells[x].key in lent
    {
      if t.at in g.above[x] {
        ShownParts(g, OWN, t, x);
      } else {
        DropAt(g, t.at, x);
      }
    }
  }

  // Every run whose borrowed names the caller lends keeps the names readable.
  lemma {:induction false} RunNamesLent(f: Forest, ms: seq<Move>, lent: set<Ptr>)
    requires Inv(f) && CanRun(f, ms) && NamesLent(f, lent) && forall i :: 0 <= i < |ms| ==> LendsName(ms[i], lent)
    ensures NamesLent(Run(f, ms), lent)
    decreases |ms|
  {
    hide Inv, Allowed, Step, NamesLent, LendsName;
    if ms != [] {
      StepKeepsInv(f, ms[0]);
      StepNamesLent(f, ms[0], lent);
      RunNamesLent(Step(f, ms[0]), ms[1..], lent);
    }
  }

  // ---- Reading ----

  // After any run that borrows only names the caller lends, every tree without
  // references can be read.
  lemma RunReadable(ms: seq<Move>, m: Nodes, lent: Strings, p: Ptr) returns (t: Tree)
    requires CanRun(EMPTY, ms) && forall i :: 0 <= i < |ms| ==> LendsName(ms[i], lent.Keys)
    requires var f := Run(EMPTY, ms);
             Keyed(f) && Linked(m, f) && p in f.cells && NoReferences(f, Below(f, p))
    ensures t.at == p && Views(m, lent + Run(EMPTY, ms).strs, t)
  {
    hide Inv, Run, CanRun, Linked, Views, LendsName;
    var f := Run(EMPTY, ms);
    EmptyInv();
    RunKeepsInv(EMPTY, ms);
    RunNamesLent(EMPTY, ms, lent.Keys);
    ReadableExactly(m, f, lent, p);
    t :| t.at == p && Views(m, lent + f.strs, t);
  }

  // Borrowing the key the item itself owns leaves a sound forest in which
  // neither that key nor the item can be read: the key has just been freed.
  lemma OwnKeyDangles(f: Forest, p: Ptr, x: Ptr, lent: Strings)
    requires Inv(f) && CanPut(f, p, x) && lent.Keys !! f.strs.Keys && Held(f.cells[x], KeySlot) != NULL
    ensures var name := f.cells[x].key;
            && CanBorrow(f, p, x, name)
            && var g := AddBorrowed(f, p, x, name);
            && Inv(g) && g.cells[x].key == name && name !in lent + g.strs
            && forall m: Nodes, t: Tree :: Linked(m, g) && Views(m, lent + g.strs, t) ==> t.at != x
  {
    hide Shaped, Owned, Put, Linked, Views;
    var name := f.cells[x].key;
    OwnsFact(f, x, KeySlot);
    CanPutBorrowed(f, p, x, name);
    PutSame(Borrow(f, x, name), p, |f.kids[p]|, x);
    BorrowedKeepsInv(f, p, x, name);
    var g := AddBorrowed(f, p, x, name);
    forall m: Nodes, t: Tree | Linked(m, g) && Views(m, lent + g.strs, t)
      ensures t.at != x
    {
      if t.at == x {
        ViewReadsKey(m, g, lent + g.strs, t);
        assert false;
      }
    }
  }

  lemma ViewReadsKey(m: Nodes, f: Forest, texts: Strings, t: Tree)
    requires Inv(f) && Linked(m, f) && Views(m, texts, t) && t.at in f.cells && f.cells[t.at].key != NULL
    ensures f.cells[t.at].key in texts
  {
    hide Shaped, Owned, Linked, Chain, UpToNul;
    KindKept(m, f, t.at);
  }

  // ---- Such a run ----

  // The second node of SECOND given the key "k" at 5, in the object and out of
  // it again.
  const KEYED := Forest(map[1 := OBJECT_CELL, 2 := NULL_CELL.(key := 5)], map[1 := [2], 2 := []],
                        map[1 := NULL, 2 := 1], map[1 := {1}, 2 := {1, 2}], map[5 := "k"],
                        map[5 := Owner(2, KeySlot)])
  const APART := KEYED.(kids := map[1 := [], 2 := []], up := map[1 := NULL, 2 := NULL],
                        above := map[1 := {1}, 2 := {2}])

  lemma KeyingStep()
    ensures Allowed(SECOND, Named(1, 2, 5, "k")) && Step(SECOND, Named(1, 2, 5, "k")) == KEYED
  {
    KeyingAllowed();
    hide Put, Install;
    var h := Install(SECOND, 2, KeySlot, 5, "k");
    KeyInstalled();
    CanPutInstalled(SECOND, 1, 2, KeySlot, 5, "k");
    KeyedPut(h);
  }

  lemma KeyingAllowed()
    ensures CanName(SECOND, 1, 2, 5)
  {}

  lemma KeyInstalled()
    ensures var h := Install(SECOND, 2, KeySlot, 5, "k");
            && h.cells == KEYED.cells && h.strs == KEYED.strs && h.owner == KEYED.owner
            && h.kids == SECOND.kids && h.up == SECOND.up && h.above == SECOND.above
  {}

  lemma KeyedPut(h: Forest)
    requires h.cells == KEYED.cells && h.strs == KEYED.strs && h.owner == KEYED.owner
    requires h.kids == SECOND.kids && h.up == SECOND.up && h.above == SECOND.above && CanPut(h, 1, 2)
    ensures Put(h, 1, |h.kids[1]|, 2) == KEYED
  {
    var g := Put(h, 1, 0, 2);
    assert Inserted([], 0, 2) == [2];
    assert g.kids == KEYED.kids;
    assert g.up == KEYED.up;
    assert {2} + {1} == {1, 2} && g.above[1] == {1} && g.above[2] == {1, 2};
    assert g.above == KEYED.above;
  }

  lemma PartingStep()
    ensures Allowed(KEYED, Detach(1, 0)) && Step(KEYED, Detach(1, 0)) == APART
  {
    PartingAllowed();
    PartedAbove();
    hide Keyed;
    var g := Take(KEYED, 1, 0);
    assert Removed([2], 0) == [];
    assert g.kids == APART.kids;
    assert g.up == APART.up;
  }

  lemma PartingAllowed()
    ensures CanTake(KEYED, 1, 0)
  {}

  lemma PartedAbove()
    requires CanTake(KEYED, 1, 0)
    ensures Take(KEYED, 1, 0).above == APART.above
  {
    hide Keyed;
    var above := Take(KEYED, 1, 0).above;
    assert {1, 2} - {1} == {2} && above[1] == {1} && above[2] == {2};
  }

  // After these calls the item at 2 cannot be read, whatever names the caller
  // lends.
  lemma DanglingRun(lent: Strings)
    requires 5 !in lent
    ensures var ms := [Create(1, OBJECT_CELL), Create(2, NULL_CELL), Named(1, 2, 5, "k"), Detach(1, 0),
                       Borrowed(1, 2, 5)];
            && CanRun(EMPTY, ms)
            && var g := Run(EMPTY, ms);
            && Inv(g) && 2 in g.cells
            && forall m: Nodes, t: Tree :: Linked(m, g) && Views(m, lent + g.strs, t) ==> t.at != 2
  {
    hide Shaped, Owned, Step, Allowed, Linked, Views, AddBorrowed, CanPut, CanBorrow, Run, CanRun;
    var a, b, c, d := Create(1, OBJECT_CELL), Create(2, NULL_CELL), Named(1, 2, 5, "k"), Detach(1, 0);
    ApartReady();
    OwnKeyDangles(APART, 1, 2, lent);
    BorrowStep(APART, 1, 2, 5);
    var g := AddBorrowed(APART, 1, 2, 5);
    FiveSteps(a, b, c, d, Borrowed(1, 2, 5), g);
  }

  lemma ApartReady()
    ensures Inv(APART) && CanPut(APART, 1, 2)
  {
    hide Inv, Step, Allowed;
    BorrowingSteps();
    KeyingStep();
    PartingStep();
    EmptyInv();
    StepKeepsInv(EMPTY, Create(1, OBJECT_CELL));
    StepKeepsInv(FIRST, Create(2, NULL_CELL));
    StepKeepsInv(SECOND, Named(1, 2, 5, "k"));
    StepKeepsInv(KEYED, Detach(1, 0));
  }

  lemma FiveSteps(a: Move, b: Move, c: Move, d: Move, e: Move, g: Forest)
    requires a == Create(1, OBJECT_CELL) && b == Create(2, NULL_CELL) && c == Named(1, 2, 5, "k") && d == Detach(1, 0)
    requires Allowed(APART, e) && Step(APART, e) == g && Keyed(g)
    ensures CanRun(EMPTY, [a, b, c, d, e]) && Run(EMPTY, [a, b, c, d, e]) == g
  {
    hide Step, Allowed;
    BorrowingSteps();
    KeyingStep();
    PartingStep();
    Prefixed(APART, e, [], g);
    Prefixed(KEYED, d, [e], g);
    Prefixed(SECOND, c, [d, e], g);
    Prefixed(FIRST, b, [c, d, e], g);
    Prefixed(EMPTY, a, [b, c, d, e], g);
    assert [e] + [] == [e] && [d] + [e] == [d, e] && [c] + [d, e] == [c, d, e];
    assert [b] + [c, d, e] == [b, c, d, e] && [a] + [b, c, d, e] == [a, b, c, d, e];
  }

  lemma BorrowStep(f: Forest, p: Ptr, x: Ptr, name: Ptr)
    requires Inv(f) && CanBorrow(f, p, x, name)
    ensures Allowed(f, Borrowed(p, x, name)) && Step(f, Borrowed(p, x, name)) == AddBorrowed(f, p, x, name)
    ensures x in AddBorrowed(f, p, x, name).cells
  {}
}
