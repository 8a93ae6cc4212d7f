// Whole runs of the tree interface: any sequence of calls that meet their
// preconditions, as moves on the forest.
module Runs {
  import opened Memory
  import opened Forests
  import opened Heaps
  import opened Trees

  // What one call does to the forest; the addresses are what the allocator
  // returned to it. Grow is a whole new tree at once; its hypothesis, that the
  // forest is the old one with that tree added and is well formed, is what
  // ValueToCjson, Duplicate and CreateNumericArray promise of their results.
  datatype Move =
    | Create(p: Ptr, cell: Cell)
    | Grow(g: Forest, t: Tree)
    | SetText(x: Ptr, q: Ptr, text: string)
    | Insert(p: Ptr, k: nat, c: Ptr)
    | Named(p: Ptr, c: Ptr, q: Ptr, key: string)
    | Borrowed(p: Ptr, c: Ptr, name: Ptr)
    | Reference(p: Ptr, r: Ptr, cell: Cell)
    | Detach(p: Ptr, k: nat)
    | Replacement(p: Ptr, k: nat, r: Ptr)
    | Delete(c: Ptr)

  // A new node owns nothing yet.
  predicate Bare(c: Cell) {
    Held(c, TextSlot) == NULL && Held(c, KeySlot) == NULL && !c.isConst
  }

  predicate Allowed(f: Forest, m: Move) {
    && Keyed(f)
    && match m
       case Create(p, cell) => Unused(f, p) && Bare(cell)
       case Grow(g, t) => Grown(g, f, t)
       case SetText(x, q, _) => Unused(f, q) && x in f.cells && !f.cells[x].isRef
       case Insert(p, k, c) => CanPut(f, p, c) && k <= |f.kids[p]|
       case Named(p, c, q, _) => CanName(f, p, c, q)
       case Borrowed(p, c, name) => CanBorrow(f, p, c, name)
       case Reference(p, r, cell) => CanRefer(f, p, r) && Bare(cell)
       case Detach(p, k) => CanTake(f, p, k)
       case Replacement(p, k, r) => CanReplace(f, p, k, r) && !ConstKeyMoves(f, p, k, r)
       case Delete(c) => Root(f, c)
  }

  function Step(f: Forest, m: Move): Forest
    requires Allowed(f, m)
  {
    match m
    case Create(p, cell) => New(f, p, cell)
    case Grow(g, t) => g
    case SetText(x, q, text) => Install(f, x, TextSlot, q, text)
    case Insert(p, k, c) => Put(f, p, k, c)
    case Named(p, c, q, key) => AddNamed(f, p, c, q, key)
    case Borrowed(p, c, name) => AddBorrowed(f, p, c, name)
    case Reference(p, r, cell) => AddReference(f, p, r, cell)
    case Detach(p, k) => Take(f, p, k)
    case Replacement(p, k, r) => Replace(f, p, k, r)
    case Delete(c) => Drop(f, c)
  }

  lemma StepKeepsInv(f: Forest, m: Move)
    requires Inv(f) && Allowed(f, m)
    ensures Inv(Step(f, m))
  {
    hide Inv, CanPut, Put, Take, Install, Borrow, New, Drop, Replace, CanReplace, ConstKeyMoves, Root, CanTake, Grown;
    match m
    case Create(p, cell) => NewKeepsInv(f, p, cell);
    case Grow(g, t) => GrownInv(f, g, t);
    case SetText(x, q, text) => InstallKeepsInv(f, x, TextSlot, q, text);
    case Insert(p, k, c) => PutKeepsInv(f, p, k, c);
    case Named(p, c, q, key) => NamedKeepsInv(f, p, c, q, key);
    case Borrowed(p, c, name) => BorrowedKeepsInv(f, p, c, name);
    case Reference(p, r, cell) => ReferenceKeepsInv(f, p, r, cell);
    case Detach(p, k) => TakeKeepsInv(f, p, k);
    case Replacement(p, k, r) => ReplaceKeepsInv(f, p, k, r);
    case Delete(c) => DropKeepsInv(f, c);
  }

  lemma GrownInv(f: Forest, g: Forest, t: Tree)
    requires Grown(g, f, t)
    ensures Inv(g)
  {}

  lemma NamedKeepsInv(f: Forest, p: Ptr, c: Ptr, q: Ptr, key: string)
    requires Inv(f) && CanName(f, p, c, q)
    ensures Inv(AddNamed(f, p, c, q, key))
  {
    hide Inv, Put, Install;
    CanPutInstalled(f, p, c, KeySlot, q, key);
    InstallKeepsInv(f, c, KeySlot, q, key);
    PutKeepsInv(Install(f, c, KeySlot, q, key), p, |f.kids[p]|, c);
  }

  lemma BorrowedKeepsInv(f: Forest, p: Ptr, c: Ptr, name: Ptr)
    requires Inv(f) && CanBorrow(f, p, c, name)
    ensures Inv(AddBorrowed(f, p, c, name))
  {
    hide Inv, Put, Borrow;
    CanPutBorrowed(f, p, c, name);
    BorrowKeepsInv(f, c, name);
    PutKeepsInv(Borrow(f, c, name), p, |f.kids[p]|, c);
  }

  lemma ReferenceKeepsInv(f: Forest, p: Ptr, r: Ptr, cell: Cell)
    requires Inv(f) && CanRefer(f, p, r) && Bare(cell)
    ensures Inv(AddReference(f, p, r, cell))
  {
    hide Inv, Put, New;
    CanPutNew(f, p, r, cell);
    NewKeepsInv(f, r, cell);
    PutKeepsInv(New(f, r, cell), p, |f.kids[p]|, r);
  }

  // ---- Runs ----

  predicate CanRun(f: Forest, ms: seq<Move>)
    decreases |ms|
  {
    ms == [] || (Allowed(f, ms[0]) && CanRun(Step(f, ms[0]), ms[1..]))
  }

  function Run(f: Forest, ms: seq<Move>): Forest
    requires CanRun(f, ms)
    decreases |ms|
  {
    if ms == [] then f else Run(Step(f, ms[0]), ms[1..])
  }

  // Every run keeps every child list, every ancestry and every ownership sound.
  lemma {:induction false} RunKeepsInv(f: Forest, ms: seq<Move>)
    requires Inv(f) && CanRun(f, ms)
    ensures Inv(Run(f, ms))
    decreases |ms|
  {
    hide Inv, Allowed, Step;
    if ms != [] {
      StepKeepsInv(f, ms[0]);
      RunKeepsInv(Step(f, ms[0]), ms[1..]);
    }
  }

  // In plain words: after any run a node stands in at most one place of one
  // list, a parent is never inside its child, and every live string is the
  // text or the key of exactly one node that owns it.
  lemma RunIsSound(ms: seq<Move>)
    requires CanRun(EMPTY, ms)
    ensures var f := Run(EMPTY, ms);
            && Keyed(f)
            && (forall p, q, i: nat, j: nat :: Child(f, p, i) && Child(f, q, j) && f.kids[p][i] == f.kids[q][j] ==>
                  p == q && i == j)
            && (forall p, i: nat :: Child(f, p, i) ==> f.kids[p][i] !in f.above[p])
            && (forall q :: q in f.strs ==> exists x, s :: Owning(f, x, s, q))
            && (forall q, x, y, s, t :: q != NULL && Owning(f, x, s, q) && Owning(f, y, t, q) ==>
                  q in f.strs && x == y && s == t)
  {
    hide Run, CanRun, Shaped, Owned;
    RunKeepsInv(EMPTY, ms) by {
      EmptyInv();
    }
    var f := Run(EMPTY, ms);
    forall p, q, i: nat, j: nat | Child(f, p, i) && Child(f, q, j) && f.kids[p][i] == f.kids[q][j]
      ensures p == q && i == j
    {
      ListFact(f, p);
      ListFact(f, q);
    }
    forall p, i: nat | Child(f, p, i)
      ensures f.kids[p][i] !in f.above[p]
    {
      KidAbove(f, p, f.kids[p][i]);
    }
    forall q | q in f.strs
      ensures exists x, s :: Owning(f, x, s, q)
    {
      OwnedFact(f, q);
      assert Owning(f, f.owner[q].at, f.owner[q].slot, q);
    }
    forall q, x, y, s, t | q != NULL && Owning(f, x, s, q) && Owning(f, y, t, q)
      ensures q in f.strs && x == y && s == t
    {
      OwnsFact(f, x, s);
      OwnsFact(f, y, t);
    }
  }

  predicate Child(f: Forest, p: Ptr, i: nat) {
    p in f.cells && p in f.kids && p in f.above && i < |f.kids[p]|
  }

  predicate Owning(f: Forest, x: Ptr, s: Slot, q: Ptr) {
    x in f.cells && Held(f.cells[x], s) == q
  }

  // ---- Deleting everything ----

  function Deletions(rs: seq<Ptr>): (ms: seq<Move>)
    ensures |ms| == |rs| && forall i :: 0 <= i < |rs| ==> ms[i] == Delete(rs[i])
  {
    seq(|rs|, i requires 0 <= i < |rs| => Delete(rs[i]))
  }

  ghost predicate ListsRoots(f: Forest, rs: seq<Ptr>)
    requires Keyed(f)
  {
    && (forall x :: x in rs <==> Root(f, x))
    && (forall i, j :: 0 <= i < j < |rs| ==> rs[i] != rs[j])
  }

  // After any run, deleting every root once, in any order, is allowed and
  // leaves no node and no string.
  lemma DeleteAll(ms: seq<Move>, rs: seq<Ptr>)
    requires CanRun(EMPTY, ms) && Keyed(Run(EMPTY, ms)) && ListsRoots(Run(EMPTY, ms), rs)
    ensures CanRun(Run(EMPTY, ms), Deletions(rs)) && Run(Run(EMPTY, ms), Deletions(rs)) == EMPTY
  {
    hide Run, CanRun, Shaped, Owned;
    RunKeepsInv(EMPTY, ms) by {
      EmptyInv();
    }
    DeleteRoots(Run(EMPTY, ms), rs);
  }

  lemma EmptyInv()
    ensures Inv(EMPTY)
  {}

  lemma {:induction false} DeleteRoots(f: Forest, rs: seq<Ptr>)
    requires Inv(f) && ListsRoots(f, rs)
    ensures CanRun(f, Deletions(rs)) && Run(f, Deletions(rs)) == EMPTY
    decreases |rs|
  {
    hide Shaped, Owned, Drop;
    if rs == [] {
      NoRoots(f);
    } else {
      var c := rs[0];
      assert Root(f, c);
      DropKeepsInv(f, c);
      assert ListsRoots(Drop(f, c), rs[1..]) by {
        forall x
          ensures x in rs[1..] <==> Root(Drop(f, c), x)
        {
          RootsAfterDrop(f, c, x);
          assert rs == [c] + rs[1..];
        }
      }
      DeleteRoots(Drop(f, c), rs[1..]);
      assert Deletions(rs)[1..] == Deletions(rs[1..]);
    }
  }

  lemma RootsAfterDrop(f: Forest, c: Ptr, x: Ptr)
    requires Inv(f) && Root(f, c)
    ensures Keyed(Drop(f, c)) && (Root(Drop(f, c), x) <==> Root(f, x) && x != c)
  {
    hide Shaped, Owned;
    if x in f.cells {
      AboveFact(f, x);
    }
    AboveFact(f, c);
  }

  lemma NoRoots(f: Forest)
    requires Inv(f) && forall x :: !Root(f, x)
    ensures f == EMPTY
  {
    hide Shaped, Owned;
    forall x | x in f.cells
      ensures false
    {
      var r := RootOf(f, x);
    }
    forall q | q in f.strs
      ensures false
    {
      OwnedFact(f, q);
    }
    assert f.cells == map[] && f.kids == map[] && f.up == map[] && f.above == map[];
    assert f.strs == map[] && f.owner == map[];
  }

  // Every node is under a detached one.
  lemma {:induction false} RootOf(f: Forest, x: Ptr) returns (r: Ptr)
    requires Inv(f) && x in f.cells
    ensures Root(f, r) && r in f.above[x]
    decreases f.above[x]
  {
    hide Shaped, Owned;
    AboveFact(f, x);
    if f.up[x] == NULL {
      r := x;
    } else {
      r := RootOf(f, f.up[x]);
    }
  }

  // ---- A run after which replacing breaks ownership ----

  const OBJECT_CELL := Cell(ObjectKind, false, false, NULL, BLANK.number, NULL, NULL)
  const NULL_CELL := Cell(NullKind, false, false, NULL, BLANK.number, NULL, NULL)

  // An object at 1; a null at 2; the null added under the caller's name at 9;
  // another null at 3.
  const FIRST := Forest(map[1 := OBJECT_CELL], map[1 := []], map[1 := NULL], map[1 := {1}], map[], map[])
  const SECOND := Forest(map[1 := OBJECT_CELL, 2 := NULL_CELL], map[1 := [], 2 := []], map[1 := NULL, 2 := NULL],
                         map[1 := {1}, 2 := {2}], map[], map[])
  const THIRD := Forest(map[1 := OBJECT_CELL, 2 := NULL_CELL.(key := 9, isConst := true)], map[1 := [2], 2 := []],
                        map[1 := NULL, 2 := 1], map[1 := {1}, 2 := {1, 2}], map[], map[])

  lemma BorrowingSteps()
    ensures Allowed(EMPTY, Create(1, OBJECT_CELL)) && Step(EMPTY, Create(1, OBJECT_CELL)) == FIRST
    ensures Allowed(FIRST, Create(2, NULL_CELL)) && Step(FIRST, Create(2, NULL_CELL)) == SECOND
  {
    assert Step(EMPTY, Create(1, OBJECT_CELL)).above == FIRST.above;
    assert Step(FIRST, Create(2, NULL_CELL)).above == SECOND.above;
    assert Step(FIRST, Create(2, NULL_CELL)).up == SECOND.up;
    assert Step(FIRST, Create(2, NULL_CELL)).kids == SECOND.kids;
    assert Step(FIRST, Create(2, NULL_CELL)).cells == SECOND.cells;
  }

  lemma BorrowingThird()
    ensures Allowed(SECOND, Borrowed(1, 2, 9)) && Step(SECOND, Borrowed(1, 2, 9)) == THIRD
  {
    var g := Step(SECOND, Borrowed(1, 2, 9));
    assert g.cells == THIRD.cells;
    assert Inserted([], 0, 2) == [2];
    assert g.kids == THIRD.kids;
    assert g.up == THIRD.up;
    assert {2} + {1} == {1, 2} && g.above[1] == {1} && g.above[2] == {1, 2};
    assert g.above == THIRD.above;
    assert g.strs == THIRD.strs && g.owner == THIRD.owner;
  }

  lemma BorrowingReady()
    ensures Allowed(THIRD, Create(3, NULL_CELL))
    ensures var f := Step(THIRD, Create(3, NULL_CELL)); CanReplace(f, 1, 0, 3) && ConstKeyMoves(f, 1, 0, 3)
  {}

  // After these calls, replacing the member hands the caller's name to a node
  // that takes it for its own: no assignment of owners fits.
  lemma ReplaceCanBreakOwnership()
    ensures var ms := [Create(1, OBJECT_CELL), Create(2, NULL_CELL), Borrowed(1, 2, 9), Create(3, NULL_CELL)];
            && CanRun(EMPTY, ms)
            && var f := Run(EMPTY, ms);
            CanReplace(f, 1, 0, 3) && !exists o :: Inv(Replace(f, 1, 0, 3).(owner := o))
  {
    hide Replace, Inv, Step, Allowed, CanReplace, ConstKeyMoves;
    var a, b, c, d := Create(1, OBJECT_CELL), Create(2, NULL_CELL), Borrowed(1, 2, 9), Create(3, NULL_CELL);
    BorrowingSteps();
    BorrowingThird();
    BorrowingReady();
    var f := Step(THIRD, d);
    Prefixed(THIRD, d, [], f);
    Prefixed(SECOND, c, [d], f);
    Prefixed(FIRST, b, [c, d], f);
    Prefixed(EMPTY, a, [b, c, d], f);
    assert [a] + ([b] + ([c] + ([d] + []))) == [a, b, c, d];
    assert [b, c, d] == [b] + [c, d] && [c, d] == [c] + [d] && [d] == [d] + [];
    assert [a] + [b, c, d] == [a, b, c, d];
    RunKeepsInv(EMPTY, [a, b, c, d]) by {
      EmptyInv();
    }
    ReplaceKeepsOwnership(f, 1, 0, 3);
  }

  lemma Prefixed(f: Forest, m: Move, ms: seq<Move>, g: Forest)
    requires Allowed(f, m) && CanRun(Step(f, m), ms) && Run(Step(f, m), ms) == g
    ensures CanRun(f, [m] + ms) && Run(f, [m] + ms) == g
  {
    hide Allowed, Step;
    assert ([m] + ms)[1..] == ms;
  }
}
