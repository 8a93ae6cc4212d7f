// The raw memory behind the C interface: nodes and C strings at addresses
// (cjson-rs-ffi/src/types.rs).
module Memory {
  import opened Numbers

  type Ptr = nat
  const NULL: Ptr := 0

  // The type tag, without the two flag bits.
  datatype Kind =
    | InvalidKind
    | FalseKind
    | TrueKind
    | NullKind
    | NumberKind
    | StringKind
    | ArrayKind
    | ObjectKind
    | RawKind

  // isRef and isConst are the flags CJSON_IS_REFERENCE and
  // CJSON_STRING_IS_CONST; text is valuestring, key is string.
  datatype Node = Node(
    next: Ptr,
    prev: Ptr,
    child: Ptr,
    kind: Kind,
    isRef: bool,
    isConst: bool,
    text: Ptr,
    number: Num,
    key: Ptr)

  type Nodes = map<Ptr, Node>
  type Strings = map<Ptr, string>

  const BLANK := Node(NULL, NULL, NULL, InvalidKind, false, false, NULL, Finite(false, 0, 0), NULL)

  // What a C string keeps of a text: everything before the first NUL.
  function UpToNul(s: string): (r: string)
    ensures r <= s
    ensures forall i :: 0 <= i < |r| ==> r[i] != 0 as char
    ensures |r| < |s| ==> s[|r|] == 0 as char
  {
    if s == [] || s[0] == 0 as char then [] else [s[0]] + UpToNul(s[1..])
  }

  lemma {:induction false} UpToNulExact(s: string)
    ensures UpToNul(s) == s <==> 0 as char !in s
  {
    if s != [] && s[0] != 0 as char {
      UpToNulExact(s[1..]);
      assert s == [s[0]] + s[1..];
    }
  }

  lemma UpToNulTwice(s: string)
    ensures UpToNul(UpToNul(s)) == UpToNul(s)
  {
    UpToNulExact(UpToNul(s));
  }

  // The element of a list at i, or NULL outside it.
  function At(ks: seq<Ptr>, i: int): Ptr {
    if 0 <= i < |ks| then ks[i] else NULL
  }

  // Following next from `start` visits exactly ks.
  ghost predicate Chain(nodes: Nodes, start: Ptr, ks: seq<Ptr>) {
    && start == At(ks, 0)
    && forall i :: 0 <= i < |ks| ==> ks[i] != NULL && ks[i] in nodes && nodes[ks[i]].next == At(ks, i + 1)
  }

  // There is always an address that is not in use.
  lemma {:induction false} FreshAddress(used: set<Ptr>) returns (p: Ptr)
    ensures p != NULL && p !in used
    ensures forall q :: q in used ==> q < p
    decreases used
  {
    if used == {} {
      p := 1;
    } else {
      var q :| q in used;
      p := FreshAddress(used - {q});
      if p <= q {
        p := q + 1;
      }
      assert used == (used - {q}) + {q};
    }
  }
}
