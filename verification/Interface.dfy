// The C entry points that join the two halves: text to tree, tree to text,
// tree against tree (cjson-rs-ffi/src/lib.rs).
module Interface {
  import opened Bytes
  import opened Errors
  import opened Values
  import opened Minifying
  import opened Lexical
  import opened Parsing
  import opened Printing
  import opened RoundTrip
  import opened Positions
  import opened Prefix
  import opened Streams
  import opened Comparing
  import M = Memory
  import F = Forests
  import L = Links
  import opened Heaps
  import opened Trees
  import opened Building
  import opened CPrinting
  import opened MinifyMeaning
  import opened Documents
  import opened Leading
  import Layouts
  import CLayouts

  // The value in a text and where it ends: strictly, or as a prefix.
  function Outcome(text: bytes, strict: bool): Result<(Value, nat)> {
    var (body, skip) := StripUtf8Bom(text);
    if strict then
      match Parse(body, NESTING_LIMIT)
      case Success(v) => Success((v, |text|))
      case Failure(e) => Failure(e)
    else
      match ParsePrefix(body)
      case Success((v, n)) => Success((v, skip + n))
      case Failure(e) => Failure(e)
  }

  // The offset a failed parse reports.
  function ErrorOffset(text: bytes, e: Error): nat {
    var (body, skip) := StripUtf8Bom(text);
    skip + ErrorByteOffset(e, |body|)
  }

  // The text after a byte order mark, if it starts with one.
  function AfterBom(text: bytes): bytes {
    if |text| >= 3 && text[..3] == [0xEF, 0xBB, 0xBF] then text[3..] else text
  }

  // Strictly, all of the text is one document of the value, at most 1000 deep.
  lemma StrictOutcome(text: bytes, v: Value, end: nat)
    ensures Outcome(text, true) == Success((v, end)) <==>
            end == |text| && Document(AfterBom(text), v) && Depth(v) <= 1000
  {
    hide Parse, ParsePrefix, Document, Depth;
    BomAway(text);
    ParsesDocument(AfterBom(text), v, 1000);
  }

  // As a prefix, the text up to the end is such a document, up to its last byte,
  // that the rest does not carry on.
  lemma PrefixOutcome(text: bytes, v: Value, end: nat)
    ensures var body := AfterBom(text); var n := end - (|text| - |body|);
            Outcome(text, false) == Success((v, end)) <==>
            && 1 <= n <= |body| && Document(body[..n], v) && !IsSpace(body[n - 1]) && Depth(v) <= 1000
            && Ends(body[..n], v, body[n..])
  {
    hide Parse, ParsePrefix, Document, Depth, Ends;
    BomAway(text);
    var body := AfterBom(text);
    var n := end - (|text| - |body|);
    if n >= 0 {
      PrefixDocument(body, v, n);
    }
  }

  // The error pointer is at the end of the text when that is what was unexpected,
  // and otherwise where the error lies in the text, a byte order mark included.
  lemma ErrorPointer(text: bytes, strict: bool, e: Error)
    requires Outcome(text, strict) == Failure(e)
    ensures ErrorOffset(text, e)
            == if e.kind == UnexpectedEof then |text| else |text| - |AfterBom(text)| + e.pos.offset
    ensures if strict then Parse(AfterBom(text), 1000) == Failure(e) else ParsePrefix(AfterBom(text)) == Failure(e)
  {
    hide Parse, ParsePrefix;
    BomAway(text);
  }

  lemma BomAway(text: bytes)
    ensures StripUtf8Bom(text) == (AfterBom(text), |text| - |AfterBom(text)|)
  {
    if |text| >= 3 {
      assert text[..3] == [text[0], text[1], text[2]];
    }
  }

  // A document with more than spaces after it is found as a prefix, and
  // strictly refused.
  lemma MoreRefused(text: bytes, v: Value, end: nat, i: nat)
    requires Outcome(text, false) == Success((v, end)) && end <= i < |text| && !IsSpace(text[i])
    ensures Outcome(text, true).Failure?
  {
    hide Parse, ParsePrefix;
    BomAway(text);
    var body, skip := AfterBom(text), |text| - |AfterBom(text)|;
    assert body[i - skip] == text[i];
    if Parse(body, NESTING_LIMIT).Success? {
      StrictIsPrefix(body, Parse(body, NESTING_LIMIT).value);
    }
  }

  // A fresh tree of the value in the text, and where the value ends. Without a
  // text, without a value, or when an allocation fails, NULL and no change;
  // every offset given to the caller lies inside the text.
  method ParseWithOpts(h: Heap, text: Option<bytes>, strict: bool)
    returns (p: M.Ptr, end: Option<nat>, error: Option<nat>, ghost t: Tree)
    requires h.Valid()
    modifies h
    ensures h.Valid() && h.calls >= old(h.calls)
    ensures p == M.NULL ==> h.forest == old(h.forest) && h.nodes == old(h.nodes) && h.strs == old(h.strs)
    ensures text.None? ==> p == M.NULL && end == None && error == None
    ensures text.Some? && Outcome(text.value, strict).Failure? ==>
              && p == M.NULL && h.calls == old(h.calls)
              && error == end == Some(ErrorOffset(text.value, Outcome(text.value, strict).error))
              && error.value <= |text.value|
    ensures text.Some? && Outcome(text.value, strict).Success? ==>
              && error == None && end == Some(Outcome(text.value, strict).value.1) && end.value <= |text.value|
              && (p == M.NULL <==> h.Refused(old(h.calls), h.calls))
              && (p != M.NULL ==> t.at == p && Grown(h.forest, old(h.forest), t)
                                  && ValueOf(t) == Some(Cut(Outcome(text.value, strict).value.0)))
  {
    hide Parse, ParsePrefix, Grown, ValueOf, Cut, F.Inv, L.Linked, ErrorByteOffset;
    t := Tree(M.NULL, M.InvalidKind, M.BLANK.number, None, None, []);
    if text.None? {
      return M.NULL, None, None, t;
    }
    var (body, skip) := StripUtf8Bom(text.value);
    OffsetsInside(text.value);
    if strict {
      var r := ParseStrict(body);
      match r {
        case Success(v) =>
          end, error := Some(|text.value|), None;
          p, t := ValueToCjson(h, v);
        case Failure(e) =>
          error := Some(skip + ErrorByteOffset(e, |body|));
          p, end := M.NULL, error;
      }
    } else {
      var r := ParseFromPrefix(body);
      match r {
        case Success(found) =>
          end, error := Some(skip + found.1), None;
          p, t := ValueToCjson(h, found.0);
        case Failure(e) =>
          error := Some(skip + ErrorByteOffset(e, |body|));
          p, end := M.NULL, error;
      }
    }
  }

  // What printing writes, if anything.
  function Printed(t: Tree, pretty: bool): Option<bytes> {
    if pretty then Some(TreeText(t, 0))
    else match ValueOf(t)
      case Some(v) => Some(Compact(v))
      case None => None
  }

  // The text of a tree, in a buffer that is the caller's.
  method Print(h: Heap, item: M.Ptr, pretty: bool, ghost t: Tree) returns (text: Option<bytes>)
    requires item != M.NULL ==> item == t.at && Views(h.nodes, h.Texts(), t)
    modifies h`calls
    ensures old(h.calls) <= h.calls <= old(h.calls) + 1
    ensures item == M.NULL ==> text == None
    ensures text.Some? ==> h.calls == old(h.calls) + 1
    ensures item != M.NULL && Printed(t, pretty).Some? ==> h.calls == old(h.calls) + 1
    ensures item != M.NULL ==>
              text == if Printed(t, pretty) == None || !h.grants(old(h.calls)) then None else Printed(t, pretty)
  {
    hide Views, TreeText, ValueOf, Text;
    if item == M.NULL {
      return None;
    }
    var out: bytes;
    if pretty {
      var w := new Writer();
      WriteCjsonPretty(w, h, item, 0, t);
      assert [] + TreeText(t, 0) == TreeText(t, 0);
      out := w.out;
    } else {
      var value := CjsonToValue(h, item, t);
      if value.None? {
        return None;
      }
      out := Serialise(value.value);
    }
    var buf := h.Malloc();
    return if buf == M.NULL then None else Some(out);
  }

  // Either form, of a tree without raw nodes, parses back to the value of the
  // tree with its non-finite numbers as null, and minifies to the compact form.
  lemma PrintedParses(t: Tree, v: Value, pretty: bool)
    requires RawFree(t) && ValueOf(t) == Some(v) && Depth(v) <= NESTING_LIMIT
    ensures Printed(t, pretty).Some? && Parse(Printed(t, pretty).value, NESTING_LIMIT) == Success(Printable(v))
    ensures Minify(Printed(t, pretty).value) == Compact(v)
  {
    hide Minify, Parse, TreeText, Text, RawFree, ValueOf, Printable, Depth;
    if pretty {
      PrettyTreeParses(t, v, NESTING_LIMIT);
      PrettyTreeMinifies(t, v);
    } else {
      ParseInvertsPrint(v);
      MinifyPretty(v, None);
    }
  }

  // The two forms are laid out differently: the unformatted text has nothing
  // between tokens, and so minifies to itself; in the formatted text every
  // member of an object starts a line, with as many tabs as brackets are open.
  lemma PrintedForms(t: Tree, v: Value)
    requires RawFree(t) && ValueOf(t) == Some(v)
    ensures Printed(t, false) == Some(Layouts.Layout(Layouts.Close, Flatten(v), []))
    ensures Printed(t, true) == Some(Layouts.Layout(Layouts.Tabbed, Flatten(v), []))
    ensures Minify(Printed(t, false).value) == Printed(t, false).value
    ensures v.Object? && v.members != [] ==>
              var text := Printed(t, true).value; |text| >= 4 && text[..4] == [0x7B, 0x0A, 0x09, 0x22]
  {
    hide Minify, TreeText, Text, RawFree, ValueOf, Flatten, Layouts.Layout;
    Layouts.TextLaid(v);
    CLayouts.TreeTextLaid(t, v);
    MinifyPretty(v, None);
    if v.Object? && v.members != [] {
      FirstLine(t, v.members);
    }
  }

  lemma FirstLine(t: Tree, members: seq<Member>)
    requires ValueOf(t) == Some(Object(members)) && members != []
    ensures |TreeText(t, 0)| >= 4 && TreeText(t, 0)[..4] == [0x7B, 0x0A, 0x09, 0x22]
  {
    hide FieldsText, MembersOf;
    MembersHead(t.kids, members);
    CLayouts.FieldsStep(t.kids, 1);
    FieldStart(t.kids);
    assert Tabs(1) == [TAB];
  }

  lemma FieldStart(ts: seq<Tree>)
    requires ts != []
    ensures |FieldsText(ts, 1)| >= 2 && FieldsText(ts, 1)[..2] == [TAB, QUOTE]
  {
    hide FieldsText, CharsText, TreeText, Gap;
    CLayouts.FieldsStep(ts, 1);
    assert Tabs(1) == [TAB];
  }

  method CompareItems(h: Heap, a: M.Ptr, b: M.Ptr, cs: bool, ghost s: Tree, ghost t: Tree) returns (equal: bool)
    requires a != M.NULL ==> a == s.at && Views(h.nodes, h.Texts(), s)
    requires b != M.NULL ==> b == t.at && Views(h.nodes, h.Texts(), t)
    ensures equal <==> a != M.NULL && b != M.NULL && ValueOf(s).Some? && ValueOf(t).Some?
                       && Compare(ValueOf(s).value, ValueOf(t).value, cs)
  {
    hide Views, ValueOf, Compare;
    if a == M.NULL || b == M.NULL {
      return false;
    }
    var x := CjsonToValue(h, a, s);
    var y := CjsonToValue(h, b, t);
    return x.Some? && y.Some? && Compare(x.value, y.value, cs);
  }

  // Building a tree from a value and reading it back gives the value, cut at
  // the NULs of its strings; so exactly the value when it has none.
  method BuildAndRead(h: Heap, v: Value) returns (r: Option<Value>)
    requires h.Valid()
    modifies h
    ensures h.Valid()
    ensures r == if h.Refused(old(h.calls), h.calls) then None else Some(Cut(v))
    ensures r.Some? ==> (r == Some(v) <==> FreeOfNul(v))
  {
    hide Grown, ValueOf, Cut, FreeOfNul, F.Inv, L.Linked, Views, Shown;
    var p;
    ghost var t: Tree;
    p, t := ValueToCjson(h, v);
    CutExact(v);
    if p == M.NULL {
      return None;
    }
    GrownShown(h.forest, old(h.forest), t);
    ShownViews(h.nodes, h.forest, OWN, h.Texts(), t);
    r := CjsonToValue(h, p, t);
  }

  // ---- Round trip through C ----

  // What is read from C strings holds no NUL.
  lemma {:induction false} ViewedFree(nodes: M.Nodes, texts: M.Strings, t: Tree)
    requires Views(nodes, texts, t) && ValueOf(t).Some?
    ensures FreeOfNul(ValueOf(t).value)
    decreases t, 1
  {
    hide Views, M.UpToNul, FreeOfNul;
    ViewsStep(nodes, texts, t);
    var text := nodes[t.at].text;
    match t.kind
    case ArrayKind =>
      ItemsFree(nodes, texts, t.kids);
      FreeArray(ItemsOf(t.kids).value);
    case ObjectKind =>
      MembersFree(nodes, texts, t.kids);
      FreeObject(MembersOf(t.kids).value);
    case _ =>
      FreeLeaf(texts, text, t);
  }

  lemma FreeArray(items: seq<Value>)
    requires forall i :: 0 <= i < |items| ==> FreeOfNul(items[i])
    ensures FreeOfNul(Array(items))
  {}

  lemma FreeObject(members: seq<Member>)
    requires forall i :: 0 <= i < |members| ==> 0 as char !in members[i].key && FreeOfNul(members[i].value)
    ensures FreeOfNul(Object(members))
  {}

  lemma FreeLeaf(texts: M.Strings, p: M.Ptr, t: Tree)
    requires Reads(texts, p, t.text) && ValueOf(t).Some? && t.kind != M.ArrayKind && t.kind != M.ObjectKind
    ensures FreeOfNul(ValueOf(t).value)
  {
    hide M.UpToNul;
    ReadFree(texts, p, t.text);
  }

  lemma ReadFree(texts: M.Strings, p: M.Ptr, s: Option<string>)
    requires Reads(texts, p, s)
    ensures 0 as char !in Or(s)
  {
    hide M.UpToNul;
    if p != M.NULL {
      M.UpToNulExact(M.UpToNul(texts[p]));
      M.UpToNulTwice(texts[p]);
    }
  }

  lemma {:induction false} ItemsFree(nodes: M.Nodes, texts: M.Strings, ts: seq<Tree>)
    requires ItemsOf(ts).Some? && forall i :: 0 <= i < |ts| ==> Views(nodes, texts, ts[i])
    ensures forall i :: 0 <= i < |ItemsOf(ts).value| ==> FreeOfNul(ItemsOf(ts).value[i])
    decreases ts, 0
  {
    hide Views, ValueOf, FreeOfNul;
    if ts != [] {
      ViewedFree(nodes, texts, ts[0]);
      ItemsFree(nodes, texts, ts[1..]);
    }
  }

  lemma {:induction false} MembersFree(nodes: M.Nodes, texts: M.Strings, ts: seq<Tree>)
    requires MembersOf(ts).Some? && forall i :: 0 <= i < |ts| ==> Views(nodes, texts, ts[i])
    ensures forall i :: 0 <= i < |MembersOf(ts).value| ==>
              0 as char !in MembersOf(ts).value[i].key && FreeOfNul(MembersOf(ts).value[i].value)
    decreases ts, 0
  {
    hide Views, ValueOf, FreeOfNul, Reads;
    if ts != [] {
      ViewedFree(nodes, texts, ts[0]);
      ViewsStep(nodes, texts, ts[0]);
      ReadFree(texts, nodes[ts[0].at].key, ts[0].key);
      MembersFree(nodes, texts, ts[1..]);
    }
  }

  // A text that parses has no byte order mark.
  lemma NoBom(s: bytes, limit: nat)
    requires Parse(s, limit).Success?
    ensures !(BOM <= s)
  {
    hide StreamOf, Parse, Flatten, Depth;
    ParsesExactly(s, Parse(s, limit).value, limit);
    if BOM <= s {
      assert s[0] == BOM[0];
      SpaceStops(s);
      assert s[0..] == s;
      StreamStep(s, 0, Next(s));
    }
  }

  // What is printed of a readable tree without raw nodes and without numbers
  // that are not finite is, as a C string, read as the value of the tree.
  lemma PrintedReparsed(nodes: M.Nodes, texts: M.Strings, t: Tree, v: Value, pretty: bool, strict: bool)
    requires Views(nodes, texts, t) && RawFree(t) && ValueOf(t) == Some(v)
    requires AllFinite(v) && Depth(v) <= NESTING_LIMIT
    ensures Printed(t, pretty).Some? && NulFree(Printed(t, pretty).value)
    ensures var r := Outcome(Printed(t, pretty).value, strict); r.Success? && r.value.0 == v
    ensures Cut(v) == v
  {
    hide Parse, ParsePrefix, Printed, Views, RawFree, ValueOf, AllFinite, Depth, Printable, Cut, NulFree, StreamOf;
    hide Flatten;
    PrintedParses(t, v, pretty);
    PrintableFinite(v);
    ViewedFree(nodes, texts, t);
    CutExact(v);
    var text := Printed(t, pretty).value;
    NoBom(text, NESTING_LIMIT);
    StrictIsPrefix(text, v);
    ParsesExactly(text, v, NESTING_LIMIT);
    StreamNulFree(text);
  }

  // Printing a tree and parsing the text gives a fresh tree of the same value,
  // or NULL just when some allocation failed.
  method PrintThenParse(h: Heap, item: M.Ptr, pretty: bool, strict: bool, ghost t: Tree, ghost v: Value)
    returns (p: M.Ptr, ghost u: Tree)
    requires h.Valid() && item != M.NULL && item == t.at && Views(h.nodes, h.Texts(), t)
    requires RawFree(t) && ValueOf(t) == Some(v) && AllFinite(v) && Depth(v) <= NESTING_LIMIT
    modifies h
    ensures h.Valid()
    ensures p == M.NULL <==> h.Refused(old(h.calls), h.calls)
    ensures p == M.NULL ==> h.forest == old(h.forest)
    ensures p != M.NULL ==> u.at == p && Grown(h.forest, old(h.forest), u) && ValueOf(u) == Some(v)
  {
    hide Views, RawFree, ValueOf, AllFinite, Depth, Printed, Outcome, Cut, Grown, NulFree, F.Inv, L.Linked;
    PrintedReparsed(h.nodes, h.Texts(), t, v, pretty, strict);
    u := t;
    var text := Print(h, item, pretty, t);
    if text.None? {
      return M.NULL, u;
    }
    var end, error;
    p, end, error, u := ParseWithOpts(h, text, strict);
  }

  lemma GrownShown(f: F.Forest, D: F.Forest, t: Tree)
    requires Grown(f, D, t)
    ensures F.Inv(f) && Shown(f, OWN, t)
  {}
}
