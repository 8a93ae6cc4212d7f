// Positions are a function of the offset, tokens tile the input, and every
// offset handed to a C caller lies inside the caller's buffer
// (cjson-rs/src/error.rs, cjson-rs-ffi/src/lib.rs).
module Positions {
  import opened Bytes
  import opened Errors
  import opened Values
  import opened Lexical
  import opened Grammar
  import opened Tokenising
  import opened Streams
  import opened Parsing
  import opened Prefix
  import Utf8

  // ---- What a position says ----

  function Newlines(w: bytes): nat {
    if w == [] then 0 else Newlines(w[..|w| - 1]) + (if w[|w| - 1] == NEWLINE then 1 else 0)
  }

  // The bytes after the last newline.
  function LastLine(w: bytes): bytes {
    if w == [] || w[|w| - 1] == NEWLINE then [] else LastLine(w[..|w| - 1]) + [w[|w| - 1]]
  }

  // Every code point has one byte that does not continue another.
  function CodePoints(w: bytes): nat {
    if w == [] then 0 else CodePoints(w[..|w| - 1]) + (if Utf8.IsTail(w[|w| - 1]) then 0 else 1)
  }

  function EncodeAll(s: string): bytes {
    if s == "" then [] else EncodeAll(s[..|s| - 1]) + Utf8.Encode(s[|s| - 1])
  }

  lemma {:induction false} CodePointsAppend(a: bytes, b: bytes)
    ensures CodePoints(a + b) == CodePoints(a) + CodePoints(b)
    decreases |b|
  {
    if b == [] {
      assert a + b == a;
    } else {
      assert (a + b)[..|a + b| - 1] == a + b[..|b| - 1];
      CodePointsAppend(a, b[..|b| - 1]);
    }
  }

  lemma {:induction false} OneCodePoint(w: bytes)
    requires w != [] && !Utf8.IsTail(w[0]) && forall i :: 1 <= i < |w| ==> Utf8.IsTail(w[i])
    ensures CodePoints(w) == 1
    decreases |w|
  {
    if |w| > 1 {
      OneCodePoint(w[..|w| - 1]);
    } else {
      assert w[..0] == [];
    }
  }

  // Encoded text has as many code points as the string has characters.
  lemma {:induction false} CodePointsCount(s: string)
    ensures CodePoints(EncodeAll(s)) == |s|
  {
    if s != "" {
      CodePointsCount(s[..|s| - 1]);
      CodePointsAppend(EncodeAll(s[..|s| - 1]), Utf8.Encode(s[|s| - 1]));
      OneCodePoint(Utf8.Encode(s[|s| - 1]));
    }
  }

  lemma {:induction false} MoveMeaning(w: bytes)
    ensures Move(START, w) == Position(1 + Newlines(w), 1 + CodePoints(LastLine(w)), |w|)
  {
    if w != [] {
      var front, b := w[..|w| - 1], w[|w| - 1];
      MoveMeaning(front);
      if b != NEWLINE {
        CodePointsAppend(LastLine(front), [b]);
        assert [b][..0] == [];
        assert CodePoints([b]) == if Utf8.IsTail(b) then 0 else 1;
      }
    }
  }

  // Line and column count newlines and the code points since the last one.
  lemma PositionMeaning(input: bytes, o: nat)
    requires o <= |input|
    ensures PosAt(input, o) == Position(1 + Newlines(input[..o]), 1 + CodePoints(LastLine(input[..o])), o)
  {
    MoveMeaning(input[..o]);
  }

  // ---- Tokens tile the input ----

  ghost predicate Blank(input: bytes, i: nat, j: nat) {
    i <= j <= |input| && forall k :: i <= k < j ==> IsSpace(input[k])
  }

  ghost predicate Placed(input: bytes, t: PositionedToken) {
    && t.pos.offset < t.end.offset <= |input|
    && t.pos == PosAt(input, t.pos.offset) && t.end == PosAt(input, t.end.offset)
  }

  // Between tokens there is only whitespace, every position is the one its
  // offset determines, and an error lies at or after the last token, inside
  // the input.
  lemma {:induction false} TokensTile(input: bytes, o: nat)
    requires o <= |input|
    ensures var scan := ScanAt(input, o); var ts := scan.tokens;
            && (forall k :: 0 <= k < |ts| ==> Placed(input, ts[k]))
            && (forall k :: 0 <= k < |ts| ==> Blank(input, EndOf(ts, o, k), ts[k].pos.offset))
            && (scan.error == None ==> Blank(input, EndOf(ts, o, |ts|), |input|))
            && (scan.error.Some? ==>
                  var p := scan.error.value.pos;
                  EndOf(ts, o, |ts|) <= p.offset < |input| && p == PosAt(input, p.offset))
    decreases |input| - o
  {
    hide Next, SkipSpace, ScanAt, PosAt, Placed, EndOf;
    var i := o + SkipSpace(input[o..]);
    SpaceBlank(input, o, i);
    if i == |input| {
      ScanDone(input, o);
      EndStart([], o);
    } else {
      var r := Next(input[i..]);
      ScanStep(input, o, i, r);
      if r.Ok? {
        TokensTile(input, i + r.len);
        var rest := ScanAt(input, i + r.len).tokens;
        var ts := ScanAt(input, o).tokens;
        PlacedAt(input, ts[0], i, i + r.len);
        TileStep(input, o, i, ts, i + r.len, rest);
      } else {
        EndStart([], o);
      }
    }
  }

  lemma SpaceBlank(input: bytes, o: nat, i: nat)
    requires o <= |input| && i == o + SkipSpace(input[o..])
    ensures Blank(input, o, i)
  {
    assert forall k :: o <= k < i ==> input[k] == input[o..][k - o];
  }

  lemma PlacedAt(input: bytes, t: PositionedToken, i: nat, n: nat)
    requires i < n <= |input| && t.pos == PosAt(input, i) && t.end == PosAt(input, n)
    ensures Placed(input, t) && t.pos.offset == i && t.end.offset == n
  {}

  lemma EndStart(ts: Tokens, o: nat)
    ensures EndOf(ts, o, 0) == o
  {}

  // One more token in front of tokens that tile the rest.
  lemma TileStep(input: bytes, o: nat, i: nat, ts: Tokens, next: nat, rest: Tokens)
    requires ts != [] && ts[1..] == rest && Blank(input, o, i)
    requires Placed(input, ts[0]) && ts[0].pos.offset == i && ts[0].end.offset == next
    requires forall k :: 0 <= k < |rest| ==> Placed(input, rest[k])
    requires forall k :: 0 <= k < |rest| ==> Blank(input, EndOf(rest, next, k), rest[k].pos.offset)
    ensures forall k :: 0 <= k < |ts| ==> Placed(input, ts[k])
    ensures forall k :: 0 <= k < |ts| ==> Blank(input, EndOf(ts, o, k), ts[k].pos.offset)
    ensures EndOf(ts, o, |ts|) == EndOf(rest, next, |rest|)
  {
    hide Placed, Blank;
    forall k | 0 <= k < |ts|
      ensures Placed(input, ts[k]) && Blank(input, EndOf(ts, o, k), ts[k].pos.offset)
    {
      if k > 0 {
        assert ts[k] == rest[k - 1];
        assert EndOf(ts, o, k) == EndOf(rest, next, k - 1);
      }
    }
  }

  // ---- Error positions ----

  // A position the parser may report: a token's, or the start.
  ghost predicate Reportable(ts: Tokens, p: Position) {
    p == START || exists k :: 0 <= k < |ts| && ts[k].pos == p
  }

  lemma PeekReportable(ts: Tokens, i: nat)
    ensures Reportable(ts, PeekPos(ts, i))
  {}

  lemma {:induction false} ValueReportable(ts: Tokens, i: nat, depth: nat, limit: nat)
    requires i <= |ts| && ParseValue(ts, i, depth, limit).Fail?
    ensures Reportable(ts, ParseValue(ts, i, depth, limit).error.pos)
    decreases |ts| - i, 1
  {
    hide Reportable, ParseItems, ParseMembers, PeekPos;
    PeekReportable(ts, i);
    if i < |ts| {
      assert PeekPos(ts, i) == ts[i].pos by {
        PeekHere(ts, i);
      }
      if ts[i].token == BeginArray && depth < limit {
        ItemsReportable(ts, i + 1, depth + 1, limit, []);
      } else if ts[i].token == BeginObject && depth < limit {
        MembersReportable(ts, i + 1, depth + 1, limit, []);
      }
    }
  }

  lemma PeekHere(ts: Tokens, i: nat)
    requires i < |ts|
    ensures PeekPos(ts, i) == ts[i].pos
  {}

  lemma {:induction false} ItemsReportable(ts: Tokens, i: nat, depth: nat, limit: nat, items: seq<Value>)
    requires i <= |ts| && ParseItems(ts, i, depth, limit, items).Fail?
    ensures Reportable(ts, ParseItems(ts, i, depth, limit, items).error.pos)
    decreases |ts| - i, 2
  {
    hide Reportable, ParseValue, PeekPos;
    var first := ParseValue(ts, i, depth, limit);
    if first.Fail? {
      ValueReportable(ts, i, depth, limit);
    } else {
      var j := first.next;
      PeekReportable(ts, j);
      if At(ts, j, ValueSeparator) && !At(ts, j + 1, EndArray) {
        ItemsReportable(ts, j + 1, depth, limit, items + [first.value]);
      }
    }
  }

  lemma {:induction false} MembersReportable(ts: Tokens, i: nat, depth: nat, limit: nat, members: seq<Member>)
    requires i <= |ts| && ParseMembers(ts, i, depth, limit, members).Fail?
    ensures Reportable(ts, ParseMembers(ts, i, depth, limit, members).error.pos)
    decreases |ts| - i, 2
  {
    hide Reportable, ParseValue, PeekPos;
    PeekReportable(ts, i);
    PeekReportable(ts, i + 1);
    if i < |ts| && ts[i].token.StringToken? && At(ts, i + 1, NameSeparator) {
      var first := ParseValue(ts, i + 2, depth, limit);
      if first.Fail? {
        ValueReportable(ts, i + 2, depth, limit);
      } else {
        var j := first.next;
        PeekReportable(ts, j);
        if At(ts, j, ValueSeparator) && !At(ts, j + 1, EndObject) {
          MembersReportable(ts, j + 1, depth, limit, members + [Member(ts[i].token.s, first.value)]);
        }
      }
    }
  }

  lemma ReportableInside(input: bytes, p: Position)
    requires Reportable(ScanAt(input, 0).tokens, p)
    ensures p.offset <= |input| && p == PosAt(input, p.offset)
  {
    hide ScanAt;
    TokensTile(input, 0);
    if p == START {
      assert input[..0] == [];
    } else {
      var k :| 0 <= k < |ScanAt(input, 0).tokens| && ScanAt(input, 0).tokens[k].pos == p;
      assert Placed(input, ScanAt(input, 0).tokens[k]);
    }
  }

  // Every error of either entry point is reported at an offset of the input,
  // with the line and column of that offset.
  lemma ErrorInside(input: bytes, limit: nat)
    ensures Parse(input, limit).Failure? ==>
              var p := Parse(input, limit).error.pos; p.offset <= |input| && p == PosAt(input, p.offset)
    ensures ParsePrefix(input).Failure? ==>
              var p := ParsePrefix(input).error.pos; p.offset <= |input| && p == PosAt(input, p.offset)
  {
    hide ScanAt, Grammar.ParseValue, PosAt;
    TokensTile(input, 0);
    var ts := ScanAt(input, 0).tokens;
    forall l: nat | Grammar.ParseValue(ts, 0, 0, l).Fail?
      ensures var p := Grammar.ParseValue(ts, 0, 0, l).error.pos; p.offset <= |input| && p == PosAt(input, p.offset)
    {
      ValueReportable(ts, 0, 0, l);
      ReportableInside(input, Grammar.ParseValue(ts, 0, 0, l).error.pos);
    }
    forall k | 0 <= k < |ts|
      ensures ts[k].pos.offset <= |input| && ts[k].pos == PosAt(input, ts[k].pos.offset)
    {
      assert Placed(input, ts[k]);
    }
  }

  // ---- Offsets given to C callers ----

  const BOM: bytes := [0xEF, 0xBB, 0xBF]

  // The text after a byte order mark, and how many bytes were skipped.
  function StripUtf8Bom(text: bytes): (r: (bytes, nat))
    ensures r.1 <= |text| && r.0 == text[r.1..]
    ensures r.1 == if BOM <= text then 3 else 0
  {
    if |text| >= 3 && text[0] == 0xEF && text[1] == 0xBB && text[2] == 0xBF then (text[3..], 3) else (text, 0)
  }

  // Errors at the end of the input are shown there.
  function ErrorByteOffset(e: Error, inputLen: nat): nat {
    if e.kind == UnexpectedEof then inputLen else e.pos.offset
  }

  // The error pointer and the parse end always lie inside the caller's buffer.
  lemma OffsetsInside(text: bytes)
    ensures var (parsed, skip) := StripUtf8Bom(text);
            && (Parse(parsed, NESTING_LIMIT).Failure? ==>
                  skip + ErrorByteOffset(Parse(parsed, NESTING_LIMIT).error, |parsed|) <= |text|)
            && (ParsePrefix(parsed).Failure? ==>
                  skip + ErrorByteOffset(ParsePrefix(parsed).error, |parsed|) <= |text|)
            && (ParsePrefix(parsed).Success? ==>
                  skip < skip + ParsePrefix(parsed).value.1 <= |text|)
  {
    hide Parse, ParsePrefix;
    var (parsed, skip) := StripUtf8Bom(text);
    ErrorInside(parsed, NESTING_LIMIT);
    if ParsePrefix(parsed).Success? {
      PrefixIsStrict(parsed, ParsePrefix(parsed).value.0, ParsePrefix(parsed).value.1);
    }
  }
}
