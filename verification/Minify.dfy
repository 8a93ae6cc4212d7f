// Minification (cjson-rs-ffi/src/convert.rs, minify_in_place): a pure minifier
// and the two-pointer rewriting of a buffer that refines it.
module Minifying {
  import opened Bytes

  // The rest of a string literal after its opening quote, closing quote
  // included; a backslash takes the byte after it along.
  function StringSpan(s: bytes): (n: nat)
    ensures n <= |s|
    decreases |s|
  {
    if s == [] then 0
    else if s[0] == QUOTE then 1
    else if s[0] == BACKSLASH && |s| > 1 then 2 + StringSpan(s[2..])
    else 1 + StringSpan(s[1..])
  }

  // Up to the newline.
  function LineSpan(s: bytes): (n: nat)
    ensures n <= |s|
  {
    if s == [] || s[0] == NEWLINE then 0 else 1 + LineSpan(s[1..])
  }

  // The rest of a block comment after its opening, closing included.
  function BlockSpan(s: bytes): (n: nat)
    ensures n <= |s|
  {
    if s == [] then 0
    else if s[0] == STAR && |s| > 1 && s[1] == SLASH then 2
    else 1 + BlockSpan(s[1..])
  }

  predicate OpensLine(s: bytes) { |s| > 1 && s[0] == SLASH && s[1] == SLASH }
  predicate OpensBlock(s: bytes) { |s| > 1 && s[0] == SLASH && s[1] == STAR }

  function Minify(s: bytes): bytes
    decreases |s|
  {
    if s == [] then []
    else if IsSpace(s[0]) then Minify(s[1..])
    else if s[0] == QUOTE then
      var n := 1 + StringSpan(s[1..]);
      s[..n] + Minify(s[n..])
    else if OpensLine(s) then Minify(s[2 + LineSpan(s[2..])..])
    else if OpensBlock(s) then Minify(s[2 + BlockSpan(s[2..])..])
    else [s[0]] + Minify(s[1..])
  }

  // What is left from inside a string literal, a line comment, a block comment.
  function InString(s: bytes): bytes {
    s[..StringSpan(s)] + Minify(s[StringSpan(s)..])
  }

  function InLine(s: bytes): bytes {
    Minify(s[LineSpan(s)..])
  }

  function InBlock(s: bytes): bytes {
    Minify(s[BlockSpan(s)..])
  }

  // ---- Steps ----

  lemma MinifyStep(s: bytes)
    ensures s == [] ==> Minify(s) == []
    ensures s != [] && IsSpace(s[0]) ==> Minify(s) == Minify(s[1..])
    ensures s != [] && s[0] == QUOTE ==> Minify(s) == [QUOTE] + InString(s[1..])
    ensures OpensLine(s) ==> Minify(s) == InLine(s[2..])
    ensures OpensBlock(s) ==> Minify(s) == InBlock(s[2..])
    ensures s != [] && !IsSpace(s[0]) && s[0] != QUOTE && !OpensLine(s) && !OpensBlock(s) ==>
      Minify(s) == [s[0]] + Minify(s[1..])
  {
    hide StringSpan, LineSpan, BlockSpan, InString;
    if s != [] && s[0] == QUOTE {
      QuoteStep(s);
    } else if |s| > 1 {
      DropDrop(s, 2, LineSpan(s[2..]));
      DropDrop(s, 2, BlockSpan(s[2..]));
    }
  }

  lemma QuoteStep(s: bytes)
    requires s != [] && s[0] == QUOTE
    ensures Minify(s) == [QUOTE] + InString(s[1..])
  {
    hide StringSpan, InString;
    var t := s[1..];
    var k := StringSpan(t);
    InStringIs(t, k);
    TakeSplit(s, 1, k);
    DropDrop(s, 1, k);
    assert s[..1] == [QUOTE];
    Assoc([QUOTE], t[..k], Minify(t[k..]));
  }

  lemma InStringIs(s: bytes, n: nat)
    requires StringSpan(s) == n
    ensures InString(s) == s[..n] + Minify(s[n..])
  {}

  // What is left after k more bytes of a literal.
  lemma InStringOn(s: bytes, k: nat)
    requires k <= |s| && StringSpan(s) == k + StringSpan(s[k..])
    ensures InString(s) == s[..k] + InString(s[k..])
  {
    hide StringSpan, Minify, InString;
    var t := s[k..];
    var n := StringSpan(t);
    InStringIs(s, k + n);
    InStringIs(t, n);
    TakeSplit(s, k, n);
    DropDrop(s, k, n);
    Assoc(s[..k], t[..n], Minify(t[n..]));
  }

  lemma InStringStep(s: bytes)
    ensures s == [] ==> InString(s) == []
    ensures s != [] && s[0] == QUOTE ==> InString(s) == [QUOTE] + Minify(s[1..])
    ensures s != [] && s[0] == BACKSLASH && |s| > 1 ==> InString(s) == s[..2] + InString(s[2..])
    ensures s != [] && s[0] != QUOTE && !(s[0] == BACKSLASH && |s| > 1) ==> InString(s) == [s[0]] + InString(s[1..])
  {
    hide Minify;
    if s == [] {
      MinifyStep([]);
    } else if s[0] == QUOTE {
      assert s[..1] == [QUOTE];
    } else if s[0] == BACKSLASH && |s| > 1 {
      InStringOn(s, 2);
    } else {
      InStringOn(s, 1);
      assert s[..1] == [s[0]];
    }
  }

  lemma InLineStep(s: bytes)
    ensures s == [] || s[0] == NEWLINE ==> InLine(s) == Minify(s)
    ensures s != [] && s[0] != NEWLINE ==> InLine(s) == InLine(s[1..])
  {
    hide Minify;
    if s != [] {
      DropDrop(s, 1, LineSpan(s[1..]));
    }
  }

  lemma InBlockStep(s: bytes)
    ensures s == [] ==> InBlock(s) == []
    ensures |s| > 1 && s[0] == STAR && s[1] == SLASH ==> InBlock(s) == Minify(s[2..])
    ensures s != [] && !(|s| > 1 && s[0] == STAR && s[1] == SLASH) ==> InBlock(s) == InBlock(s[1..])
  {
    hide Minify;
    if s == [] {
      MinifyStep([]);
    } else {
      DropDrop(s, 1, BlockSpan(s[1..]));
    }
  }

  // ---- In place ----

  // A buffer that holds a C string: its text up to the first NUL.
  ghost predicate Holds(was: bytes, text: bytes) {
    |text| < |was| && was[..|text|] == text && was[|text|] == 0 && forall i :: 0 <= i < |text| ==> text[i] != 0
  }

  // The buffer now, part way through. The write pointer trails the read
  // pointer, which has not passed the NUL; from the read pointer on nothing
  // has changed; what is written and what is left make up the result.
  ghost predicate Halfway(now: bytes, was: bytes, text: bytes, write: nat, read: nat, left: bytes, whole: bytes) {
    && Holds(was, text) && |now| == |was|
    && write <= read <= |text|
    && now[read..] == was[read..]
    && now[..write] + left == whole
  }

  lemma StartsHalfway(was: bytes, text: bytes)
    requires Holds(was, text)
    ensures Halfway(was, was, text, 0, 0, Minify(text[0..]), Minify(text))
  {
    hide Minify;
    assert was[..0] == [] && text[0..] == text;
    assert [] + Minify(text) == Minify(text);
  }

  // The byte at the read pointer is the text's, or the NUL; so is the next.
  lemma Peeks(now: bytes, was: bytes, text: bytes, write: nat, read: nat, left: bytes, whole: bytes)
    requires Halfway(now, was, text, write, read, left, whole)
    ensures now[read] == 0 <==> read == |text|
    ensures read < |text| ==> now[read] == text[read..][0]
    ensures read < |text| && now[read + 1] != 0 ==> read + 1 < |text| && now[read + 1] == text[read..][1]
    ensures read < |text| && now[read + 1] == 0 ==> |text[read..]| == 1
  {
    assert now[read] == now[read..][0] == was[read];
    assert read < |text| ==> was[read] == was[..|text|][read] == text[read];
    if read < |text| {
      assert now[read + 1] == now[read..][1] == was[read..][1] == was[read + 1];
      assert read + 1 < |text| ==> was[read + 1] == was[..|text|][read + 1] == text[read + 1];
    }
  }

  // Copying one byte down advances both pointers.
  lemma CopyKeeps(before: bytes, now: bytes, was: bytes, text: bytes, write: nat, read: nat, rest: bytes, whole: bytes)
    requires read < |text|
    requires Halfway(before, was, text, write, read, [text[read]] + rest, whole)
    requires now == before[write := before[read]]
    ensures Halfway(now, was, text, write + 1, read + 1, rest, whole)
  {
    Peeks(before, was, text, write, read, [text[read]] + rest, whole);
    assert now[..write + 1] == before[..write] + [text[read]];
    assert now[read + 1..] == before[read..][1..] == was[read..][1..] == was[read + 1..];
    Assoc(before[..write], [text[read]], rest);
  }

  // Passing over bytes advances the read pointer only.
  lemma SkipKeeps(now: bytes, was: bytes, text: bytes, write: nat, read: nat, k: nat, left: bytes, whole: bytes)
    requires Halfway(now, was, text, write, read, left, whole) && read + k <= |text|
    ensures Halfway(now, was, text, write, read + k, left, whole)
  {
    assert now[read + k..] == now[read..][k..] == was[read..][k..] == was[read + k..];
  }

  // Rewrites the C string in the buffer. Every read and write is checked to
  // lie at or before its NUL.
  method MinifyInPlace(json: array?<byte>, ghost text: bytes)
    requires json != null ==> |text| < json.Length && Holds(json[..], text)
    modifies json
    ensures json != null ==>
      var m := Minify(text);
      && |m| <= |text| && json[..|m|] == m && json[|m|] == 0
      && json[|text| + 1..] == old(json[|text| + 1..])
  {
    hide Minify, InString, InLine, InBlock, Halfway;
    if json == null {
      return;
    }
    var read: nat, write: nat := 0, 0;
    ghost var was := json[..];
    ghost var whole := Minify(text);
    StartsHalfway(was, text);
    while json[read] != 0
      invariant read <= |text| < json.Length
      invariant Halfway(json[..], was, text, write, read, Minify(text[read..]), whole)
      decreases |text| - read
    {
      ghost var s := text[read..];
      Peeks(json[..], was, text, write, read, Minify(s), whole);
      MinifyStep(s);
      var b := json[read];
      if IsSpace(b) {
        SkipKeeps(json[..], was, text, write, read, 1, Minify(s), whole);
        read := read + 1;
      } else if b == QUOTE {
        read, write := CopyLiteral(json, text, was, whole, read, write);
      } else if b == SLASH && json[read + 1] == SLASH {
        read := SkipLine(json, text, was, whole, read, write);
      } else if b == SLASH && json[read + 1] == STAR {
        read := SkipBlock(json, text, was, whole, read, write);
      } else {
        read, write := CopyByte(json, text, was, whole, read, write, Minify(s[1..]));
      }
    }
    Peeks(json[..], was, text, write, read, Minify(text[read..]), whole);
    MinifyStep([]);
    EndsHalfway(json[..], was, text, write, whole);
    json[write] := 0;
  }

  lemma EndsHalfway(now: bytes, was: bytes, text: bytes, write: nat, whole: bytes)
    requires Halfway(now, was, text, write, |text|, [], whole)
    ensures now[..write] == whole && write == |whole| <= |text|
    ensures now[|text| + 1..] == was[|text| + 1..]
  {
    assert now[|text| + 1..] == now[|text|..][1..] == was[|text|..][1..] == was[|text| + 1..];
  }

  // The step shared by every copying arm.
  method CopyByte(json: array<byte>, ghost text: bytes, ghost was: bytes, ghost whole: bytes,
                  r: nat, w: nat, ghost rest: bytes) returns (read: nat, write: nat)
    requires r < |text| < json.Length
    requires Halfway(json[..], was, text, w, r, [text[r]] + rest, whole)
    modifies json
    ensures read == r + 1 && write == w + 1
    ensures Halfway(json[..], was, text, write, read, rest, whole)
  {
    ghost var before := json[..];
    json[w] := json[r];
    assert json[..] == before[w := before[r]];
    CopyKeeps(before, json[..], was, text, w, r, rest, whole);
    read, write := r + 1, w + 1;
  }

  // A string literal, copied verbatim, escapes included.
  method CopyLiteral(json: array<byte>, ghost text: bytes, ghost was: bytes, ghost whole: bytes, r: nat, w: nat)
    returns (read: nat, write: nat)
    requires r < |text| < json.Length && text[r] == QUOTE
    requires Halfway(json[..], was, text, w, r, Minify(text[r..]), whole)
    modifies json
    ensures r < read <= |text|
    ensures Halfway(json[..], was, text, write, read, Minify(text[read..]), whole)
  {
    hide Minify, InString, Halfway;
    read, write := r, w;
    MinifyStep(text[r..]);
    assert text[r..][1..] == text[r + 1..];
    read, write := CopyByte(json, text, was, whole, read, write, InString(text[r + 1..]));
    while json[read] != 0 && json[read] != QUOTE
      invariant r < read <= |text| < json.Length
      invariant Halfway(json[..], was, text, write, read, InString(text[read..]), whole)
      decreases |text| - read
    {
      ghost var s := text[read..];
      Peeks(json[..], was, text, write, read, InString(s), whole);
      InStringStep(s);
      if json[read] == BACKSLASH && json[read + 1] != 0 {
        assert s[..2] == [text[read]] + [text[read + 1]] && s[2..] == text[read + 2..];
        Assoc([text[read]], [text[read + 1]], InString(s[2..]));
        read, write := CopyByte(json, text, was, whole, read, write, [text[read + 1]] + InString(s[2..]));
        read, write := CopyByte(json, text, was, whole, read, write, InString(s[2..]));
      } else {
        assert s[1..] == text[read + 1..];
        read, write := CopyByte(json, text, was, whole, read, write, InString(s[1..]));
      }
    }
    ghost var s := text[read..];
    Peeks(json[..], was, text, write, read, InString(s), whole);
    InStringStep(s);
    MinifyStep([]);
    if json[read] != 0 {
      assert s[1..] == text[read + 1..];
      read, write := CopyByte(json, text, was, whole, read, write, Minify(text[read + 1..]));
    }
  }

  // A line comment, up to its newline.
  method SkipLine(json: array<byte>, ghost text: bytes, ghost was: bytes, ghost whole: bytes, r: nat, w: nat)
    returns (read: nat)
    requires r < |text| < json.Length && OpensLine(text[r..])
    requires Halfway(json[..], was, text, w, r, Minify(text[r..]), whole)
    ensures r < read <= |text|
    ensures Halfway(json[..], was, text, w, read, Minify(text[read..]), whole)
  {
    hide Minify, InLine, Halfway;
    read := r;
    Peeks(json[..], was, text, w, read, Minify(text[read..]), whole);
    MinifyStep(text[r..]);
    InLineStep(text[r..]);
    InLineStep(text[r + 1..]);
    assert text[r..][1..] == text[r + 1..] && text[r + 1..][1..] == text[r..][2..];
    while json[read] != 0 && json[read] != NEWLINE
      invariant r <= read <= |text| < json.Length && (read == r ==> json[read] == SLASH)
      invariant Halfway(json[..], was, text, w, read, InLine(text[read..]), whole)
      decreases |text| - read
    {
      Peeks(json[..], was, text, w, read, InLine(text[read..]), whole);
      InLineStep(text[read..]);
      assert text[read..][1..] == text[read + 1..];
      SkipKeeps(json[..], was, text, w, read, 1, InLine(text[read..]), whole);
      read := read + 1;
    }
    Peeks(json[..], was, text, w, read, InLine(text[read..]), whole);
    InLineStep(text[read..]);
  }

  // A block comment, its closing included.
  method SkipBlock(json: array<byte>, ghost text: bytes, ghost was: bytes, ghost whole: bytes, r: nat, w: nat)
    returns (read: nat)
    requires r < |text| < json.Length && OpensBlock(text[r..])
    requires Halfway(json[..], was, text, w, r, Minify(text[r..]), whole)
    ensures r < read <= |text|
    ensures Halfway(json[..], was, text, w, read, Minify(text[read..]), whole)
  {
    hide Minify, InBlock, Halfway;
    MinifyStep(text[r..]);
    assert text[r..][2..] == text[r + 2..];
    SkipKeeps(json[..], was, text, w, r, 2, Minify(text[r..]), whole);
    read := r + 2;
    Peeks(json[..], was, text, w, read, InBlock(text[read..]), whole);
    while json[read] != 0 && !(json[read] == STAR && json[read + 1] == SLASH)
      invariant r + 2 <= read <= |text| < json.Length && (json[read] == 0 <==> read == |text|)
      invariant Halfway(json[..], was, text, w, read, InBlock(text[read..]), whole)
      decreases |text| - read
    {
      Peeks(json[..], was, text, w, read, InBlock(text[read..]), whole);
      InBlockStep(text[read..]);
      assert text[read..][1..] == text[read + 1..];
      SkipKeeps(json[..], was, text, w, read, 1, InBlock(text[read..]), whole);
      read := read + 1;
      Peeks(json[..], was, text, w, read, InBlock(text[read..]), whole);
    }
    Peeks(json[..], was, text, w, read, InBlock(text[read..]), whole);
    InBlockStep(text[read..]);
    MinifyStep([]);
    if json[read] != 0 {
      assert text[read..][2..] == text[read + 2..];
      SkipKeeps(json[..], was, text, w, read, 2, InBlock(text[read..]), whole);
      read := read + 2;
    }
  }
}
