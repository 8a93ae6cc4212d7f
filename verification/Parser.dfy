// The parser (cjson-rs/src/parser.rs): a recursive descent over a token vector
// that finds what the functions of module Grammar say.
module Parsing {
  import opened Bytes
  import opened Errors
  import opened Values
  import opened Grammar
  import opened Lexical
  import opened Tokenising

  const NESTING_LIMIT: nat := 1000

  class Parser {
    const tokens: Tokens
    const limit: nat
    var cursor: nat
    var depth: nat

    ghost predicate Valid()
      reads this
    {
      cursor <= |tokens| && depth <= limit
    }

    // The outcome of a parse that found what is told: on success the cursor
    // has moved there and the depth is what it was.
    ghost predicate Parsed(found: Found<Value>, r: Result<Value>, was: nat)
      reads this
    {
      match found
      case Found(v, next) => r == Success(v) && cursor == next && depth == was
      case Fail(error) => r == Failure(error)
    }

    constructor (tokens: Tokens, limit: nat)
      ensures Valid() && this.tokens == tokens && this.limit == limit
      ensures cursor == 0 && depth == 0
    {
      this.tokens := tokens;
      this.limit := limit;
      cursor := 0;
      depth := 0;
    }

    function Peek(): (t: Option<Token>)
      reads this
    {
      if cursor < |tokens| then Some(tokens[cursor].token) else None
    }

    function PeekPosition(): Position
      reads this
    {
      PeekPos(tokens, cursor)
    }

    method Advance()
      requires cursor < |tokens|
      modifies this`cursor
      ensures cursor == old(cursor) + 1
    {
      cursor := cursor + 1;
    }

    method Enter(pos: Position) returns (r: Option<Error>)
      requires Valid()
      modifies this`depth
      ensures Valid()
      ensures old(depth) == limit ==> r == Some(Error(NestingLimitExceeded, pos)) && depth == old(depth)
      ensures old(depth) < limit ==> r == None && depth == old(depth) + 1
    {
      if depth >= limit {
        return Some(Error(NestingLimitExceeded, pos));
      }
      depth := depth + 1;
      return None;
    }

    // Never called at depth zero, where the subtraction would underflow.
    method Leave()
      requires depth > 0
      modifies this`depth
      ensures depth == old(depth) - 1
    {
      depth := depth - 1;
    }

    method ParseValue() returns (r: Result<Value>)
      requires Valid()
      modifies this
      ensures Parsed(Grammar.ParseValue(tokens, old(cursor), old(depth), limit), r, old(depth))
      decreases |tokens| - cursor, 1
    {
      hide ParseItems, ParseMembers;
      var pos := PeekPosition();
      var tok := Peek();
      if tok == None {
        return Failure(Error(UnexpectedEof, pos));
      }
      match tok.value
      case NullToken =>
        Advance();
        r := Success(Null);
      case TrueToken =>
        Advance();
        r := Success(Bool(true));
      case FalseToken =>
        Advance();
        r := Success(Bool(false));
      case NumberToken(n) =>
        Advance();
        r := Success(Number(n));
      case StringToken(s) =>
        Advance();
        r := Success(String(s));
      case BeginArray =>
        r := ParseArray();
      case BeginObject =>
        r := ParseObject();
      case _ =>
        r := Failure(Error(UnexpectedToken, pos));
    }

    method ParseArray() returns (r: Result<Value>)
      requires Valid() && At(tokens, cursor, BeginArray)
      modifies this
      ensures Parsed(Grammar.ParseValue(tokens, old(cursor), old(depth), limit), r, old(depth))
      decreases |tokens| - cursor, 0
    {
      hide ParseMembers;
      ghost var whole := Grammar.ParseValue(tokens, cursor, depth, limit);
      var full := Enter(PeekPosition());
      if full.Some? {
        return Failure(full.value);
      }
      Advance();
      var items := [];
      if Peek() == Some(EndArray) {
        Advance();
        Leave();
        return Success(Array(items));
      }
      while true
        invariant Valid() && old(cursor) < cursor && depth == old(depth) + 1
        invariant whole == ParseItems(tokens, cursor, depth, limit, items)
        decreases |tokens| - cursor
      {
        hide Grammar.ParseValue;
        var v := ParseValue();
        if v.Failure? {
          return Failure(v.error);
        }
        items := items + [v.value];
        match Peek()
        case Some(ValueSeparator) =>
          var commaPos := PeekPosition();
          Advance();
          if Peek() == Some(EndArray) {
            return Failure(Error(UnexpectedToken, commaPos));
          }
        case Some(EndArray) =>
          Advance();
          Leave();
          return Success(Array(items));
        case Some(_) =>
          return Failure(Error(UnexpectedToken, PeekPosition()));
        case None =>
          return Failure(Error(UnexpectedEof, PeekPosition()));
      }
    }

    method ParseObject() returns (r: Result<Value>)
      requires Valid() && At(tokens, cursor, BeginObject)
      modifies this
      ensures Parsed(Grammar.ParseValue(tokens, old(cursor), old(depth), limit), r, old(depth))
      decreases |tokens| - cursor, 0
    {
      hide ParseItems;
      ghost var whole := Grammar.ParseValue(tokens, cursor, depth, limit);
      var full := Enter(PeekPosition());
      if full.Some? {
        return Failure(full.value);
      }
      Advance();
      var members := [];
      if Peek() == Some(EndObject) {
        Advance();
        Leave();
        return Success(Object(members));
      }
      while true
        invariant Valid() && old(cursor) < cursor && depth == old(depth) + 1
        invariant whole == ParseMembers(tokens, cursor, depth, limit, members)
        decreases |tokens| - cursor
      {
        hide Grammar.ParseValue;
        var keyPos := PeekPosition();
        var key: string;
        match Peek() {
          case Some(StringToken(s)) =>
            Advance();
            key := s;
          case Some(_) =>
            return Failure(Error(UnexpectedToken, keyPos));
          case None =>
            return Failure(Error(UnexpectedEof, keyPos));
        }
        match Peek() {
          case Some(NameSeparator) =>
            Advance();
          case Some(_) =>
            return Failure(Error(UnexpectedToken, PeekPosition()));
          case None =>
            return Failure(Error(UnexpectedEof, PeekPosition()));
        }
        var v := ParseValue();
        if v.Failure? {
          return Failure(v.error);
        }
        members := members + [Member(key, v.value)];
        match Peek()
        case Some(ValueSeparator) =>
          var commaPos := PeekPosition();
          Advance();
          if Peek() == Some(EndObject) {
            return Failure(Error(UnexpectedToken, commaPos));
          }
        case Some(EndObject) =>
          Advance();
          Leave();
          return Success(Object(members));
        case Some(_) =>
          return Failure(Error(UnexpectedToken, PeekPosition()));
        case None =>
          return Failure(Error(UnexpectedEof, PeekPosition()));
      }
    }
  }

  // ---- The entry points ----

  // The result of parsing a whole text.
  function Parse(input: bytes, limit: nat): Result<Value> {
    var scan := ScanAt(input, 0);
    if scan.error.Some? then Failure(scan.error.value)
    else match Grammar.ParseValue(scan.tokens, 0, 0, limit)
      case Fail(error) => Failure(error)
      case Found(v, next) =>
        if next < |scan.tokens| then Failure(Error(TrailingData, scan.tokens[next].pos)) else Success(v)
  }

  // The result of parsing one value at the start of a text: the value and the
  // offset after its last byte.
  function ParsePrefix(input: bytes): Result<(Value, nat)> {
    var ts := ScanAt(input, 0).tokens;
    match Grammar.ParseValue(ts, 0, 0, NESTING_LIMIT)
    case Fail(error) => Failure(error)
    case Found(v, next) => Success((v, ts[next - 1].end.offset))
  }

  method ParseWithOptions(input: bytes, nestingLimit: nat) returns (r: Result<Value>)
    ensures r == Parse(input, nestingLimit)
  {
    hide ScanAt, Grammar.ParseValue;
    var tokens := Tokeniser.Tokenise(input);
    if tokens.Failure? {
      return Failure(tokens.error);
    }
    var parser := new Parser(tokens.value, nestingLimit);
    var value := parser.ParseValue();
    if value.Failure? {
      return Failure(value.error);
    }
    if parser.cursor < |parser.tokens| {
      return Failure(Error(TrailingData, parser.tokens[parser.cursor].pos));
    }
    return Success(value.value);
  }

  method ParseStrict(input: bytes) returns (r: Result<Value>)
    ensures r == Parse(input, NESTING_LIMIT)
  {
    r := ParseWithOptions(input, NESTING_LIMIT);
  }

  method ParseFromPrefix(input: bytes) returns (r: Result<(Value, nat)>)
    ensures r == ParsePrefix(input)
  {
    hide ScanAt, Grammar.ParseValue;
    var tokens, _ := Tokeniser.TokenisePrefix(input);
    var parser := new Parser(tokens, NESTING_LIMIT);
    var value := parser.ParseValue();
    if value.Failure? {
      return Failure(value.error);
    }
    // The value took at least one token.
    return Success((value.value, parser.tokens[parser.cursor - 1].end.offset));
  }
}
