// Values and tokens (cjson-rs/src/value.rs, cjson-rs/src/token.rs).
module Values {
  import opened Errors
  import opened Numbers

  datatype Value =
    | Null
    | Bool(b: bool)
    | Number(n: Num)
    | String(s: string)
    | Array(items: seq<Value>)
    | Object(members: seq<Member>)

  datatype Member = Member(key: string, value: Value)

  datatype Token =
    | BeginObject
    | EndObject
    | BeginArray
    | EndArray
    | NameSeparator
    | ValueSeparator
    | NullToken
    | TrueToken
    | FalseToken
    | NumberToken(n: Num)
    | StringToken(s: string)

  datatype PositionedToken = PositionedToken(token: Token, pos: Position, end: Position)

  function Max(a: nat, b: nat): nat { if a < b then b else a }

  // How deeply arrays and objects nest.
  function Depth(v: Value): nat
    decreases v, 1
  {
    match v
    case Array(items) => 1 + ItemsDepth(items)
    case Object(members) => 1 + MembersDepth(members)
    case _ => 0
  }

  function ItemsDepth(items: seq<Value>): nat
    decreases items, 0
  {
    if items == [] then 0 else Max(Depth(items[0]), ItemsDepth(items[1..]))
  }

  function MembersDepth(members: seq<Member>): nat
    decreases members, 0
  {
    if members == [] then 0 else Max(Depth(members[0].value), MembersDepth(members[1..]))
  }

  // The natural flattening of a value to tokens (sections 3 to 5 of RFC 8259).
  function Flatten(v: Value): (ts: seq<Token>)
    ensures ts != []
    ensures ts[0] != EndArray && ts[0] != EndObject && ts[0] != ValueSeparator && ts[0] != NameSeparator
    decreases v, 1
  {
    match v
    case Null => [NullToken]
    case Bool(b) => [if b then TrueToken else FalseToken]
    case Number(n) => [NumberToken(n)]
    case String(s) => [StringToken(s)]
    case Array(items) => [BeginArray] + FlattenItems(items) + [EndArray]
    case Object(members) => [BeginObject] + FlattenMembers(members) + [EndObject]
  }

  function FlattenItems(items: seq<Value>): seq<Token>
    decreases items, 0
  {
    if items == [] then []
    else Flatten(items[0]) + (if |items| == 1 then [] else [ValueSeparator] + FlattenItems(items[1..]))
  }

  function FlattenMembers(members: seq<Member>): seq<Token>
    decreases members, 0
  {
    if members == [] then []
    else
      [StringToken(members[0].key), NameSeparator] + Flatten(members[0].value)
      + (if |members| == 1 then [] else [ValueSeparator] + FlattenMembers(members[1..]))
  }

  // What a printer keeps of a value: numbers that are not finite become null.
  function Printable(v: Value): (w: Value)
    decreases v, 1
  {
    match v
    case Number(n) => if n.Finite? then v else Null
    case Array(items) => Array(PrintableItems(items))
    case Object(members) => Object(PrintableMembers(members))
    case _ => v
  }

  function PrintableItems(items: seq<Value>): (r: seq<Value>)
    ensures |r| == |items|
    decreases items, 0
  {
    if items == [] then [] else [Printable(items[0])] + PrintableItems(items[1..])
  }

  function PrintableMembers(members: seq<Member>): (r: seq<Member>)
    ensures |r| == |members|
    decreases members, 0
  {
    if members == [] then []
    else [Member(members[0].key, Printable(members[0].value))] + PrintableMembers(members[1..])
  }

  // Every number in the value is finite.
  predicate AllFinite(v: Value)
    decreases v
  {
    match v
    case Number(n) => n.Finite?
    case Array(items) => forall i :: 0 <= i < |items| ==> AllFinite(items[i])
    case Object(members) => forall i :: 0 <= i < |members| ==> AllFinite(members[i].value)
    case _ => true
  }

  lemma {:induction false} PrintableDepth(v: Value)
    ensures Depth(Printable(v)) == Depth(v)
    decreases v, 1
  {
    match v
    case Array(items) => PrintableItemsDepth(items);
    case Object(members) => PrintableMembersDepth(members);
    case _ =>
  }

  lemma {:induction false} PrintableItemsDepth(items: seq<Value>)
    ensures ItemsDepth(PrintableItems(items)) == ItemsDepth(items)
    decreases items, 0
  {
    if items != [] {
      PrintableDepth(items[0]);
      PrintableItemsDepth(items[1..]);
    }
  }

  lemma {:induction false} PrintableMembersDepth(members: seq<Member>)
    ensures MembersDepth(PrintableMembers(members)) == MembersDepth(members)
    decreases members, 0
  {
    if members != [] {
      PrintableDepth(members[0].value);
      PrintableMembersDepth(members[1..]);
    }
  }

  // Printing loses nothing just when every number is finite.
  lemma {:induction false} PrintableFinite(v: Value)
    ensures Printable(v) == v <==> AllFinite(v)
    decreases v, 1
  {
    match v
    case Array(items) => PrintableItemsFinite(items);
    case Object(members) => PrintableMembersFinite(members);
    case _ =>
  }

  lemma {:induction false} PrintableItemsFinite(items: seq<Value>)
    ensures PrintableItems(items) == items <==> forall i :: 0 <= i < |items| ==> AllFinite(items[i])
    decreases items, 0
  {
    if items != [] {
      PrintableFinite(items[0]);
      PrintableItemsFinite(items[1..]);
      assert items == [items[0]] + items[1..];
      assert forall i :: 1 <= i < |items| ==> items[i] == items[1..][i - 1];
    }
  }

  lemma {:induction false} PrintableMembersFinite(members: seq<Member>)
    ensures PrintableMembers(members) == members
            <==> forall i :: 0 <= i < |members| ==> AllFinite(members[i].value)
    decreases members, 0
  {
    if members != [] {
      PrintableFinite(members[0].value);
      PrintableMembersFinite(members[1..]);
      assert members == [members[0]] + members[1..];
      assert forall i :: 1 <= i < |members| ==> members[i] == members[1..][i - 1];
    }
  }
}
