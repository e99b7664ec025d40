/** What a server writes is what the client reads, and no byte more. */
module ReplyRoundTrip {
  import opened Decimals
  import opened Text
  import opened Resp
  import opened Replying

  // The replies of the protocol that the client can read: one level of array.
  datatype Item = IntItem(n: int) | BulkItem(s: string)

  datatype Wire =
    | SimpleWire(s: string)
    | ErrorWire(s: string)
    | ItemWire(item: Item)
    | ArrayWire(items: seq<Item>)

  function EncodeItem(item: Item): string {
    match item
    case IntItem(n) => ":" + FormatInt(n) + CRLF
    case BulkItem(s) => Bulk(s)
  }

  function Concat(codes: seq<string>): string {
    if codes == [] then "" else codes[0] + Concat(codes[1..])
  }

  function CodesOf(items: seq<Item>): (codes: seq<string>)
    ensures |codes| == |items|
    ensures forall i :: 0 <= i < |items| ==> codes[i] == EncodeItem(items[i])
  {
    seq(|items|, i requires 0 <= i < |items| => EncodeItem(items[i]))
  }

  function EncodeItems(items: seq<Item>): string {
    Concat(CodesOf(items))
  }

  function Encode(w: Wire): string {
    match w
    case SimpleWire(s) => "+" + s + CRLF
    case ErrorWire(s) => "-" + s + CRLF
    case ItemWire(item) => EncodeItem(item)
    case ArrayWire(items) => "*" + Decimal(|items|) + CRLF + EncodeItems(items)
  }

  predicate GoodItem(item: Item) {
    match item
    case IntItem(n) => MIN_INT64 <= n <= MAX_INT64
    case BulkItem(s) => '\n' !in s
  }

  predicate Good(w: Wire) {
    match w
    case SimpleWire(s) => '\n' !in s
    case ErrorWire(s) => '\n' !in s
    case ItemWire(item) => GoodItem(item)
    case ArrayWire(items) => |items| <= MAX_INT64 && forall i :: 0 <= i < |items| ==> GoodItem(items[i])
  }

  function ItemValue(item: Item): Value {
    match item
    case IntItem(n) => Number(n)
    case BulkItem(s) => Text(s)
  }

  function ItemValues(items: seq<Item>): (vs: seq<Value>)
    ensures |vs| == |items|
  {
    seq(|items|, i requires 0 <= i < |items| => ItemValue(items[i]))
  }

  function Meaning(w: Wire): RedisResult {
    match w
    case SimpleWire(s) => Success(Text(s))
    case ErrorWire(s) => Fail(Text(s))
    case ItemWire(item) => WithResult(ItemValue(item))
    case ArrayWire(items) => WithResults(ItemValues(items))
  }

  // ------------------------------------------------ lines

  lemma TakesLineExactly(text: string, rest: string, s: string)
    requires s == text + CRLF + rest
    ensures TakeLine(s) == Got(text, rest) <==> '\n' !in text
  {
    if '\n' in text {
      FirstLineFeed(text, rest, s);
    } else {
      assert s == (text + "\r") + "\n" + rest;
      IndexOfAt(text + "\r", '\n', rest);
      assert s[..|text|] == text && s[|text| + 2..] == rest;
    }
  }

  lemma FirstLineFeed(text: string, rest: string, s: string)
    requires s == text + CRLF + rest && '\n' in text
    ensures TakeLine(s).Got? ==> |TakeLine(s).rest| > |rest|
  {
    IndexOfFirst(s, '\n');
    var i :| 0 <= i < |text| && text[i] == '\n';
    assert s[i] == '\n';
  }

  lemma {:induction false} IndexOfFirst(s: string, c: char)
    ensures forall i :: 0 <= i < |s| && s[i] == c ==> IndexOf(s, c).Some? && IndexOf(s, c).value <= i
  {
    if s != "" && s[0] != c {
      IndexOfFirst(s[1..], c);
      forall i | 0 <= i < |s| && s[i] == c
        ensures IndexOf(s, c).Some? && IndexOf(s, c).value <= i
      {
        assert s[1..][i - 1] == c;
      }
    }
  }

  // ------------------------------------------------ elements

  lemma MarkedLine(marker: char, text: string, rest: string)
    requires '\n' !in text && marker != '\n'
    ensures TakeLine([marker] + text + CRLF + rest) == Got([marker] + text, rest)
  {
    TakesLineExactly([marker] + text, rest, [marker] + text + CRLF + rest);
  }

  // A simple string or an error is read back exactly if it has no line feed in it.
  lemma StatusExactly(marker: char, s: string, rest: string)
    requires marker == '+' || marker == '-'
    ensures TakeElement([marker] + s + CRLF + rest) == Got(Element(if marker == '+' then Simple else Error, Text(s)), rest)
       <==> '\n' !in s
  {
    var bytes := [marker] + s + CRLF + rest;
    TakesLineExactly([marker] + s, rest, bytes);
    if '\n' in s {
      FirstLineFeed([marker] + s, rest, bytes);
      if TakeElement(bytes).Got? {
        RestOfLine(bytes);
      }
    } else {
      assert ([marker] + s)[1..] == s;
    }
  }

  // An element that is one line leaves what follows the line.
  lemma RestOfLine(bytes: string)
    requires bytes != "" && bytes[0] != '$' && TakeElement(bytes).Got?
    ensures TakeLine(bytes).Got? && TakeElement(bytes).rest == TakeLine(bytes).rest
  {
    assert TakeLine(bytes).value[0] == bytes[0];
  }

  lemma IntRoundTrip(n: int, rest: string)
    requires MIN_INT64 <= n <= MAX_INT64
    ensures TakeElement(":" + FormatInt(n) + CRLF + rest) == Got(Element(Int, Number(n)), rest)
  {
    MarkedLine(':', FormatInt(n), rest);
    assert (":" + FormatInt(n))[1..] == FormatInt(n);
    FormatReads(n);
  }

  // A bulk string is read back exactly if it has no line feed in it: the reader goes
  // by lines and does not look at the length.
  lemma BulkExactly(s: string, rest: string)
    ensures TakeElement(Bulk(s) + rest) == Got(Element(String, Text(s)), rest) <==> '\n' !in s
  {
    var tail := s + CRLF + rest;
    assert Bulk(s) + rest == ['$'] + Decimal(|s|) + CRLF + tail;
    MarkedLine('$', Decimal(|s|), tail);
    TakesLineExactly(s, rest, tail);
    if '\n' in s {
      FirstLineFeed(s, rest, tail);
    }
  }

  function ElementOf(item: Item): Element {
    Element(if item.IntItem? then Int else String, ItemValue(item))
  }

  // Whatever follows it, a code is read back as its item, and no more is taken.
  ghost predicate Codes(code: string, item: Item) {
    forall tail :: TakeElement(code + tail) == Got(ElementOf(item), tail)
  }

  lemma ItemRoundTrip(item: Item)
    requires GoodItem(item)
    ensures Codes(EncodeItem(item), item)
  {
    forall tail
      ensures TakeElement(EncodeItem(item) + tail) == Got(ElementOf(item), tail)
    {
      match item {
        case IntItem(n) => IntRoundTrip(n, tail);
        case BulkItem(s) => BulkExactly(s, tail);
      }
    }
  }

  lemma FirstRead(n: nat, code: string, item: Item, tail: string, more: seq<Value>, rest: string)
    requires Codes(code, item) && TakeElements(n, tail) == Got(more, rest)
    ensures TakeElements(n + 1, code + tail) == Got([ItemValue(item)] + more, rest)
  {
    assert TakeElement(code + tail) == Got(ElementOf(item), tail);
  }

  lemma FirstOf(items: seq<Item>, codes: seq<string>, rest: string)
    requires |codes| == |items| > 0
    ensures Concat(codes) + rest == codes[0] + (Concat(codes[1..]) + rest)
    ensures ItemValues(items) == [ItemValue(items[0])] + ItemValues(items[1..])
  {
  }

  lemma {:induction false} ReadInOrder(items: seq<Item>, codes: seq<string>, rest: string)
    requires |codes| == |items| && forall i :: 0 <= i < |items| ==> Codes(codes[i], items[i])
    ensures TakeElements(|items|, Concat(codes) + rest) == Got(ItemValues(items), rest)
  {
    if items == [] {
      assert Concat(codes) + rest == rest;
    } else {
      ReadInOrder(items[1..], codes[1..], rest);
      FirstRead(|items| - 1, codes[0], items[0], Concat(codes[1..]) + rest, ItemValues(items[1..]), rest);
      FirstOf(items, codes, rest);
    }
  }

  lemma ItemsRoundTrip(items: seq<Item>, rest: string)
    requires forall i :: 0 <= i < |items| ==> GoodItem(items[i])
    ensures TakeElements(|items|, EncodeItems(items) + rest) == Got(ItemValues(items), rest)
  {
    var codes := CodesOf(items);
    forall i | 0 <= i < |items|
      ensures Codes(codes[i], items[i])
    {
      ItemRoundTrip(items[i]);
    }
    ReadInOrder(items, codes, rest);
  }

  // ------------------------------------------------ replies

  lemma {:induction false} ArrayRoundTrip(items: seq<Item>, rest: string)
    requires |items| <= MAX_INT64 && forall i :: 0 <= i < |items| ==> GoodItem(items[i])
    ensures TakeReply(Encode(ArrayWire(items)) + rest) == Got(WithResults(ItemValues(items)), rest)
  {
    var tail := EncodeItems(items) + rest;
    assert Encode(ArrayWire(items)) + rest == ['*'] + Decimal(|items|) + CRLF + tail;
    MarkedLine('*', Decimal(|items|), tail);
    assert ("*" + Decimal(|items|))[1..] == Decimal(|items|);
    FormatReads(|items|);
    ItemsRoundTrip(items, rest);
  }

  // The client reads back every reply in the protocol it knows, in order, and takes
  // exactly that reply's bytes off the connection.
  lemma {:induction false} ReplyRoundTrips(w: Wire, rest: string)
    requires Good(w)
    ensures TakeReply(Encode(w) + rest) == Got(Meaning(w), rest)
  {
    match w {
      case SimpleWire(s) =>
        StatusExactly('+', s, rest);
      case ErrorWire(s) =>
        StatusExactly('-', s, rest);
      case ItemWire(item) =>
        ItemRoundTrip(item);
        assert Codes(EncodeItem(item), item);
      case ArrayWire(items) =>
        ArrayRoundTrip(items, rest);
    }
  }
}
