/** Reading a reply off a connection (internal/redis/redis.go, readElement and the
    second half of sendCommand), with the cases in which the program stops on an
    index out of range. */
module Replying {
  import opened Decimals
  import opened Text

  datatype Value = Text(s: string) | Number(n: int) | Size(n: int)

  datatype Kind = Array | String | Int | Simple | Error | Unknown

  datatype Element = Element(kind: Kind, value: Value)

  // A read ends with a value and the bytes after it, with an error, or with a panic.
  datatype Outcome<+T> = Got(value: T, rest: string) | Failed | Panicked

  // ReadString('\n') and the removal of the line end: CRLF is taken off, a lone LF is
  // not. A line that is a lone LF is indexed before its start.
  function TakeLine(s: string): (r: Outcome<string>)
    ensures r.Got? ==> |r.rest| < |s|
  {
    match IndexOf(s, '\n')
    case None => Failed
    case Some(i) =>
      if i == 0 then Panicked
      else if s[i - 1] == '\r' then Got(s[..i - 1], s[i + 1..])
      else Got(s[..i + 1], s[i + 1..])
  }

  function TakeElement(s: string): (r: Outcome<Element>)
    ensures r.Got? ==> |r.rest| < |s|
  {
    match TakeLine(s)
    case Failed => Failed
    case Panicked => Panicked
    case Got(response, rest) =>
      if response == "" then Panicked
      else if response[0] == '-' then Got(Element(Error, Text(response[1..])), rest)
      else if response[0] == '+' then Got(Element(Simple, Text(response[1..])), rest)
      else if response[0] == '$' then
        match TakeLine(rest)
        case Failed => Failed
        case Panicked => Panicked
        case Got(line, rest') => Got(Element(String, Text(line)), rest')
      else if response[0] == '*' then
        Got(Element(Array, Size(ParseInt(response[1..]).GetOr(0))), rest)
      else if response[0] == ':' then
        Got(Element(Int, Number(ParseInt(response[1..]).GetOr(0))), rest)
      else Got(Element(Unknown, Text(response[1..])), rest)
  }

  function TakeElements(n: int, s: string): Outcome<seq<Value>>
    decreases |s|
  {
    if n <= 0 then Got([], s)
    else
      match TakeElement(s)
      case Failed => Failed
      case Panicked => Panicked
      case Got(child, rest) =>
        match TakeElements(n - 1, rest)
        case Failed => Failed
        case Panicked => Panicked
        case Got(more, rest') => Got([child.value] + more, rest')
  }

  datatype RedisResult =
    | Success(text: Value)
    | Fail(text: Value)
    | WithResult(result: Value)
    | WithResults(results: seq<Value>)

  // What sendCommand makes of the bytes that come back.
  function TakeReply(s: string): Outcome<RedisResult> {
    match TakeElement(s)
    case Failed => Failed
    case Panicked => Panicked
    case Got(elt, rest) =>
      match elt.kind
      case Simple => Got(Success(elt.value), rest)
      case Error => Got(Fail(elt.value), rest)
      case String => Got(WithResult(elt.value), rest)
      case Int => Got(WithResult(elt.value), rest)
      case Array =>
        (match TakeElements(elt.value.n, rest)
         case Failed => Failed
         case Panicked => Panicked
         case Got(results, rest') => Got(WithResults(results), rest'))
      case Unknown => Failed
  }

  // ------------------------------------------------ the buffered reader

  class Reader {
    var unread: string

    constructor (bytes: string)
      ensures unread == bytes
    {
      unread := bytes;
    }

    // Up to and with the first LF; without one, everything and an error.
    method ReadString() returns (line: string, ok: bool)
      modifies this
      ensures match IndexOf(old(unread), '\n')
        case None => !ok && unread == "" && line == old(unread)
        case Some(i) => ok && line == old(unread)[..i + 1] && unread == old(unread)[i + 1..]
    {
      match IndexOf(unread, '\n') {
        case None =>
          line, ok, unread := unread, false, "";
        case Some(i) =>
          line, ok, unread := unread[..i + 1], true, unread[i + 1..];
      }
    }

    // ReadString('\n') with the line end taken off.
    method ReadLine() returns (r: Outcome<string>)
      modifies this
      ensures r == TakeLine(old(unread))
      ensures r.Got? ==> unread == r.rest
    {
      ghost var before := unread;
      var line, ok := ReadString();
      if !ok {
        return Failed;
      }
      if |line| < 2 {
        return Panicked;
      }
      if line[|line| - 2] == '\r' {
        assert line[..|line| - 2] == before[..|line| - 2];
        line := line[..|line| - 2];
      }
      return Got(line, unread);
    }

    method ReadElement() returns (r: Outcome<Element>)
      modifies this
      ensures r == TakeElement(old(unread))
      ensures r.Got? ==> unread == r.rest
    {
      var line := ReadLine();
      if line.Failed? {
        return Failed;
      }
      if line.Panicked? || line.value == "" {
        return Panicked;
      }
      var response := line.value;
      if response[0] == '-' {
        return Got(Element(Error, Text(response[1..])), unread);
      }
      if response[0] == '+' {
        return Got(Element(Simple, Text(response[1..])), unread);
      }
      if response[0] == '$' {
        line := ReadLine();
        match line {
          case Failed => return Failed;
          case Panicked => return Panicked;
          case Got(text, _) => return Got(Element(String, Text(text)), unread);
        }
      }
      if response[0] == '*' {
        var size := 0;
        var s := ParseInt(response[1..]);
        if s.Some? {
          size := s.value;
        }
        return Got(Element(Array, Size(size)), unread);
      }
      if response[0] == ':' {
        var value := 0;
        var v := ParseInt(response[1..]);
        if v.Some? {
          value := v.value;
        }
        return Got(Element(Int, Number(value)), unread);
      }
      return Got(Element(Unknown, Text(response[1..])), unread);
    }

    // The children of an array, one after the other.
    method ReadElements(nb: int) returns (r: Outcome<seq<Value>>)
      modifies this
      ensures r == TakeElements(nb, old(unread))
      ensures r.Got? ==> unread == r.rest
    {
      r := Got([], unread);
      var i := 0;
      ghost var all := TakeElements(nb, unread);
      ghost var left := all;
      PrependNothing(all);
      while i < nb && r.Got?
        invariant 0 <= i
        invariant r.Got? ==> unread == r.rest && left == TakeElements(nb - i, unread) && Prepend(r.value, left) == all
        invariant !r.Got? ==> r == all
        decreases nb - i, r.Got?
      {
        r, left := ReadChild(nb - i, r.value, all);
        i := i + 1;
      }
      if r.Got? {
        NoneLeft(r.value, nb - i, unread, left, all);
      }
    }

    // The next of n children, after those before it.
    method ReadChild(n: int, head: seq<Value>, ghost all: Outcome<seq<Value>>)
      returns (r: Outcome<seq<Value>>, ghost left: Outcome<seq<Value>>)
      requires n > 0 && Prepend(head, TakeElements(n, unread)) == all
      modifies this
      ensures r.Got? ==> unread == r.rest && left == TakeElements(n - 1, unread) && Prepend(r.value, left) == all
      ensures !r.Got? ==> r == all
    {
      OneMoreElement(head, n, unread);
      var child := ReadElement();
      left := TakeElements(n - 1, unread);
      match child {
        case Failed => r := Failed;
        case Panicked => r := Panicked;
        case Got(e, rest) => r := Got(head + [e.value], rest);
      }
    }

    // The part of sendCommand that reads the reply.
    method ReadReply() returns (r: Outcome<RedisResult>)
      modifies this
      ensures r == TakeReply(old(unread))
      ensures r.Got? ==> unread == r.rest
    {
      var read := ReadElement();
      match read {
        case Failed => return Failed;
        case Panicked => return Panicked;
        case Got(elt, _) =>
          match elt.kind {
            case Simple => return Got(Success(elt.value), unread);
            case Error => return Got(Fail(elt.value), unread);
            case String => return Got(WithResult(elt.value), unread);
            case Int => return Got(WithResult(elt.value), unread);
            case Unknown => return Failed;
            case Array =>
              var children := ReadElements(elt.value.n);
              match children {
                case Failed => return Failed;
                case Panicked => return Panicked;
                case Got(results, _) => return Got(WithResults(results), unread);
              }
          }
      }
    }
  }

  function Prepend(head: seq<Value>, r: Outcome<seq<Value>>): Outcome<seq<Value>> {
    if r.Got? then Got(head + r.value, r.rest) else r
  }

  lemma PrependNothing(r: Outcome<seq<Value>>)
    ensures Prepend([], r) == r
  {
    if r.Got? {
      assert [] + r.value == r.value;
    }
  }

  lemma NoElements(head: seq<Value>, n: int, s: string)
    requires n <= 0
    ensures Prepend(head, TakeElements(n, s)) == Got(head, s)
  {
    assert head + [] == head;
  }

  lemma NoneLeft(head: seq<Value>, n: int, s: string, left: Outcome<seq<Value>>, all: Outcome<seq<Value>>)
    requires n <= 0 && left == TakeElements(n, s) && Prepend(head, left) == all
    ensures all == Got(head, s)
  {
    NoElements(head, n, s);
  }

  // Reading n elements after some others is reading one, and n - 1 after that.
  lemma OneMoreElement(head: seq<Value>, n: int, s: string)
    requires n > 0
    ensures Prepend(head, TakeElements(n, s)) ==
      match TakeElement(s)
      case Failed => Failed
      case Panicked => Panicked
      case Got(e, rest) => Prepend(head + [e.value], TakeElements(n - 1, rest))
  {
    if TakeElement(s).Got? {
      var e, tail := TakeElement(s).value, TakeElements(n - 1, TakeElement(s).rest);
      if tail.Got? {
        assert head + [e.value] + tail.value == head + ([e.value] + tail.value);
      }
    }
  }
}
