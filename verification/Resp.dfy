/** The Redis wire protocol (internal/redis/redis.go, sendCommand and readElement).
    A text here is a string of bytes, one character each. */
module Resp {
  import opened Wrappers
  import opened Decimals

  const CRLF := "\r\n"

  // ------------------------------------------------ commands

  // A bulk string: its length, and then its bytes whatever they are.
  function Bulk(arg: string): string {
    "$" + Decimal(|arg|) + CRLF + arg + CRLF
  }

  function Bulks(args: seq<string>): string {
    if args == [] then "" else Bulks(args[..|args| - 1]) + Bulk(args[|args| - 1])
  }

  function Command(args: seq<string>): string {
    "*" + Decimal(|args|) + CRLF + Bulks(args)
  }

  // The part of sendCommand that writes the command.
  method BuildCommand(args: seq<string>) returns (sb: string)
    ensures sb == Command(args)
  {
    sb := "*" + Decimal(|args|) + "\r\n";
    for i := 0 to |args|
      invariant sb == "*" + Decimal(|args|) + CRLF + Bulks(args[..i])
    {
      assert args[..i + 1][..i] == args[..i];
      sb := sb + ("$" + Decimal(|args[i]|) + "\r\n" + args[i] + "\r\n");
    }
    assert args[..|args|] == args;
  }

  // ------------------------------------------------ how a server reads them

  datatype Split = Split(text: string, rest: string)

  // Up to the first CRLF.
  function TakeCRLF(s: string): (r: Option<Split>)
    ensures r.Some? ==> |r.value.rest| < |s|
  {
    if s == "" then None
    else if CRLF <= s then Some(Split("", s[2..]))
    else
      match TakeCRLF(s[1..])
      case None => None
      case Some(Split(text, rest)) => Some(Split([s[0]] + text, rest))
  }

  // A marker, a decimal length and CRLF.
  function TakeLength(marker: char, s: string): (r: Option<(nat, string)>)
    ensures r.Some? ==> |r.value.1| < |s|
  {
    if s == "" || s[0] != marker then None
    else
      match TakeCRLF(s[1..])
      case None => None
      case Some(Split(text, rest)) =>
        match ParseNat(text)
        case None => None
        case Some(n) => Some((n, rest))
  }

  function TakeBulk(s: string): (r: Option<Split>)
    ensures r.Some? ==> |r.value.rest| < |s|
  {
    match TakeLength('$', s)
    case None => None
    case Some((n, rest)) =>
      if n + 2 <= |rest| && rest[n..n + 2] == CRLF then Some(Split(rest[..n], rest[n + 2..])) else None
  }

  function TakeBulks(n: nat, s: string): (r: Option<(seq<string>, string)>)
    ensures r.Some? ==> |r.value.1| <= |s|
  {
    if n == 0 then Some(([], s))
    else
      match TakeBulk(s)
      case None => None
      case Some(Split(arg, rest)) =>
        match TakeBulks(n - 1, rest)
        case None => None
        case Some((args, rest')) => Some(([arg] + args, rest'))
  }

  function TakeCommand(s: string): (r: Option<(seq<string>, string)>)
    ensures r.Some? ==> |r.value.1| < |s|
  {
    match TakeLength('*', s)
    case None => None
    case Some((n, rest)) => TakeBulks(n, rest)
  }

  function TakeCommands(s: string): Option<seq<seq<string>>>
    decreases |s|
  {
    if s == "" then Some([])
    else
      match TakeCommand(s)
      case None => None
      case Some((args, rest)) =>
        match TakeCommands(rest)
        case None => None
        case Some(more) => Some([args] + more)
  }

  lemma {:induction false} TakesLine(text: string, rest: string)
    requires '\r' !in text
    ensures TakeCRLF(text + CRLF + rest) == Some(Split(text, rest))
  {
    var s := text + CRLF + rest;
    if text == "" {
      assert s[..2] == CRLF && s[2..] == rest;
    } else {
      assert s[0] == text[0] && s[1..] == text[1..] + CRLF + rest;
      assert !(CRLF <= s);
      TakesLine(text[1..], rest);
      assert [s[0]] + text[1..] == text;
    }
  }

  lemma TakesLength(marker: char, n: nat, s: string, rest: string)
    requires s == [marker] + Decimal(n) + CRLF + rest
    ensures TakeLength(marker, s) == Some((n, rest))
  {
    assert s[1..] == Decimal(n) + CRLF + rest;
    assert '\r' !in Decimal(n);
    TakesLine(Decimal(n), rest);
    DecimalReads(n);
  }

  lemma TakesBulk(arg: string, rest: string)
    ensures TakeBulk(Bulk(arg) + rest) == Some(Split(arg, rest))
  {
    var tail := arg + CRLF + rest;
    assert Bulk(arg) + rest == ['$'] + Decimal(|arg|) + CRLF + tail;
    TakesLength('$', |arg|, Bulk(arg) + rest, tail);
    assert tail[..|arg|] == arg && tail[|arg|..|arg| + 2] == CRLF && tail[|arg| + 2..] == rest;
  }

  lemma Associate(a: string, b: string, c: string)
    ensures (a + b) + c == a + (b + c)
  {
  }

  // The last bulk goes after whatever is in front of it.
  lemma BulksLast(args: seq<string>, last: string)
    ensures Bulks(args + [last]) == Bulks(args) + Bulk(last)
  {
    assert (args + [last])[..|args|] == args;
  }

  lemma {:induction false} BulksFirst(first: string, args: seq<string>)
    ensures Bulks([first] + args) == Bulk(first) + Bulks(args)
  {
    if args == [] {
      BulksLast([], first);
      assert [] + [first] == [first] + args;
    } else {
      var before, last := args[..|args| - 1], args[|args| - 1];
      BulksFirst(first, before);
      BulksLast([first] + before, last);
      BulksLast(before, last);
      assert [first] + args == [first] + before + [last] && args == before + [last];
      Associate(Bulk(first), Bulks(before), Bulk(last));
    }
  }

  lemma {:induction false} TakesBulks(args: seq<string>, rest: string)
    ensures TakeBulks(|args|, Bulks(args) + rest) == Some((args, rest))
  {
    if args == [] {
      assert Bulks(args) + rest == rest;
    } else {
      var tail := Bulks(args[1..]) + rest;
      BulksFirst(args[0], args[1..]);
      assert [args[0]] + args[1..] == args;
      assert Bulks(args) + rest == Bulk(args[0]) + tail;
      TakesBulk(args[0], tail);
      TakesBulks(args[1..], rest);
      assert [args[0]] + args[1..] == args;
    }
  }

  // Whatever bytes the arguments contain, a server reads back exactly the arguments,
  // and leaves exactly what follows the command.
  lemma CommandRoundTrip(args: seq<string>, rest: string)
    ensures TakeCommand(Command(args) + rest) == Some((args, rest))
  {
    var s, tail := Command(args) + rest, Bulks(args) + rest;
    assert s == ['*'] + Decimal(|args|) + CRLF + tail;
    TakesLength('*', |args|, s, tail);
    TakesBulks(args, rest);
  }

  function Stream(commands: seq<seq<string>>): string {
    if commands == [] then "" else Command(commands[0]) + Stream(commands[1..])
  }

  // A run of commands on one connection is read back as that run,
  lemma {:induction false} StreamRoundTrip(commands: seq<seq<string>>)
    ensures TakeCommands(Stream(commands)) == Some(commands)
  {
    if commands != [] {
      CommandRoundTrip(commands[0], Stream(commands[1..]));
      StreamRoundTrip(commands[1..]);
      assert [commands[0]] + commands[1..] == commands;
    }
  }

  // so no bytes can stand for two different runs.
  lemma StreamIsUnambiguous(a: seq<seq<string>>, b: seq<seq<string>>)
    requires Stream(a) == Stream(b)
    ensures a == b
  {
    StreamRoundTrip(a);
    StreamRoundTrip(b);
  }
}
