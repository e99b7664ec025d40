/** The text functions of Go's library that the client-address code rests on:
    strings.Split on a comma, strings.TrimSpace, and net.SplitHostPort. */
module Text {
  import opened Wrappers

  // ------------------------------------------------ strings.TrimSpace

  predicate IsSpace(c: char) {
    || '\t' <= c <= '\r' || c == ' '
    || c == '\U{0085}' || c == '\U{00A0}' || c == '\U{1680}'
    || '\U{2000}' <= c <= '\U{200A}'
    || c == '\U{2028}' || c == '\U{2029}' || c == '\U{202F}' || c == '\U{205F}' || c == '\U{3000}'
  }

  predicate Blank(s: string) {
    forall i :: 0 <= i < |s| ==> IsSpace(s[i])
  }

  function TrimLeft(s: string): string {
    if s != "" && IsSpace(s[0]) then TrimLeft(s[1..]) else s
  }

  function TrimRight(s: string): string {
    if s != "" && IsSpace(s[|s| - 1]) then TrimRight(s[..|s| - 1]) else s
  }

  function TrimSpace(s: string): string {
    TrimRight(TrimLeft(s))
  }

  // Text with no space at either end.
  predicate Tight(s: string) {
    s == "" || (!IsSpace(s[0]) && !IsSpace(s[|s| - 1]))
  }

  lemma {:induction false} TrimLeftPad(pad: string, s: string)
    requires Blank(pad)
    ensures TrimLeft(pad + s) == TrimLeft(s)
  {
    if pad == "" {
      assert pad + s == s;
    } else {
      assert (pad + s)[1..] == pad[1..] + s;
      TrimLeftPad(pad[1..], s);
    }
  }

  lemma {:induction false} TrimRightPad(s: string, pad: string)
    requires Blank(pad)
    ensures TrimRight(s + pad) == TrimRight(s)
  {
    if pad == "" {
      assert s + pad == s;
    } else {
      assert (s + pad)[..|s + pad| - 1] == s + pad[..|pad| - 1];
      TrimRightPad(s, pad[..|pad| - 1]);
    }
  }

  // Spaces around tight text are what TrimSpace takes away.
  lemma TrimPadded(left: string, s: string, right: string)
    requires Blank(left) && Blank(right) && Tight(s) && s != ""
    ensures TrimSpace(left + s + right) == s
  {
    assert left + s + right == left + (s + right);
    TrimLeftPad(left, s + right);
    assert TrimLeft(s + right) == s + right;
    TrimRightPad(s, right);
  }

  lemma {:induction false} TrimLeftFinds(s: string, i: nat)
    requires i < |s| && !IsSpace(s[i])
    ensures TrimLeft(s) != "" && s[i] in TrimLeft(s)
  {
    if IsSpace(s[0]) {
      assert s[1..][i - 1] == s[i];
      TrimLeftFinds(s[1..], i - 1);
    }
  }

  lemma {:induction false} TrimRightFinds(s: string, i: nat)
    requires i < |s| && !IsSpace(s[i])
    ensures TrimRight(s) != ""
  {
    if IsSpace(s[|s| - 1]) {
      assert s[..|s| - 1][i] == s[i];
      TrimRightFinds(s[..|s| - 1], i);
    }
  }

  // TrimSpace leaves nothing exactly of blank text.
  lemma TrimNothing(s: string)
    ensures TrimSpace(s) == "" <==> Blank(s)
  {
    if Blank(s) {
      TrimLeftPad(s, "");
      assert s + "" == s;
    } else {
      var i :| 0 <= i < |s| && !IsSpace(s[i]);
      TrimLeftFinds(s, i);
      var t := TrimLeft(s);
      var j :| 0 <= j < |t| && t[j] == s[i];
      TrimRightFinds(t, j);
    }
  }

  // ------------------------------------------------ strings.Split(s, ",")

  function Split(s: string): (parts: seq<string>)
    ensures parts != []
  {
    if s == "" then [""]
    else if s[0] == ',' then [""] + Split(s[1..])
    else
      var rest := Split(s[1..]);
      [[s[0]] + rest[0]] + rest[1..]
  }

  // Joining two texts with a comma puts their parts side by side.
  lemma {:induction false} SplitJoined(a: string, b: string)
    ensures Split(a + "," + b) == Split(a) + Split(b)
  {
    var s := a + "," + b;
    if a == "" {
      assert s[1..] == b;
    } else {
      assert s[1..] == a[1..] + "," + b;
      SplitJoined(a[1..], b);
    }
  }

  // Text without a comma, in front, belongs to the first part.
  lemma {:induction false} SplitPadded(pad: string, s: string)
    requires ',' !in pad
    ensures Split(pad + s) == [pad + Split(s)[0]] + Split(s)[1..]
  {
    if pad == "" {
      assert pad + s == s && pad + Split(s)[0] == Split(s)[0];
    } else {
      assert (pad + s)[1..] == pad[1..] + s;
      SplitPadded(pad[1..], s);
      assert [pad[0]] + (pad[1..] + Split(s)[0]) == pad + Split(s)[0];
    }
  }

  lemma {:induction false} SplitSingle(s: string)
    requires ',' !in s
    ensures Split(s) == [s]
  {
    if s != "" {
      SplitSingle(s[1..]);
      assert [s[0]] + s[1..] == s;
    }
  }

  // The parts of joined texts, as a header built by successive proxies.
  function Join(parts: seq<string>): string
    requires parts != []
  {
    if |parts| == 1 then parts[0] else Join(parts[..|parts| - 1]) + "," + parts[|parts| - 1]
  }

  lemma {:induction false} SplitJoin(parts: seq<string>)
    requires parts != [] && forall i :: 0 <= i < |parts| ==> ',' !in parts[i]
    ensures Split(Join(parts)) == parts
  {
    if |parts| == 1 {
      SplitSingle(parts[0]);
    } else {
      var before, last := parts[..|parts| - 1], parts[|parts| - 1];
      SplitJoin(before);
      SplitJoined(Join(before), last);
      SplitSingle(last);
    }
  }

  // ------------------------------------------------ net.SplitHostPort

  function IndexOf(s: string, c: char): (i: Option<nat>)
    ensures i.Some? ==> i.value < |s| && s[i.value] == c
  {
    if s == "" then None
    else if s[0] == c then Some(0)
    else
      match IndexOf(s[1..], c)
      case None => None
      case Some(i) => Some(i + 1)
  }

  function LastIndexOf(s: string, c: char): (i: Option<nat>)
    ensures i.Some? ==> i.value < |s|
  {
    if s == "" then None
    else if s[|s| - 1] == c then Some(|s| - 1)
    else LastIndexOf(s[..|s| - 1], c)
  }

  lemma {:induction false} IndexOfAt(head: string, c: char, tail: string)
    requires c !in head
    ensures IndexOf(head + [c] + tail, c) == Some(|head|)
  {
    var s := head + [c] + tail;
    if head != "" {
      assert s[0] == head[0] && s[1..] == head[1..] + [c] + tail;
      IndexOfAt(head[1..], c, tail);
    }
  }

  lemma {:induction false} LastIndexOfAt(head: string, c: char, tail: string)
    requires c !in tail
    ensures LastIndexOf(head + [c] + tail, c) == Some(|head|)
  {
    var s := head + [c] + tail;
    if tail != "" {
      assert s[|s| - 1] == tail[|tail| - 1] && s[..|s| - 1] == head + [c] + tail[..|tail| - 1];
      LastIndexOfAt(head, c, tail[..|tail| - 1]);
    }
  }

  lemma {:induction false} LastIndexOfNone(s: string, c: char)
    ensures LastIndexOf(s, c) == None <==> c !in s
    ensures LastIndexOf(s, c).Some? ==> forall k :: LastIndexOf(s, c).value < k < |s| ==> s[k] != c
  {
    if s != "" && s[|s| - 1] != c {
      LastIndexOfNone(s[..|s| - 1], c);
      assert s == s[..|s| - 1] + [s[|s| - 1]];
    }
  }

  datatype HostPort = HostPort(host: string, port: string)

  // None stands for any of the library's errors.
  function SplitHostPort(s: string): Option<HostPort> {
    match LastIndexOf(s, ':')
    case None => None
    case Some(i) =>
      if s[0] == '[' then
        match IndexOf(s, ']')
        case None => None
        case Some(end) =>
          if end + 1 != i then None
          else if '[' in s[1..] || ']' in s[end + 1..] then None
          else Some(HostPort(s[1..end], s[i + 1..]))
      else if ':' in s[..i] then None
      else if '[' in s || ']' in s then None
      else Some(HostPort(s[..i], s[i + 1..]))
  }

  // Characters that SplitHostPort gives a meaning to.
  predicate NoMarks(s: string) {
    ':' !in s && '[' !in s && ']' !in s
  }

  lemma SplitPlain(host: string, port: string)
    requires NoMarks(host) && NoMarks(port)
    ensures SplitHostPort(host + ":" + port) == Some(HostPort(host, port))
  {
    var s := host + ":" + port;
    LastIndexOfAt(host, ':', port);
    assert s[|host| + 1..] == port && s[..|host|] == host;
  }

  lemma SplitBracketed(host: string, port: string)
    requires '[' !in host && ']' !in host && NoMarks(port)
    ensures SplitHostPort("[" + host + "]:" + port) == Some(HostPort(host, port))
  {
    BracketedMarks(host, port, "[" + host + "]:" + port);
    BracketedParts(host, port);
  }

  lemma BracketedMarks(host: string, port: string, s: string)
    requires ']' !in host && ':' !in port && s == "[" + host + "]:" + port
    ensures LastIndexOf(s, ':') == Some(|host| + 2)
    ensures IndexOf(s, ']') == Some(|host| + 1)
  {
    LastIndexOfIs("[" + host + "]", ':', port, s);
    IndexOfIs("[" + host, ']', ":" + port, s);
  }

  lemma LastIndexOfIs(head: string, c: char, tail: string, s: string)
    requires c !in tail && s == head + [c] + tail
    ensures LastIndexOf(s, c) == Some(|head|)
  {
    LastIndexOfAt(head, c, tail);
  }

  lemma IndexOfIs(head: string, c: char, tail: string, s: string)
    requires c !in head && s == head + [c] + tail
    ensures IndexOf(s, c) == Some(|head|)
  {
    IndexOfAt(head, c, tail);
  }

  lemma BracketedParts(host: string, port: string)
    ensures var s, end := "[" + host + "]:" + port, |host| + 1;
      && s[0] == '[' && s[1..end] == host && s[end + 2..] == port
      && s[1..] == host + "]:" + port && s[end + 1..] == ":" + port
  {
  }

  // Text with no colon, or with two and no brackets, is not a host and port.
  lemma NoPort(s: string, i: nat, j: nat)
    requires ':' !in s || (i < j < |s| && s[i] == ':' && s[j] == ':' && '[' !in s)
    ensures SplitHostPort(s) == None
  {
    LastIndexOfNone(s, ':');
    if ':' in s {
      var last := LastIndexOf(s, ':').value;
      assert s[..last][i] == ':';
    }
  }

  // A bracketed host without a port is not a host and port either.
  lemma BracketsOnly(host: string)
    requires '[' !in host && ']' !in host
    ensures SplitHostPort("[" + host + "]") == None
  {
    var s := "[" + host + "]";
    assert s == ("[" + host) + "]" + "";
    IndexOfAt("[" + host, ']', "");
  }
}
