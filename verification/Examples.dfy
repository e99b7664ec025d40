/** Texts and bytes as the formats' own documents write them: RESP, CIDR notation and
    decimal numbers. What elsewhere is said of a printer and its reader together is tied
    down here on either side. */
module Examples {
  import opened Text
  import opened Addresses
  import opened Decimals
  import opened Resp
  import opened Replying
  import opened ReplyRoundTrip

  // Decimal notation, digit by digit.
  lemma Digits(n: nat)
    ensures n < 10 ==> Decimal(n) == ["0123456789"[n]]
    ensures n >= 10 ==> Decimal(n) == Decimal(n / 10) + Decimal(n % 10)
    ensures FormatInt(n) == Decimal(n) && (n > 0 ==> FormatInt(0 - n) == "-" + Decimal(n))
  {
  }

  lemma Widths()
    ensures MIN_INT64 == -9223372036854775808 && MAX_INT64 == 9223372036854775807
  {
  }

  // A command of two arguments, as the specification of RESP writes LLEN mylist.
  lemma ACommand(a: string, b: string)
    ensures Command([a, b]) ==
      "*2\r\n" + ("$" + Decimal(|a|) + "\r\n" + a + "\r\n") + ("$" + Decimal(|b|) + "\r\n" + b + "\r\n")
  {
    Digits(2);
    BulksLast([], a);
    BulksLast([a], b);
    assert [] + [a] == [a] && [a] + [b] == [a, b];
  }

  // One reply of each kind.
  lemma AStatus()
    ensures TakeReply("+OK\r\n") == Got(Success(Text("OK")), "")
  {
    assert "+OK\r\n" == Encode(SimpleWire("OK")) + "";
    ReplyRoundTrips(SimpleWire("OK"), "");
  }

  lemma AnError()
    ensures TakeReply("-ERR no\r\n") == Got(Fail(Text("ERR no")), "")
  {
    assert "-ERR no\r\n" == Encode(ErrorWire("ERR no")) + "";
    ReplyRoundTrips(ErrorWire("ERR no"), "");
  }

  lemma AnInteger()
    ensures TakeReply(":-7\r\n") == Got(WithResult(Number(-7)), "")
  {
    Digits(7);
    assert ":-7\r\n" == Encode(ItemWire(IntItem(-7))) + "";
    ReplyRoundTrips(ItemWire(IntItem(-7)), "");
  }

  lemma ABulk()
    ensures TakeReply("$2\r\nok\r\n") == Got(WithResult(Text("ok")), "")
  {
    Digits(2);
    assert "$2\r\nok\r\n" == Encode(ItemWire(BulkItem("ok"))) + "";
    ReplyRoundTrips(ItemWire(BulkItem("ok")), "");
  }

  // An array: the number of items, and then the items as they are by themselves.
  lemma AnArray(first: Item, others: seq<Item>)
    ensures Encode(ArrayWire([first] + others)) == "*" + Decimal(|others| + 1) + "\r\n" + EncodeItems([first] + others)
    ensures EncodeItems([first] + others) == EncodeItem(first) + EncodeItems(others)
  {
    CodesOfBoth(first, others);
    FirstCode(EncodeItem(first), CodesOf(others));
  }

  lemma CodesOfBoth(first: Item, others: seq<Item>)
    ensures CodesOf([first] + others) == [EncodeItem(first)] + CodesOf(others)
  {
  }

  lemma AnItem(n: int, s: string)
    ensures EncodeItem(IntItem(n)) == ":" + FormatInt(n) + "\r\n"
    ensures EncodeItem(BulkItem(s)) == "$" + Decimal(|s|) + "\r\n" + s + "\r\n"
  {
  }

  lemma FirstCode(code: string, codes: seq<string>)
    ensures Concat([code] + codes) == code + Concat(codes)
  {
    assert ([code] + codes)[1..] == codes;
  }

  function Mapped(a: Byte, b: Byte, c: Byte, d: Byte): (addr: Addr)
    ensures IsV4(addr)
  {
    [0, 0, 0, 0, 0, 0, 0, 0, 0, 0, 0xff, 0xff, a, b, c, d]
  }

  // 10.0.0.0/8 holds 10.1.2.3 and not 11.0.0.1; 10.0.0.0/9 holds 10.127.0.1 and not 10.128.0.1.
  lemma Networks()
    ensures InNetwork(V4Net([10, 0, 0, 0], 8), Mapped(10, 1, 2, 3))
    ensures !InNetwork(V4Net([10, 0, 0, 0], 8), Mapped(11, 0, 0, 1))
    ensures InNetwork(V4Net([10, 0, 0, 0], 9), Mapped(10, 127, 0, 1))
    ensures !InNetwork(V4Net([10, 0, 0, 0], 9), Mapped(10, 128, 0, 1))
  {
    assert Mapped(10, 1, 2, 3)[12..] == [10, 1, 2, 3];
    assert Mapped(11, 0, 0, 1)[12..] == [11, 0, 0, 1];
    assert Mapped(10, 127, 0, 1)[12..] == [10, 127, 0, 1];
    assert Mapped(10, 128, 0, 1)[12..] == [10, 128, 0, 1];
    assert Masked([10, 0, 0, 0], 8)[0] != Masked([11, 0, 0, 1], 8)[0];
    assert Masked([10, 0, 0, 0], 9)[1] != Masked([10, 128, 0, 1], 9)[1];
    assert Masked([10, 1, 2, 3], 8) == Masked([10, 0, 0, 0], 8);
    assert Masked([10, 127, 0, 1], 9) == Masked([10, 0, 0, 0], 9);
  }
}
