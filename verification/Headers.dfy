/** Request headers as net/http keeps them: a map on canonical names. */
module Headers {

  type Header = map<string, seq<string>>

  function Upper(c: char): char {
    if 'a' <= c <= 'z' then (c as int - 32) as char else c
  }

  function Lower(c: char): char {
    if 'A' <= c <= 'Z' then (c as int + 32) as char else c
  }

  // A capital at the start and after each dash, small letters elsewhere.
  function Canonical(name: string): (key: string)
    ensures |key| == |name|
  {
    seq(|name|, i requires 0 <= i < |name| =>
      if i == 0 || name[i - 1] == '-' then Upper(name[i]) else Lower(name[i]))
  }

  function Get(h: Header, name: string): string {
    var key := Canonical(name);
    if key in h && h[key] != [] then h[key][0] else ""
  }

  function Del(h: Header, name: string): Header {
    h - {Canonical(name)}
  }

  function Set(h: Header, name: string, value: string): Header {
    h[Canonical(name) := [value]]
  }

  // The same letter, large or small, or the same character.
  predicate SameLetter(c: char, d: char) {
    || c == d
    || ('a' <= c <= 'z' && d as int == c as int - 32)
    || ('a' <= d <= 'z' && c as int == d as int - 32)
  }

  // Names are those of one header exactly if they differ in the size of letters only.
  lemma SameHeaderExactly(name: string, other: string)
    ensures Canonical(name) == Canonical(other) <==>
      |name| == |other| && forall i :: 0 <= i < |name| ==> SameLetter(name[i], other[i])
  {
    if |name| == |other| {
      if forall i :: 0 <= i < |name| ==> SameLetter(name[i], other[i]) {
        assert Canonical(name) == Canonical(other);
      }
      if Canonical(name) == Canonical(other) {
        SameUpTo(name, other, |name|);
      }
    }
  }

  lemma {:induction false} SameUpTo(name: string, other: string, n: nat)
    requires n <= |name| == |other| && Canonical(name) == Canonical(other)
    ensures forall i :: 0 <= i < n ==> SameLetter(name[i], other[i])
  {
    if n > 0 {
      SameUpTo(name, other, n - 1);
      assert Canonical(name)[n - 1] == Canonical(other)[n - 1];
      assert n > 1 ==> (name[n - 2] == '-' <==> other[n - 2] == '-');
    }
  }
}
