/** UTF-8, as section 3 of RFC 3629 defines it: text to octets and back. */
module Utf8 {
  import opened Common

  function EncodeChar(c: char): (bs: Bytes)
    ensures 1 <= |bs| <= 4
  {
    var n := c as int;
    if n < 0x80 then [n as byte]
    else if n < 0x800 then [(0xC0 + n / 64) as byte, Trail(n)]
    else if n < 0x10000 then [(0xE0 + n / 4096) as byte, Trail(n / 64), Trail(n)]
    else [(0xF0 + n / 262144) as byte, Trail(n / 4096), Trail(n / 64), Trail(n)]
  }

  /** A continuation octet: the lowest six bits of a number. */
  function Trail(n: nat): byte {
    (0x80 + n % 64) as byte
  }

  function Encode(s: string): Bytes {
    if s == [] then [] else EncodeChar(s[0]) + Encode(s[1..])
  }

  predicate IsTrail(b: byte) {
    0x80 <= b < 0xC0
  }

  function Six(b: byte): nat
    requires IsTrail(b)
  {
    b as nat - 0x80
  }

  predicate IsScalar(n: int) {
    0 <= n < 0xD800 || 0xE000 <= n < 0x110000
  }

  /** The number one sequence of octets stands for and how many octets it has, if it is well formed. */
  function DecodeNumber(bs: Bytes): (r: Option<(nat, nat)>)
    ensures r.Some? ==> 1 <= r.value.1 <= |bs|
  {
    if bs == [] then None
    else if bs[0] < 0x80 then Some((bs[0] as nat, 1))
    else if 0xC2 <= bs[0] < 0xE0 && |bs| >= 2 && IsTrail(bs[1]) then
      Some(((bs[0] as nat - 0xC0) * 64 + Six(bs[1]), 2))
    else if 0xE0 <= bs[0] < 0xF0 && |bs| >= 3 && IsTrail(bs[1]) && IsTrail(bs[2]) then
      var n := (bs[0] as nat - 0xE0) * 4096 + Six(bs[1]) * 64 + Six(bs[2]);
      if n >= 0x800 then Some((n, 3)) else None
    else if 0xF0 <= bs[0] < 0xF5 && |bs| >= 4 && IsTrail(bs[1]) && IsTrail(bs[2]) && IsTrail(bs[3]) then
      var n := (bs[0] as nat - 0xF0) * 262144 + Six(bs[1]) * 4096 + Six(bs[2]) * 64 + Six(bs[3]);
      if n >= 0x10000 then Some((n, 4)) else None
    else None
  }

  /** The text a sequence of octets stands for; a malformed one stands for none. */
  function Decode(bs: Bytes): Option<string>
    decreases |bs|
  {
    if bs == [] then Some([])
    else
      match DecodeNumber(bs)
      case None => None
      case Some((n, k)) =>
        if !IsScalar(n) then None
        else
          match Decode(bs[k..])
          case None => None
          case Some(rest) => Some([n as char] + rest)
  }

  lemma SplitSix(n: nat)
    ensures n == (n / 64) * 64 + n % 64
    ensures n / 4096 == n / 64 / 64 && n / 262144 == n / 4096 / 64
    ensures Six(Trail(n)) == n % 64
  {
  }

  lemma DecodeThree(n: nat, rest: Bytes)
    requires 0x800 <= n < 0x10000
    ensures DecodeNumber([(0xE0 + n / 4096) as byte, Trail(n / 64), Trail(n)] + rest) == Some((n, 3))
  {
    hide Trail, Six;
    SplitSix(n);
    SplitSix(n / 64);
    var bs := [(0xE0 + n / 4096) as byte, Trail(n / 64), Trail(n)] + rest;
    TrailIsTrail(n);
    TrailIsTrail(n / 64);
    assert bs[0] == (0xE0 + n / 4096) as byte && bs[1] == Trail(n / 64) && bs[2] == Trail(n);
  }

  lemma DecodeFour(n: nat, rest: Bytes)
    requires 0x10000 <= n < 0x110000
    ensures DecodeNumber([(0xF0 + n / 262144) as byte, Trail(n / 4096), Trail(n / 64), Trail(n)] + rest) == Some((n, 4))
  {
    hide Trail, Six;
    SplitSix(n);
    SplitSix(n / 64);
    SplitSix(n / 4096);
    var bs := [(0xF0 + n / 262144) as byte, Trail(n / 4096), Trail(n / 64), Trail(n)] + rest;
    TrailIsTrail(n);
    TrailIsTrail(n / 64);
    TrailIsTrail(n / 4096);
    assert bs[0] == (0xF0 + n / 262144) as byte && bs[1] == Trail(n / 4096) && bs[2] == Trail(n / 64) && bs[3] == Trail(n);
  }

  lemma TrailIsTrail(n: nat)
    ensures IsTrail(Trail(n))
  {
  }

  lemma DecodeNumberOfChar(c: char, rest: Bytes)
    ensures DecodeNumber(EncodeChar(c) + rest) == Some((c as nat, |EncodeChar(c)|))
  {
    hide Six;
    var n := c as int;
    if 0x80 <= n < 0x800 {
      SplitSix(n);
    } else if 0x800 <= n < 0x10000 {
      hide DecodeNumber;
      DecodeThree(n, rest);
    } else if 0x10000 <= n {
      hide DecodeNumber;
      DecodeFour(n, rest);
    }
  }

  /** Decoding gives the text back. */
  lemma {:induction false} RoundTrip(s: string)
    ensures Decode(Encode(s)) == Some(s)
    decreases |s|
  {
    hide EncodeChar, DecodeNumber;
    if s != [] {
      var bs := EncodeChar(s[0]) + Encode(s[1..]);
      DecodeNumberOfChar(s[0], Encode(s[1..]));
      assert bs[|EncodeChar(s[0])|..] == Encode(s[1..]);
      RoundTrip(s[1..]);
      assert [s[0]] + s[1..] == s;
    }
  }

  lemma {:induction false} EncodeConcat(a: string, b: string)
    ensures Encode(a + b) == Encode(a) + Encode(b)
    decreases |a|
  {
    if a == [] {
      assert a + b == b;
    } else {
      assert (a + b)[1..] == a[1..] + b;
      EncodeConcat(a[1..], b);
    }
  }

  /** The zero octet stands for the NUL character and for nothing else. */
  lemma {:induction false} NoNul(s: string)
    requires '\0' !in s
    ensures 0 !in Encode(s)
    decreases |s|
  {
    if s != [] {
      assert s[0] in s;
      NoNul(s[1..]);
    }
  }

  /** The examples of section 7 of RFC 3629, with one to four octets a character. */
  lemma PublishedExamples()
    ensures Encode("A\U{2262}\U{0391}.") == [0x41, 0xE2, 0x89, 0xA2, 0xCE, 0x91, 0x2E]
    ensures Encode("\U{233B4}") == [0xF0, 0xA3, 0x8E, 0xB4]
  {
    assert "A\U{2262}\U{0391}."[1..] == "\U{2262}\U{0391}." && "\U{2262}\U{0391}."[1..] == "\U{0391}.";
    assert "\U{0391}."[1..] == "." && "."[1..] == "" && "\U{233B4}"[1..] == "";
  }
}
