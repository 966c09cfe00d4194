/**
  UTF-8 as Python's strict codec reads and writes it (section 3 of RFC 3629):
  shortest forms only, no surrogates, nothing above U+10FFFF.
 */
module Utf8 {
  import opened Basics

  function EncodeChar(c: char): (r: Bytes)
    ensures 1 <= |r| <= 4
  {
    var n := c as int;
    if n < 0x80 then [n]
    else if n < 0x800 then [0xC0 + n / 64, 0x80 + n % 64]
    else if n < 0x10000 then [0xE0 + n / 4096, 0x80 + n / 64 % 64, 0x80 + n % 64]
    else [0xF0 + n / 262144, 0x80 + n / 4096 % 64, 0x80 + n / 64 % 64, 0x80 + n % 64]
  }

  function Encode(s: string): Bytes {
    if s == "" then [] else EncodeChar(s[0]) + Encode(s[1..])
  }

  predicate Continues(b: Byte) { 0x80 <= b < 0xC0 }

  predicate ScalarValue(n: int) { 0 <= n < 0xD800 || 0xE000 <= n < 0x110000 }

  /** The number written by the payload bits of a 2-, 3- or 4-byte sequence. */
  function Bits2(b0: int, b1: int): int { (b0 - 0xC0) * 64 + (b1 - 0x80) }
  function Bits3(b0: int, b1: int, b2: int): int { (b0 - 0xE0) * 4096 + (b1 - 0x80) * 64 + (b2 - 0x80) }
  function Bits4(b0: int, b1: int, b2: int, b3: int): int {
    (b0 - 0xF0) * 262144 + (b1 - 0x80) * 4096 + (b2 - 0x80) * 64 + (b3 - 0x80)
  }

  /** The scalar value that `b` begins with and the number of bytes it takes. */
  function DecodeFirst(b: Bytes): (r: Option<(char, nat)>)
    ensures r.Some? ==> 1 <= r.value.1 <= |b|
  {
    if b == [] then None
    else if b[0] < 0x80 then Some((b[0] as char, 1))
    else if 0xC2 <= b[0] < 0xE0 && |b| >= 2 && Continues(b[1]) then
      Some((Bits2(b[0], b[1]) as char, 2))
    else if 0xE0 <= b[0] < 0xF0 && |b| >= 3 && Continues(b[1]) && Continues(b[2]) then
      var n := Bits3(b[0], b[1], b[2]);
      if 0x800 <= n && ScalarValue(n) then Some((n as char, 3)) else None
    else if 0xF0 <= b[0] < 0xF5 && |b| >= 4 && Continues(b[1]) && Continues(b[2]) && Continues(b[3]) then
      var n := Bits4(b[0], b[1], b[2], b[3]);
      if 0x10000 <= n && ScalarValue(n) then Some((n as char, 4)) else None
    else None
  }

  function Decode(b: Bytes): Option<string> {
    if b == [] then Some("")
    else
      var (c, k) :- DecodeFirst(b);
      var rest :- Decode(b[k..]);
      Some([c] + rest)
  }

  /** Base-64 digits: writing them out and reading them back, both ways. */
  lemma DigitsOf(n: nat)
    ensures n == n / 64 * 64 + n % 64
    ensures n == n / 4096 * 4096 + n / 64 % 64 * 64 + n % 64
    ensures n == n / 262144 * 262144 + n / 4096 % 64 * 4096 + n / 64 % 64 * 64 + n % 64
  {
    assert n / 4096 == n / 64 / 64;
    assert n / 262144 == n / 4096 / 64;
  }

  lemma DigitsUnique(a: int, b: int, c: int, d: int)
    requires 0 <= a && 0 <= b < 64 && 0 <= c < 64 && 0 <= d < 64
    ensures var n := a * 262144 + b * 4096 + c * 64 + d;
      n / 262144 == a && n / 4096 % 64 == b && n / 64 % 64 == c && n % 64 == d
      && n / 4096 == a * 64 + b && n / 64 == a * 4096 + b * 64 + c
  {
    var n := a * 262144 + b * 4096 + c * 64 + d;
    assert n / 64 == a * 4096 + b * 64 + c;
    assert n / 4096 == a * 64 + b;
  }

  lemma DecodeFirstOfEncoded(c: char, rest: Bytes)
    ensures DecodeFirst(EncodeChar(c) + rest) == Some((c, |EncodeChar(c)|))
  {
    var n := c as int;
    var e := EncodeChar(c);
    var b := e + rest;
    assert forall i | 0 <= i < |e| :: b[i] == e[i];
    DigitsOf(n);
    if 0x80 <= n < 0x800 {
      assert Bits2(b[0], b[1]) == n;
    } else if 0x800 <= n < 0x10000 {
      assert Bits3(b[0], b[1], b[2]) == n;
    } else if 0x10000 <= n {
      assert n / 262144 < 5;
      assert Bits4(b[0], b[1], b[2], b[3]) == n;
    }
  }

  lemma EncodedOfDecodeFirst(b: Bytes)
    requires DecodeFirst(b).Some?
    ensures var (c, k) := DecodeFirst(b).value; b[..k] == EncodeChar(c)
  {
    var (c, k) := DecodeFirst(b).value;
    if k == 2 {
      DigitsUnique(0, 0, b[0] - 0xC0, b[1] - 0x80);
      assert b[..k] == [b[0], b[1]];
    } else if k == 3 {
      DigitsUnique(0, b[0] - 0xE0, b[1] - 0x80, b[2] - 0x80);
      assert b[..k] == [b[0], b[1], b[2]];
    } else if k == 4 {
      DigitsUnique(b[0] - 0xF0, b[1] - 0x80, b[2] - 0x80, b[3] - 0x80);
      assert b[..k] == [b[0], b[1], b[2], b[3]];
    }
  }

  /** Decoding undoes encoding. */
  lemma {:induction false} DecodeEncode(s: string)
    ensures Decode(Encode(s)) == Some(s)
  {
    if s != "" {
      var head := EncodeChar(s[0]);
      DecodeFirstOfEncoded(s[0], Encode(s[1..]));
      assert Encode(s)[|head|..] == Encode(s[1..]);
      DecodeEncode(s[1..]);
      assert [s[0]] + s[1..] == s;
    }
  }

  lemma EncodeCons(c: char, s: string)
    ensures Encode([c] + s) == EncodeChar(c) + Encode(s)
  {
    assert ([c] + s)[1..] == s;
  }

  /** What decodes is exactly the encoding of the text it decodes to. */
  lemma {:induction false} EncodeDecode(b: Bytes)
    requires Decode(b).Some?
    ensures Encode(Decode(b).value) == b
  {
    hide DecodeFirst;
    if b != [] {
      var (c, k) := DecodeFirst(b).value;
      var rest := Decode(b[k..]).value;
      EncodedOfDecodeFirst(b);
      EncodeDecode(b[k..]);
      EncodeCons(c, rest);
      assert b == b[..k] + b[k..];
    }
  }

  lemma EncodeInjective(s: string, t: string)
    requires Encode(s) == Encode(t)
    ensures s == t
  {
    DecodeEncode(s);
    DecodeEncode(t);
  }

  lemma {:induction false} EncodeConcat(s: string, t: string)
    ensures Encode(s + t) == Encode(s) + Encode(t)
  {
    if s == "" {
      assert s + t == t;
    } else {
      EncodeConcat(s[1..], t);
      assert (s + t)[1..] == s[1..] + t;
      assert (s + t)[0] == s[0];
    }
  }

  predicate Ascii(s: string) { forall i | 0 <= i < |s| :: s[i] < 128 as char }

  lemma {:induction false} EncodeAscii(s: string)
    requires Ascii(s)
    ensures |Encode(s)| == |s|
    ensures forall i | 0 <= i < |s| :: Encode(s)[i] == s[i] as int
  {
    if s != "" {
      EncodeAscii(s[1..]);
      assert forall i | 1 <= i < |s| :: Encode(s)[i] == Encode(s[1..])[i - 1];
    }
  }
}
