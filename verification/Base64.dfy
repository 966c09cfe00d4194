/**
  Base64 as the canonical envelope accepts it (sections 4 and 5 of RFC 4648):
  either alphabet, padded or not, with a length computed before decoding.
 */
module Base64 {
  import opened Basics

  // ----- symbols

  predicate IsLetterOrDigit(c: char) { 'A' <= c <= 'Z' || 'a' <= c <= 'z' || '0' <= c <= '9' }

  /** The standard alphabet. */
  predicate IsSymbol(c: char) { IsLetterOrDigit(c) || c == '+' || c == '/' }

  function Sextet(c: char): (r: int)
    requires IsSymbol(c)
    ensures 0 <= r < 64
  {
    if 'A' <= c <= 'Z' then c as int - 'A' as int
    else if 'a' <= c <= 'z' then c as int - 'a' as int + 26
    else if '0' <= c <= '9' then c as int - '0' as int + 52
    else if c == '+' then 62
    else 63
  }

  function Symbol(n: int): (c: char)
    requires 0 <= n < 64
    ensures IsSymbol(c) && Sextet(c) == n
  {
    if n < 26 then (n + 'A' as int) as char
    else if n < 52 then (n - 26 + 'a' as int) as char
    else if n < 62 then (n - 52 + '0' as int) as char
    else if n == 62 then '+'
    else '/'
  }

  lemma SymbolOfSextet(c: char)
    requires IsSymbol(c)
    ensures Symbol(Sextet(c)) == c
  {
  }

  // ----- the length, without decoding

  /** Python's `text.rstrip("=")`. */
  function Body(text: string): (r: string)
    ensures |r| <= |text| && r == text[..|r|] && (r != "" ==> r[|r| - 1] != '=')
    ensures forall i | |r| <= i < |text| :: text[i] == '='
  {
    if text != "" && text[|text| - 1] == '=' then Body(text[..|text| - 1]) else text
  }

  predicate InAlphabets(s: string) { forall i | 0 <= i < |s| :: IsSymbol(s[i]) || s[i] == '-' || s[i] == '_' }

  predicate Mixes(text: string) { ('+' in text || '/' in text) && ('-' in text || '_' in text) }

  function Base64Length(text: string): Option<nat> {
    var body := Body(text);
    if !InAlphabets(body) || |text| - |body| > 2 then None
    else if Mixes(text) then None
    else if '=' in text && |text| % 4 != 0 then None
    else if |body| % 4 == 1 then None
    else Some(|body| * 3 / 4)
  }

  // ----- decoding

  function Standard(c: char): char { if c == '-' then '+' else if c == '_' then '/' else c }

  function ToStandard(s: string): (r: string)
    ensures |r| == |s| && forall i | 0 <= i < |s| :: r[i] == Standard(s[i])
  {
    seq(|s|, i requires 0 <= i < |s| => Standard(s[i]))
  }

  /** The padding that completes a quartet. */
  function Fill(n: nat): string { seq((4 - n % 4) % 4, _ => '=') }

  function First(a: int, b: int): Byte
    requires 0 <= a < 64 && 0 <= b < 64
  {
    a * 4 + b / 16
  }

  function Second(b: int, c: int): Byte
    requires 0 <= b < 64 && 0 <= c < 64
  {
    b % 16 * 16 + c / 4
  }

  function Third(c: int, d: int): Byte
    requires 0 <= c < 64 && 0 <= d < 64
  {
    c % 4 * 64 + d
  }

  /** Section 4 of RFC 4648, by quartets; only the last may be padded. */
  function StrictDecode(s: string): Option<Bytes> {
    if s == "" then Some([])
    else if |s| < 4 || !IsSymbol(s[0]) || !IsSymbol(s[1]) then None
    else
      var a, b := Sextet(s[0]), Sextet(s[1]);
      if s[2..] == "==" then Some([First(a, b)])
      else if !IsSymbol(s[2]) then None
      else
        var c := Sextet(s[2]);
        if s[3..] == "=" then Some([First(a, b), Second(b, c)])
        else if !IsSymbol(s[3]) then None
        else
          var rest :- StrictDecode(s[4..]);
          Some([First(a, b), Second(b, c), Third(c, Sextet(s[3]))] + rest)
  }

  function DecodeBase64(text: string): Option<Bytes> {
    var length :- Base64Length(text);
    var body := ToStandard(Body(text));
    StrictDecode(body + Fill(|body|))
  }

  // ----- the length agrees with the decoding

  predicate AllSymbols(s: string) { forall i | 0 <= i < |s| :: IsSymbol(s[i]) }

  lemma PadIsNoSymbol()
    ensures !IsSymbol('=')
  {
  }

  lemma QuartetFirst(t: string)
    requires |t| >= 4 && IsSymbol(t[0]) && IsSymbol(t[1]) && IsSymbol(t[2]) && IsSymbol(t[3])
    ensures var a, b, c, d := Sextet(t[0]), Sextet(t[1]), Sextet(t[2]), Sextet(t[3]); var rest := StrictDecode(t[4..]);
      StrictDecode(t) == if rest.None? then None else Some([First(a, b), Second(b, c), Third(c, d)] + rest.value)
  {
    hide Sextet, First, Second, Third, IsSymbol;
    PadIsNoSymbol();
    assert t[2..][0] == t[2] && t[3..][0] == t[3];
  }

  lemma DecodeQuartet(s: string)
    requires |s| >= 4 && AllSymbols(s)
    ensures var a, b, c, d := Sextet(s[0]), Sextet(s[1]), Sextet(s[2]), Sextet(s[3]);
      var rest := StrictDecode(s[4..] + Fill(|s|));
      StrictDecode(s + Fill(|s|)) ==
        if rest.None? then None else Some([First(a, b), Second(b, c), Third(c, d)] + rest.value)
  {
    hide Sextet, First, Second, Third, IsSymbol, Fill, StrictDecode;
    var t := s + Fill(|s|);
    assert t[0] == s[0] && t[1] == s[1] && t[2] == s[2] && t[3] == s[3];
    assert t[4..] == s[4..] + Fill(|s|);
    QuartetFirst(t);
  }

  lemma FillAgain(n: nat)
    requires n >= 4
    ensures Fill(n - 4) == Fill(n)
  {
  }

  lemma {:induction false} LengthOfDecoded(s: string)
    requires AllSymbols(s) && |s| % 4 != 1
    ensures StrictDecode(s + Fill(|s|)).Some? && |StrictDecode(s + Fill(|s|)).value| == |s| * 3 / 4
  {
    if |s| >= 4 {
      LengthOfDecoded(s[4..]);
      FillAgain(|s|);
      DecodeQuartet(s);
    } else if |s| == 2 {
      assert Fill(2) == "==";
      assert (s + "==")[2..] == "==";
    } else if |s| == 3 {
      assert Fill(3) == "=";
      assert (s + "=")[3..] == "=";
    } else {
      assert Fill(0) == "";
    }
  }

  lemma StandardSymbols(s: string)
    requires InAlphabets(s)
    ensures AllSymbols(ToStandard(s))
  {
  }

  /** The length is that of the decoded bytes, and the same texts are refused. */
  lemma LengthAgrees(text: string)
    ensures Base64Length(text).Some? <==> DecodeBase64(text).Some?
    ensures DecodeBase64(text).Some? ==> Base64Length(text) == Some(|DecodeBase64(text).value|)
  {
    if Base64Length(text).Some? {
      StandardSymbols(Body(text));
      LengthOfDecoded(ToStandard(Body(text)));
    }
  }

  // ----- encoding

  /** The symbols for some bytes, unpadded. */
  function Symbols(b: Bytes): (r: string)
    ensures AllSymbols(r)
  {
    if b == [] then ""
    else if |b| == 1 then [Symbol(b[0] / 4), Symbol(b[0] % 4 * 16)]
    else if |b| == 2 then [Symbol(b[0] / 4), Symbol(b[0] % 4 * 16 + b[1] / 16), Symbol(b[1] % 16 * 4)]
    else
      [Symbol(b[0] / 4), Symbol(b[0] % 4 * 16 + b[1] / 16), Symbol(b[1] % 16 * 4 + b[2] / 64), Symbol(b[2] % 64)]
      + Symbols(b[3..])
  }

  function UrlSafe(s: string): (r: string)
    ensures |r| == |s|
  {
    seq(|s|, i requires 0 <= i < |s| => if s[i] == '+' then '-' else if s[i] == '/' then '_' else s[i])
  }

  /** Python's `b64encode` or `urlsafe_b64encode`, with or without the padding stripped. */
  function EncodeBase64(b: Bytes, urlSafe: bool, padded: bool): string {
    var symbols := Symbols(b);
    (if urlSafe then UrlSafe(symbols) else symbols) + if padded then Fill(|symbols|) else ""
  }

  lemma ThreeBytes(x: Byte, y: Byte, z: Byte)
    ensures First(x / 4, x % 4 * 16) == x && First(x / 4, x % 4 * 16 + y / 16) == x
    ensures Second(x % 4 * 16 + y / 16, y % 16 * 4) == y && Second(x % 4 * 16 + y / 16, y % 16 * 4 + z / 64) == y
    ensures Third(y % 16 * 4 + z / 64, z % 64) == z
  {
  }

  lemma {:induction false} SymbolCount(b: Bytes)
    ensures |Symbols(b)| == (|b| * 4 + 2) / 3
  {
    if |b| >= 3 {
      SymbolCount(b[3..]);
    }
  }

  /** The symbols of three bytes decode to those bytes. */
  lemma QuartetOfBytes(b: Bytes)
    requires |b| >= 3
    ensures |Symbols(b)| >= 4 && Symbols(b)[4..] == Symbols(b[3..])
    ensures var s := Symbols(b);
      var p, q, r, t := Sextet(s[0]), Sextet(s[1]), Sextet(s[2]), Sextet(s[3]);
      [First(p, q), Second(q, r), Third(r, t)] == b[..3]
  {
    hide Sextet, Symbol, First, Second, Third;
    ThreeBytes(b[0], b[1], b[2]);
  }

  /** Three symbols and padding, or two. */
  lemma ShortGroups(s: string)
    requires AllSymbols(s)
    ensures |s| == 3 ==>
      StrictDecode(s + "=") == Some([First(Sextet(s[0]), Sextet(s[1])), Second(Sextet(s[1]), Sextet(s[2]))])
    ensures |s| == 2 ==>
      StrictDecode(s + "==") == Some([First(Sextet(s[0]), Sextet(s[1]))])
  {
    hide Sextet, First, Second, Third;
    if |s| == 3 {
      assert (s + "=")[3..] == "=";
      assert (s + "=")[2..] == [s[2], '='];
    } else if |s| == 2 {
      assert (s + "==")[2..] == "==";
    }
  }

  lemma TwoBytes(b: Bytes)
    requires |b| == 2
    ensures StrictDecode(Symbols(b) + "=") == Some(b)
  {
    hide Sextet, Symbol, First, Second, Third, StrictDecode;
    ThreeBytes(b[0], b[1], 0);
    ShortGroups(Symbols(b));
    assert b == [b[0], b[1]];
  }

  lemma OneByte(b: Bytes)
    requires |b| == 1
    ensures StrictDecode(Symbols(b) + "==") == Some(b)
  {
    hide Sextet, Symbol, First, Second, Third, StrictDecode;
    ThreeBytes(b[0], 0, 0);
    ShortGroups(Symbols(b));
    assert b == [b[0]];
  }

  lemma {:induction false} StrictDecodeSymbols(b: Bytes)
    ensures StrictDecode(Symbols(b) + Fill(|Symbols(b)|)) == Some(b)
  {
    hide Symbols, StrictDecode, Sextet, First, Second, Third;
    SymbolCount(b);
    if |b| >= 3 {
      StrictDecodeSymbols(b[3..]);
      QuartetOfBytes(b);
      FillAgain(|Symbols(b)|);
      DecodeQuartet(Symbols(b));
      assert b == b[..3] + b[3..];
    } else if |b| == 2 {
      TwoBytes(b);
      assert Fill(3) == "=";
    } else if |b| == 1 {
      OneByte(b);
      assert Fill(2) == "==";
    } else {
      Nothing();
      assert b == [];
    }
  }

  lemma Nothing()
    ensures Symbols([]) == "" && StrictDecode("" + Fill(0)) == Some([])
  {
    assert "" + Fill(0) == "";
  }

  lemma {:induction false} BodyOf(s: string, pad: string)
    requires (forall i | 0 <= i < |s| :: s[i] != '=') && (forall i | 0 <= i < |pad| :: pad[i] == '=')
    ensures Body(s + pad) == s
    decreases |pad|
  {
    if pad == "" {
      assert s + pad == s;
    } else {
      assert (s + pad)[..|s + pad| - 1] == s + pad[..|pad| - 1];
      BodyOf(s, pad[..|pad| - 1]);
    }
  }

  lemma Restored(s: string)
    requires AllSymbols(s)
    ensures ToStandard(s) == s && ToStandard(UrlSafe(s)) == s
    ensures InAlphabets(s) && InAlphabets(UrlSafe(s))
  {
  }

  /** Standard or URL-safe, padded or not: the bytes come back. */
  lemma DecodeEncode(b: Bytes, urlSafe: bool, padded: bool)
    ensures DecodeBase64(EncodeBase64(b, urlSafe, padded)) == Some(b)
    ensures Base64Length(EncodeBase64(b, urlSafe, padded)) == Some(|b|)
  {
    hide StrictDecode, Symbols, UrlSafe, Sextet, IsSymbol, Fill, DecodeBase64, Base64Length;
    var text := EncodeBase64(b, urlSafe, padded);
    assert SpellsWith(text, b, Symbols(b), urlSafe, padded);
    SpelledDecodes(text, b, Symbols(b), urlSafe, padded);
    LengthAgrees(text);
  }

  lemma NeverMixes(symbols: string, urlSafe: bool, pad: string)
    requires AllSymbols(symbols) && forall i | 0 <= i < |pad| :: pad[i] == '='
    ensures !Mixes((if urlSafe then UrlSafe(symbols) else symbols) + pad)
    ensures (if urlSafe then UrlSafe(symbols) else symbols) + pad ==
      if urlSafe then UrlSafe(symbols) + pad else symbols + pad
  {
  }

  // ----- what decoding forgets

  /** Same symbols up to the bits of the last one that no byte takes. */
  predicate SameBits(s: string, t: string) {
    && |s| == |t|
    && (forall i | 0 <= i < |s| - 1 :: s[i] == t[i])
    && (|s| % 4 == 0 ==> s == t)
  }

  lemma SextetsBack(a: int, b: int, c: int, d: int)
    requires 0 <= a < 64 && 0 <= b < 64 && 0 <= c < 64 && 0 <= d < 64
    ensures First(a, b) / 4 == a && First(a, b) % 4 * 16 + Second(b, c) / 16 == b
    ensures Second(b, c) % 16 * 4 + Third(c, d) / 64 == c && Third(c, d) % 64 == d
  {
  }

  lemma SymbolsOfQuartet(p: char, q: char, r: char, t: char, rest: Bytes)
    requires IsSymbol(p) && IsSymbol(q) && IsSymbol(r) && IsSymbol(t)
    ensures var x, y, z := First(Sextet(p), Sextet(q)), Second(Sextet(q), Sextet(r)), Third(Sextet(r), Sextet(t));
      && Symbols([x, y, z] + rest) == [p, q, r, t] + Symbols(rest)
      && Symbols([x, y])[..2] == [p, q] && Symbols([x])[..1] == [p]
  {
    hide Sextet, Symbol, First, Second, Third, IsSymbol;
    SextetsBack(Sextet(p), Sextet(q), Sextet(r), Sextet(t));
    SymbolOfSextet(p);
    SymbolOfSextet(q);
    SymbolOfSextet(r);
    SymbolOfSextet(t);
    var x, y, z := First(Sextet(p), Sextet(q)), Second(Sextet(q), Sextet(r)), Third(Sextet(r), Sextet(t));
    assert ([x, y, z] + rest)[3..] == rest;
  }

  /** Re-encoding decoded bytes gives the text again, but for unused bits of its last symbol. */
  lemma {:induction false} Reencoded(s: string)
    requires AllSymbols(s) && |s| % 4 != 1
    ensures StrictDecode(s + Fill(|s|)).Some?
    ensures SameBits(Symbols(StrictDecode(s + Fill(|s|)).value), s)
  {
    hide Sextet, First, Second, Third, StrictDecode, Symbols, IsSymbol;
    LengthOfDecoded(s);
    var b := StrictDecode(s + Fill(|s|)).value;
    SymbolCount(b);
    if |s| >= 4 {
      FillAgain(|s|);
      DecodeQuartet(s);
      Reencoded(s[4..]);
      var rest := StrictDecode(s[4..] + Fill(|s|)).value;
      SymbolsOfQuartet(s[0], s[1], s[2], s[3], rest);
      assert s == [s[0], s[1], s[2], s[3]] + s[4..];
      assert Symbols(b) == [s[0], s[1], s[2], s[3]] + Symbols(rest);
      AddQuartet([s[0], s[1], s[2], s[3]], Symbols(rest), s[4..]);
    } else if |s| == 3 {
      assert Fill(3) == "=";
      ShortGroups(s);
      APlain();
      SymbolsOfQuartet(s[0], s[1], s[2], 'A', []);
      assert Symbols(b)[..2] == [s[0], s[1]];
    } else if |s| == 2 {
      assert Fill(2) == "==";
      ShortGroups(s);
      APlain();
      SymbolsOfQuartet(s[0], s[1], 'A', 'A', []);
      assert Symbols(b)[..1] == [s[0]];
    } else {
      assert s == "" && Fill(0) == "";
      Nothing();
    }
  }

  lemma APlain()
    ensures IsSymbol('A')
  {
  }

  lemma AddQuartet(head: string, s: string, t: string)
    requires |head| == 4 && SameBits(s, t)
    ensures SameBits(head + s, head + t)
  {
  }

  /** Two accepted texts decode to the same bytes only if they spell the same symbols. */
  lemma SameBytes(text: string, other: string)
    requires DecodeBase64(text).Some? && DecodeBase64(text) == DecodeBase64(other)
    ensures SameBits(ToStandard(Body(text)), ToStandard(Body(other)))
  {
    hide StrictDecode, Symbols, ToStandard, Body, Fill;
    StandardSymbols(Body(text));
    StandardSymbols(Body(other));
    Reencoded(ToStandard(Body(text)));
    Reencoded(ToStandard(Body(other)));
  }

  // ----- exactly which texts decode to which bytes

  /** The alphabet of section 4 of RFC 4648: upper case, lower case, digits, and two more. */
  lemma Alphabet()
    ensures Symbol(0) == 'A' && Symbol(25) == 'Z' && Symbol(26) == 'a' && Symbol(51) == 'z'
    ensures Symbol(52) == '0' && Symbol(61) == '9' && Symbol(62) == '+' && Symbol(63) == '/'
    ensures forall n | 0 <= n < 61 && n != 25 && n != 51 :: Symbol(n + 1) as int == Symbol(n) as int + 1
  {
  }

  /** Same symbols, and of a last one that no whole group holds the same bits that are used. */
  predicate SameUsed(s: string, t: string)
    requires AllSymbols(s) && AllSymbols(t)
  {
    && SameBits(s, t)
    && (|s| % 4 == 2 ==> Sextet(s[|s| - 1]) / 16 == Sextet(t[|t| - 1]) / 16)
    && (|s| % 4 == 3 ==> Sextet(s[|s| - 1]) / 4 == Sextet(t[|t| - 1]) / 4)
  }

  lemma FewSymbols(s: string)
    requires AllSymbols(s) && (|s| == 2 || |s| == 3)
    ensures StrictDecode(s + Fill(|s|)) ==
      if |s| == 2 then Some([First(Sextet(s[0]), Sextet(s[1]))])
      else Some([First(Sextet(s[0]), Sextet(s[1])), Second(Sextet(s[1]), Sextet(s[2]))])
  {
    hide StrictDecode, First, Second, Sextet;
    ShortGroups(s);
    assert Fill(2) == "==" && Fill(3) == "=";
  }

  lemma {:induction false} SameUsedDecode(s: string, t: string)
    requires AllSymbols(s) && AllSymbols(t) && |s| % 4 != 1 && SameUsed(s, t)
    ensures StrictDecode(s + Fill(|s|)) == StrictDecode(t + Fill(|t|))
  {
    hide StrictDecode, Sextet, First, Second, Third, IsSymbol;
    if |s| >= 4 {
      FillAgain(|s|);
      DecodeQuartet(s);
      DecodeQuartet(t);
      QuartetUsed(s, t);
      SameUsedDecode(s[4..], t[4..]);
    } else if s == "" {
      assert t == "";
    } else {
      FewSymbols(s);
      FewSymbols(t);
      UsedOfFew(s, t);
    }
  }

  lemma QuartetUsed(s: string, t: string)
    requires AllSymbols(s) && AllSymbols(t) && |s| >= 4 && |s| % 4 != 1 && SameUsed(s, t)
    ensures AllSymbols(s[4..]) && AllSymbols(t[4..]) && SameUsed(s[4..], t[4..])
    ensures s[0] == t[0] && s[1] == t[1] && s[2] == t[2] && s[3] == t[3]
  {
    hide Sextet, IsSymbol;
  }

  lemma UsedOfFew(s: string, t: string)
    requires AllSymbols(s) && AllSymbols(t) && (|s| == 2 || |s| == 3) && SameUsed(s, t)
    ensures First(Sextet(s[0]), Sextet(s[1])) == First(Sextet(t[0]), Sextet(t[1]))
    ensures |s| == 3 ==> Second(Sextet(s[1]), Sextet(s[2])) == Second(Sextet(t[1]), Sextet(t[2]))
  {
    hide Sextet, IsSymbol;
  }

  lemma UsedOfFirst(x: int, y: int)
    requires 0 <= x < 64 && 0 <= y < 64
    ensures First(x, y) % 4 * 16 / 16 == y / 16
  {
    assert First(x, y) % 4 == y / 16;
  }

  lemma UsedOfSecond(y: int, z: int)
    requires 0 <= y < 64 && 0 <= z < 64
    ensures Second(y, z) % 16 * 4 / 4 == z / 4
  {
    assert Second(y, z) % 16 == z / 4;
  }

  lemma FewReencoded(s: string)
    requires AllSymbols(s) && (|s| == 2 || |s| == 3)
    ensures var b := StrictDecode(s + Fill(|s|));
      b.Some? && |Symbols(b.value)| == |s| && SameUsed(s, Symbols(b.value))
  {
    hide Sextet, Symbol, First, Second, StrictDecode, IsSymbol, Fill;
    FewSymbols(s);
    var x, y := Sextet(s[0]), Sextet(s[1]);
    SymbolOfSextet(s[0]);
    SymbolOfSextet(s[1]);
    UsedOfFirst(x, y);
    UsedOfSecond(y, if |s| == 3 then Sextet(s[2]) else 0);
    SextetsBack(x, y, if |s| == 3 then Sextet(s[2]) else 0, 0);
  }

  lemma {:induction false} ReencodedUsed(s: string)
    requires AllSymbols(s) && |s| % 4 != 1
    ensures StrictDecode(s + Fill(|s|)).Some? && SameUsed(s, Symbols(StrictDecode(s + Fill(|s|)).value))
  {
    hide Sextet, First, Second, Third, StrictDecode, Symbols, IsSymbol;
    LengthOfDecoded(s);
    if |s| >= 4 {
      FillAgain(|s|);
      DecodeQuartet(s);
      ReencodedUsed(s[4..]);
      var rest := StrictDecode(s[4..] + Fill(|s|)).value;
      SymbolsOfQuartet(s[0], s[1], s[2], s[3], rest);
      assert s == [s[0], s[1], s[2], s[3]] + s[4..];
      AddUsed([s[0], s[1], s[2], s[3]], s[4..], Symbols(rest));
    } else if s == "" {
      Nothing();
    } else {
      FewReencoded(s);
    }
  }

  lemma AddUsed(head: string, s: string, t: string)
    requires |head| == 4 && AllSymbols(head) && AllSymbols(s) && AllSymbols(t) && SameUsed(s, t)
    ensures AllSymbols(head + s) && AllSymbols(head + t) && SameUsed(head + s, head + t)
  {
    hide Sextet, IsSymbol;
  }

  /** The text is an encoding of the bytes: either alphabet, padded or not, whatever the unused bits of the last symbol. */
  ghost predicate Spells(text: string, b: Bytes) {
    exists s, urlSafe, padded :: SpellsWith(text, b, s, urlSafe, padded)
  }

  ghost predicate SpellsWith(text: string, b: Bytes, s: string, urlSafe: bool, padded: bool) {
    && AllSymbols(s) && SameUsed(s, Symbols(b))
    && text == (if urlSafe then UrlSafe(s) else s) + if padded then Fill(|s|) else ""
  }

  lemma NotPadding(s: string, urlSafe: bool)
    requires AllSymbols(s)
    ensures var body := if urlSafe then UrlSafe(s) else s; forall i | 0 <= i < |body| :: body[i] != '='
  {
  }

  lemma Decoded(text: string, body: string, length: nat)
    requires Body(text) == body && Base64Length(text) == Some(length)
    ensures DecodeBase64(text) == StrictDecode(ToStandard(body) + Fill(|body|))
  {
    hide StrictDecode, ToStandard, Fill, Body;
  }

  lemma Measured(text: string, body: string)
    requires Body(text) == body && InAlphabets(body) && !Mixes(text) && |text| - |body| <= 2 && |body| % 4 != 1
    requires '=' in text ==> |text| % 4 == 0
    ensures Base64Length(text) == Some(|body| * 3 / 4)
  {
    hide Body, Mixes, InAlphabets;
  }

  lemma FillSize(n: nat)
    requires n % 4 != 1
    ensures |Fill(n)| <= 2 && (n + |Fill(n)|) % 4 == 0 && forall i | 0 <= i < |Fill(n)| :: Fill(n)[i] == '='
  {
  }

  /** A text that spells bytes decodes to them. */
  lemma SpelledDecodes(text: string, b: Bytes, s: string, urlSafe: bool, padded: bool)
    requires SpellsWith(text, b, s, urlSafe, padded)
    ensures DecodeBase64(text) == Some(b)
  {
    hide StrictDecode, Symbols, ToStandard, UrlSafe, Body, Sextet, IsSymbol, Fill, DecodeBase64, Base64Length, Mixes;
    hide InAlphabets, SameBits;
    var body, pad := if urlSafe then UrlSafe(s) else s, if padded then Fill(|s|) else "";
    SizeOf(s, b);
    Restored(s);
    NotPadding(s, urlSafe);
    FillSize(|s|);
    BodyOf(body, pad);
    NeverMixes(s, urlSafe, pad);
    PaddingIn(body, pad);
    Measured(text, body);
    Decoded(text, body, |body| * 3 / 4);
    SameUsedDecode(s, Symbols(b));
    StrictDecodeSymbols(b);
  }

  lemma SizeOf(s: string, b: Bytes)
    requires AllSymbols(s) && SameUsed(s, Symbols(b))
    ensures |s| == |Symbols(b)| && |s| % 4 != 1
  {
    hide Symbols, Sextet, IsSymbol;
    SymbolCount(b);
  }

  lemma PaddingIn(body: string, pad: string)
    requires (forall i | 0 <= i < |body| :: body[i] != '=') && (forall i | 0 <= i < |pad| :: pad[i] == '=')
    ensures '=' in body + pad <==> pad != ""
  {
    if pad != "" {
      assert (body + pad)[|body|] == '=';
    }
  }

  lemma OneAlphabet(text: string, body: string)
    requires InAlphabets(body) && |body| <= |text| && body == text[..|body|] && !Mixes(text)
    ensures body == ToStandard(body) || body == UrlSafe(ToStandard(body))
  {
    if '-' in body || '_' in body {
      assert forall i | 0 <= i < |body| :: body[i] == text[i];
      assert body == UrlSafe(ToStandard(body));
    } else {
      assert body == ToStandard(body);
    }
  }

  lemma PadIs(text: string, body: string)
    requires |body| <= |text| && body == text[..|body|] && forall i | |body| <= i < |text| :: text[i] == '='
    requires |text| - |body| <= 2 && |body| % 4 != 1 && (|text| > |body| ==> |text| % 4 == 0)
    ensures text == body + if |text| > |body| then Fill(|body|) else ""
  {
  }

  /** Exactly the texts that spell some bytes are accepted, and they decode to those bytes. */
  lemma DecodeIff(text: string, b: Bytes)
    ensures DecodeBase64(text) == Some(b) <==> Spells(text, b)
  {
    hide StrictDecode, Symbols, ToStandard, UrlSafe, Body, Sextet, IsSymbol, Fill, SameUsed, Mixes, InAlphabets;
    if DecodeBase64(text) == Some(b) {
      var body := Body(text);
      var s := ToStandard(body);
      StandardSymbols(body);
      ReencodedUsed(s);
      OneAlphabet(text, body);
      assert |text| > |body| ==> text[|body|] == '=';
      PadIs(text, body);
      assert SpellsWith(text, b, s, body == UrlSafe(s), |text| > |body|);
    }
    forall s, urlSafe, padded | SpellsWith(text, b, s, urlSafe, padded)
      ensures DecodeBase64(text) == Some(b)
    {
      SpelledDecodes(text, b, s, urlSafe, padded);
    }
  }
}
