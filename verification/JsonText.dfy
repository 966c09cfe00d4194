/**
  The lexers of multi_round.py's hand-written JSON scanner: whitespace,
  strings and numbers, each as the function the loops below compute.
 */
module JsonText {
  import opened Basics

  predicate IsWs(c: char) { c == ' ' || c == '\t' || c == '\n' || c == '\r' }

  predicate StartsWith(text: string, pos: nat, c: char) { pos < |text| && text[pos] == c }

  // ----- whitespace and single characters

  /** The end of the whitespace that starts at `pos`. */
  function Ws(text: string, pos: nat): (r: nat)
    requires pos <= |text|
    ensures pos <= r <= |text|
    decreases |text| - pos
  {
    if pos < |text| && IsWs(text[pos]) then Ws(text, pos + 1) else pos
  }

  method SkipWs(text: string, start: nat) returns (pos: nat)
    requires start <= |text|
    ensures pos == Ws(text, start)
  {
    pos := start;
    while pos < |text| && IsWs(text[pos])
      invariant start <= pos <= |text| && Ws(text, pos) == Ws(text, start)
    {
      pos := pos + 1;
    }
  }

  function Expect(text: string, pos: nat, c: char): (r: Option<nat>)
    ensures r.Some? ==> r.value == pos + 1 <= |text|
  {
    if StartsWith(text, pos, c) then Some(pos + 1) else None
  }

  // ----- strings

  predicate IsHex(c: char) { '0' <= c <= '9' || 'a' <= c <= 'f' || 'A' <= c <= 'F' }

  function HexValue(c: char): (r: nat)
    requires IsHex(c)
    ensures r < 16
  {
    if c <= '9' then c as int - '0' as int
    else if c >= 'a' then c as int - 'a' as int + 10
    else c as int - 'A' as int + 10
  }

  predicate IsHex4(digits: string) { |digits| == 4 && forall i | 0 <= i < 4 :: IsHex(digits[i]) }

  function Hex4Value(digits: string): (r: nat)
    requires IsHex4(digits)
    ensures r < 0x10000
  {
    HexValue(digits[0]) * 4096 + HexValue(digits[1]) * 256 + HexValue(digits[2]) * 16 + HexValue(digits[3])
  }

  function Hex4(text: string, pos: nat): (r: Parse<nat>)
    ensures r.Parsed? ==> r.pos == pos + 4 <= |text| && r.value < 0x10000
  {
    if pos + 4 <= |text| && IsHex4(text[pos..pos + 4]) then Parsed(Hex4Value(text[pos..pos + 4]), pos + 4)
    else Malformed
  }

  predicate IsHigh(code: nat) { 0xD800 <= code < 0xDC00 }
  predicate IsLow(code: nat) { 0xDC00 <= code < 0xE000 }

  function PairValue(high: nat, low: nat): char
    requires IsHigh(high) && IsLow(low)
  {
    (0x10000 + (high - 0xD800) * 0x400 + (low - 0xDC00)) as char
  }

  /** A code unit as a character; a surrogate, which text cannot hold, as U+FFFD. */
  function UnitValue(code: nat): char
    requires code < 0x10000
  {
    if IsHigh(code) || IsLow(code) then '\U{FFFD}' else code as char
  }

  predicate IsSimple(c: char) { c in "\"\\/bfnrt" }

  function SimpleValue(c: char): char
    requires IsSimple(c)
  {
    if c == 'b' then 8 as char
    else if c == 'f' then 12 as char
    else if c == 'n' then '\n'
    else if c == 'r' then '\r'
    else if c == 't' then '\t'
    else c
  }

  /** The escape whose backslash is just before `pos`. */
  function Escape(text: string, pos: nat, decode: bool): (r: Parse<char>)
    ensures r.Parsed? ==> pos < r.pos <= |text|
  {
    if pos >= |text| then Malformed
    else if IsSimple(text[pos]) then Parsed(SimpleValue(text[pos]), pos + 1)
    else if text[pos] != 'u' then Malformed
    else
      var (code, next) :- Hex4(text, pos + 1);
      if decode && IsLow(code) then Malformed
      else if decode && IsHigh(code) then
        if !StartsWith(text, next, '\\') || !StartsWith(text, next + 1, 'u') then Malformed
        else
          var (low, end) :- Hex4(text, next + 2);
          if IsLow(low) then Parsed(PairValue(code, low), end) else Malformed
      else Parsed(UnitValue(code), next)
  }

  /** The rest of a string, from inside its quotes. */
  function StringFrom(text: string, pos: nat, decode: bool): (r: Parse<string>)
    ensures r.Parsed? ==> pos < r.pos <= |text|
    decreases |text| - pos
  {
    if pos >= |text| || text[pos] < ' ' then Malformed
    else if text[pos] == '"' then Parsed("", pos + 1)
    else if text[pos] != '\\' then
      var (s, end) :- StringFrom(text, pos + 1, decode);
      Parsed([text[pos]] + s, end)
    else
      var (c, next) :- Escape(text, pos + 1, decode);
      var (s, end) :- StringFrom(text, next, decode);
      Parsed([c] + s, end)
  }

  /** A string whose opening quote is at `pos`. */
  function String(text: string, pos: nat, decode: bool): (r: Parse<string>)
    ensures r.Parsed? ==> pos < r.pos <= |text|
  {
    if StartsWith(text, pos, '"') then StringFrom(text, pos + 1, decode) else Malformed
  }

  function Prepend(out: string, rest: Parse<string>): Parse<string> {
    if rest.Malformed? then Malformed else Parsed(out + rest.value, rest.pos)
  }

  lemma PrependMore(out: string, c: char, rest: Parse<string>)
    ensures Prepend(out, Prepend([c], rest)) == Prepend(out + [c], rest)
  {
    if rest.Parsed? {
      assert out + ([c] + rest.value) == (out + [c]) + rest.value;
    }
  }

  lemma PrependNothing(rest: Parse<string>)
    ensures Prepend("", rest) == rest
  {
    if rest.Parsed? {
      assert "" + rest.value == rest.value;
    }
  }

  lemma StringStep(text: string, pos: nat, decode: bool)
    requires pos < |text| && text[pos] >= ' ' && text[pos] != '"'
    ensures StringFrom(text, pos, decode) ==
      if text[pos] != '\\' then Prepend([text[pos]], StringFrom(text, pos + 1, decode))
      else
        var e := Escape(text, pos + 1, decode);
        if e.Malformed? then Malformed else Prepend([e.value], StringFrom(text, e.pos, decode))
  {
  }

  method ScanEscape(text: string, start: nat, decode: bool) returns (r: Parse<char>)
    ensures r == Escape(text, start, decode)
  {
    if start >= |text| {
      return Malformed;
    }
    var esc, pos := text[start], start + 1;
    if IsSimple(esc) {
      return Parsed(SimpleValue(esc), pos);
    } else if esc != 'u' {
      return Malformed;
    }
    var unit := Hex4(text, pos);
    if unit.Malformed? || (decode && IsLow(unit.value)) {
      return Malformed;
    }
    if decode && IsHigh(unit.value) {
      if !StartsWith(text, unit.pos, '\\') || !StartsWith(text, unit.pos + 1, 'u') {
        return Malformed;
      }
      var low := Hex4(text, unit.pos + 2);
      if low.Malformed? || !IsLow(low.value) {
        return Malformed;
      }
      return Parsed(PairValue(unit.value, low.value), low.pos);
    }
    r := Parsed(UnitValue(unit.value), unit.pos);
  }

  method ScanString(text: string, start: nat, decode: bool) returns (r: Parse<string>)
    ensures r == String(text, start, decode)
  {
    hide StringFrom, Escape;
    if !StartsWith(text, start, '"') {
      return Malformed;
    }
    var pos, out := start + 1, "";
    ghost var whole := StringFrom(text, pos, decode);
    PrependNothing(whole);
    while true
      invariant pos <= |text|
      invariant whole == Prepend(out, StringFrom(text, pos, decode))
      decreases |text| - pos
    {
      StringEnds(text, pos, decode);
      if pos >= |text| {
        return Malformed;
      }
      var c := text[pos];
      if c == '"' {
        assert out + "" == out;
        return Parsed(out, pos + 1);
      }
      if c < ' ' {
        return Malformed;
      }
      StringStep(text, pos, decode);
      pos := pos + 1;
      if c != '\\' {
        PrependMore(out, c, StringFrom(text, pos, decode));
        out := out + [c];
        continue;
      }
      var e := ScanEscape(text, pos, decode);
      if e.Malformed? {
        return Malformed;
      }
      PrependMore(out, e.value, StringFrom(text, e.pos, decode));
      pos, out := e.pos, out + [e.value];
    }
  }

  lemma StringEnds(text: string, pos: nat, decode: bool)
    ensures pos >= |text| || text[pos] < ' ' ==> StringFrom(text, pos, decode) == Malformed
    ensures StartsWith(text, pos, '"') ==> StringFrom(text, pos, decode) == Parsed("", pos + 1)
  {
  }

  // ----- numbers

  function DigitsEnd(text: string, at: nat): (r: nat)
    requires at <= |text|
    ensures at <= r <= |text|
    decreases |text| - at
  {
    if at < |text| && IsDigit(text[at]) then DigitsEnd(text, at + 1) else at
  }

  /** One digit or more. */
  function Digits(text: string, at: nat): (r: Option<nat>)
    ensures r.Some? ==> at < r.value <= |text|
  {
    if at < |text| && IsDigit(text[at]) then Some(DigitsEnd(text, at)) else None
  }

  method ScanDigits(text: string, start: nat) returns (r: Option<nat>)
    requires start <= |text|
    ensures r == Digits(text, start)
  {
    var at := start;
    while at < |text| && IsDigit(text[at])
      invariant start <= at <= |text| && DigitsEnd(text, at) == DigitsEnd(text, start)
    {
      at := at + 1;
    }
    r := if at == start then None else Some(at);
  }

  /** `0`, or digits that do not begin with `0`. */
  function Whole(text: string, pos: nat): (r: Option<nat>)
    ensures r.Some? ==> pos < r.value <= |text|
  {
    if !StartsWith(text, pos, '0') then Digits(text, pos)
    else if pos + 1 < |text| && IsDigit(text[pos + 1]) then None
    else Some(pos + 1)
  }

  function Fraction(text: string, pos: nat): (r: Option<nat>)
    requires pos <= |text|
    ensures r.Some? ==> pos <= r.value <= |text|
  {
    if StartsWith(text, pos, '.') then Digits(text, pos + 1) else Some(pos)
  }

  predicate IsE(c: char) { c == 'e' || c == 'E' }
  predicate IsSign(c: char) { c == '+' || c == '-' }

  function Exponent(text: string, pos: nat): (r: Option<nat>)
    requires pos <= |text|
    ensures r.Some? ==> pos <= r.value <= |text|
  {
    if pos < |text| && IsE(text[pos]) then
      if pos + 1 < |text| && IsSign(text[pos + 1]) then Digits(text, pos + 2) else Digits(text, pos + 1)
    else Some(pos)
  }

  function Number(text: string, pos: nat): (r: Option<nat>)
    ensures r.Some? ==> pos < r.value <= |text|
  {
    var whole :- Whole(text, if StartsWith(text, pos, '-') then pos + 1 else pos);
    var fraction :- Fraction(text, whole);
    Exponent(text, fraction)
  }

  method ScanNumber(text: string, start: nat) returns (r: Option<nat>)
    requires start <= |text|
    ensures r == Number(text, start)
  {
    var pos := start;
    if StartsWith(text, pos, '-') {
      pos := pos + 1;
    }
    if StartsWith(text, pos, '0') {
      pos := pos + 1;
      if pos < |text| && IsDigit(text[pos]) {
        return None;
      }
    } else {
      var end := ScanDigits(text, pos);
      if end.None? {
        return None;
      }
      pos := end.value;
    }
    if StartsWith(text, pos, '.') {
      var end := ScanDigits(text, pos + 1);
      if end.None? {
        return None;
      }
      pos := end.value;
    }
    if pos < |text| && IsE(text[pos]) {
      pos := pos + 1;
      if pos < |text| && IsSign(text[pos]) {
        pos := pos + 1;
      }
      r := ScanDigits(text, pos);
    } else {
      r := Some(pos);
    }
  }
}
