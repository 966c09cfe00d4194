/**
  `_escape_json_string` of commitment_hash.py: the string form of section
  3.2.2.2 of RFC 8785, tied to the string literals the scanner reads.
 */
module JsonEscape {
  import opened Basics
  import opened JsonText
  import opened JsonGrammar
  import opened JsonReadings

  const BACKSPACE: char := 8 as char
  const FORM_FEED: char := 12 as char

  /** The letter of the short escape for `c`, when it has one. */
  function ShortEscape(c: char): Option<char> {
    if c == '\\' || c == '"' then Some(c)
    else if c == BACKSPACE then Some('b')
    else if c == FORM_FEED then Some('f')
    else if c == '\n' then Some('n')
    else if c == '\r' then Some('r')
    else if c == '\t' then Some('t')
    else None
  }

  function LowerHex(n: nat): (c: char)
    requires n < 16
    ensures IsHex(c) && HexValue(c) == n
  {
    if n < 10 then (n + '0' as int) as char else (n - 10 + 'a' as int) as char
  }

  function EscapeChar(c: char): string {
    var short := ShortEscape(c);
    if short.Some? then ['\\', short.value]
    else if c < ' ' then "\\u00" + [LowerHex(c as int / 16), LowerHex(c as int % 16)]
    else [c]
  }

  function EscapeBody(value: string): string {
    if value == "" then "" else EscapeChar(value[0]) + EscapeBody(value[1..])
  }

  function EscapeString(value: string): string { "\"" + (EscapeBody(value) + "\"") }

  lemma {:induction false} EscapeBodyConcat(a: string, b: string)
    ensures EscapeBody(a + b) == EscapeBody(a) + EscapeBody(b)
  {
    if a == "" {
      assert a + b == b;
    } else {
      assert (a + b)[1..] == a[1..] + b;
      EscapeBodyConcat(a[1..], b);
    }
  }

  lemma EscapeBodySnoc(value: string, i: nat)
    requires i < |value|
    ensures EscapeBody(value[..i + 1]) == EscapeBody(value[..i]) + EscapeChar(value[i])
  {
    assert value[..i + 1] == value[..i] + [value[i]];
    EscapeBodyConcat(value[..i], [value[i]]);
    assert EscapeBody([value[i]]) == EscapeChar(value[i]);
  }

  method EscapeJsonString(value: string) returns (out: string)
    ensures out == EscapeString(value)
  {
    hide EscapeChar;
    out := "\"";
    for i := 0 to |value|
      invariant out == "\"" + EscapeBody(value[..i])
    {
      EscapeBodySnoc(value, i);
      var c := value[i];
      EscapeCharIs(c);
      var short := ShortEscape(c);
      if short.Some? {
        out := out + ['\\', short.value];
      } else if c < ' ' {
        out := out + ("\\u00" + [LowerHex(c as int / 16), LowerHex(c as int % 16)]);
      } else {
        out := out + [c];
      }
    }
    assert value[..|value|] == value;
    out := out + "\"";
  }

  lemma EscapeCharIs(c: char)
    ensures EscapeChar(c) ==
      var short := ShortEscape(c);
      if short.Some? then ['\\', short.value]
      else if c < ' ' then "\\u00" + [LowerHex(c as int / 16), LowerHex(c as int % 16)]
      else [c]
  {
  }

  // ----- read back

  function ItemOf(c: char): Item {
    var short := ShortEscape(c);
    if short.Some? then Short(short.value)
    else if c < ' ' then Unit("00" + [LowerHex(c as int / 16), LowerHex(c as int % 16)])
    else Plain(c)
  }

  function ItemsOf(value: string): seq<Item> {
    if value == "" then [] else [ItemOf(value[0])] + ItemsOf(value[1..])
  }

  lemma ItemOfMeans(c: char)
    ensures LegalItem(ItemOf(c)) && PrintItem(ItemOf(c)) == EscapeChar(c)
    ensures forall rest: seq<Item> :: LegalItems([ItemOf(c)] + rest) ==> Head([ItemOf(c)] + rest, true) == Some((c, 1))
  {
    if ShortEscape(c).None? && c < ' ' {
      var digits := "00" + [LowerHex(c as int / 16), LowerHex(c as int % 16)];
      assert Hex4Value(digits) == c as int;
    }
  }

  lemma {:induction false} ItemsOfMean(value: string)
    ensures LegalItems(ItemsOf(value)) && PrintItems(ItemsOf(value)) == EscapeBody(value)
    ensures Meaning(ItemsOf(value), true) == Some(value)
  {
    hide Head, EscapeChar, ItemOf, PrintItem;
    if value != "" {
      var rest := ItemsOf(value[1..]);
      ItemsOfMean(value[1..]);
      ItemOfMeans(value[0]);
      assert ([ItemOf(value[0])] + rest)[1..] == rest;
      assert value == [value[0]] + value[1..];
    }
  }

  /** What the escaper writes, the scanner reads back exactly, wherever it stands. */
  lemma EscapedIsRead(text: string, pos: nat, value: string)
    requires At(text, pos, EscapeString(value))
    ensures String(text, pos, true) == Parsed(value, pos + |EscapeString(value)|)
  {
    ItemsOfMean(value);
    StringRead(text, pos, ItemsOf(value), true);
  }

  /** An escaped string ends where it ends: no text carries two of them. */
  lemma EscapedSelfDelimiting(a: string, x: string, b: string, y: string)
    requires EscapeString(a) + x == EscapeString(b) + y
    ensures a == b && x == y
  {
    hide String, EscapeString;
    var text := EscapeString(a) + x;
    AtWhole(text);
    AtSplit(text, 0, EscapeString(a), x);
    AtSplit(text, 0, EscapeString(b), y);
    EscapedIsRead(text, 0, a);
    EscapedIsRead(text, 0, b);
    assert x == text[|EscapeString(a)|..] == y;
  }

  // ----- the shortest spelling

  predicate NoUpperHex(s: string) { forall i | 0 <= i < |s| :: !('A' <= s[i] <= 'F') }

  lemma DigitSpelled(d: char, n: nat)
    requires IsHex(d) && !('A' <= d <= 'F') && HexValue(d) == n
    ensures d == LowerHex(n)
  {
  }

  lemma UnitSpelled(digits: string)
    requires IsHex4(digits) && Hex4Value(digits) < 0x20 && NoUpperHex(digits)
    ensures digits == "00" + [LowerHex(Hex4Value(digits) / 16), LowerHex(Hex4Value(digits) % 16)]
  {
    hide HexValue;
    var n := Hex4Value(digits);
    assert HexValue(digits[0]) == 0 && HexValue(digits[1]) == 0;
    assert n / 16 == HexValue(digits[2]) && n % 16 == HexValue(digits[3]);
    DigitSpelled(digits[0], 0);
    DigitSpelled(digits[1], 0);
    DigitSpelled(digits[2], n / 16);
    DigitSpelled(digits[3], n % 16);
  }

  lemma SomeEscape(c: char)
    ensures 1 <= |EscapeChar(c)| <= 6
    ensures |EscapeChar(c)| == 6 ==>
      c < ' ' && EscapeChar(c) == "\\u" + ("00" + [LowerHex(c as int / 16), LowerHex(c as int % 16)])
  {
  }

  /** However the first character is spelled, its escape is no longer, and the same unless longer or in upper case. */
  lemma HeadIsShortest(items: seq<Item>)
    requires LegalItems(items) && items != [] && Head(items, true).Some?
    ensures var (c, k) := Head(items, true).value; var spelled := PrintItems(items[..k]);
      && |EscapeChar(c)| <= |spelled|
      && (|EscapeChar(c)| == |spelled| && NoUpperHex(spelled) ==> spelled == EscapeChar(c))
  {
    hide EscapeChar, Hex4Value, PairValue;
    var (c, k) := Head(items, true).value;
    SomeEscape(c);
    FirstItems(items);
    match items[0] {
      case Plain(_) => PlainEscape(c);
      case Short(letter) => ShortIsShortest(letter);
      case Unit(digits) =>
        if k == 1 && |EscapeChar(c)| == 6 && NoUpperHex(PrintItem(items[0])) {
          assert forall i | 0 <= i < 4 :: digits[i] == PrintItem(items[0])[i + 2];
          UnitSpelled(digits);
        }
    }
  }

  lemma PlainEscape(c: char)
    requires LegalItem(Plain(c))
    ensures EscapeChar(c) == [c]
  {
  }

  lemma ShortIsShortest(letter: char)
    requires IsSimple(letter)
    ensures EscapeChar(SimpleValue(letter)) == if letter == '/' then "/" else ['\\', letter]
  {
  }

  lemma UpperParts(a: string, b: string)
    requires NoUpperHex(a + b)
    ensures NoUpperHex(a) && NoUpperHex(b)
  {
    assert forall i | 0 <= i < |a| :: a[i] == (a + b)[i];
    assert forall i | 0 <= i < |b| :: b[i] == (a + b)[|a| + i];
  }

  /**
    What the escaper writes is the shortest literal that means the text, and the only
    one of that length without upper-case hexadecimal digits (section 3.2.2.2 of RFC 8785).
   */
  lemma {:induction false} EscapedIsShortest(items: seq<Item>, value: string)
    requires LegalItems(items) && Meaning(items, true) == Some(value)
    ensures |EscapeBody(value)| <= |PrintItems(items)|
    ensures |EscapeBody(value)| == |PrintItems(items)| && NoUpperHex(PrintItems(items)) ==>
      PrintItems(items) == EscapeBody(value)
    decreases |items|
  {
    hide Head, EscapeChar, PrintItem, NoUpperHex;
    if items != [] {
      var (c, k) := Head(items, true).value;
      var first, rest := items[..k], items[k..];
      HeadIsShortest(items);
      assert value[0] == c && Meaning(rest, true) == Some(value[1..]);
      EscapedIsShortest(rest, value[1..]);
      assert items == first + rest;
      PrintItemsConcat(first, rest);
      if |EscapeBody(value)| == |PrintItems(items)| && NoUpperHex(PrintItems(items)) {
        UpperParts(PrintItems(first), PrintItems(rest));
      }
    }
  }
}
