/**
  What a string literal says, stated apart from the scanner: its items spell
  UTF-16 code units (section 7 of RFC 8259), and the literal means the text with
  those units.
 */
module JsonUnits {
  import opened Basics
  import opened JsonText
  import opened JsonGrammar
  import opened JsonReadings
  import opened CodeUnits

  function DigitOf(c: char): nat {
    match c
    case '0' => 0 case '1' => 1 case '2' => 2 case '3' => 3 case '4' => 4
    case '5' => 5 case '6' => 6 case '7' => 7 case '8' => 8 case '9' => 9
    case 'a' => 10 case 'b' => 11 case 'c' => 12 case 'd' => 13 case 'e' => 14 case 'f' => 15
    case 'A' => 10 case 'B' => 11 case 'C' => 12 case 'D' => 13 case 'E' => 14 case 'F' => 15
    case _ => 0
  }

  /** Hexadecimal digits by their places. */
  function NumberOf(digits: string): nat {
    if digits == "" then 0 else 16 * NumberOf(digits[..|digits| - 1]) + DigitOf(digits[|digits| - 1])
  }

  /** The eight short escapes. */
  function ShortUnit(letter: char): nat {
    match letter
    case '"' => 0x22
    case '\\' => 0x5C
    case '/' => 0x2F
    case 'b' => 0x08
    case 'f' => 0x0C
    case 'n' => 0x0A
    case 'r' => 0x0D
    case 't' => 0x09
    case _ => 0
  }

  function ItemUnits(item: Item): seq<int> {
    match item
    case Plain(c) => UnitsOfChar(c)
    case Short(letter) => [ShortUnit(letter)]
    case Unit(digits) => [NumberOf(digits)]
  }

  function AllUnits(items: seq<Item>): seq<int> {
    if items == [] then [] else ItemUnits(items[0]) + AllUnits(items[1..])
  }

  lemma DigitIs(c: char)
    requires IsHex(c)
    ensures HexValue(c) == DigitOf(c)
  {
  }

  lemma Number4(digits: string)
    requires |digits| == 4
    ensures NumberOf(digits) == DigitOf(digits[0]) * 4096 + DigitOf(digits[1]) * 256 + DigitOf(digits[2]) * 16
      + DigitOf(digits[3])
  {
    hide DigitOf;
    var three, two, one := digits[..3], digits[..2], digits[..1];
    assert three[..2] == two && two[..1] == one && one[..0] == "";
    assert NumberOf(one) == DigitOf(digits[0]);
    assert NumberOf(two) == 16 * NumberOf(one) + DigitOf(digits[1]);
    assert NumberOf(three) == 16 * NumberOf(two) + DigitOf(digits[2]);
  }

  lemma UnitIs(digits: string)
    requires IsHex4(digits)
    ensures Hex4Value(digits) == NumberOf(digits)
  {
    hide DigitOf, HexValue;
    Number4(digits);
    forall i | 0 <= i < 4
      ensures HexValue(digits[i]) == DigitOf(digits[i])
    {
      DigitIs(digits[i]);
    }
  }

  // ----- the first character

  lemma LowUnit(item: Item)
    requires LegalItem(item)
    ensures ItemUnits(item) != []
    ensures 0xDC00 <= ItemUnits(item)[0] < 0xE000 <==> item.Unit? && IsLow(Hex4Value(item.digits))
  {
    hide NumberOf, Hex4Value;
    if item.Unit? {
      UnitIs(item.digits);
    }
  }

  lemma UnitsStart(c: char, rest: seq<int>)
    ensures var first := (UnitsOfChar(c) + rest)[0];
      && !(0xDC00 <= first < 0xE000)
      && (0xD800 <= first < 0xDC00 ==> |UnitsOfChar(c)| == 2 && 0xDC00 <= UnitsOfChar(c)[1] < 0xE000)
  {
  }

  lemma ShortUnits(letter: char)
    requires IsSimple(letter)
    ensures UnitsOfChar(SimpleValue(letter)) == [ShortUnit(letter)]
  {
  }

  lemma OneUnit(code: nat)
    requires code < 0x10000 && !IsHigh(code) && !IsLow(code)
    ensures UnitsOfChar(UnitValue(code)) == [code]
  {
  }

  lemma TwoUnits(high: nat, low: nat)
    requires IsHigh(high) && IsLow(low)
    ensures UnitsOfChar(PairValue(high, low)) == [high, low]
  {
  }

  lemma AllUnitsStep(items: seq<Item>)
    requires items != []
    ensures AllUnits(items) == ItemUnits(items[0]) + AllUnits(items[1..])
  {
    hide ItemUnits;
  }

  /** What the scanner takes for the first character is spelled by that character's units. */
  lemma HeadUnits(items: seq<Item>)
    requires LegalItems(items) && items != [] && Head(items, true).Some?
    ensures var head := Head(items, true).value;
      AllUnits(items) == UnitsOfChar(head.0) + AllUnits(items[head.1..])
  {
    hide NumberOf, Hex4Value, UnitsOfChar, SimpleValue, UnitValue, PairValue, ShortUnit, AllUnits;
    AllUnitsStep(items);
    match items[0] {
      case Plain(_) =>
      case Short(letter) => ShortUnits(letter);
      case Unit(digits) =>
        var code := Hex4Value(digits);
        UnitIs(digits);
        if IsHigh(code) {
          var low := Hex4Value(items[1].digits);
          UnitIs(items[1].digits);
          AllUnitsStep(items[1..]);
          TwoUnits(code, low);
          assert items[1..][1..] == items[2..];
          assert [code] + ([low] + AllUnits(items[2..])) == [code, low] + AllUnits(items[2..]);
        } else {
          OneUnit(code);
        }
    }
  }

  /** What it refuses is the start of no text. */
  lemma NoHeadUnits(items: seq<Item>, c: char, rest: seq<int>)
    requires LegalItems(items) && items != [] && Head(items, true).None?
    ensures AllUnits(items) != UnitsOfChar(c) + rest
  {
    hide NumberOf, Hex4Value, UnitsOfChar, SimpleValue, UnitValue, PairValue, ShortUnit;
    AllUnitsStep(items);
    UnitsStart(c, rest);
    UnitIs(items[0].digits);
    var all := AllUnits(items);
    assert all[0] == Hex4Value(items[0].digits);
    if all == UnitsOfChar(c) + rest {
      assert all[1] == UnitsOfChar(c)[1];
      AllUnitsStep(items[1..]);
      LowUnit(items[1]);
    }
  }

  /**
    A literal decodes to `s` exactly when its items spell the code units of `s`: plain
    characters their own, short escapes the eight they stand for, and `\uXXXX` the
    number its digits write, in either case.
   */
  lemma {:induction false} MeaningIff(items: seq<Item>, s: string)
    requires LegalItems(items)
    ensures Meaning(items, true) == Some(s) <==> AllUnits(items) == Units(s)
    decreases |items|
  {
    hide Head, ItemUnits, UnitsOfChar;
    if items == [] {
      NoUnits(s);
    } else if Head(items, true).None? {
      if s != "" {
        NoHeadUnits(items, s[0], Units(s[1..]));
      } else {
        SomeUnits(items);
      }
    } else {
      var (c, k) := Head(items, true).value;
      var rest := items[k..];
      HeadUnits(items);
      SomeUnits(items);
      if s != "" {
        MeaningIff(rest, s[1..]);
        assert s == [s[0]] + s[1..];
        if AllUnits(items) == Units(s) {
          UnitsOfCharDelimited(c, AllUnits(rest), s[0], Units(s[1..]));
        }
      }
    }
  }

  lemma NoUnits(s: string)
    ensures Units(s) == [] <==> s == ""
  {
  }

  lemma SomeUnits(items: seq<Item>)
    requires LegalItems(items) && items != []
    ensures AllUnits(items) != []
  {
    hide AllUnits;
    AllUnitsStep(items);
    LowUnit(items[0]);
  }

  /** What may stand in a literal, by character codes: the table above, and both cases of the digits. */
  lemma LegalItemIff(item: Item)
    ensures LegalItem(item) <==>
      match item
      case Plain(c) => c as int >= 0x20 && c as int != 0x22 && c as int != 0x5C
      case Short(letter) => ShortUnit(letter) > 0
      case Unit(digits) => |digits| == 4 && forall i | 0 <= i < 4 :: DigitOf(digits[i]) > 0 || digits[i] == '0'
  {
  }

  /** Wherever a literal stands, the scanner decodes it to the text with its units. */
  lemma LiteralRead(text: string, pos: nat, items: seq<Item>, s: string)
    requires At(text, pos, PrintString(items)) && LegalItems(items)
    ensures String(text, pos, true) == Parsed(s, pos + |PrintString(items)|) <==> AllUnits(items) == Units(s)
  {
    hide String, Meaning, PrintString;
    StringRead(text, pos, items, true);
    MeaningIff(items, s);
  }
}
