/**
  JSON texts as trees of the grammar (sections 2 to 7 of RFC 8259): every tree
  records the whitespace and the spelling of one text, and `Print...` writes
  that text out. The scanner's readings are tied to the trees both ways.
 */
module JsonGrammar {
  import opened Basics
  import opened JsonText
  import opened IgnoreValue

  // ----- trees

  /** One character of a string literal as it is spelled. */
  datatype Item = Plain(c: char) | Short(c: char) | Unit(digits: string)

  datatype NumberText = NumberText(
    minus: bool, whole: string, fraction: string, e: string, sign: string, exponent: string)

  datatype Json =
    | Word(word: string)
    | Num(n: NumberText)
    | Str(items: seq<Item>)
    | Empty(opener: char, gap: string)
    | Arr(elements: Elements)
    | Obj(members: Members)

  datatype Elements = Elements(before: string, value: Json, after: string, rest: ElementTail)
  datatype ElementTail = LastElement | MoreElements(elements: Elements)

  /** `before "key" mid : gap value after` */
  datatype Member = Member(
    before: string, key: seq<Item>, mid: string, gap: string, value: Json, after: string)
  datatype Members = Members(m: Member, rest: MemberTail)
  datatype MemberTail = LastMember | MoreMembers(members: Members)

  // ----- what makes a tree legal

  predicate Blank(s: string) { forall i | 0 <= i < |s| :: s[i] in " \t\n\r" }

  predicate LegalItem(item: Item) {
    match item
    case Plain(c) => c >= ' ' && c != '"' && c != '\\'
    case Short(c) => IsSimple(c)
    case Unit(digits) => IsHex4(digits)
  }

  predicate LegalItems(items: seq<Item>) { forall i | 0 <= i < |items| :: LegalItem(items[i]) }

  predicate LegalNumber(n: NumberText) {
    && n.whole != "" && AllDigits(n.whole) && (n.whole[0] == '0' ==> |n.whole| == 1)
    && AllDigits(n.fraction)
    && (n.e == "" ==> n.sign == "" && n.exponent == "")
    && (n.e != "" ==> (n.e == "e" || n.e == "E") && n.exponent != "")
    && AllDigits(n.exponent)
    && (n.sign != "" ==> n.sign == "+" || n.sign == "-")
  }

  predicate Legal(t: Json) {
    match t
    case Word(word) => word in LITERALS
    case Num(n) => LegalNumber(n)
    case Str(items) => LegalItems(items)
    case Empty(opener, gap) => (opener == '[' || opener == '{') && Blank(gap)
    case Arr(elements) => LegalElements(elements)
    case Obj(members) => LegalMembers(members)
  }

  predicate LegalElements(es: Elements) {
    Blank(es.before) && Legal(es.value) && Blank(es.after) && (es.rest.MoreElements? ==> LegalElements(es.rest.elements))
  }

  predicate LegalMember(m: Member) {
    Blank(m.before) && LegalItems(m.key) && Blank(m.mid) && Blank(m.gap) && Legal(m.value) && Blank(m.after)
  }

  predicate LegalMembers(ms: Members) {
    LegalMember(ms.m) && (ms.rest.MoreMembers? ==> LegalMembers(ms.rest.members))
  }

  // ----- printing

  function PrintItem(item: Item): string {
    match item
    case Plain(c) => [c]
    case Short(c) => ['\\', c]
    case Unit(digits) => "\\u" + digits
  }

  function PrintItems(items: seq<Item>): string {
    if items == [] then "" else PrintItem(items[0]) + PrintItems(items[1..])
  }

  function PrintString(items: seq<Item>): string { "\"" + (PrintItems(items) + "\"") }

  function PrintSign(n: NumberText): string { if n.minus then "-" else "" }
  function PrintFraction(n: NumberText): string { if n.fraction == "" then "" else "." + n.fraction }
  function PrintExponent(n: NumberText): string { n.e + (n.sign + n.exponent) }

  function PrintNumber(n: NumberText): string {
    PrintSign(n) + (n.whole + (PrintFraction(n) + PrintExponent(n)))
  }

  function CloserOf(opener: char): char { if opener == '[' then ']' else '}' }

  function Print(t: Json): string {
    match t
    case Word(word) => word
    case Num(n) => PrintNumber(n)
    case Str(items) => PrintString(items)
    case Empty(opener, gap) => [opener] + (gap + [CloserOf(opener)])
    case Arr(elements) => "[" + PrintElements(elements)
    case Obj(members) => "{" + PrintMembers(members)
  }

  function PrintElements(es: Elements): string {
    es.before + (Print(es.value) + (es.after + PrintElementTail(es.rest)))
  }

  function PrintElementTail(rest: ElementTail): string {
    match rest
    case LastElement => "]"
    case MoreElements(elements) => "," + PrintElements(elements)
  }

  function PrintKey(m: Member): string { PrintString(m.key) + (m.mid + ":") }

  function PrintMember(m: Member): string {
    m.before + (PrintKey(m) + (m.gap + (Print(m.value) + m.after)))
  }

  function PrintMembers(ms: Members): string { PrintMember(ms.m) + PrintMemberTail(ms.rest) }

  function PrintMemberTail(rest: MemberTail): string {
    match rest
    case LastMember => "}"
    case MoreMembers(members) => "," + PrintMembers(members)
  }

  // ----- whitespace

  lemma {:induction false} BlankRead(text: string, pos: nat, gap: string)
    requires At(text, pos, gap) && Blank(gap)
    requires pos + |gap| < |text| ==> !IsWs(text[pos + |gap|])
    ensures Ws(text, pos) == pos + |gap|
    decreases |gap|
  {
    if gap != "" {
      AtIndex(text, pos, gap, 0);
      AtSplit(text, pos, [gap[0]], gap[1..]) by { assert [gap[0]] + gap[1..] == gap; }
      BlankRead(text, pos + 1, gap[1..]);
    }
  }

  lemma {:induction false} WsIsBlank(text: string, pos: nat)
    requires pos <= |text|
    ensures Blank(text[pos..Ws(text, pos)])
    ensures var end := Ws(text, pos); end < |text| ==> !IsWs(text[end])
    decreases |text| - pos
  {
    if pos < |text| && IsWs(text[pos]) {
      WsIsBlank(text, pos + 1);
      var end := Ws(text, pos);
      assert text[pos..end] == [text[pos]] + text[pos + 1..end];
    }
  }

  // ----- strings

  /** The character that spelled items begin with, and how many of them spell it. */
  function Head(items: seq<Item>, decode: bool): (r: Option<(char, nat)>)
    requires LegalItems(items) && items != []
    ensures r.Some? ==> 1 <= r.value.1 <= |items|
  {
    match items[0]
    case Plain(c) => Some((c, 1))
    case Short(c) => Some((SimpleValue(c), 1))
    case Unit(digits) =>
      var code := Hex4Value(digits);
      if decode && IsLow(code) then None
      else if decode && IsHigh(code) then
        if |items| >= 2 && items[1].Unit? && IsLow(Hex4Value(items[1].digits))
        then Some((PairValue(code, Hex4Value(items[1].digits)), 2))
        else None
      else Some((UnitValue(code), 1))
  }

  /** The text a literal stands for; surrogates are checked only when decoding. */
  function Meaning(items: seq<Item>, decode: bool): Option<string>
    requires LegalItems(items)
  {
    if items == [] then Some("")
    else
      var (c, k) :- Head(items, decode);
      Cons(c, Meaning(items[k..], decode))
  }

  function Cons(c: char, s: Option<string>): Option<string> {
    if s.None? then None else Some([c] + s.value)
  }

  function ReadResult(s: Option<string>, end: nat): Parse<string> {
    if s.None? then Malformed else Parsed(s.value, end)
  }

  lemma Hex4Read(text: string, pos: nat, digits: string)
    requires At(text, pos, digits) && IsHex4(digits)
    ensures Hex4(text, pos) == Parsed(Hex4Value(digits), pos + 4)
  {
  }

  lemma PrintItemsStep(items: seq<Item>)
    requires items != []
    ensures PrintItems(items) + "\"" == PrintItem(items[0]) + (PrintItems(items[1..]) + "\"")
  {
  }

  lemma UnitAt(text: string, pos: nat, digits: string)
    requires At(text, pos, PrintItem(Unit(digits))) && IsHex4(digits)
    ensures StartsWith(text, pos, '\\') && StartsWith(text, pos + 1, 'u')
    ensures Hex4(text, pos + 2) == Parsed(Hex4Value(digits), pos + 6)
  {
    AtIndex(text, pos, "\\u" + digits, 0);
    AtIndex(text, pos, "\\u" + digits, 1);
    AtSplit(text, pos, "\\u", digits);
    Hex4Read(text, pos + 2, digits);
  }

  /** What stands first in the rest of a literal tells whether a `\uXXXX` follows. */
  lemma NoUnitAhead(text: string, pos: nat, items: seq<Item>)
    requires At(text, pos, PrintItems(items) + "\"") && LegalItems(items)
    requires items == [] || !items[0].Unit?
    ensures !(StartsWith(text, pos, '\\') && StartsWith(text, pos + 1, 'u'))
  {
    if items == [] {
      AtIndex(text, pos, "\"", 0);
      assert PrintItems(items) + "\"" == "\"";
    } else {
      PrintItemsStep(items);
      AtSplit(text, pos, PrintItem(items[0]), PrintItems(items[1..]) + "\"");
      AtIndex(text, pos, PrintItem(items[0]), 0);
      if items[0].Short? {
        AtIndex(text, pos, PrintItem(items[0]), 1);
      }
    }
  }

  lemma ShortRead(text: string, pos: nat, c: char, decode: bool)
    requires At(text, pos, PrintItem(Short(c))) && IsSimple(c)
    ensures StartsWith(text, pos, '\\') && Escape(text, pos + 1, decode) == Parsed(SimpleValue(c), pos + 2)
  {
    AtIndex(text, pos, PrintItem(Short(c)), 0);
    AtIndex(text, pos, PrintItem(Short(c)), 1);
  }

  /** A `\uXXXX` that is not the first half of a pair. */
  lemma UnitRead(text: string, pos: nat, digits: string, decode: bool)
    requires At(text, pos, PrintItem(Unit(digits))) && IsHex4(digits)
    requires !decode || !IsHigh(Hex4Value(digits))
    ensures StartsWith(text, pos, '\\') && Escape(text, pos + 1, decode) ==
      if decode && IsLow(Hex4Value(digits)) then Malformed else Parsed(UnitValue(Hex4Value(digits)), pos + 6)
  {
    hide Hex4, Hex4Value, UnitValue;
    UnitAt(text, pos, digits);
  }

  lemma PairRead(text: string, pos: nat, high: string, low: string)
    requires At(text, pos, PrintItem(Unit(high))) && At(text, pos + 6, PrintItem(Unit(low)))
    requires IsHex4(high) && IsHex4(low) && IsHigh(Hex4Value(high))
    ensures Escape(text, pos + 1, true) ==
      if IsLow(Hex4Value(low)) then Parsed(PairValue(Hex4Value(high), Hex4Value(low)), pos + 12) else Malformed
  {
    hide At, Hex4, Hex4Value, PairValue;
    UnitAt(text, pos, high);
    UnitAt(text, pos + 6, low);
  }

  lemma LoneRead(text: string, pos: nat, high: string)
    requires At(text, pos, PrintItem(Unit(high))) && IsHex4(high) && IsHigh(Hex4Value(high))
    requires !(StartsWith(text, pos + 6, '\\') && StartsWith(text, pos + 7, 'u'))
    ensures Escape(text, pos + 1, true) == Malformed
  {
    hide Hex4, Hex4Value;
    UnitAt(text, pos, high);
  }

  lemma ItemsAt(text: string, pos: nat, items: seq<Item>)
    requires At(text, pos, PrintItems(items) + "\"") && items != []
    ensures At(text, pos, PrintItem(items[0]))
    ensures At(text, pos + |PrintItem(items[0])|, PrintItems(items[1..]) + "\"")
  {
    PrintItemsStep(items);
    AtSplit(text, pos, PrintItem(items[0]), PrintItems(items[1..]) + "\"");
  }

  lemma EscapeRead(text: string, pos: nat, items: seq<Item>, decode: bool)
    requires At(text, pos, PrintItems(items) + "\"") && LegalItems(items)
    requires items != [] && !items[0].Plain?
    ensures StartsWith(text, pos, '\\')
    ensures Escape(text, pos + 1, decode) ==
      var head := Head(items, decode);
      if head.None? then Malformed else Parsed(head.value.0, pos + |PrintItems(items[..head.value.1])|)
  {
    hide Escape, Hex4Value, PairValue, UnitValue, SimpleValue, PrintItems;
    ItemsAt(text, pos, items);
    FirstItems(items);
    match items[0] {
      case Plain(c) =>
      case Short(c) =>
        ShortRead(text, pos, c, decode);
      case Unit(digits) =>
        UnitAt(text, pos, digits);
        if !decode || !IsHigh(Hex4Value(digits)) {
          UnitRead(text, pos, digits, decode);
        } else if |items| >= 2 && items[1].Unit? {
          ItemsAt(text, pos + 6, items[1..]);
          PairRead(text, pos, digits, items[1].digits);
        } else {
          NoUnitAhead(text, pos + 6, items[1..]);
          LoneRead(text, pos, digits);
        }
    }
  }

  lemma FirstItems(items: seq<Item>)
    requires items != []
    ensures PrintItems(items[..1]) == PrintItem(items[0])
    ensures |items| >= 2 ==> PrintItems(items[..2]) == PrintItem(items[0]) + PrintItem(items[1])
  {
    assert items[..1][1..] == [];
    if |items| >= 2 {
      assert items[..2][1..] == items[1..2];
      assert items[1..2][1..] == [];
    }
  }

  lemma {:induction false} PrintItemsConcat(a: seq<Item>, b: seq<Item>)
    ensures PrintItems(a + b) == PrintItems(a) + PrintItems(b)
  {
    if a == [] {
      assert a + b == b;
    } else {
      assert (a + b)[1..] == a[1..] + b;
      PrintItemsConcat(a[1..], b);
    }
  }

  lemma ItemsSplit(text: string, pos: nat, items: seq<Item>, k: nat)
    requires At(text, pos, PrintItems(items) + "\"") && k <= |items|
    ensures var width := |PrintItems(items[..k])|;
      At(text, pos + width, PrintItems(items[k..]) + "\"")
      && |PrintItems(items)| == width + |PrintItems(items[k..])|
  {
    hide At, PrintItems;
    assert items[..k] + items[k..] == items;
    PrintItemsConcat(items[..k], items[k..]);
    assert PrintItems(items) + "\"" == PrintItems(items[..k]) + (PrintItems(items[k..]) + "\"");
    AtSplit(text, pos, PrintItems(items[..k]), PrintItems(items[k..]) + "\"");
  }

  /** Scanning the first spelled character and going on after it. */
  lemma HeadRead(text: string, pos: nat, items: seq<Item>, decode: bool)
    requires At(text, pos, PrintItems(items) + "\"") && LegalItems(items) && items != []
    ensures StringFrom(text, pos, decode) ==
      var head := Head(items, decode);
      if head.None? then Malformed
      else Prepend([head.value.0], StringFrom(text, pos + |PrintItems(items[..head.value.1])|, decode))
  {
    hide StringFrom, Escape, Head, PrintItems;
    PlainRead(text, pos, items);
    StringStep(text, pos, decode);
    if items[0].Plain? {
      HeadPlain(items, decode);
    } else {
      EscapeRead(text, pos, items, decode);
    }
  }

  lemma NoItems()
    ensures PrintItems([]) == "" && "" + "\"" == "\""
  {
  }

  /** A printed literal is read to its closing quote, and decodes exactly when its surrogates pair up. */
  lemma {:induction false} ItemsRead(text: string, pos: nat, items: seq<Item>, decode: bool)
    requires At(text, pos, PrintItems(items) + "\"") && LegalItems(items)
    ensures StringFrom(text, pos, decode) == ReadResult(Meaning(items, decode), pos + |PrintItems(items)| + 1)
    decreases |items|
  {
    hide At, StringFrom, Escape, Head, PrintItems;
    if items == [] {
      NoItems();
      AtIndex(text, pos, "\"", 0);
      StringEnds(text, pos, decode);
    } else {
      HeadRead(text, pos, items, decode);
      var head := Head(items, decode);
      if head.Some? {
        var k := head.value.1;
        ItemsSplit(text, pos, items, k);
        ItemsRead(text, pos + |PrintItems(items[..k])|, items[k..], decode);
      }
    }
  }

  lemma HeadPlain(items: seq<Item>, decode: bool)
    requires LegalItems(items) && items != [] && items[0].Plain?
    ensures Head(items, decode) == Some((items[0].c, 1)) && PrintItems(items[..1]) == [items[0].c]
  {
    FirstItems(items);
  }

  lemma PlainRead(text: string, pos: nat, items: seq<Item>)
    requires At(text, pos, PrintItems(items) + "\"") && LegalItems(items) && items != []
    ensures pos < |text| && text[pos] >= ' ' && text[pos] != '"'
    ensures if items[0].Plain? then text[pos] == items[0].c != '\\' else text[pos] == '\\'
  {
    PrintItemsStep(items);
    AtSplit(text, pos, PrintItem(items[0]), PrintItems(items[1..]) + "\"");
    AtIndex(text, pos, PrintItem(items[0]), 0);
  }
}
