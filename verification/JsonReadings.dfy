/**
  The scanner reads exactly the grammar's texts: every printed tree is read to
  its end, and whatever is read is the printed form of some legal tree.
 */
module JsonReadings {
  import opened Basics
  import opened JsonText
  import opened IgnoreValue
  import opened JsonGrammar

  // ----- numbers

  predicate DigitAt(text: string, pos: nat) { pos < |text| && IsDigit(text[pos]) }

  /** Nothing at `pos` could belong to a number that ends there. */
  predicate NumberStops(text: string, pos: nat) {
    pos >= |text| || !(IsDigit(text[pos]) || text[pos] == '.' || IsE(text[pos]))
  }

  lemma {:induction false} DigitsRead(text: string, at: nat, digits: string)
    requires At(text, at, digits) && AllDigits(digits) && !DigitAt(text, at + |digits|)
    ensures DigitsEnd(text, at) == at + |digits|
    ensures digits != "" ==> Digits(text, at) == Some(at + |digits|)
    decreases |digits|
  {
    if digits != "" {
      AtIndex(text, at, digits, 0);
      AtSplit(text, at, [digits[0]], digits[1..]) by { assert [digits[0]] + digits[1..] == digits; }
      DigitsRead(text, at + 1, digits[1..]);
    }
  }

  lemma WholeRead(text: string, pos: nat, digits: string)
    requires At(text, pos, digits) && digits != "" && AllDigits(digits) && (digits[0] == '0' ==> |digits| == 1)
    requires !DigitAt(text, pos + |digits|)
    ensures Whole(text, pos) == Some(pos + |digits|)
  {
    AtIndex(text, pos, digits, 0);
    DigitsRead(text, pos, digits);
  }

  lemma FractionRead(text: string, pos: nat, n: NumberText)
    requires At(text, pos, PrintFraction(n)) && AllDigits(n.fraction)
    requires var end := pos + |PrintFraction(n)|; !DigitAt(text, end) && !StartsWith(text, end, '.')
    ensures Fraction(text, pos) == Some(pos + |PrintFraction(n)|)
  {
    if n.fraction != "" {
      AtSplit(text, pos, ".", n.fraction);
      AtIndex(text, pos, ".", 0);
      DigitsRead(text, pos + 1, n.fraction);
    }
  }

  lemma ExponentRead(text: string, pos: nat, n: NumberText)
    requires At(text, pos, PrintExponent(n)) && LegalNumber(n) && NumberStops(text, pos + |PrintExponent(n)|)
    ensures Exponent(text, pos) == Some(pos + |PrintExponent(n)|)
  {
    hide At, AllDigits, LegalNumber, IsSign, IsE, DigitsEnd;
    ExponentLegal(n);
    if n.e != "" {
      AtSplit(text, pos, n.e, n.sign + n.exponent);
      AtIndex(text, pos, n.e, 0);
      AtSplit(text, pos + 1, n.sign, n.exponent);
      SignRead(text, pos + 1, n);
      AfterNumber(text, pos + 1 + |n.sign| + |n.exponent|);
      DigitsRead(text, pos + 1 + |n.sign|, n.exponent);
    } else {
      AfterNumber(text, pos);
    }
  }

  lemma ExponentLegal(n: NumberText)
    requires LegalNumber(n)
    ensures n.e == "" ==> n.sign == "" && n.exponent == ""
    ensures n.e != "" ==> |n.e| == 1 && IsE(n.e[0]) && n.exponent != "" && AllDigits(n.exponent)
  {
    hide AllDigits;
  }

  lemma AfterNumber(text: string, pos: nat)
    requires NumberStops(text, pos)
    ensures !DigitAt(text, pos) && (pos < |text| ==> !IsE(text[pos]))
  {
  }

  /** A sign stands before an exponent's digits exactly when it was printed. */
  lemma SignRead(text: string, pos: nat, n: NumberText)
    requires LegalNumber(n) && n.e != "" && At(text, pos, n.sign) && At(text, pos + |n.sign|, n.exponent)
    ensures |n.sign| == if pos < |text| && IsSign(text[pos]) then 1 else 0
  {
    hide At;
    if n.sign == "" {
      AtIndex(text, pos, n.exponent, 0);
    } else {
      AtIndex(text, pos, n.sign, 0);
    }
  }

  /** After the integer or the fraction comes no further digit, and no second point. */
  lemma AfterDigits(text: string, pos: nat, n: NumberText)
    requires At(text, pos, PrintExponent(n)) && LegalNumber(n) && NumberStops(text, pos + |PrintExponent(n)|)
    ensures !DigitAt(text, pos) && !StartsWith(text, pos, '.')
  {
    if n.e != "" {
      AtIndex(text, pos, PrintExponent(n), 0);
    }
  }

  lemma AfterWhole(text: string, pos: nat, n: NumberText)
    requires At(text, pos, PrintFraction(n) + PrintExponent(n)) && LegalNumber(n)
    requires NumberStops(text, pos + |PrintFraction(n) + PrintExponent(n)|)
    ensures !DigitAt(text, pos)
  {
    AtSplit(text, pos, PrintFraction(n), PrintExponent(n));
    if n.fraction == "" {
      AfterDigits(text, pos, n);
    } else {
      AtIndex(text, pos, PrintFraction(n), 0);
    }
  }

  /** Where the parts of a printed number stand. */
  lemma NumberParts(text: string, pos: nat, n: NumberText)
    requires At(text, pos, PrintNumber(n))
    ensures var start := pos + |PrintSign(n)|; var end := start + |n.whole|; var middle := end + |PrintFraction(n)|;
      && At(text, pos, PrintSign(n)) && At(text, start, n.whole)
      && At(text, end, PrintFraction(n) + PrintExponent(n))
      && At(text, end, PrintFraction(n)) && At(text, middle, PrintExponent(n))
      && end + |PrintFraction(n) + PrintExponent(n)| == pos + |PrintNumber(n)|
      && middle + |PrintExponent(n)| == pos + |PrintNumber(n)|
  {
    hide At, PrintSign, PrintFraction, PrintExponent;
    var tail := PrintFraction(n) + PrintExponent(n);
    AtSplit(text, pos, PrintSign(n), n.whole + tail);
    var start := pos + |PrintSign(n)|;
    AtSplit(text, start, n.whole, tail);
    AtSplit(text, start + |n.whole|, PrintFraction(n), PrintExponent(n));
  }

  lemma NumberBegins(text: string, pos: nat, n: NumberText)
    requires At(text, pos, PrintSign(n)) && At(text, pos + |PrintSign(n)|, n.whole) && LegalNumber(n)
    ensures DigitAt(text, pos + |PrintSign(n)|)
    ensures n.minus <==> StartsWith(text, pos, '-')
    ensures |PrintSign(n)| == if n.minus then 1 else 0
  {
    hide At;
    AtIndex(text, pos + |PrintSign(n)|, n.whole, 0);
    if n.minus {
      AtIndex(text, pos, "-", 0);
    }
  }

  lemma NumberRead(text: string, pos: nat, n: NumberText)
    requires At(text, pos, PrintNumber(n)) && LegalNumber(n) && NumberStops(text, pos + |PrintNumber(n)|)
    ensures Number(text, pos) == Some(pos + |PrintNumber(n)|)
    ensures StartsWith(text, pos, '-') || DigitAt(text, pos)
  {
    hide At, Whole, Fraction, Exponent, PrintSign, PrintFraction, PrintExponent, PrintNumber;
    hide LegalNumber, NumberStops, AllDigits, DigitAt, IsE;
    NumberParts(text, pos, n);
    NumberBegins(text, pos, n);
    var start := pos + |PrintSign(n)|;
    var end := start + |n.whole|;
    AfterWhole(text, end, n);
    WholeIsLegal(n);
    WholeRead(text, start, n.whole);
    AfterDigits(text, end + |PrintFraction(n)|, n);
    FractionRead(text, end, n);
    ExponentRead(text, end + |PrintFraction(n)|, n);
  }

  lemma WholeIsLegal(n: NumberText)
    requires LegalNumber(n)
    ensures n.whole != "" && AllDigits(n.whole) && (n.whole[0] == '0' ==> |n.whole| == 1) && AllDigits(n.fraction)
  {
    hide AllDigits;
  }

  lemma {:induction false} DigitsRun(text: string, at: nat)
    requires at <= |text|
    ensures AllDigits(text[at..DigitsEnd(text, at)])
    decreases |text| - at
  {
    if DigitAt(text, at) {
      DigitsRun(text, at + 1);
      assert text[at..DigitsEnd(text, at)] == [text[at]] + text[at + 1..DigitsEnd(text, at)];
    }
  }

  lemma WholeIsDigits(text: string, pos: nat) returns (digits: string)
    requires Whole(text, pos).Some?
    ensures At(text, pos, digits) && pos + |digits| == Whole(text, pos).value
    ensures digits != "" && AllDigits(digits) && (digits[0] == '0' ==> |digits| == 1)
  {
    digits := text[pos..Whole(text, pos).value];
    DigitsRun(text, pos);
  }

  lemma FractionIsDigits(text: string, pos: nat, n: NumberText) returns (m: NumberText)
    requires pos <= |text| && Fraction(text, pos).Some?
    ensures m == n.(fraction := m.fraction) && AllDigits(m.fraction)
    ensures At(text, pos, PrintFraction(m)) && pos + |PrintFraction(m)| == Fraction(text, pos).value
  {
    if StartsWith(text, pos, '.') {
      m := n.(fraction := text[pos + 1..Fraction(text, pos).value]);
      DigitsRun(text, pos + 1);
      AtJoin(text, pos, ".", m.fraction);
    } else {
      m := n.(fraction := "");
    }
  }

  /** The sign and digits of an exponent that is there. */
  lemma ExponentParts(text: string, pos: nat) returns (sign: string, digits: string)
    requires pos < |text| && IsE(text[pos]) && Exponent(text, pos).Some?
    ensures sign == "" || (|sign| == 1 && IsSign(sign[0]))
    ensures digits != "" && AllDigits(digits)
    ensures At(text, pos + 1, sign) && At(text, pos + 1 + |sign|, digits)
    ensures pos + 1 + |sign| + |digits| == Exponent(text, pos).value
  {
    hide DigitsEnd;
    var signed := pos + 1 < |text| && IsSign(text[pos + 1]);
    sign := if signed then text[pos + 1..pos + 2] else "";
    digits := text[pos + 1 + |sign|..Exponent(text, pos).value];
    DigitsRun(text, pos + 1 + |sign|);
  }

  lemma ExponentIsDigits(text: string, pos: nat, n: NumberText) returns (m: NumberText)
    requires pos <= |text| && Exponent(text, pos).Some?
    requires n.e == "" && n.sign == "" && n.exponent == ""
    requires n.whole != "" && AllDigits(n.whole) && (n.whole[0] == '0' ==> |n.whole| == 1) && AllDigits(n.fraction)
    ensures m == n.(e := m.e, sign := m.sign, exponent := m.exponent) && LegalNumber(m)
    ensures At(text, pos, PrintExponent(m)) && pos + |PrintExponent(m)| == Exponent(text, pos).value
  {
    hide DigitsEnd, At, Digits;
    if pos < |text| && IsE(text[pos]) {
      var sign, digits := ExponentParts(text, pos);
      m := n.(e := [text[pos]], sign := sign, exponent := digits);
      AtOne(text, pos);
      AtJoin(text, pos + 1, sign, digits);
      AtJoin(text, pos, [text[pos]], sign + digits);
    } else {
      m := n;
      AtNothing(text, pos);
    }
  }

  lemma AtNothing(text: string, pos: nat)
    requires pos <= |text|
    ensures At(text, pos, "" + ("" + ""))
  {
  }

  lemma NumberIsPrinted(text: string, pos: nat) returns (n: NumberText)
    requires Number(text, pos).Some?
    ensures LegalNumber(n) && At(text, pos, PrintNumber(n)) && pos + |PrintNumber(n)| == Number(text, pos).value
  {
    hide Whole, Fraction, Exponent, PrintFraction, PrintExponent, PrintSign, DigitsEnd, At;
    var minus := StartsWith(text, pos, '-');
    var start := if minus then pos + 1 else pos;
    var whole := WholeIsDigits(text, start);
    n := NumberText(minus, whole, "", "", "", "");
    n := FractionIsDigits(text, start + |whole|, n);
    var middle := start + |whole| + |PrintFraction(n)|;
    var m := ExponentIsDigits(text, middle, n);
    SameFraction(n, m);
    n := m;
    AtJoin(text, start + |whole|, PrintFraction(n), PrintExponent(n));
    AtJoin(text, start, whole, PrintFraction(n) + PrintExponent(n));
    SignAt(text, pos, n);
    AtJoin(text, pos, PrintSign(n), whole + (PrintFraction(n) + PrintExponent(n)));
  }

  lemma SignAt(text: string, pos: nat, n: NumberText)
    requires pos <= |text| && n.minus == StartsWith(text, pos, '-')
    ensures At(text, pos, PrintSign(n)) && |PrintSign(n)| == if n.minus then 1 else 0
  {
  }

  lemma SameFraction(m: NumberText, n: NumberText)
    requires m.fraction == n.fraction
    ensures PrintFraction(m) == PrintFraction(n)
  {
  }

  // ----- strings

  lemma OneItem(item: Item)
    ensures PrintItems([item]) == PrintItem(item)
  {
  }

  lemma TwoItems(first: Item, second: Item)
    ensures PrintItems([first, second]) == PrintItem(first) + PrintItem(second)
  {
    OneItem(second);
    assert [first, second][1..] == [second];
  }

  lemma EscapeIsItems(text: string, pos: nat, decode: bool) returns (items: seq<Item>)
    requires StartsWith(text, pos, '\\') && Escape(text, pos + 1, decode).Parsed?
    ensures LegalItems(items) && items != [] && At(text, pos, PrintItems(items))
    ensures pos + |PrintItems(items)| == Escape(text, pos + 1, decode).pos
  {
    hide Hex4Value, PairValue, UnitValue, SimpleValue, PrintItems, At;
    if IsSimple(text[pos + 1]) {
      items := [Short(text[pos + 1])];
      OneItem(items[0]);
      ShortIsPrinted(text, pos);
    } else {
      var first := Unit(text[pos + 2..pos + 6]);
      UnitIsPrinted(text, pos);
      if decode && IsHigh(Hex4Value(first.digits)) {
        var second := Unit(text[pos + 8..pos + 12]);
        UnitIsPrinted(text, pos + 6);
        items := [first, second];
        TwoItems(first, second);
        AtJoin(text, pos, PrintItem(first), PrintItem(second));
      } else {
        items := [first];
        OneItem(first);
      }
    }
  }

  lemma ShortIsPrinted(text: string, pos: nat)
    requires StartsWith(text, pos, '\\') && pos + 1 < |text| && IsSimple(text[pos + 1])
    ensures LegalItem(Short(text[pos + 1])) && At(text, pos, PrintItem(Short(text[pos + 1])))
    ensures |PrintItem(Short(text[pos + 1]))| == 2
  {
    assert text[pos..pos + 2] == PrintItem(Short(text[pos + 1]));
  }

  lemma UnitIsPrinted(text: string, pos: nat)
    requires StartsWith(text, pos, '\\') && StartsWith(text, pos + 1, 'u') && Hex4(text, pos + 2).Parsed?
    ensures LegalItem(Unit(text[pos + 2..pos + 6])) && At(text, pos, PrintItem(Unit(text[pos + 2..pos + 6])))
  {
    assert text[pos..pos + 2] == "\\u";
    AtJoin(text, pos, "\\u", text[pos + 2..pos + 6]);
  }

  /** The items that spell the first character of the rest of a literal. */
  lemma HeadIsItems(text: string, pos: nat, decode: bool) returns (head: seq<Item>)
    requires StringFrom(text, pos, decode).Parsed? && text[pos] != '"'
    ensures LegalItems(head) && At(text, pos, PrintItems(head)) && head != []
    ensures PrintItems(head) != ""
    ensures StringFrom(text, pos + |PrintItems(head)|, decode).Parsed?
    ensures StringFrom(text, pos + |PrintItems(head)|, decode).pos == StringFrom(text, pos, decode).pos
  {
    hide StringFrom, Escape, PrintItems;
    StringEnds(text, pos, decode);
    StringStep(text, pos, decode);
    if text[pos] != '\\' {
      head := [Plain(text[pos])];
      OneItem(head[0]);
    } else {
      head := EscapeIsItems(text, pos, decode);
    }
  }

  lemma AtQuote(text: string, pos: nat)
    requires StartsWith(text, pos, '"')
    ensures At(text, pos, "\"")
  {
  }

  lemma {:induction false} StringIsItems(text: string, pos: nat, decode: bool) returns (items: seq<Item>)
    requires StringFrom(text, pos, decode).Parsed?
    ensures LegalItems(items) && At(text, pos, PrintItems(items) + "\"")
    ensures pos + |PrintItems(items)| + 1 == StringFrom(text, pos, decode).pos
    decreases |text| - pos
  {
    hide At, Escape, StringFrom, PrintItems;
    StringEnds(text, pos, decode);
    if text[pos] == '"' {
      items := [];
      AtQuote(text, pos);
      NoItems();
    } else {
      var head := HeadIsItems(text, pos, decode);
      var rest := StringIsItems(text, pos + |PrintItems(head)|, decode);
      items := head + rest;
      PrintItemsConcat(head, rest);
      AtJoin(text, pos, PrintItems(head), PrintItems(rest) + "\"");
      assert PrintItems(items) + "\"" == PrintItems(head) + (PrintItems(rest) + "\"");
    }
  }

  lemma StringRead(text: string, pos: nat, items: seq<Item>, decode: bool)
    requires At(text, pos, PrintString(items)) && LegalItems(items)
    ensures String(text, pos, decode) == ReadResult(Meaning(items, decode), pos + |PrintString(items)|)
    ensures StartsWith(text, pos, '"') && PrintString(items) != ""
  {
    hide At, StringFrom, Meaning;
    AtSplit(text, pos, "\"", PrintItems(items) + "\"");
    AtIndex(text, pos, "\"", 0);
    ItemsRead(text, pos + 1, items, decode);
  }

  lemma StringIsPrinted(text: string, pos: nat, decode: bool) returns (items: seq<Item>)
    requires String(text, pos, decode).Parsed?
    ensures LegalItems(items) && At(text, pos, PrintString(items))
    ensures pos + |PrintString(items)| == String(text, pos, decode).pos
    ensures Meaning(items, decode) == Some(String(text, pos, decode).value)
  {
    items := StringIsItems(text, pos + 1, decode);
    AtJoin(text, pos, "\"", PrintItems(items) + "\"");
    StringRead(text, pos, items, decode);
  }

  /** Without decoding every legal literal has a meaning: skipping never looks at surrogates. */
  lemma {:induction false} LooseMeaning(items: seq<Item>)
    requires LegalItems(items)
    ensures Meaning(items, false).Some?
  {
    if items != [] {
      LooseMeaning(items[1..]);
    }
  }

  // ----- values

  lemma WordRead(text: string, pos: nat, word: string)
    requires At(text, pos, word) && word in LITERALS
    ensures Literal(text, pos) == Some(pos + |word|)
    ensures text[pos] == 't' || text[pos] == 'f' || text[pos] == 'n'
  {
    AtIndex(text, pos, word, 0);
    if word[0] != 't' {
      NoWord(text, pos, "true");
    }
    if word[0] != 'f' {
      NoWord(text, pos, "false");
    }
  }

  /** A printed value begins with no whitespace, and with no closer. */
  lemma PrintStarts(text: string, pos: nat, t: Json)
    requires At(text, pos, Print(t)) && Legal(t)
    ensures pos < |text| && Ws(text, pos) == pos && !IsCloser(text[pos]) && text[pos] != ','
    ensures Print(t) != ""
  {
    hide PrintNumber, PrintString, PrintElements, PrintMembers;
    match t {
      case Word(word) => WordRead(text, pos, word);
      case Num(n) => NumberStarts(text, pos, n);
      case Str(items) => StringRead(text, pos, items, false);
      case Empty(opener, gap) => AtIndex(text, pos, [opener] + (gap + [CloserOf(opener)]), 0);
      case Arr(es) => AtIndex(text, pos, "[" + PrintElements(es), 0);
      case Obj(ms) => AtIndex(text, pos, "{" + PrintMembers(ms), 0);
    }
  }

  lemma NumberStarts(text: string, pos: nat, n: NumberText)
    requires At(text, pos, PrintNumber(n)) && LegalNumber(n)
    ensures pos < |text| && PrintNumber(n) != "" && (text[pos] == '-' || IsDigit(text[pos]))
  {
    AtIndex(text, pos, PrintNumber(n), 0);
  }

  lemma GapThen(text: string, pos: nat, gap: string, rest: string)
    requires At(text, pos, gap + rest) && Blank(gap)
    requires rest != "" && !IsWs(rest[0])
    ensures Ws(text, pos) == pos + |gap| && At(text, pos + |gap|, rest)
    ensures text[pos + |gap|] == rest[0]
  {
    AtSplit(text, pos, gap, rest);
    AtIndex(text, pos + |gap|, rest, 0);
    BlankRead(text, pos, gap);
  }

  lemma EmptyRead(text: string, pos: nat, opener: char, gap: string)
    requires At(text, pos, Print(Empty(opener, gap))) && (opener == '[' || opener == '{') && Blank(gap)
    ensures ValueEnd(text, pos) == Some(pos + |gap| + 2)
  {
    hide Ws, TailEnd, MemberEnd, Blank, String, Number, Literal;
    AtSplit(text, pos, [opener], gap + [CloserOf(opener)]);
    AtIndex(text, pos, [opener], 0);
    BlankRead(text, pos, "");
    GapThen(text, pos + 1, gap, [CloserOf(opener)]);
  }

  lemma TailNotNumber(text: string, pos: nat, after: string, tail: string)
    requires At(text, pos, after + tail) && Blank(after)
    requires tail != "" && (tail[0] == ',' || IsCloser(tail[0]))
    ensures NumberStops(text, pos)
  {
    AtIndex(text, pos, after + tail, 0);
  }

  /** Every legal text is read as a value, to its end; a number must not run on. */
  lemma ScalarRead(text: string, pos: nat, t: Json)
    requires At(text, pos, Print(t)) && Legal(t) && (t.Word? || t.Num? || t.Str?)
    requires t.Num? ==> NumberStops(text, pos + |Print(t)|)
    ensures ValueEnd(text, pos) == Some(pos + |Print(t)|)
  {
    hide At, Ws, String, Number, Literal, TailEnd, MemberEnd, PrintNumber, PrintString, PrintElements, PrintMembers;
    PrintStarts(text, pos, t);
    match t {
      case Word(word) =>
        WordRead(text, pos, word);
      case Num(n) =>
        NumberRead(text, pos, n);
        NumberStarts(text, pos, n);
      case Str(items) =>
        StringRead(text, pos, items, false);
        LooseMeaning(items);
    }
  }

  lemma {:induction false} ValueRead(text: string, pos: nat, t: Json)
    requires At(text, pos, Print(t)) && Legal(t)
    requires t.Num? ==> NumberStops(text, pos + |Print(t)|)
    ensures ValueEnd(text, pos) == Some(pos + |Print(t)|)
    decreases t
  {
    hide At, Ws, String, Number, Literal, TailEnd, MemberEnd, PrintNumber, PrintString, PrintElements, PrintMembers;
    PrintStarts(text, pos, t);
    match t {
      case Word(_) => ScalarRead(text, pos, t);
      case Num(_) => ScalarRead(text, pos, t);
      case Str(_) => ScalarRead(text, pos, t);
      case Empty(opener, gap) => EmptyRead(text, pos, opener, gap);
      case Arr(elements) =>
        AtSplit(text, pos, "[", PrintElements(elements));
        AtIndex(text, pos, "[", 0);
        ElementsRead(text, pos + 1, elements);
      case Obj(members) =>
        AtSplit(text, pos, "{", PrintMembers(members));
        AtIndex(text, pos, "{", 0);
        MembersRead(text, pos + 1, members);
    }
  }

  lemma {:induction false} ElementsRead(text: string, pos: nat, es: Elements)
    requires At(text, pos, PrintElements(es)) && LegalElements(es)
    ensures pos <= |text| && !StartsWith(text, Ws(text, pos), ']')
    ensures ValueEnd(text, pos).Some? && ValueEnd(text, Ws(text, pos)) == ValueEnd(text, pos)
    ensures TailEnd(text, ValueEnd(text, pos).value, ']') == Some(pos + |PrintElements(es)|)
    decreases es
  {
    hide At, Ws, ValueEnd, TailEnd, Print;
    var tail := PrintElementTail(es.rest);
    AtSplit(text, pos, es.before, Print(es.value) + (es.after + tail));
    var start := pos + |es.before|;
    AtSplit(text, start, Print(es.value), es.after + tail);
    var end := start + |Print(es.value)|;
    PrintStarts(text, start, es.value);
    GapThenValue(text, pos, es.before, es.value);
    TailNotNumber(text, end, es.after, tail);
    ValueRead(text, start, es.value);
    ValueAfterWs(text, pos);
    ElementTailRead(text, end, es.after, es.rest);
  }

  lemma GapThenValue(text: string, pos: nat, gap: string, t: Json)
    requires At(text, pos, gap) && Blank(gap) && At(text, pos + |gap|, Print(t)) && Legal(t)
    ensures Ws(text, pos) == pos + |gap|
  {
    hide Print;
    PrintStarts(text, pos + |gap|, t);
    BlankRead(text, pos, gap);
  }

  lemma {:induction false} ElementTailRead(text: string, pos: nat, after: string, rest: ElementTail)
    requires At(text, pos, after + PrintElementTail(rest)) && Blank(after)
    requires rest.MoreElements? ==> LegalElements(rest.elements)
    ensures pos <= |text| && TailEnd(text, pos, ']') == Some(pos + |after + PrintElementTail(rest)|)
    decreases rest
  {
    hide At, Ws, ValueEnd, PrintElements;
    GapThen(text, pos, after, PrintElementTail(rest));
    if rest.MoreElements? {
      AtSplit(text, pos + |after|, ",", PrintElements(rest.elements));
      ElementsRead(text, pos + |after| + 1, rest.elements);
    }
  }

  lemma KeyRead(text: string, pos: nat, m: Member)
    requires At(text, pos, PrintKey(m)) && LegalItems(m.key) && Blank(m.mid)
    ensures KeyEnd(text, pos) == Some(pos + |PrintKey(m)|) && StartsWith(text, pos, '"')
  {
    hide At, Ws, String, PrintString;
    AtSplit(text, pos, PrintString(m.key), m.mid + ":");
    StringRead(text, pos, m.key, false);
    LooseMeaning(m.key);
    GapThen(text, pos + |PrintString(m.key)|, m.mid, ":");
  }

  function GapAt(pos: nat, m: Member): nat { pos + |m.before| + |PrintKey(m)| }
  function ValueAt(pos: nat, m: Member): nat { GapAt(pos, m) + |m.gap| }
  function ValueStop(pos: nat, m: Member): nat { ValueAt(pos, m) + |Print(m.value)| }

  lemma MemberText(m: Member, tail: string)
    ensures PrintMember(m) + tail == m.before + (PrintKey(m) + (m.gap + (Print(m.value) + (m.after + tail))))
  {
    hide PrintKey, Print;
  }

  lemma MemberParts(text: string, pos: nat, m: Member, tail: string)
    requires At(text, pos, PrintMember(m) + tail)
    ensures At(text, pos, m.before) && At(text, pos + |m.before|, PrintKey(m))
    ensures At(text, GapAt(pos, m), m.gap) && At(text, ValueAt(pos, m), Print(m.value))
    ensures At(text, ValueStop(pos, m), m.after + tail) && ValueStop(pos, m) <= |text|
  {
    hide At, PrintKey, Print, PrintMember;
    var inner := m.gap + (Print(m.value) + (m.after + tail));
    MemberText(m, tail);
    AtSplit(text, pos, m.before, PrintKey(m) + inner);
    AtSplit(text, pos + |m.before|, PrintKey(m), inner);
    AtSplit(text, GapAt(pos, m), m.gap, Print(m.value) + (m.after + tail));
    AtSplit(text, ValueAt(pos, m), Print(m.value), m.after + tail);
  }

  /** A member is read up to the end of its value. */
  lemma {:induction false} MemberRead(text: string, pos: nat, m: Member, tail: string)
    requires At(text, pos, PrintMember(m) + tail) && LegalMember(m)
    requires tail != "" && (tail[0] == ',' || IsCloser(tail[0]))
    ensures pos <= |text| && StartsWith(text, Ws(text, pos), '"')
    ensures MemberEnd(text, Ws(text, pos)) == Some(ValueStop(pos, m))
    ensures At(text, ValueStop(pos, m), m.after + tail)
    decreases m, 0
  {
    hide At, Ws, ValueEnd, KeyEnd, Print, PrintKey, PrintMember, PrintItems;
    MemberParts(text, pos, m, tail);
    KeyRead(text, pos + |m.before|, m);
    BlankRead(text, pos, m.before);
    GapThenValue(text, GapAt(pos, m), m.gap, m.value);
    TailNotNumber(text, ValueStop(pos, m), m.after, tail);
    ValueRead(text, ValueAt(pos, m), m.value);
    ValueAfterWs(text, GapAt(pos, m));
  }

  lemma MemberLength(pos: nat, m: Member)
    ensures pos + |PrintMember(m)| == ValueStop(pos, m) + |m.after|
  {
    hide PrintKey, Print;
  }

  lemma {:induction false} MembersRead(text: string, pos: nat, ms: Members)
    requires At(text, pos, PrintMembers(ms)) && LegalMembers(ms)
    ensures pos <= |text| && StartsWith(text, Ws(text, pos), '"')
    ensures MemberEnd(text, Ws(text, pos)).Some?
    ensures TailEnd(text, MemberEnd(text, Ws(text, pos)).value, '}') == Some(pos + |PrintMembers(ms)|)
    decreases ms
  {
    hide At, Ws, ValueEnd, MemberEnd, TailEnd, PrintMember, ValueStop;
    MemberRead(text, pos, ms.m, PrintMemberTail(ms.rest));
    MemberLength(pos, ms.m);
    MemberTailRead(text, ValueStop(pos, ms.m), ms.m.after, ms.rest);
  }

  lemma {:induction false} MemberTailRead(text: string, pos: nat, after: string, rest: MemberTail)
    requires At(text, pos, after + PrintMemberTail(rest)) && Blank(after)
    requires rest.MoreMembers? ==> LegalMembers(rest.members)
    ensures pos <= |text| && TailEnd(text, pos, '}') == Some(pos + |after + PrintMemberTail(rest)|)
    decreases rest
  {
    hide At, Ws, ValueEnd, MemberEnd, PrintMembers;
    GapThen(text, pos, after, PrintMemberTail(rest));
    if rest.MoreMembers? {
      AtSplit(text, pos + |after|, ",", PrintMembers(rest.members));
      MembersRead(text, pos + |after| + 1, rest.members);
    }
  }

  // ----- whatever is read is the text of a legal tree

  lemma GapBefore(text: string, pos: nat) returns (gap: string)
    requires pos <= |text|
    ensures At(text, pos, gap) && Blank(gap) && pos + |gap| == Ws(text, pos)
  {
    gap := text[pos..Ws(text, pos)];
    WsIsBlank(text, pos);
  }

  lemma OneChar(text: string, pos: nat, c: char)
    requires StartsWith(text, pos, c)
    ensures At(text, pos, [c])
  {
  }

  lemma WordIsPrinted(text: string, pos: nat) returns (word: string)
    requires Literal(text, pos).Some?
    ensures word in LITERALS && At(text, pos, word) && pos + |word| == Literal(text, pos).value
  {
    word := if HasWord(text, pos, "true") then LITERALS[0]
            else if HasWord(text, pos, "false") then LITERALS[1] else LITERALS[2];
  }

  lemma EmptyIsPrinted(text: string, pos: nat, opener: char) returns (t: Json)
    requires opener == '[' || opener == '{'
    requires StartsWith(text, pos, opener) && StartsWith(text, Ws(text, pos + 1), CloserOf(opener))
    ensures Legal(t) && At(text, pos, Print(t)) && pos + |Print(t)| == Ws(text, pos + 1) + 1
  {
    hide At, Ws;
    var gap := GapBefore(text, pos + 1);
    t := Empty(opener, gap);
    OneChar(text, pos, opener);
    OneChar(text, pos + 1 + |gap|, CloserOf(opener));
    AtJoin(text, pos + 1, gap, [CloserOf(opener)]);
    AtJoin(text, pos, [opener], gap + [CloserOf(opener)]);
  }

  lemma {:induction false} ValueIsPrinted(text: string, start: nat) returns (t: Json)
    requires start <= |text| && ValueEnd(text, start).Some?
    ensures Legal(t) && At(text, Ws(text, start), Print(t))
    ensures Ws(text, start) + |Print(t)| == ValueEnd(text, start).value
    decreases |text| - start, 1
  {
    hide At, Ws, String, Number, Literal, TailEnd, MemberEnd, PrintNumber, PrintString, PrintElements, PrintMembers;
    hide LegalElements, LegalMembers, LegalNumber, LegalItems, IsWs;
    var pos := Ws(text, start);
    if StartsWith(text, pos, '[') || StartsWith(text, pos, '{') {
      var opener := text[pos];
      var first := Ws(text, pos + 1);
      OneChar(text, pos, opener);
      if StartsWith(text, first, CloserOf(opener)) {
        t := EmptyIsPrinted(text, pos, opener);
      } else if opener == '[' {
        ValueAfterWs(text, pos + 1);
        var es := ElementsArePrinted(text, pos + 1);
        AtJoin(text, pos, "[", PrintElements(es));
        t := Arr(es);
      } else {
        var ms := MembersArePrinted(text, pos + 1);
        AtJoin(text, pos, "{", PrintMembers(ms));
        t := Obj(ms);
      }
    } else {
      t := ScalarIsPrinted(text, start);
    }
  }

  lemma ScalarIsPrinted(text: string, start: nat) returns (t: Json)
    requires start <= |text| && ValueEnd(text, start).Some?
    requires !StartsWith(text, Ws(text, start), '[') && !StartsWith(text, Ws(text, start), '{')
    ensures Legal(t) && At(text, Ws(text, start), Print(t))
    ensures Ws(text, start) + |Print(t)| == ValueEnd(text, start).value
  {
    hide At, Ws, String, Number, Literal, TailEnd, MemberEnd, PrintNumber, PrintString, PrintElements, PrintMembers;
    hide LegalElements, LegalMembers, LegalNumber, LegalItems, IsWs;
    var pos := Ws(text, start);
    if StartsWith(text, pos, '"') {
      var items := StringIsPrinted(text, pos, false);
      t := Str(items);
    } else if StartsWith(text, pos, '-') || DigitAt(text, pos) {
      var n := NumberIsPrinted(text, pos);
      t := Num(n);
    } else {
      var word := WordIsPrinted(text, pos);
      t := Word(word);
    }
  }

  lemma {:induction false} ElementsArePrinted(text: string, start: nat) returns (es: Elements)
    requires start <= |text| && ValueEnd(text, start).Some?
    requires TailEnd(text, ValueEnd(text, start).value, ']').Some?
    ensures LegalElements(es) && At(text, start, PrintElements(es))
    ensures start + |PrintElements(es)| == TailEnd(text, ValueEnd(text, start).value, ']').value
    decreases |text| - start, 2
  {
    hide At, Ws, ValueEnd, TailEnd, Print;
    var before := GapBefore(text, start);
    var value := ValueIsPrinted(text, start);
    var after, rest := ElementTailIsPrinted(text, ValueEnd(text, start).value);
    es := Elements(before, value, after, rest);
    var tail := after + PrintElementTail(rest);
    AtJoin(text, start + |before|, Print(value), tail);
    AtJoin(text, start, before, Print(value) + tail);
  }

  lemma {:induction false} ElementTailIsPrinted(text: string, start: nat)
    returns (after: string, rest: ElementTail)
    requires start <= |text| && TailEnd(text, start, ']').Some?
    ensures Blank(after) && (rest.MoreElements? ==> LegalElements(rest.elements))
    ensures At(text, start, after + PrintElementTail(rest))
    ensures start + |after + PrintElementTail(rest)| == TailEnd(text, start, ']').value
    decreases |text| - start, 0
  {
    hide At, Ws, ValueEnd, PrintElements;
    after := GapBefore(text, start);
    var pos := Ws(text, start);
    OneChar(text, pos, text[pos]);
    if StartsWith(text, pos, ']') {
      rest := LastElement;
    } else {
      var es := ElementsArePrinted(text, pos + 1);
      rest := MoreElements(es);
      AtJoin(text, pos, ",", PrintElements(es));
    }
    AtJoin(text, start, after, PrintElementTail(rest));
  }

  lemma KeyIsPrinted(text: string, pos: nat) returns (key: seq<Item>, mid: string)
    requires KeyEnd(text, pos).Some?
    ensures LegalItems(key) && Blank(mid)
    ensures At(text, pos, PrintString(key) + (mid + ":"))
    ensures pos + |PrintString(key) + (mid + ":")| == KeyEnd(text, pos).value
  {
    hide At, Ws, String, PrintString;
    key := StringIsPrinted(text, pos, false);
    var end := pos + |PrintString(key)|;
    mid := GapBefore(text, end);
    OneChar(text, end + |mid|, ':');
    AtJoin(text, end, mid, ":");
    AtJoin(text, pos, PrintString(key), mid + ":");
  }

  /** A member up to the end of its value. */
  lemma {:induction false} MemberIsPrinted(text: string, start: nat) returns (m: Member)
    requires start <= |text| && MemberEnd(text, Ws(text, start)).Some?
    ensures LegalMember(m) && m.after == "" && At(text, start, PrintMember(m))
    ensures ValueStop(start, m) == MemberEnd(text, Ws(text, start)).value
    decreases |text| - start, 2
  {
    hide At, Ws, ValueEnd, KeyEnd, Print, PrintString;
    var before := GapBefore(text, start);
    var at := start + |before|;
    var key, mid := KeyIsPrinted(text, at);
    var colon := KeyEnd(text, at).value;
    var gap := GapBefore(text, colon);
    var value := ValueIsPrinted(text, colon);
    m := Member(before, key, mid, gap, value, "");
    assert Print(value) + "" == Print(value);
    AtJoin(text, colon, gap, Print(value) + "");
    AtJoin(text, at, PrintKey(m), gap + (Print(value) + ""));
    AtJoin(text, start, before, PrintKey(m) + (gap + (Print(value) + "")));
  }

  lemma WithAfter(text: string, start: nat, m: Member, after: string, tail: string)
    requires m.after == "" && At(text, start, PrintMember(m)) && At(text, ValueStop(start, m), after + tail)
    ensures At(text, start, PrintMember(m.(after := after)) + tail)
    ensures start + |PrintMember(m.(after := after)) + tail| == ValueStop(start, m) + |after + tail|
  {
    hide At, PrintString, Print, PrintMember;
    MemberLength(start, m);
    AtJoin(text, start, PrintMember(m), after + tail);
    MemberText(m.(after := after), tail);
    MemberText(m, after + tail);
    assert "" + (after + tail) == after + tail;
  }

  lemma {:induction false} MembersArePrinted(text: string, start: nat) returns (ms: Members)
    requires start <= |text| && MemberEnd(text, Ws(text, start)).Some?
    requires TailEnd(text, MemberEnd(text, Ws(text, start)).value, '}').Some?
    ensures LegalMembers(ms) && At(text, start, PrintMembers(ms))
    ensures start + |PrintMembers(ms)| == TailEnd(text, MemberEnd(text, Ws(text, start)).value, '}').value
    decreases |text| - start, 3
  {
    hide At, Ws, MemberEnd, TailEnd, PrintMember, Legal;
    var m := MemberIsPrinted(text, start);
    var after, rest := MemberTailIsPrinted(text, ValueStop(start, m));
    ms := Members(m.(after := after), rest);
    WithAfter(text, start, m, after, PrintMemberTail(rest));
  }

  lemma {:induction false} MemberTailIsPrinted(text: string, start: nat)
    returns (after: string, rest: MemberTail)
    requires start <= |text| && TailEnd(text, start, '}').Some?
    ensures Blank(after) && (rest.MoreMembers? ==> LegalMembers(rest.members))
    ensures At(text, start, after + PrintMemberTail(rest))
    ensures start + |after + PrintMemberTail(rest)| == TailEnd(text, start, '}').value
    decreases |text| - start, 0
  {
    hide At, Ws, MemberEnd, PrintMembers;
    after := GapBefore(text, start);
    var pos := Ws(text, start);
    OneChar(text, pos, text[pos]);
    if StartsWith(text, pos, '}') {
      rest := LastMember;
    } else {
      var ms := MembersArePrinted(text, pos + 1);
      rest := MoreMembers(ms);
      AtJoin(text, pos, ",", PrintMembers(ms));
    }
    AtJoin(text, start, after, PrintMemberTail(rest));
  }

  /** The whole of `text` is one value with whitespace around it. */
  predicate Accepts(text: string) {
    ValueEnd(text, 0).Some? && Ws(text, ValueEnd(text, 0).value) == |text|
  }

  ghost predicate IsJson(text: string, before: string, t: Json, after: string) {
    Blank(before) && Legal(t) && Blank(after) && text == before + (Print(t) + after)
  }

  /** The scanner accepts exactly the texts the grammar derives. */
  lemma AcceptsIffDerived(text: string)
    ensures Accepts(text) <==> exists before, t, after :: IsJson(text, before, t, after)
  {
    if Accepts(text) {
      var before, t, after := AcceptedIsJson(text);
    }
    if exists before, t, after :: IsJson(text, before, t, after) {
      var before, t, after :| IsJson(text, before, t, after);
      JsonIsAccepted(text, before, t, after);
    }
  }

  lemma AcceptedIsJson(text: string) returns (before: string, t: Json, after: string)
    requires Accepts(text)
    ensures IsJson(text, before, t, after)
  {
    hide Ws, ValueEnd, Print;
    before := GapBefore(text, 0);
    t := ValueIsPrinted(text, 0);
    var end := ValueEnd(text, 0).value;
    after := GapBefore(text, end);
    assert text == text[..|before|] + (text[|before|..end] + text[end..]);
  }

  lemma BlankStops(text: string, pos: nat, gap: string)
    requires At(text, pos, gap) && Blank(gap) && pos + |gap| == |text|
    ensures NumberStops(text, pos)
  {
    if gap != "" {
      AtIndex(text, pos, gap, 0);
    }
  }

  lemma JsonIsAccepted(text: string, before: string, t: Json, after: string)
    requires IsJson(text, before, t, after)
    ensures Accepts(text)
  {
    hide At, Ws, ValueEnd, Print, Legal, IsDigit, IsE;
    AtWhole(text);
    AtSplit(text, 0, before, Print(t) + after);
    AtSplit(text, |before|, Print(t), after);
    var end := |before| + |Print(t)|;
    GapThenValue(text, 0, before, t);
    BlankStops(text, end, after);
    ValueRead(text, |before|, t);
    ValueAfterWs(text, 0);
    BlankRead(text, end, after);
  }
}
