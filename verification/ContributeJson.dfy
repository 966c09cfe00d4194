/**
  `_json_value` of multi_round.py: the contributed value of a legacy JSON
  payload, read from an object or from a one-element array, with every other
  member skipped.
 */
module ContributeJson {
  import opened Basics
  import opened JsonText
  import opened IgnoreValue
  import opened JsonGrammar
  import opened JsonReadings
  import Utf8

  /** One member of the top-level object: the value known after it, and where it ends. */
  function MemberValue(text: string, start: nat, known: Option<string>): (r: Parse<Option<string>>)
    ensures r.Parsed? ==> start < r.pos <= |text|
  {
    var (key, end) :- String(text, start, true);
    var colon := Expect(text, Ws(text, end), ':');
    if colon.None? then Malformed
    else
      var pos := Ws(text, colon.value);
      if key != "value" then
        var skipped := ValueEnd(text, pos);
        if skipped.None? then Malformed else Parsed(known, skipped.value)
      else if known.Some? then Malformed
      else
        var (s, stop) :- String(text, pos, true);
        Parsed(Some(s), stop)
  }

  /** The members from `start` on, up to and including the closing brace. */
  function ObjectValue(text: string, start: nat, known: Option<string>): (r: Parse<Option<string>>)
    ensures r.Parsed? ==> start < r.pos <= |text|
    decreases |text| - start
  {
    if StartsWith(text, start, '}') then Parsed(known, start + 1)
    else
      var (value, end) :- MemberValue(text, start, known);
      var pos := Ws(text, end);
      if StartsWith(text, pos, ',') then
        var next := Ws(text, pos + 1);
        if StartsWith(text, next, '}') then Malformed else ObjectValue(text, next, value)
      else if StartsWith(text, pos, '}') then ObjectValue(text, pos, value)
      else Malformed
  }

  function ArrayValue(text: string, start: nat): (r: Parse<Option<string>>)
    requires start <= |text|
    ensures r.Parsed? ==> start < r.pos <= |text|
  {
    var (s, end) :- String(text, Ws(text, start), true);
    var close := Expect(text, Ws(text, end), ']');
    if close.None? then Malformed else Parsed(Some(s), close.value)
  }

  function TopValue(text: string): (r: Parse<Option<string>>)
    ensures r.Parsed? ==> r.pos <= |text|
  {
    var pos := Ws(text, 0);
    if StartsWith(text, pos, '[') then ArrayValue(text, pos + 1)
    else if StartsWith(text, pos, '{') then ObjectValue(text, Ws(text, pos + 1), None)
    else Malformed
  }

  function TextValue(text: string): Option<string> {
    var top := TopValue(text);
    if top.Malformed? || Ws(text, top.pos) != |text| then None else top.value
  }

  function JsonValue(payload: Bytes): Option<string> {
    var text :- Utf8.Decode(payload);
    TextValue(text)
  }

  method ScanMember(text: string, start: nat, known: Option<string>) returns (r: Parse<Option<string>>)
    ensures r == MemberValue(text, start, known)
  {
    var key := ScanString(text, start, true);
    if key.Malformed? {
      return Malformed;
    }
    var pos := SkipWs(text, key.pos);
    var colon := Expect(text, pos, ':');
    if colon.None? {
      return Malformed;
    }
    pos := SkipWs(text, colon.value);
    if key.value != "value" {
      var end := Skip(text, pos);
      return if end.None? then Malformed else Parsed(known, end.value);
    } else if known.Some? {
      return Malformed;
    }
    var s := ScanString(text, pos, true);
    r := if s.Malformed? then Malformed else Parsed(Some(s.value), s.pos);
  }

  method ReadJsonValue(payload: Bytes) returns (value: Option<string>)
    ensures value == JsonValue(payload)
  {
    hide ObjectValue, MemberValue, String, Ws;
    var decoded := Utf8.Decode(payload);
    if decoded.None? {
      return None;
    }
    var text := decoded.value;
    var pos := SkipWs(text, 0);
    value := None;
    if StartsWith(text, pos, '[') {
      pos := SkipWs(text, pos + 1);
      var s := ScanString(text, pos, true);
      if s.Malformed? {
        return None;
      }
      pos := SkipWs(text, s.pos);
      if !StartsWith(text, pos, ']') {
        return None;
      }
      value, pos := Some(s.value), pos + 1;
    } else {
      if !StartsWith(text, pos, '{') {
        return None;
      }
      pos := SkipWs(text, pos + 1);
      ghost var whole := ObjectValue(text, pos, None);
      while !StartsWith(text, pos, '}')
        invariant pos <= |text| && whole == ObjectValue(text, pos, value)
        decreases |text| - pos
      {
        ObjectStep(text, pos, value);
        var m := ScanMember(text, pos, value);
        if m.Malformed? {
          return None;
        }
        value := m.value;
        pos := SkipWs(text, m.pos);
        if StartsWith(text, pos, ',') {
          pos := SkipWs(text, pos + 1);
          if StartsWith(text, pos, '}') {
            return None;
          }
        } else if !StartsWith(text, pos, '}') {
          return None;
        }
      }
      ObjectEnd(text, pos, value);
      pos := pos + 1;
    }
    var rest := SkipWs(text, pos);
    if rest != |text| {
      return None;
    }
  }

  lemma ObjectEnd(text: string, start: nat, known: Option<string>)
    requires StartsWith(text, start, '}')
    ensures ObjectValue(text, start, known) == Parsed(known, start + 1)
  {
  }

  lemma ObjectStep(text: string, start: nat, known: Option<string>)
    requires !StartsWith(text, start, '}')
    ensures ObjectValue(text, start, known) ==
      var m := MemberValue(text, start, known);
      if m.Malformed? then Malformed
      else
        var pos := Ws(text, m.pos);
        if StartsWith(text, pos, ',') then
          if StartsWith(text, Ws(text, pos + 1), '}') then Malformed
          else ObjectValue(text, Ws(text, pos + 1), m.value)
        else if StartsWith(text, pos, '}') then ObjectValue(text, pos, m.value)
        else Malformed
  {
    hide MemberValue, Ws;
  }

  // ----- what a tree means

  function KeyMeaning(m: Member): Option<string>
    requires LegalItems(m.key)
  {
    Meaning(m.key, true)
  }

  /** The members as a sequence. */
  function Listed(ms: Members): (r: seq<Member>)
    ensures r != []
    ensures LegalMembers(ms) ==> forall i | 0 <= i < |r| :: LegalMember(r[i])
  {
    [ms.m] + if ms.rest.MoreMembers? then Listed(ms.rest.members) else []
  }

  ghost predicate IsValueKey(m: Member) { LegalItems(m.key) && KeyMeaning(m) == Some("value") }

  /** `ms[k]` is the one member whose key is "value", and every key decodes. */
  ghost predicate OnlyValue(ms: seq<Member>, k: nat) {
    && k < |ms| && IsValueKey(ms[k])
    && forall i | 0 <= i < |ms| :: LegalItems(ms[i].key) && KeyMeaning(ms[i]).Some? && (IsValueKey(ms[i]) ==> i == k)
  }

  /** The string a value spells, if it is a string that decodes. */
  function StringMeaning(t: Json): Option<string>
    requires Legal(t)
  {
    if t.Str? then Meaning(t.items, true) else None
  }

  /** `ms[k]` is that one member, and its value is a string that decodes to `s`. */
  ghost predicate OnlyValueIs(ms: seq<Member>, k: nat, s: string) {
    OnlyValue(ms, k) && Legal(ms[k].value) && StringMeaning(ms[k].value) == Some(s)
  }

  /** The object as `_json_value` goes through it. */
  function Fold(ms: seq<Member>, known: Option<string>): Option<Option<string>>
    requires forall i | 0 <= i < |ms| :: LegalMember(ms[i])
  {
    if ms == [] then Some(known)
    else
      var value :- Step(ms[0], known);
      Fold(ms[1..], value)
  }

  function Step(m: Member, known: Option<string>): Option<Option<string>>
    requires LegalMember(m)
  {
    var key :- KeyMeaning(m);
    if key != "value" then Some(known)
    else if known.Some? then None
    else
      var s :- StringMeaning(m.value);
      Some(Some(s))
  }

  function TreeMeaning(t: Json): Option<string>
    requires Legal(t)
  {
    match t
    case Arr(es) =>
      assert LegalElements(es);
      if es.rest.LastElement? then StringMeaning(es.value) else None
    case Obj(ms) =>
      var value :- Fold(Listed(ms), None);
      value
    case _ => None
  }

  /** Once a value is known, going on succeeds when the other keys decode to something else. */
  lemma {:induction false} FoldKnown(ms: seq<Member>, s: string)
    requires forall i | 0 <= i < |ms| :: LegalMember(ms[i])
    ensures Fold(ms, Some(s)) ==
      if forall i | 0 <= i < |ms| :: KeyMeaning(ms[i]).Some? && !IsValueKey(ms[i]) then Some(Some(s)) else None
    decreases |ms|
  {
    hide Meaning, StringMeaning;
    if ms != [] {
      FoldKnown(ms[1..], s);
      assert forall i | 1 <= i < |ms| :: ms[i] == ms[1..][i - 1];
      assert ms[0] == ms[..1][0];
    }
  }

  /**
    The object is worth `s` exactly when every key decodes, one single key is
    "value", and its value is a string that decodes to `s`, whatever the rest is.
   */
  lemma {:induction false} FoldMeaning(ms: seq<Member>, s: string)
    requires forall i | 0 <= i < |ms| :: LegalMember(ms[i])
    ensures Fold(ms, None) == Some(Some(s)) <==>
      exists k: nat :: OnlyValueIs(ms, k, s)
    decreases |ms|
  {
    hide Meaning, StringMeaning, Legal;
    if ms != [] {
      var rest := ms[1..];
      FoldMeaning(rest, s);
      var value := StringMeaning(ms[0].value);
      if value.Some? {
        FoldKnown(rest, value.value);
      }
      assert forall i | 1 <= i < |ms| :: ms[i] == rest[i - 1];
      assert forall i | 0 <= i < |rest| :: rest[i] == ms[i + 1];
      if IsValueKey(ms[0]) {
        assert OnlyValue(ms, 0) ==> (OnlyValueIs(ms, 0, s) <==> value == Some(s));
      } else if KeyMeaning(ms[0]).Some? {
        LaterMeaning(ms, s);
      }
    }
  }

  lemma LaterMeaning(ms: seq<Member>, s: string)
    requires ms != [] && LegalItems(ms[0].key) && KeyMeaning(ms[0]).Some? && !IsValueKey(ms[0])
    ensures (exists k: nat :: OnlyValueIs(ms, k, s)) <==> exists k: nat :: OnlyValueIs(ms[1..], k, s)
  {
    hide KeyMeaning, Meaning, StringMeaning, Legal;
    var rest := ms[1..];
    OnlyLater(ms);
    if exists k: nat :: OnlyValueIs(rest, k, s) {
      var k: nat :| OnlyValueIs(rest, k, s);
      assert OnlyValueIs(ms, k + 1, s);
    }
    if exists k: nat :: OnlyValueIs(ms, k, s) {
      var k: nat :| OnlyValueIs(ms, k, s);
      assert OnlyValueIs(rest, k - 1, s);
    }
  }

  /** The only value member of an object whose first member is none is that of the others. */
  lemma OnlyLater(ms: seq<Member>)
    requires ms != [] && LegalItems(ms[0].key) && KeyMeaning(ms[0]).Some? && !IsValueKey(ms[0])
    ensures forall k: nat :: OnlyValue(ms[1..], k) ==> OnlyValue(ms, k + 1)
    ensures forall k: nat :: OnlyValue(ms, k) ==> k > 0 && OnlyValue(ms[1..], k - 1)
  {
    hide Meaning;
    var rest := ms[1..];
    assert forall i | 0 <= i < |rest| :: rest[i] == ms[i + 1];
    assert forall i | 1 <= i < |ms| :: ms[i] == rest[i - 1];
  }

  // ----- reading a printed tree gives its meaning

  function Folded(value: Option<Option<string>>, end: nat): Parse<Option<string>> {
    if value.None? then Malformed else Parsed(value.value, end)
  }

  lemma NotAString(text: string, pos: nat, t: Json)
    requires At(text, pos, Print(t)) && Legal(t)
    ensures String(text, pos, true) ==
      if t.Str? then ReadResult(StringMeaning(t), pos + |Print(t)|) else Malformed
  {
    hide PrintNumber, PrintString, PrintElements, PrintMembers;
    match t {
      case Word(word) => WordRead(text, pos, word);
      case Num(n) => NumberStarts(text, pos, n);
      case Str(items) => StringRead(text, pos, items, true);
      case Empty(opener, gap) => AtIndex(text, pos, [opener] + (gap + [CloserOf(opener)]), 0);
      case Arr(es) => AtIndex(text, pos, "[" + PrintElements(es), 0);
      case Obj(ms) => AtIndex(text, pos, "{" + PrintMembers(ms), 0);
    }
  }

  lemma KeyMeans(text: string, pos: nat, m: Member)
    requires At(text, pos, PrintKey(m)) && LegalItems(m.key) && Blank(m.mid)
    ensures String(text, pos, true) == ReadResult(KeyMeaning(m), pos + |PrintString(m.key)|)
    ensures Expect(text, Ws(text, pos + |PrintString(m.key)|), ':') == Some(pos + |PrintKey(m)|)
    ensures pos + |PrintString(m.key)| <= |text|
  {
    hide At, Ws, String, PrintString, Meaning;
    AtSplit(text, pos, PrintString(m.key), m.mid + ":");
    StringRead(text, pos, m.key, true);
    GapThen(text, pos + |PrintString(m.key)|, m.mid, ":");
  }

  lemma MemberMeans(text: string, pos: nat, m: Member, tail: string, known: Option<string>)
    requires At(text, pos, PrintMember(m) + tail) && LegalMember(m)
    requires tail != "" && (tail[0] == ',' || IsCloser(tail[0]))
    ensures pos <= |text| && StartsWith(text, Ws(text, pos), '"')
    ensures MemberValue(text, Ws(text, pos), known) == Folded(Step(m, known), ValueStop(pos, m))
    ensures At(text, ValueStop(pos, m), m.after + tail)
  {
    hide At, Ws, String, ValueEnd, Print, PrintKey, PrintMember, PrintString, Meaning, StringMeaning, Legal, Blank;
    MemberParts(text, pos, m, tail);
    KeyRead(text, pos + |m.before|, m);
    KeyMeans(text, pos + |m.before|, m);
    BlankRead(text, pos, m.before);
    GapThenValue(text, GapAt(pos, m), m.gap, m.value);
    TailNotNumber(text, ValueStop(pos, m), m.after, tail);
    ValueRead(text, ValueAt(pos, m), m.value);
    NotAString(text, ValueAt(pos, m), m.value);
    NoStringMeaning(m.value);
  }

  lemma NoStringMeaning(t: Json)
    requires Legal(t)
    ensures !t.Str? ==> StringMeaning(t) == None
  {
  }

  lemma {:induction false} MembersMean(text: string, pos: nat, ms: Members, known: Option<string>)
    requires At(text, pos, PrintMembers(ms)) && LegalMembers(ms)
    ensures pos <= |text| && StartsWith(text, Ws(text, pos), '"')
    ensures ObjectValue(text, Ws(text, pos), known) == Folded(Fold(Listed(ms), known), pos + |PrintMembers(ms)|)
    decreases ms
  {
    hide At, Ws, MemberValue, ObjectValue, PrintMember, LegalMember, Step, Listed, Fold, ValueStop, IsWs, Blank, Meaning;
    var tail, stop := PrintMemberTail(ms.rest), ValueStop(pos, ms.m);
    AfterIsBlank(ms.m);
    TailStarts(ms.rest);
    MemberMeans(text, pos, ms.m, tail, known);
    MemberLength(pos, ms.m);
    ObjectStep(text, Ws(text, pos), known);
    FoldStep(ms, known);
    var value := Step(ms.m, known);
    if value.Some? {
      MemberTailMeans(text, stop, ms.m.after, ms.rest, value.value);
    }
  }

  lemma AfterIsBlank(m: Member)
    requires LegalMember(m)
    ensures Blank(m.after)
  {
  }

  lemma TailStarts(rest: MemberTail)
    ensures var tail := PrintMemberTail(rest); tail != "" && tail[0] == if rest.MoreMembers? then ',' else '}'
  {
    hide PrintMembers;
  }

  /** After a member's value: the object closes, or the other members are read as they mean. */
  lemma MemberTailMeans(text: string, pos: nat, after: string, rest: MemberTail, known: Option<string>)
    requires At(text, pos, after + PrintMemberTail(rest)) && Blank(after)
    requires rest.MoreMembers? ==> LegalMembers(rest.members)
    ensures pos <= |text|
    ensures var close := Ws(text, pos);
      if rest.LastMember? then
        StartsWith(text, close, '}') && ObjectValue(text, close, known) == Parsed(known, pos + |after| + 1)
      else
        && StartsWith(text, close, ',') && StartsWith(text, Ws(text, close + 1), '"')
        && ObjectValue(text, Ws(text, close + 1), known) ==
             Folded(Fold(Listed(rest.members), known), pos + |after| + |PrintMemberTail(rest)|)
    decreases rest
  {
    hide At, Ws, ObjectValue, PrintMembers, LegalMembers, Listed, Fold, Blank;
    TailStarts(rest);
    GapThen(text, pos, after, PrintMemberTail(rest));
    AtSplit(text, pos, after, PrintMemberTail(rest));
    if rest.MoreMembers? {
      AtSplit(text, pos + |after|, ",", PrintMembers(rest.members));
      MembersMean(text, pos + |after| + 1, rest.members, known);
    } else {
      ObjectEnd(text, pos + |after|, known);
    }
  }

  lemma FoldStep(ms: Members, known: Option<string>)
    requires LegalMembers(ms)
    ensures LegalMember(ms.m)
    ensures Fold(Listed(ms), known) ==
      var value := Step(ms.m, known);
      if value.None? then None
      else if ms.rest.MoreMembers? then Fold(Listed(ms.rest.members), value.value)
      else value
  {
    hide LegalMember, Step;
    assert Listed(ms)[0] == ms.m;
    assert Listed(ms)[1..] == if ms.rest.MoreMembers? then Listed(ms.rest.members) else [];
  }

  lemma ArrayMeans(text: string, pos: nat, es: Elements)
    requires At(text, pos, PrintElements(es)) && LegalElements(es)
    ensures pos <= |text|
    ensures ArrayValue(text, pos) ==
      var s := if es.rest.LastElement? then StringMeaning(es.value) else None;
      if s.None? then Malformed else Parsed(Some(s.value), pos + |PrintElements(es)|)
  {
    hide At, Ws, String, Print, Legal, StringMeaning, Blank;
    var tail := PrintElementTail(es.rest);
    AtSplit(text, pos, es.before, Print(es.value) + (es.after + tail));
    var start := pos + |es.before|;
    AtSplit(text, start, Print(es.value), es.after + tail);
    GapThenValue(text, pos, es.before, es.value);
    NotAString(text, start, es.value);
    NoStringMeaning(es.value);
    GapThen(text, start + |Print(es.value)|, es.after, tail);
  }

  lemma TopOther(text: string, pos: nat, t: Json)
    requires At(text, pos, Print(t)) && Legal(t) && pos == Ws(text, 0)
    requires t.Word? || t.Num? || t.Str?
    ensures TopValue(text) == Malformed
  {
    hide Ws, PrintNumber, PrintString;
    match t {
      case Word(word) => WordRead(text, pos, word);
      case Num(n) => NumberStarts(text, pos, n);
      case Str(items) => StringRead(text, pos, items, true);
    }
  }

  lemma TopEmpty(text: string, pos: nat, opener: char, gap: string)
    requires At(text, pos, Print(Empty(opener, gap))) && Legal(Empty(opener, gap)) && pos == Ws(text, 0)
    ensures TopValue(text) == if opener == '[' then Malformed else Parsed(None, pos + |gap| + 2)
  {
    hide At, Ws, StringFrom;
    AtSplit(text, pos, [opener], gap + [CloserOf(opener)]);
    AtIndex(text, pos, [opener], 0);
    GapThen(text, pos + 1, gap, [CloserOf(opener)]);
  }

  /** Reading a legal text gives what its tree means, whatever its spelling. */
  lemma TextMeans(text: string, before: string, t: Json, after: string)
    requires IsJson(text, before, t, after)
    ensures TextValue(text) == TreeMeaning(t)
  {
    hide At, Ws, ArrayValue, ObjectValue, PrintNumber, PrintString, PrintElements, PrintMembers, Fold, StringMeaning;
    AtWhole(text);
    AtSplit(text, 0, before, Print(t) + after);
    var pos := |before|;
    AtSplit(text, pos, Print(t), after);
    GapThenValue(text, 0, before, t);
    BlankRead(text, pos + |Print(t)|, after);
    match t {
      case Word(_) => TopOther(text, pos, t);
      case Num(_) => TopOther(text, pos, t);
      case Str(_) => TopOther(text, pos, t);
      case Empty(opener, gap) => TopEmpty(text, pos, opener, gap);
      case Arr(es) =>
        AtSplit(text, pos, "[", PrintElements(es));
        AtIndex(text, pos, "[", 0);
        ArrayMeans(text, pos + 1, es);
      case Obj(ms) =>
        AtSplit(text, pos, "{", PrintMembers(ms));
        AtIndex(text, pos, "{", 0);
        MembersMean(text, pos + 1, ms, None);
    }
  }

  // ----- nothing else is read

  lemma DecodedIsSkipped(text: string, pos: nat)
    requires String(text, pos, true).Parsed?
    ensures String(text, pos, false).Parsed? && String(text, pos, false).pos == String(text, pos, true).pos
  {
    hide String;
    var items := StringIsPrinted(text, pos, true);
    StringRead(text, pos, items, true);
    StringRead(text, pos, items, false);
    LooseMeaning(items);
  }

  lemma StringIsValue(text: string, start: nat)
    requires start <= |text| && String(text, Ws(text, start), true).Parsed?
    ensures ValueEnd(text, start) == Some(String(text, Ws(text, start), true).pos)
  {
    hide Ws, StringFrom;
    DecodedIsSkipped(text, Ws(text, start));
  }

  lemma MemberIsSkipped(text: string, start: nat, known: Option<string>)
    requires start <= |text| && MemberValue(text, start, known).Parsed?
    ensures MemberEnd(text, start) == Some(MemberValue(text, start, known).pos)
  {
    hide Ws, String, ValueEnd;
    DecodedIsSkipped(text, start);
    var colon := Expect(text, Ws(text, String(text, start, true).pos), ':').value;
    ValueAfterWs(text, colon);
    if String(text, Ws(text, colon), true).Parsed? {
      StringIsValue(text, colon);
    }
  }

  lemma {:induction false} ObjectIsSkipped(text: string, start: nat, known: Option<string>)
    requires start <= |text| && !StartsWith(text, start, '}') && ObjectValue(text, start, known).Parsed?
    ensures MemberEnd(text, start).Some?
    ensures TailEnd(text, MemberEnd(text, start).value, '}') == Some(ObjectValue(text, start, known).pos)
    decreases |text| - start
  {
    hide Ws, MemberValue, MemberEnd, ValueEnd, ObjectValue;
    ObjectStep(text, start, known);
    MemberIsSkipped(text, start, known);
    var m := MemberValue(text, start, known);
    var pos := Ws(text, m.pos);
    if StartsWith(text, pos, ',') {
      ObjectIsSkipped(text, Ws(text, pos + 1), m.value);
    } else {
      ObjectEnd(text, pos, m.value);
    }
  }

  /** A payload with a value is a JSON text. */
  lemma ValueIsAccepted(text: string)
    requires TextValue(text).Some?
    ensures Accepts(text)
  {
    hide Ws, String, ObjectValue, TailEnd, MemberEnd;
    var pos := Ws(text, 0);
    if StartsWith(text, pos, '[') {
      ArrayIsSkipped(text, pos);
    } else {
      var first := Ws(text, pos + 1);
      if StartsWith(text, first, '}') {
        ObjectEnd(text, first, None);
      } else {
        ObjectIsSkipped(text, first, None);
      }
    }
  }

  lemma ArrayIsSkipped(text: string, pos: nat)
    requires StartsWith(text, pos, '[') && pos == Ws(text, 0) && ArrayValue(text, pos + 1).Parsed?
    ensures ValueEnd(text, 0) == Some(ArrayValue(text, pos + 1).pos)
  {
    hide Ws, String, ValueEnd, TailEnd;
    var first := Ws(text, pos + 1);
    StringIsValue(text, pos + 1);
    ValueAfterWs(text, pos + 1);
    QuoteFirst(text, first);
    ArrayOfOne(text, pos);
  }

  lemma ArrayOfOne(text: string, pos: nat)
    requires StartsWith(text, pos, '[') && pos == Ws(text, 0)
    requires !StartsWith(text, Ws(text, pos + 1), ']') && ValueEnd(text, Ws(text, pos + 1)).Some?
    requires StartsWith(text, Ws(text, ValueEnd(text, Ws(text, pos + 1)).value), ']')
    ensures ValueEnd(text, 0) == Some(Ws(text, ValueEnd(text, Ws(text, pos + 1)).value) + 1)
  {
    hide Ws, String;
  }

  lemma QuoteFirst(text: string, pos: nat)
    requires String(text, pos, true).Parsed?
    ensures StartsWith(text, pos, '"')
  {
  }

  ghost predicate Spells(payload: Bytes, text: string, before: string, t: Json, after: string) {
    Utf8.Decode(payload) == Some(text) && IsJson(text, before, t, after)
  }

  /**
    The whole contract of `_json_value`: a payload is worth `s` exactly when it is
    the UTF-8 of a legal JSON text whose tree means `s`.
   */
  lemma JsonValueIff(payload: Bytes, s: string)
    ensures JsonValue(payload) == Some(s) <==>
      exists text, before, t, after :: Spells(payload, text, before, t, after) && TreeMeaning(t) == Some(s)
  {
    hide TextValue, TreeMeaning, Blank, Legal;
    if JsonValue(payload) == Some(s) {
      var text := Utf8.Decode(payload).value;
      ValueIsAccepted(text);
      var before, t, after := AcceptedIsJson(text);
      LegalPart(text, before, t, after);
      TextMeans(text, before, t, after);
      assert Spells(payload, text, before, t, after);
    }
    forall text, before, t, after | Spells(payload, text, before, t, after) && TreeMeaning(t) == Some(s)
      ensures JsonValue(payload) == Some(s)
    {
      TextMeans(text, before, t, after);
    }
  }

  lemma LegalPart(text: string, before: string, t: Json, after: string)
    requires IsJson(text, before, t, after)
    ensures Legal(t)
  {
  }

  // ----- what a whole tree means

  lemma ListedLegal(ms: Members)
    requires LegalMembers(ms)
    ensures forall i | 0 <= i < |Listed(ms)| :: LegalMember(Listed(ms)[i])
  {
  }

  /**
    A text means `s` exactly when it is an array of one element, a string that decodes to
    `s`, or an object whose keys all decode, with "value" once, holding such a string.
   */
  lemma TreeMeaningIff(t: Json, s: string)
    requires Legal(t)
    ensures TreeMeaning(t) == Some(s) <==>
      || (t.Arr? && t.elements.rest.LastElement? && Legal(t.elements.value) && t.elements.value.Str?
          && Meaning(t.elements.value.items, true) == Some(s))
      || (t.Obj? && exists k: nat :: OnlyValueIs(Listed(t.members), k, s))
  {
    hide Meaning, OnlyValueIs, LegalMember, Fold;
    if t.Obj? {
      ListedLegal(t.members);
      FoldMeaning(Listed(t.members), s);
      assert TreeMeaning(t) == Some(s) <==> Fold(Listed(t.members), None) == Some(Some(s));
    } else if t.Arr? {
      assert LegalElements(t.elements);
    }
  }
}
