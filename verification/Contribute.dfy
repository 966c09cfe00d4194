/**
  What a `Contribute` payload says: legacy JSON or Protobuf, with the tie-break
  of multi_round.py, and where the two encodings can collide at all.
 */
module Contribute {
  import opened Basics
  import Utf8
  import Varint
  import opened JsonText
  import opened JsonGrammar
  import opened ContributeJson
  import Prost

  // ----- the canonical encoding

  function CanonicalProto(value: string): Bytes {
    var raw := Utf8.Encode(value);
    if raw == [] then [] else [0x0A] + (Varint.Write(|raw|) + raw)
  }

  method EncodeCanonical(value: string) returns (r: Bytes)
    ensures r == CanonicalProto(value)
  {
    var raw := Utf8.Encode(value);
    if raw == [] {
      return [];
    }
    var length: nat, out: Bytes := |raw|, [0x0A];
    while length >= 0x80
      invariant out + Varint.Write(length) == [0x0A] + Varint.Write(|raw|)
    {
      out := out + [length % 128 + 128];
      length := length / 128;
    }
    out := out + [length];
    r := out + raw;
    assert r == [0x0A] + (Varint.Write(|raw|) + raw);
  }

  // ----- the decision

  datatype Source = FromJson | FromProto
  datatype Decision = Decision(source: Source, value: string)

  function Decide(payload: Bytes): Option<Decision> {
    if payload == [] then None
    else
      var proto := Prost.ProtoValue(payload);
      var json := JsonValue(payload);
      if json.Some? && (proto.None? || CanonicalProto(proto.value) != payload) then
        Some(Decision(FromJson, json.value))
      else if proto.None? then None
      else Some(Decision(FromProto, proto.value))
  }

  /** `_contribute_value`. */
  function ContributeValue(payload: Bytes): Option<string> {
    var decided :- Decide(payload);
    Some(decided.value)
  }

  method DecideContribute(payload: Bytes) returns (r: Option<Decision>)
    ensures r == Decide(payload)
  {
    if payload == [] {
      return None;
    }
    var proto := Prost.ReadProtoValue(payload);
    var json := ReadJsonValue(payload);
    if json.Some? {
      var canonical := true;
      if proto.Some? {
        var again := EncodeCanonical(proto.value);
        canonical := again == payload;
      }
      if proto.None? || !canonical {
        return Some(Decision(FromJson, json.value));
      }
    }
    r := if proto.None? then None else Some(Decision(FromProto, proto.value));
  }

  // ----- the encoding as fields

  function ValueField(raw: Bytes): Prost.Fields {
    if raw == [] then Prost.NoFields
    else Prost.Fields(Prost.Chunk([0x0A], Varint.Write(|raw|), raw), Prost.NoFields)
  }

  lemma CanonicalIsField(value: string)
    ensures CanonicalProto(value) == Prost.Print(ValueField(Utf8.Encode(value)))
  {
    var raw := Utf8.Encode(value);
    if raw != [] {
      var f := Prost.Chunk([0x0A], Varint.Write(|raw|), raw);
      assert Prost.Body(f) + Prost.Print(Prost.NoFields) == Varint.Write(|raw|) + raw;
    }
  }

  /** The key byte 0x0A is field 1 with a length, spelled in one byte. */
  lemma ValueKey()
    ensures Prost.LegalKey([0x0A], 1, 2) && Varint.Value([0x0A]) == 10
  {
    Varint.OneSpells(0x0A);
  }

  lemma ValueFieldLegal(raw: Bytes)
    requires |raw| < Varint.U64
    ensures Prost.AllLegal(ValueField(raw))
    ensures raw != [] ==> Prost.Tag(ValueField(raw).first) == 1
  {
    hide Varint.Write, Varint.Spelled, Varint.Value;
    ValueKey();
    Varint.WriteFits(|raw|);
  }

  lemma CanonicalRead(value: string)
    requires |Utf8.Encode(value)| < Varint.U64
    ensures Prost.ProtoValue(CanonicalProto(value)) == Some(value)
  {
    hide Varint.Write, CanonicalProto, Prost.AllLegal, Prost.Print, Prost.Tag, Prost.ProtoValue, Utf8.Encode;
    var raw := Utf8.Encode(value);
    CanonicalIsField(value);
    ValueFieldLegal(raw);
    Prost.ProtoMeans(ValueField(raw));
    Utf8.DecodeEncode(value);
    if raw == [] {
      EncodeNothing();
      Utf8.EncodeInjective(value, "");
    }
  }

  lemma EncodeNothing()
    ensures Utf8.Encode("") == []
  {
  }

  /** A length that does not fit 64 bits is refused, so such a value has no decodable encoding. */
  lemma OverlongRefused(value: string)
    requires |Utf8.Encode(value)| >= Varint.U64
    ensures Prost.ProtoValue(CanonicalProto(value)) == None
  {
    hide Prost.SkipField, Prost.LegalKey, Utf8.Decode, Utf8.Encode, Varint.Write, Varint.Read, Varint.Value;
    var raw := Utf8.Encode(value);
    var buf := CanonicalProto(value);
    AtWhole(buf);
    AtSplit(buf, 0, [0x0A], Varint.Write(|raw|) + raw);
    AtSplit(buf, 1, Varint.Write(|raw|), raw);
    ValueKey();
    Prost.KeyRead(buf, 0, [0x0A], 1, 2);
    Varint.ReadWritten(buf, 1, |raw|);
    Prost.ValueStep(buf, 0, "");
  }

  lemma SmallWrite(n: nat)
    requires n < 128
    ensures Varint.Write(n) == [n]
  {
  }

  // ----- where the encodings collide

  predicate Opens(n: nat) { n in {9, 10, 13, 32, 91, 123} }

  /** A JSON text begins, after whitespace, with `[` or `{`. */
  lemma ValueOpens(text: string)
    requires TextValue(text).Some?
    ensures var pos := Ws(text, 0); StartsWith(text, pos, '[') || StartsWith(text, pos, '{')
  {
    hide Ws, ArrayValue, ObjectValue;
  }

  /** The first two characters of a text that begins with the field's key and length. */
  lemma SecondChar(text: string, length: nat, raw: Bytes)
    requires Utf8.Encode(text) == [0x0A] + (Varint.Write(length) + raw)
    ensures |text| >= 2 && text[0] == '\n'
    ensures if length < 0x80 then text[1] as int == length else text[1] as int >= 0x80
  {
    hide Utf8.Encode;
    var tail := Varint.Write(length) + raw;
    FirstChar(text, 0x0A, tail);
    FirstChar(text[1..], Varint.Write(length)[0], tail[1..]) by {
      assert tail == [Varint.Write(length)[0]] + tail[1..];
    }
  }

  lemma FirstChar(text: string, b: Byte, rest: Bytes)
    requires Utf8.Encode(text) == [b] + rest
    ensures text != "" && (if b < 0x80 then text[0] as int == b else text[0] as int >= 0x80)
    ensures b < 0x80 ==> Utf8.Encode(text[1..]) == rest
  {
    var head := Utf8.EncodeChar(text[0]);
    assert ([b] + rest)[0] == (head + Utf8.Encode(text[1..]))[0] == head[0];
    if b < 0x80 {
      assert |head| == 1;
      assert rest == ([b] + rest)[1..] == (head + Utf8.Encode(text[1..]))[1..];
    }
  }

  /** Only values of 9, 10, 13, 32, 91 or 123 bytes have an encoding that is also JSON. */
  lemma {:induction false} AmbiguityConfined(value: string)
    requires JsonValue(CanonicalProto(value)).Some?
    ensures Opens(|Utf8.Encode(value)|)
  {
    hide TextValue, Utf8.Encode, Varint.Write;
    var raw, payload := Utf8.Encode(value), CanonicalProto(value);
    var text := Utf8.Decode(payload).value;
    Utf8.EncodeDecode(payload);
    ValueOpens(text);
    if raw == [] {
      NothingOpens(text);
    } else {
      SecondChar(text, |raw|, raw);
      OpensAt(text, |raw|);
    }
  }

  lemma NothingOpens(text: string)
    requires Utf8.Encode(text) == []
    ensures text == ""
  {
  }

  lemma OpensAt(text: string, length: nat)
    requires |text| >= 2 && text[0] == '\n'
    requires if length < 0x80 then text[1] as int == length else text[1] as int >= 0x80
    requires var pos := Ws(text, 0); StartsWith(text, pos, '[') || StartsWith(text, pos, '{')
    ensures Opens(length)
  {
    if !IsWs(text[1]) {
      assert Ws(text, 1) == 1;
    }
  }

  // ----- each of the six lengths does collide

  function PlainItems(s: string): seq<Item> {
    seq(|s|, i requires 0 <= i < |s| => Plain(s[i]))
  }

  predicate IsPlain(s: string) { forall i | 0 <= i < |s| :: ' ' <= s[i] < 128 as char && s[i] != '"' && s[i] != '\\' }

  lemma {:induction false} PlainMeans(s: string)
    requires IsPlain(s)
    ensures LegalItems(PlainItems(s)) && PrintItems(PlainItems(s)) == s && Meaning(PlainItems(s), true) == Some(s)
  {
    if s != "" {
      PlainMeans(s[1..]);
      assert PlainItems(s)[1..] == PlainItems(s[1..]);
      assert s == [s[0]] + s[1..];
    }
  }

  /** An ASCII value whose length byte and text spell the tree `t` after a line feed. */
  lemma Collides(value: string, before: string, t: Json)
    requires 0 < |value| < 128 && Utf8.Ascii(value) && Blank(before) && Legal(t)
    requires ['\n', |value| as char] + value == before + Print(t)
    ensures |Utf8.Encode(value)| == |value| && JsonValue(CanonicalProto(value)) == TreeMeaning(t)
  {
    hide TreeMeaning, TextValue, Print, Legal;
    var text := ['\n', |value| as char] + value;
    Utf8.EncodeAscii(value);
    Utf8.EncodeConcat(['\n', |value| as char], value);
    Utf8.EncodeAscii(['\n', |value| as char]);
    assert Utf8.Encode(['\n', |value| as char]) == [0x0A, |value|];
    SmallWrite(|value|);
    assert CanonicalProto(value) == Utf8.Encode(text);
    Utf8.DecodeEncode(text);
    assert text == before + (Print(t) + "");
    TextMeans(text, before, t, "");
  }

  function Letters(k: nat): string { seq(k, _ => 'a') }

  function ArrayTree(s: string): Json { Arr(Elements("", Str(PlainItems(s)), "", LastElement)) }

  function ValueMember(s: string): Member {
    Member("", PlainItems("value"), "", "", Str(PlainItems(s)), "")
  }

  function ObjectTree(s: string): Json { Obj(Members(ValueMember(s), LastMember)) }

  lemma Quoted(s: string)
    requires IsPlain(s)
    ensures PrintString(PlainItems(s)) == "\"" + s + "\""
  {
    PlainMeans(s);
  }

  lemma ArrayMeansItself(s: string)
    requires IsPlain(s)
    ensures Legal(ArrayTree(s)) && TreeMeaning(ArrayTree(s)) == Some(s)
  {
    hide PlainItems, Meaning, LegalItems;
    PlainMeans(s);
    assert LegalElements(ArrayTree(s).elements);
  }

  lemma ArrayPrints(s: string)
    requires IsPlain(s)
    ensures Print(ArrayTree(s)) == "[\"" + s + "\"]"
  {
    hide PrintString, PlainItems;
    Quoted(s);
    assert "" + "]" == "]";
    assert PrintElements(ArrayTree(s).elements) == PrintString(PlainItems(s)) + "]";
  }

  lemma ObjectMeans(s: string)
    requires IsPlain(s)
    ensures var t := ObjectTree(s); Legal(t) && TreeMeaning(t) == Some(s)
  {
    hide PlainItems, Meaning, LegalItems, TreeMeaning, Legal;
    PlainMeans(s);
    PlainMeans("value");
    LegalText(s);
    OneMemberMeans(ValueMember(s), s);
  }

  lemma LegalText(s: string)
    requires LegalItems(PlainItems(s))
    ensures Legal(Str(PlainItems(s)))
  {
  }

  lemma OneMemberMeans(m: Member, s: string)
    requires LegalMember(m) && Step(m, None) == Some(Some(s))
    ensures var t := Obj(Members(m, LastMember)); Legal(t) && TreeMeaning(t) == Some(s)
  {
    hide Step, LegalMember;
    assert Listed(Members(m, LastMember)) == [m];
    assert [m][1..] == [];
    assert Fold([m], None) == Some(Some(s));
  }

  lemma ObjectPrints(s: string)
    requires IsPlain(s)
    ensures Print(ObjectTree(s)) == "{\"value\":\"" + s + "\"}"
  {
    hide PrintString, PlainItems;
    Quoted(s);
    Quoted("value");
    var m := ValueMember(s);
    assert PrintKey(m) == "\"value\":";
    assert PrintMember(m) == "\"value\":" + PrintString(PlainItems(s));
    assert PrintMembers(ObjectTree(s).members) == PrintMember(m) + "}";
  }

  /** The length byte is whitespace: the value itself is the array. */
  lemma CollidesAsArray(length: nat, s: string)
    requires length in {9, 10, 13, 32} && IsPlain(s) && |s| == length - 4
    ensures var value := "[\"" + s + "\"]";
      |Utf8.Encode(value)| == length && JsonValue(CanonicalProto(value)) == Some(s)
  {
    hide TreeMeaning, Legal, JsonValue, Print, ArrayTree, CanonicalProto;
    var value := "[\"" + s + "\"]";
    ArrayMeansItself(s);
    ArrayPrints(s);
    Collides(value, ['\n', length as char], ArrayTree(s));
  }

  /** The length byte is the bracket. */
  lemma CollidesAsBracket(s: string)
    requires IsPlain(s) && |s| == 88
    ensures var value := "\"" + s + "\"]";
      |Utf8.Encode(value)| == 91 && JsonValue(CanonicalProto(value)) == Some(s)
  {
    hide TreeMeaning, Legal, JsonValue, Print, ArrayTree, CanonicalProto;
    var value := "\"" + s + "\"]";
    ArrayMeansItself(s);
    ArrayPrints(s);
    assert ['\n', 91 as char] + value == "\n" + Print(ArrayTree(s));
    Collides(value, "\n", ArrayTree(s));
  }

  /** The length byte is the brace. */
  lemma CollidesAsBrace(s: string)
    requires IsPlain(s) && |s| == 112
    ensures var value := "\"value\":\"" + s + "\"}";
      |Utf8.Encode(value)| == 123 && JsonValue(CanonicalProto(value)) == Some(s)
  {
    hide TreeMeaning, Legal, JsonValue, Print, ObjectTree, CanonicalProto;
    var value := "\"value\":\"" + s + "\"}";
    ObjectMeans(s);
    ObjectPrints(s);
    assert |value| == 123;
    assert ['\n', 123 as char] + value == "\n" + Print(ObjectTree(s));
    Collides(value, "\n", ObjectTree(s));
  }

  /** For each of the six lengths some value of that length is also a JSON contribution. */
  lemma AmbiguityReached(length: nat) returns (value: string)
    requires Opens(length)
    ensures |Utf8.Encode(value)| == length && JsonValue(CanonicalProto(value)).Some?
  {
    hide JsonValue, CanonicalProto, Utf8.Encode;
    if length == 123 {
      value := "\"value\":\"" + Letters(112) + "\"}";
      CollidesAsBrace(Letters(112));
    } else if length == 91 {
      value := "\"" + Letters(88) + "\"]";
      CollidesAsBracket(Letters(88));
    } else {
      value := "[\"" + Letters(length - 4) + "\"]";
      CollidesAsArray(length, Letters(length - 4));
    }
  }

  /** The lengths at which the two encodings can collide, exactly. */
  lemma AmbiguousLengths(length: nat)
    ensures Opens(length) <==>
      exists value :: |Utf8.Encode(value)| == length && JsonValue(CanonicalProto(value)).Some?
  {
    if Opens(length) {
      var value := AmbiguityReached(length);
    }
    forall value | |Utf8.Encode(value)| == length && JsonValue(CanonicalProto(value)).Some?
      ensures Opens(length)
    {
      AmbiguityConfined(value);
    }
  }

  // ----- the tie-break

  /**
    A canonically encoded value is decided as itself, even where its bytes are
    also JSON; the empty value and one too long for a 64-bit length are not decided.
   */
  lemma TieBreak(value: string)
    ensures Decide(CanonicalProto(value)) ==
      if value != "" && |Utf8.Encode(value)| < Varint.U64 then Some(Decision(FromProto, value)) else None
  {
    hide JsonValue, Prost.ProtoValue;
    if value != "" {
      NonEmptyEncoding(value);
      if |Utf8.Encode(value)| < Varint.U64 {
        CanonicalRead(value);
      } else {
        OverlongRefused(value);
        if JsonValue(CanonicalProto(value)).Some? {
          AmbiguityConfined(value);
        }
      }
    }
  }

  lemma NonEmptyEncoding(value: string)
    requires value != ""
    ensures Utf8.Encode(value) != []
  {
  }

  // ----- the decision for every payload

  /** The payload is the UTF-8 of a legal JSON text whose tree means `s`. */
  ghost predicate JsonSays(payload: Bytes, s: string) {
    exists text, before, t, after :: Spells(payload, text, before, t, after) && TreeMeaning(t) == Some(s)
  }

  /** The payload is some value's canonical encoding, short enough to be read back. */
  ghost predicate Canonical(payload: Bytes) {
    exists v: string :: |Utf8.Encode(v)| < Varint.U64 && CanonicalProto(v) == payload
  }

  lemma ReadingsSay(payload: Bytes)
    ensures forall v :: Prost.ProtoValue(payload) == Some(v) <==> Prost.ProtoSays(payload, v)
    ensures forall s :: JsonValue(payload) == Some(s) <==> JsonSays(payload, s)
  {
    hide *;
    forall v
      ensures Prost.ProtoValue(payload) == Some(v) <==> Prost.ProtoSays(payload, v)
    {
      Prost.ProtoIff(payload, v);
    }
    forall s
      ensures JsonValue(payload) == Some(s) <==> JsonSays(payload, s)
    {
      JsonSaysIff(payload, s);
    }
  }

  lemma JsonSaysIff(payload: Bytes, s: string)
    ensures JsonValue(payload) == Some(s) <==> JsonSays(payload, s)
  {
    hide JsonValue, Spells, TreeMeaning;
    JsonValueIff(payload, s);
  }

  /** A payload that is canonical at all is the encoding of what it says. */
  lemma CanonicalSays(payload: Bytes)
    ensures Canonical(payload) <==>
      Prost.ProtoValue(payload).Some? && CanonicalProto(Prost.ProtoValue(payload).value) == payload
  {
    hide Prost.ProtoValue, CanonicalProto, Utf8.Encode;
    if Canonical(payload) {
      var v :| |Utf8.Encode(v)| < Varint.U64 && CanonicalProto(v) == payload;
      CanonicalRead(v);
    }
    if Prost.ProtoValue(payload).Some? && CanonicalProto(Prost.ProtoValue(payload).value) == payload {
      var v := Prost.ProtoValue(payload).value;
      if |Utf8.Encode(v)| >= Varint.U64 {
        OverlongRefused(v);
      }
    }
  }

  /**
    What any payload contributes. As Protobuf `v`: it is not empty, says `v` as fields, and
    says nothing as JSON or is canonical. As JSON `s`: it says `s` as JSON and is no
    value's canonical encoding. Nothing: it says nothing either way, or is empty.
   */
  lemma DecidedIff(payload: Bytes, value: string)
    ensures Decide(payload) == Some(Decision(FromProto, value)) <==>
      payload != [] && Prost.ProtoSays(payload, value) && ((forall s :: !JsonSays(payload, s)) || Canonical(payload))
    ensures Decide(payload) == Some(Decision(FromJson, value)) <==>
      payload != [] && JsonSays(payload, value) && !Canonical(payload)
    ensures Decide(payload) == None <==>
      payload == [] || forall v :: !Prost.ProtoSays(payload, v) && !JsonSays(payload, v)
  {
    hide Prost.ProtoValue, JsonValue, CanonicalProto, Prost.ProtoSays, JsonSays, Canonical;
    ReadingsSay(payload);
    CanonicalSays(payload);
    var proto, json := Prost.ProtoValue(payload), JsonValue(payload);
    assert proto.Some? ==> Prost.ProtoSays(payload, proto.value);
    assert json.Some? ==> JsonSays(payload, json.value);
  }

  /** Legacy JSON wins wherever the payload does not begin with the field's key. */
  lemma JsonWins(payload: Bytes)
    requires JsonValue(payload).Some? && payload != [] && payload[0] != 0x0A
    ensures Decide(payload) == Some(Decision(FromJson, JsonValue(payload).value))
  {
    hide JsonValue, Prost.ProtoValue, Varint.Write, Utf8.Encode;
  }

  /**
    Re-encoding a decided value canonically leaves what it contributes unchanged,
    but for the empty value, whose encoding is no bytes, and one too long for a length.
   */
  lemma DecisionIsStable(payload: Bytes)
    requires Decide(payload).Some?
    ensures var value := Decide(payload).value.value;
      ContributeValue(CanonicalProto(value)) == ContributeValue(payload)
      <==> value != "" && |Utf8.Encode(value)| < Varint.U64
  {
    hide JsonValue, Prost.ProtoValue, CanonicalProto, Decide;
    TieBreak(Decide(payload).value.value);
  }
}
