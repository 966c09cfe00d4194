/**
  `_wire` determines the message: equal bytes mean equal fields, and equal
  fields have equal bytes in whatever order maps were filled.
 */
module WireInjective {
  import opened Basics
  import Utf8
  import opened Sorting
  import opened Wire
  import opened WireRecords
  import opened WireScalars

  // ----- the same message, maps taken as sets of entries

  ghost predicate SameValue(a: Value, b: Value)
    decreases a, 0
  {
    if a.Sub? then b.Sub? && SameMessage(a.m, b.m) else SameScalar(a, b)
  }

  ghost predicate SameContent(c: Content, d: Content)
    decreases c, 0
  {
    match c
    case One(v) => d.One? && SameValue(v, d.v)
    case Many(items) =>
      d.Many? && |items| == |d.items| && forall i | 0 <= i < |items| :: SameValue(items[i], d.items[i])
    case Table(entries) =>
      && d.Table?
      && (forall e | e in entries :: Paired(e.0, e.1, d.entries))
      && (forall f | f in d.entries :: HasName(f.0, entries))
  }

  ghost predicate Paired(name: Value, v: Value, entries: seq<(Value, Value)>)
    decreases v, 1
  {
    exists f :: f in entries && f.0 == name && SameValue(v, f.1)
  }

  ghost predicate SameMessage(m: Message, n: Message)
    decreases m, 0
  {
    |m.fields| == |n.fields| && forall i | 0 <= i < |m.fields| ::
      m.fields[i].0 == n.fields[i].0 && SameContent(m.fields[i].1, n.fields[i].1)
  }

  // ----- every field's records carry its number

  lemma BodyIsOk(schema: Schema, k: Kind, v: Value)
    requires ValueOk(schema, k, v)
    ensures BodyOk(BodyOf(schema, k, v))
  {
    hide LittleEndian, FixedBits, ScalarNumber, Utf8.Encode, Wire.Wire;
  }

  lemma {:induction false} ItemsNumbered(schema: Schema, number: nat, k: Kind, items: seq<Value>)
    requires forall i | 0 <= i < |items| :: ValueOk(schema, k, items[i])
    ensures var rs := ItemRecords(schema, number, k, items); AllNumbered(rs, number) && RecordsOk(rs)
    decreases |items|
  {
    hide BodyOf, BodyOk;
    if items != [] {
      BodyIsOk(schema, k, items[0]);
      ItemsNumbered(schema, number, k, items[1..]);
    }
  }

  lemma ChunkOk(bytes: Bytes)
    ensures BodyOk(Chunk(bytes))
  {
  }

  lemma {:induction false} TableNumbered(
      schema: Schema, number: nat, key: Kind, k: Kind, es: seq<(Value, Value)>, parent: Content)
    requires EntriesOk(schema, key, k, es) && Inside(es, parent)
    ensures var rs := TableRecords(schema, number, key, k, es, parent); AllNumbered(rs, number) && RecordsOk(rs)
    decreases |es|
  {
    hide BodyOf, Flatten, BodyOk, ValueOk, TableRecords, EntriesOk, Inside;
    if es == [] {
      TableNone(schema, number, key, k, parent);
    } else {
      TableTail(schema, key, k, es, parent);
      TableHead(schema, number, key, k, es, parent);
      EntryChunkOk(schema, key, k, es[0]);
      TableNumbered(schema, number, key, k, es[1..], parent);
    }
  }

  lemma EntryChunkOk(schema: Schema, key: Kind, k: Kind, e: (Value, Value))
    requires ValueOk(schema, key, e.0) && ValueOk(schema, k, e.1)
    ensures BodyOk(EntryChunk(schema, key, k, e))
  {
    hide Flatten, BodyOf, ValueOk;
  }

  lemma FieldNumbered(schema: Schema, number: nat, f: Field, c: Content)
    requires ContentOk(schema, f, c)
    ensures var rs := FieldRecords(schema, number, f, c); AllNumbered(rs, number) && RecordsOk(rs)
  {
    hide BodyOf, Packed, ItemRecords, TableRecords, SortEntries, ValueOk, BodyOk;
    match f.shape {
      case Singular => BodyIsOk(schema, f.kind, c.v);
      case Repeated =>
        if IsLengthPrefixed(f.kind) {
          ItemsNumbered(schema, number, f.kind, c.items);
        } else {
          ChunkOk(Packed(schema, f.kind, c.items));
        }
      case Mapped(key) =>
        TableOk(schema, f, c);
        TableNumbered(schema, number, key, f.kind, SortEntries(c.entries), c);
    }
  }

  ghost predicate FieldsInside(fields: seq<(nat, Content)>, parent: Message) {
    forall i | 0 <= i < |fields| :: fields[i].1 < parent
  }

  predicate Ascending(fields: seq<(nat, Content)>) {
    forall i, j | 0 <= i < j < |fields| :: fields[i].0 < fields[j].0
  }

  lemma {:induction false} FieldsNumbered(
      schema: Schema, desc: Desc, fields: seq<(nat, Content)>, parent: Message, below: nat)
    requires FieldsOk(schema, desc, fields) && FieldsInside(fields, parent)
    requires forall i | 0 <= i < |fields| :: fields[i].0 > below
    ensures var rs := FieldsRecords(schema, desc, fields, parent); AllAbove(rs, below) && RecordsOk(rs)
    decreases |fields|
  {
    hide FieldRecords, ContentOk, BodyOk;
    if fields != [] {
      FieldNumbered(schema, fields[0].0, desc[fields[0].0], fields[0].1);
      FieldsNumbered(schema, desc, fields[1..], parent, below);
    }
  }

  // ----- equal bytes, equal fields

  lemma {:induction false} BodyInjective(schema: Schema, k: Kind, a: Value, b: Value)
    requires ValueOk(schema, k, a) && ValueOk(schema, k, b) && BodyOf(schema, k, a) == BodyOf(schema, k, b)
    ensures SameValue(a, b)
    decreases a
  {
    hide LittleEndian, FixedBits, ScalarNumber, Utf8.Encode, Wire.Wire, MessageOk, SameMessage;
    if IsVarint(k) {
      NumbersInjective(schema, k, a, b);
    } else if IsFixed32(k) || IsFixed64(k) {
      FixedInjective(schema, k, a, b);
    } else if k.StringKind? {
      Utf8.EncodeInjective(a.s, b.s);
    } else if k.MessageKind? {
      MessageInjective(schema, schema[k.name], a.m, b.m);
    }
  }

  lemma {:induction false} ItemsInjective(
      schema: Schema, number: nat, k: Kind, items: seq<Value>, others: seq<Value>)
    requires forall i | 0 <= i < |items| :: ValueOk(schema, k, items[i])
    requires forall i | 0 <= i < |others| :: ValueOk(schema, k, others[i])
    requires ItemRecords(schema, number, k, items) == ItemRecords(schema, number, k, others)
    ensures |items| == |others| && forall i | 0 <= i < |items| :: SameValue(items[i], others[i])
    decreases items
  {
    hide BodyOf, ValueOk, SameValue;
    if items != [] {
      var rs, qs := ItemRecords(schema, number, k, items), ItemRecords(schema, number, k, others);
      assert rs[0].body == qs[0].body && rs[1..] == qs[1..];
      BodyInjective(schema, k, items[0], others[0]);
      ItemsInjective(schema, number, k, items[1..], others[1..]);
      assert forall i | 1 <= i < |items| :: items[i] == items[1..][i - 1] && others[i] == others[1..][i - 1];
    }
  }

  lemma SameWire(schema: Schema, k: Kind, a: Value, b: Value)
    requires ValueOk(schema, k, a) && ValueOk(schema, k, b)
    ensures WireType(BodyOf(schema, k, a)) == WireType(BodyOf(schema, k, b))
  {
    hide LittleEndian, FixedBits, ScalarNumber, Utf8.Encode, Wire.Wire, MessageOk;
  }

  lemma PackedNotEmpty(schema: Schema, k: Kind, items: seq<Value>)
    requires items != [] && !IsLengthPrefixed(k) && forall i | 0 <= i < |items| :: ValueOk(schema, k, items[i])
    ensures Packed(schema, k, items) != []
  {
    hide ScalarNumber, FixedBits, ValueOk;
  }

  lemma {:induction false} PackedInjective(schema: Schema, k: Kind, items: seq<Value>, others: seq<Value>)
    requires !IsLengthPrefixed(k)
    requires forall i | 0 <= i < |items| :: ValueOk(schema, k, items[i])
    requires forall i | 0 <= i < |others| :: ValueOk(schema, k, others[i])
    requires Packed(schema, k, items) == Packed(schema, k, others)
    ensures |items| == |others| && forall i | 0 <= i < |items| :: SameValue(items[i], others[i])
    decreases items
  {
    hide BodyOf, BodyBytes, BodyOk, ValueOk, SameValue, WireType;
    if items != [] {
      PackedNotEmpty(schema, k, items);
    }
    if others != [] {
      PackedNotEmpty(schema, k, others);
    }
    if items != [] && others != [] {
      BodyIsOk(schema, k, items[0]);
      BodyIsOk(schema, k, others[0]);
      SameWire(schema, k, items[0], others[0]);
      BodyDelimits(BodyOf(schema, k, items[0]), Packed(schema, k, items[1..]),
                   BodyOf(schema, k, others[0]), Packed(schema, k, others[1..]));
      BodyInjective(schema, k, items[0], others[0]);
      PackedInjective(schema, k, items[1..], others[1..]);
      assert forall i | 1 <= i < |items| :: items[i] == items[1..][i - 1] && others[i] == others[1..][i - 1];
    }
  }

  type Entries = seq<(Value, Value)>

  /** The bytes of one entry give its key and its value. */
  lemma EntryInjective(schema: Schema, key: Kind, k: Kind, e: (Value, Value), f: (Value, Value))
    requires IsKey(key)
    requires ValueOk(schema, key, e.0) && ValueOk(schema, k, e.1) && ValueOk(schema, key, f.0) && ValueOk(schema, k, f.1)
    requires Flatten([Record(1, BodyOf(schema, key, e.0)), Record(2, BodyOf(schema, k, e.1))])
          == Flatten([Record(1, BodyOf(schema, key, f.0)), Record(2, BodyOf(schema, k, f.1))])
    ensures e.0 == f.0 && BodyOf(schema, k, e.1) == BodyOf(schema, k, f.1)
  {
    hide BodyOf, Flatten, BodyOk, ValueOk;
    BodyIsOk(schema, key, e.0);
    BodyIsOk(schema, key, f.0);
    BodyIsOk(schema, k, e.1);
    BodyIsOk(schema, k, f.1);
    var rs := [Record(1, BodyOf(schema, key, e.0)), Record(2, BodyOf(schema, k, e.1))];
    var qs := [Record(1, BodyOf(schema, key, f.0)), Record(2, BodyOf(schema, k, f.1))];
    FlattenInjective(rs, qs);
    assert rs[0].body == qs[0].body && rs[1].body == qs[1].body;
    KeyInjective(schema, key, e.0, f.0);
  }

  lemma KeyInjective(schema: Schema, key: Kind, a: Value, b: Value)
    requires IsKey(key) && ValueOk(schema, key, a) && ValueOk(schema, key, b)
    requires BodyOf(schema, key, a) == BodyOf(schema, key, b)
    ensures a == b
  {
    hide LittleEndian, FixedBits, ScalarNumber, Utf8.Encode;
    if IsVarint(key) {
      NumbersInjective(schema, key, a, b);
    } else if IsFixed32(key) || IsFixed64(key) {
      FixedInjective(schema, key, a, b);
    } else {
      Utf8.EncodeInjective(a.s, b.s);
    }
  }

  lemma AlikeNil(es: Entries, fs: Entries)
    requires es == [] && fs == []
    ensures Alike(es, fs, SameValue)
  {
  }

  lemma TableSizes(schema: Schema, number: nat, key: Kind, k: Kind, es: Entries, a: Content, fs: Entries, b: Content)
    requires EntriesOk(schema, key, k, es) && EntriesOk(schema, key, k, fs) && Inside(es, a) && Inside(fs, b)
    requires TableRecords(schema, number, key, k, es, a) == TableRecords(schema, number, key, k, fs, b)
    ensures |es| == |fs|
  {
    hide TableRecords, ValueOk;
  }

  lemma TableTail(schema: Schema, key: Kind, k: Kind, es: Entries, parent: Content)
    requires es != [] && EntriesOk(schema, key, k, es) && Inside(es, parent)
    ensures EntriesOk(schema, key, k, es[1..]) && Inside(es[1..], parent)
    ensures ValueOk(schema, key, es[0].0) && ValueOk(schema, k, es[0].1) && es[0].1 < parent
  {
    hide ValueOk;
  }

  function EntryChunk(schema: Schema, key: Kind, k: Kind, e: (Value, Value)): Body
    requires ValueOk(schema, key, e.0) && ValueOk(schema, k, e.1)
  {
    Chunk(Flatten([Record(1, BodyOf(schema, key, e.0)), Record(2, BodyOf(schema, k, e.1))]))
  }

  lemma TableHead(schema: Schema, number: nat, key: Kind, k: Kind, es: Entries, parent: Content)
    requires es != [] && EntriesOk(schema, key, k, es) && Inside(es, parent)
    requires EntriesOk(schema, key, k, es[1..]) && Inside(es[1..], parent)
    requires ValueOk(schema, key, es[0].0) && ValueOk(schema, k, es[0].1)
    ensures TableRecords(schema, number, key, k, es, parent) ==
      [Record(number, EntryChunk(schema, key, k, es[0]))] + TableRecords(schema, number, key, k, es[1..], parent)
  {
    hide BodyOf, Flatten, ValueOk, EntriesOk, Inside;
  }

  lemma {:induction false} TableInjective(
      schema: Schema, number: nat, key: Kind, k: Kind, es: Entries, a: Content, fs: Entries, b: Content)
    requires IsKey(key) && EntriesOk(schema, key, k, es) && EntriesOk(schema, key, k, fs)
    requires Inside(es, a) && Inside(fs, b)
    requires TableRecords(schema, number, key, k, es, a) == TableRecords(schema, number, key, k, fs, b)
    ensures Alike(es, fs, SameValue)
    decreases a, |es|
  {
    hide BodyOf, Flatten, ValueOk, SameValue, Alike, IsKey, TableRecords, EntriesOk, Inside;
    TableSizes(schema, number, key, k, es, a, fs, b);
    if es == [] {
      AlikeNil(es, fs);
    } else {
      TableTail(schema, key, k, es, a);
      TableTail(schema, key, k, fs, b);
      TableHead(schema, number, key, k, es, a);
      TableHead(schema, number, key, k, fs, b);
      var rs, qs := TableRecords(schema, number, key, k, es, a), TableRecords(schema, number, key, k, fs, b);
      assert rs[0].body == qs[0].body && rs[1..] == qs[1..];
      EntryInjective(schema, key, k, es[0], fs[0]);
      BodyInjective(schema, k, es[0].1, fs[0].1);
      TableInjective(schema, number, key, k, es[1..], a, fs[1..], b);
      AlikeCons(es, fs, SameValue);
    }
  }

  lemma {:induction false} ContentInjective(schema: Schema, number: nat, f: Field, c: Content, d: Content)
    requires ContentOk(schema, f, c) && ContentOk(schema, f, d)
    requires FieldRecords(schema, number, f, c) == FieldRecords(schema, number, f, d)
    ensures SameContent(c, d)
    decreases c
  {
    hide BodyOf, Packed, ItemRecords, TableRecords, ValueOk, SameValue, SortEntries;
    match f.shape {
      case Singular =>
        var rs, qs := FieldRecords(schema, number, f, c), FieldRecords(schema, number, f, d);
        assert rs[0].body == qs[0].body;
        BodyInjective(schema, f.kind, c.v, d.v);
      case Repeated =>
        if IsLengthPrefixed(f.kind) {
          ItemsInjective(schema, number, f.kind, c.items, d.items);
        } else {
          var rs, qs := FieldRecords(schema, number, f, c), FieldRecords(schema, number, f, d);
          assert rs[0].body == qs[0].body;
          PackedInjective(schema, f.kind, c.items, d.items);
        }
      case Mapped(key) =>
        TableOk(schema, f, c);
        TableOk(schema, f, d);
        TableInjective(schema, number, key, f.kind, SortEntries(c.entries), c, SortEntries(d.entries), d);
        SameIsAlike(schema, f, c, d);
    }
  }

  // ----- maps as sets of entries

  lemma KeysDistinct(schema: Schema, f: Field, c: Content)
    requires ContentOk(schema, f, c) && f.shape.Mapped?
    ensures Distinct(c.entries, KeyOrder)
  {
    hide KeyText, Utf8.Encode, ValueOk;
    forall i, j | 0 <= i < j < |c.entries|
      ensures KeyOrder(c.entries[i]) != KeyOrder(c.entries[j])
    {
      if KeyOrder(c.entries[i]) == KeyOrder(c.entries[j]) {
        KeyTextInjective(schema, f.shape.key, c.entries[i].0, c.entries[j].0);
      }
    }
  }

  lemma NamedByKey(schema: Schema, f: Field, c: Content, d: Content)
    requires ContentOk(schema, f, c) && ContentOk(schema, f, d) && f.shape.Mapped?
    ensures KeyedByName(c.entries, d.entries, KeyOrder)
  {
    hide ValueOk, KeyText, Utf8.Encode, IsKey;
    forall e, g | e in c.entries && g in d.entries && KeyOrder(e) == KeyOrder(g)
      ensures e.0 == g.0
    {
      KeyTextInjective(schema, f.shape.key, e.0, g.0);
    }
  }

  lemma PairedIsTwin(name: Value, v: Value, entries: Entries)
    ensures Paired(name, v, entries) <==> HasTwin(name, v, entries, SameValue)
  {
    hide SameValue;
  }

  lemma SameIsTwins(c: Content, d: Content)
    requires c.Table? && d.Table?
    ensures SameContent(c, d) <==> Twins(c.entries, d.entries, SameValue)
  {
    hide HasName, HasTwin, SameValue;
    forall e | e in c.entries
      ensures Paired(e.0, e.1, d.entries) <==> HasTwin(e.0, e.1, d.entries, SameValue)
    {
      PairedIsTwin(e.0, e.1, d.entries);
    }
  }

  /** Tables are the same exactly when their sorted entries are alike. */
  lemma SameIsAlike(schema: Schema, f: Field, c: Content, d: Content)
    requires ContentOk(schema, f, c) && ContentOk(schema, f, d) && f.shape.Mapped?
    ensures SameContent(c, d) <==> Alike(SortEntries(c.entries), SortEntries(d.entries), SameValue)
  {
    hide SameContent, ContentOk, KeyedByName, Twins, Alike, KeyText;
    KeysDistinct(schema, f, c);
    KeysDistinct(schema, f, d);
    MappedTables(schema, f, c);
    MappedTables(schema, f, d);
    NamedByKey(schema, f, c, d);
    SameIsTwins(c, d);
    TwinsAlike(c.entries, d.entries, KeyOrder, SameValue);
  }

  lemma MappedTables(schema: Schema, f: Field, c: Content)
    requires ContentOk(schema, f, c) && f.shape.Mapped?
    ensures c.Table?
  {
  }

  // ----- whole messages

  ghost predicate SameFields(fields: seq<(nat, Content)>, others: seq<(nat, Content)>) {
    |fields| == |others| && forall i | 0 <= i < |fields| ::
      fields[i].0 == others[i].0 && SameContent(fields[i].1, others[i].1)
  }

  lemma {:induction false} FieldsInjective(
      schema: Schema, desc: Desc, fields: seq<(nat, Content)>, m: Message, others: seq<(nat, Content)>, n: Message)
    requires FieldsOk(schema, desc, fields) && FieldsInside(fields, m) && Ascending(fields)
    requires FieldsOk(schema, desc, others) && FieldsInside(others, n) && Ascending(others)
    requires FieldsRecords(schema, desc, fields, m) == FieldsRecords(schema, desc, others, n)
    ensures SameFields(fields, others)
    decreases m, 0, |fields|
  {
    hide FieldRecords, ContentOk, SameContent, RecordsOk, AllAbove, AllNumbered;
    if fields != [] && others != [] {
      var f, g := fields[0], others[0];
      FieldNumbered(schema, f.0, desc[f.0], f.1);
      FieldNumbered(schema, g.0, desc[g.0], g.1);
      FieldsNumbered(schema, desc, fields[1..], m, f.0);
      FieldsNumbered(schema, desc, others[1..], n, g.0);
      RunsUnique(FieldRecords(schema, f.0, desc[f.0], f.1), FieldsRecords(schema, desc, fields[1..], m), f.0,
                 FieldRecords(schema, g.0, desc[g.0], g.1), FieldsRecords(schema, desc, others[1..], n), g.0);
      ContentInjective(schema, f.0, desc[f.0], f.1, g.1);
      FieldsInjective(schema, desc, fields[1..], m, others[1..], n);
      assert forall i | 1 <= i < |fields| :: fields[i] == fields[1..][i - 1] && others[i] == others[1..][i - 1];
    }
  }

  lemma MessageParts(schema: Schema, desc: Desc, m: Message)
    requires MessageOk(schema, desc, m)
    ensures FieldsOk(schema, desc, m.fields) && FieldsInside(m.fields, m) && Ascending(m.fields)
    ensures RecordsOk(Records(schema, desc, m))
    ensures Wire.Wire(schema, desc, m) == Flatten(FieldsRecords(schema, desc, m.fields, m))
  {
    hide FieldsRecords, ContentOk, BodyOk, Flatten;
    FieldsNumbered(schema, desc, m.fields, m, 0);
  }

  /** Messages of one descriptor with the same bytes are equal field by field. */
  lemma {:induction false} MessageInjective(schema: Schema, desc: Desc, m: Message, n: Message)
    requires MessageOk(schema, desc, m) && MessageOk(schema, desc, n)
    requires Wire.Wire(schema, desc, m) == Wire.Wire(schema, desc, n)
    ensures SameMessage(m, n)
    decreases m
  {
    hide Wire.Wire, MessageOk, FieldsRecords, Flatten, SameContent, RecordsOk, FieldsOk;
    MessageParts(schema, desc, m);
    MessageParts(schema, desc, n);
    FlattenInjective(FieldsRecords(schema, desc, m.fields, m), FieldsRecords(schema, desc, n.fields, n));
    FieldsInjective(schema, desc, m.fields, m, n.fields, n);
  }

  // ----- equal fields, equal bytes

  lemma {:induction false} SameBody(schema: Schema, k: Kind, a: Value, b: Value)
    requires ValueOk(schema, k, a) && ValueOk(schema, k, b) && SameValue(a, b)
    ensures BodyOf(schema, k, a) == BodyOf(schema, k, b)
    decreases a
  {
    hide LittleEndian, FixedBits, ScalarNumber, Utf8.Encode, Wire.Wire, MessageOk, SameMessage, SameScalar;
    if k.MessageKind? {
      SameBytes(schema, schema[k.name], a.m, b.m);
    } else {
      SameScalarBody(schema, k, a, b);
    }
  }

  lemma {:induction false} SameItems(
      schema: Schema, number: nat, k: Kind, items: seq<Value>, others: seq<Value>)
    requires |items| == |others|
    requires forall i | 0 <= i < |items| ::
      ValueOk(schema, k, items[i]) && ValueOk(schema, k, others[i]) && SameValue(items[i], others[i])
    ensures ItemRecords(schema, number, k, items) == ItemRecords(schema, number, k, others)
    ensures Packed(schema, k, items) == Packed(schema, k, others)
    decreases items
  {
    hide BodyOf, BodyBytes, ValueOk, SameValue;
    if items != [] {
      SameBody(schema, k, items[0], others[0]);
      assert forall i | 0 <= i < |items| - 1 :: items[1..][i] == items[i + 1] && others[1..][i] == others[i + 1];
      SameItems(schema, number, k, items[1..], others[1..]);
    }
  }

  lemma AlikeSizes(es: Entries, fs: Entries)
    requires Alike(es, fs, SameValue)
    ensures |es| == |fs|
  {
    hide SameValue;
  }

  lemma TableNone(schema: Schema, number: nat, key: Kind, k: Kind, parent: Content)
    ensures EntriesOk(schema, key, k, []) && Inside([], parent) && TableRecords(schema, number, key, k, [], parent) == []
  {
    hide ValueOk;
  }

  lemma {:induction false} SameTable(
      schema: Schema, number: nat, key: Kind, k: Kind, es: Entries, a: Content, fs: Entries, b: Content)
    requires EntriesOk(schema, key, k, es) && EntriesOk(schema, key, k, fs) && Inside(es, a) && Inside(fs, b)
    requires Alike(es, fs, SameValue)
    ensures TableRecords(schema, number, key, k, es, a) == TableRecords(schema, number, key, k, fs, b)
    decreases a, |es|
  {
    hide BodyOf, Flatten, ValueOk, SameValue, EntriesOk, Inside, TableRecords;
    AlikeSizes(es, fs);
    if es == [] {
      TableNone(schema, number, key, k, a);
      TableNone(schema, number, key, k, b);
    }
    if es != [] {
      TableTail(schema, key, k, es, a);
      TableTail(schema, key, k, fs, b);
      TableHead(schema, number, key, k, es, a);
      TableHead(schema, number, key, k, fs, b);
      SameBody(schema, k, es[0].1, fs[0].1);
      assert forall i | 0 <= i < |es| - 1 :: es[1..][i] == es[i + 1] && fs[1..][i] == fs[i + 1];
      SameTable(schema, number, key, k, es[1..], a, fs[1..], b);
    }
  }

  lemma {:induction false} SameRecords(schema: Schema, number: nat, f: Field, c: Content, d: Content)
    requires ContentOk(schema, f, c) && ContentOk(schema, f, d) && SameContent(c, d)
    ensures FieldRecords(schema, number, f, c) == FieldRecords(schema, number, f, d)
    decreases c
  {
    hide BodyOf, Packed, ItemRecords, TableRecords, ValueOk, SameValue, SortEntries, Paired, HasName;
    match f.shape {
      case Singular => SameBody(schema, f.kind, c.v, d.v);
      case Repeated => SameItems(schema, number, f.kind, c.items, d.items);
      case Mapped(key) =>
        TableOk(schema, f, c);
        TableOk(schema, f, d);
        SameIsAlike(schema, f, c, d);
        SameTable(schema, number, key, f.kind, SortEntries(c.entries), c, SortEntries(d.entries), d);
    }
  }

  lemma {:induction false} SameFieldsRecords(
      schema: Schema, desc: Desc, fields: seq<(nat, Content)>, m: Message, others: seq<(nat, Content)>, n: Message)
    requires FieldsOk(schema, desc, fields) && FieldsInside(fields, m)
    requires FieldsOk(schema, desc, others) && FieldsInside(others, n)
    requires SameFields(fields, others)
    ensures FieldsRecords(schema, desc, fields, m) == FieldsRecords(schema, desc, others, n)
    decreases m, 0, |fields|
  {
    hide FieldRecords, ContentOk, SameContent;
    if fields != [] {
      SameRecords(schema, fields[0].0, desc[fields[0].0], fields[0].1, others[0].1);
      SameFieldsRecords(schema, desc, fields[1..], m, others[1..], n);
    }
  }

  lemma {:induction false} SameBytes(schema: Schema, desc: Desc, m: Message, n: Message)
    requires MessageOk(schema, desc, m) && MessageOk(schema, desc, n) && SameMessage(m, n)
    ensures Wire.Wire(schema, desc, m) == Wire.Wire(schema, desc, n)
    decreases m
  {
    hide Wire.Wire, MessageOk, FieldsRecords, Flatten, SameContent, FieldsOk;
    MessageParts(schema, desc, m);
    MessageParts(schema, desc, n);
    SameFieldsRecords(schema, desc, m.fields, m, n.fields, n);
  }

  /**
    The deterministic encoding is the message: two messages of one descriptor
    have the same bytes exactly when they agree field by field, maps as sets of
    entries and floats up to NaN bit patterns.
   */
  lemma WireIff(schema: Schema, desc: Desc, m: Message, n: Message)
    requires MessageOk(schema, desc, m) && MessageOk(schema, desc, n)
    ensures Wire.Wire(schema, desc, m) == Wire.Wire(schema, desc, n) <==> SameMessage(m, n)
  {
    hide Wire.Wire, MessageOk, SameMessage;
    if Wire.Wire(schema, desc, m) == Wire.Wire(schema, desc, n) {
      MessageInjective(schema, desc, m, n);
    }
    if SameMessage(m, n) {
      SameBytes(schema, desc, m, n);
    }
  }
}
