/** `_wire`, `_encode` and `_raw` of canonical_json.py as the loops that grow the output. */
module WireCode {
  import opened Basics
  import Varint
  import Utf8
  import opened Wire
  import opened WireRecords
  import opened WireInjective

  lemma FlattenCons(r: Record, rs: seq<Record>)
    ensures Flatten([r] + rs) == RecordBytes(r) + Flatten(rs)
  {
    hide RecordBytes;
    assert ([r] + rs)[1..] == rs;
  }

  lemma Moved(whole: Bytes, out: Bytes, head: Bytes, rest: Bytes)
    requires whole == out + (head + rest)
    ensures whole == (out + head) + rest
  {
  }

  method RawValue(schema: Schema, k: Kind, v: Value) returns (r: Bytes)
    requires ValueOk(schema, k, v)
    ensures r == BodyBytes(BodyOf(schema, k, v))
    decreases v, 0
  {
    hide Varint.Write, LittleEndian, FixedBits, ScalarNumber, Utf8.Encode, Wire.Wire, MessageOk;
    if IsVarint(k) {
      r := Varint.WriteVarint(ScalarNumber(k, v));
    } else if IsFixed32(k) {
      r := LittleEndian(FixedBits(v, 4), 4);
    } else if IsFixed64(k) {
      r := LittleEndian(FixedBits(v, 8), 8);
    } else {
      var data: Bytes;
      if k.StringKind? {
        data := Utf8.Encode(v.s);
      } else if k.BytesKind? {
        data := v.bytes;
      } else {
        data := WireMessage(schema, schema[k.name], v.m);
      }
      var length := Varint.WriteVarint(|data|);
      r := length + data;
    }
  }

  /** The wire type a kind is written with. */
  function WireOf(k: Kind): nat {
    if IsFixed32(k) then 5 else if IsFixed64(k) then 1 else if IsLengthPrefixed(k) then 2 else 0
  }

  lemma WireOfBody(schema: Schema, k: Kind, v: Value)
    requires ValueOk(schema, k, v)
    ensures WireType(BodyOf(schema, k, v)) == WireOf(k)
  {
    hide LittleEndian, FixedBits, ScalarNumber, Utf8.Encode, Wire.Wire, MessageOk;
  }

  method EncodeValue(schema: Schema, number: nat, k: Kind, v: Value) returns (r: Bytes)
    requires ValueOk(schema, k, v)
    ensures r == RecordBytes(Record(number, BodyOf(schema, k, v)))
    decreases v, 1
  {
    hide BodyOf, BodyBytes, ValueOk, WireType;
    WireOfBody(schema, k, v);
    var tag := Varint.WriteVarint(number * 8 + WireOf(k));
    var raw := RawValue(schema, k, v);
    r := tag + raw;
  }

  /** A length-prefixed chunk under a tag. */
  method EncodeChunk(number: nat, body: Bytes) returns (r: Bytes)
    ensures r == RecordBytes(Record(number, Chunk(body)))
  {
    var tag := Varint.WriteVarint(number * 8 + 2);
    var length := Varint.WriteVarint(|body|);
    r := tag + length + body;
    assert r == tag + (length + body);
  }

  lemma NoItemRecords(schema: Schema, number: nat, k: Kind)
    ensures Flatten(ItemRecords(schema, number, k, [])) == []
  {
  }

  lemma ItemRecordsStep(schema: Schema, number: nat, k: Kind, items: seq<Value>, i: nat)
    requires i < |items| && forall j | 0 <= j < |items| :: ValueOk(schema, k, items[j])
    ensures Flatten(ItemRecords(schema, number, k, items[i..])) ==
      RecordBytes(Record(number, BodyOf(schema, k, items[i]))) + Flatten(ItemRecords(schema, number, k, items[i + 1..]))
  {
    hide BodyOf, RecordBytes, ValueOk, Flatten;
    assert items[i..][1..] == items[i + 1..];
    FlattenCons(Record(number, BodyOf(schema, k, items[i])), ItemRecords(schema, number, k, items[i + 1..]));
  }

  method EncodeItems(schema: Schema, number: nat, k: Kind, items: seq<Value>) returns (out: Bytes)
    requires forall i | 0 <= i < |items| :: ValueOk(schema, k, items[i])
    ensures out == Flatten(ItemRecords(schema, number, k, items))
    decreases items, 2
  {
    hide BodyOf, RecordBytes, ValueOk, Flatten, ItemRecords;
    out := [];
    ghost var whole := Flatten(ItemRecords(schema, number, k, items));
    assert items[0..] == items;
    NoItemRecords(schema, number, k);
    for i := 0 to |items|
      invariant whole == out + Flatten(ItemRecords(schema, number, k, items[i..]))
    {
      var one := EncodeValue(schema, number, k, items[i]);
      ItemRecordsStep(schema, number, k, items, i);
      Moved(whole, out, one, Flatten(ItemRecords(schema, number, k, items[i + 1..])));
      out := out + one;
    }
  }

  method EncodePacked(schema: Schema, number: nat, k: Kind, items: seq<Value>) returns (out: Bytes)
    requires forall i | 0 <= i < |items| :: ValueOk(schema, k, items[i])
    ensures out == RecordBytes(Record(number, Chunk(Packed(schema, k, items))))
    decreases items, 2
  {
    hide BodyOf, BodyBytes, ValueOk, RecordBytes;
    var body := [];
    ghost var whole := Packed(schema, k, items);
    assert items[0..] == items;
    for i := 0 to |items|
      invariant whole == body + Packed(schema, k, items[i..])
    {
      var one := RawValue(schema, k, items[i]);
      assert items[i..][1..] == items[i + 1..];
      Moved(whole, body, one, Packed(schema, k, items[i + 1..]));
      body := body + one;
    }
    assert items[|items|..] == [] && whole == body;
    out := EncodeChunk(number, body);
  }

  /** Taking the next entry off what is left of a table. */
  lemma TableStep(
      schema: Schema, number: nat, key: Kind, k: Kind, es: Entries, i: nat, parent: Content, out: Bytes, whole: Bytes)
    requires i < |es| && EntriesOk(schema, key, k, es[i..]) && Inside(es[i..], parent)
    requires whole == out + Flatten(TableRecords(schema, number, key, k, es[i..], parent))
    ensures ValueOk(schema, key, es[i].0) && ValueOk(schema, k, es[i].1) && es[i].0 < parent && es[i].1 < parent
    ensures EntriesOk(schema, key, k, es[i + 1..]) && Inside(es[i + 1..], parent)
    ensures whole == (out + RecordBytes(Record(number, EntryChunk(schema, key, k, es[i]))))
      + Flatten(TableRecords(schema, number, key, k, es[i + 1..], parent))
  {
    hide BodyOf, RecordBytes, ValueOk, TableRecords, Flatten, EntryChunk;
    var rest := es[i..];
    assert rest[0] == es[i] && rest[1..] == es[i + 1..];
    TableTail(schema, key, k, rest, parent);
    TableHead(schema, number, key, k, rest, parent);
    var one := Record(number, EntryChunk(schema, key, k, es[i]));
    FlattenCons(one, TableRecords(schema, number, key, k, es[i + 1..], parent));
    Moved(whole, out, RecordBytes(one), Flatten(TableRecords(schema, number, key, k, es[i + 1..], parent)));
  }

  method EncodeTable(
      schema: Schema, number: nat, key: Kind, k: Kind, es: Entries, ghost parent: Content) returns (out: Bytes)
    requires EntriesOk(schema, key, k, es) && Inside(es, parent)
    ensures out == Flatten(TableRecords(schema, number, key, k, es, parent))
    decreases parent, 2
  {
    hide BodyOf, RecordBytes, ValueOk, TableRecords, Flatten, EntriesOk, Inside, EntryChunk;
    out := [];
    ghost var whole := Flatten(TableRecords(schema, number, key, k, es, parent));
    assert es[0..] == es;
    for i := 0 to |es|
      invariant EntriesOk(schema, key, k, es[i..]) && Inside(es[i..], parent)
      invariant whole == out + Flatten(TableRecords(schema, number, key, k, es[i..], parent))
    {
      TableStep(schema, number, key, k, es, i, parent, out, whole);
      var keyBytes := EncodeValue(schema, 1, key, es[i].0);
      var valueBytes := EncodeValue(schema, 2, k, es[i].1);
      EntryBytes(schema, key, k, es[i]);
      var one := EncodeChunk(number, keyBytes + valueBytes);
      out := out + one;
    }
    TableNone(schema, number, key, k, parent);
    assert es[|es|..] == [];
    FlattenNothing();
  }

  lemma EntryBytes(schema: Schema, key: Kind, k: Kind, e: (Value, Value))
    requires ValueOk(schema, key, e.0) && ValueOk(schema, k, e.1)
    ensures EntryChunk(schema, key, k, e) ==
      Chunk(RecordBytes(Record(1, BodyOf(schema, key, e.0))) + RecordBytes(Record(2, BodyOf(schema, k, e.1))))
  {
    hide BodyOf, RecordBytes, ValueOk;
    var r, q := Record(1, BodyOf(schema, key, e.0)), Record(2, BodyOf(schema, k, e.1));
    assert [r, q] == [r] + [q] && [q] == [q] + [];
    FlattenCons(r, [q]);
    FlattenCons(q, []);
  }

  method EncodeField(schema: Schema, number: nat, f: Field, c: Content) returns (out: Bytes)
    requires ContentOk(schema, f, c)
    ensures out == Flatten(FieldRecords(schema, number, f, c))
    decreases c, 3
  {
    hide BodyOf, RecordBytes, ItemRecords, Packed, TableRecords, ValueOk, SortEntries;
    match f.shape {
      case Mapped(key) =>
        TableOk(schema, f, c);
        out := EncodeTable(schema, number, key, f.kind, SortEntries(c.entries), c);
      case Repeated =>
        if IsLengthPrefixed(f.kind) {
          out := EncodeItems(schema, number, f.kind, c.items);
        } else {
          out := EncodePacked(schema, number, f.kind, c.items);
          FlattenOne(Record(number, Chunk(Packed(schema, f.kind, c.items))));
        }
      case Singular =>
        out := EncodeValue(schema, number, f.kind, c.v);
        FlattenOne(Record(number, BodyOf(schema, f.kind, c.v)));
    }
  }

  lemma FlattenOne(r: Record)
    ensures Flatten([r]) == RecordBytes(r)
  {
    hide RecordBytes;
    assert [r] == [r] + [];
    FlattenCons(r, []);
  }

  method WireMessage(schema: Schema, desc: Desc, m: Message) returns (out: Bytes)
    requires MessageOk(schema, desc, m)
    ensures out == Wire.Wire(schema, desc, m)
    decreases m, 4
  {
    hide FieldRecords, ContentOk, RecordBytes, Flatten, RecordsOk, Wire.Wire;
    MessageParts(schema, desc, m);
    out := [];
    var fields := m.fields;
    ghost var whole := Wire.Wire(schema, desc, m);
    assert fields[0..] == fields;
    for i := 0 to |fields|
      invariant FieldsOk(schema, desc, fields[i..]) && FieldsInside(fields[i..], m)
      invariant whole == out + Flatten(FieldsRecords(schema, desc, fields[i..], m))
    {
      var (number, content) := fields[i];
      var one := EncodeField(schema, number, desc[number], content);
      assert fields[i..][1..] == fields[i + 1..];
      var first := FieldRecords(schema, number, desc[number], content);
      var rest := FieldsRecords(schema, desc, fields[i + 1..], m);
      FlattenConcat(first, rest);
      Moved(whole, out, one, Flatten(rest));
      out := out + one;
    }
    FlattenNothing();
  }

  lemma FlattenNothing()
    ensures Flatten([]) == []
  {
  }
}
