/**
  The deterministic Protobuf form of canonical_json.py's `_wire` (the rules of
  RFC-MACP-0001 section 10.13) over a schema: what bytes a message stands for.
 */
module Wire {
  import opened Basics
  import Varint
  import Utf8
  import Decimal
  import opened Sorting

  // ----- schemas

  datatype Kind =
    | Int32 | Int64 | UInt32 | UInt64 | BoolKind | Enum
    | SInt32 | SInt64
    | Fixed32 | SFixed32 | FloatKind
    | Fixed64 | SFixed64 | DoubleKind
    | StringKind | BytesKind | MessageKind(name: string)

  /** `Mapped(key)` is a map field from `key` to the field's kind: a repeated entry message with fields 1 and 2. */
  datatype Shape = Singular | Repeated | Mapped(key: Kind)

  datatype Field = Field(shape: Shape, kind: Kind)

  type Desc = map<nat, Field>
  type Schema = map<string, Desc>

  predicate IsVarint(k: Kind) {
    k.Int32? || k.Int64? || k.UInt32? || k.UInt64? || k.BoolKind? || k.Enum? || k.SInt32? || k.SInt64?
  }
  predicate IsFixed32(k: Kind) { k.Fixed32? || k.SFixed32? || k.FloatKind? }
  predicate IsFixed64(k: Kind) { k.Fixed64? || k.SFixed64? || k.DoubleKind? }
  predicate IsLengthPrefixed(k: Kind) { k.StringKind? || k.BytesKind? || k.MessageKind? }
  predicate IsKey(k: Kind) { !k.FloatKind? && !k.DoubleKind? && !k.BytesKind? && !k.MessageKind? && !k.Enum? }

  // ----- messages

  /** Floats are their bit patterns. */
  datatype Value =
    | Int(i: int)
    | Bool(b: bool)
    | Float(bits: nat)
    | Double(bits: nat)
    | Str(s: string)
    | Raw(bytes: Bytes)
    | Sub(m: Message)

  /** A set field; a table keeps the order its entries were inserted in. */
  datatype Content = One(v: Value) | Many(items: seq<Value>) | Table(entries: seq<(Value, Value)>)

  /** What `ListFields` yields: the set fields by number. */
  datatype Message = Message(fields: seq<(nat, Content)>)

  const P31 := 0x8000_0000
  const P32 := 0x1_0000_0000
  const P63 := 0x8000_0000_0000_0000
  const P64 := 0x1_0000_0000_0000_0000

  predicate IntRange(k: Kind, i: int) {
    match k
    case Int32 => -P31 <= i < P31
    case Enum => -P31 <= i < P31
    case SInt32 => -P31 <= i < P31
    case SFixed32 => -P31 <= i < P31
    case Int64 => -P63 <= i < P63
    case SInt64 => -P63 <= i < P63
    case SFixed64 => -P63 <= i < P63
    case UInt32 => 0 <= i < P32
    case Fixed32 => 0 <= i < P32
    case UInt64 => 0 <= i < P64
    case Fixed64 => 0 <= i < P64
    case _ => false
  }

  predicate ValueOk(schema: Schema, k: Kind, v: Value)
    decreases v
  {
    match k
    case BoolKind => v.Bool?
    case FloatKind => v.Float? && v.bits < P32
    case DoubleKind => v.Double? && v.bits < P64
    case StringKind => v.Str?
    case BytesKind => v.Raw?
    case MessageKind(name) => v.Sub? && name in schema && MessageOk(schema, schema[name], v.m)
    case _ => v.Int? && IntRange(k, v.i)
  }

  predicate ContentOk(schema: Schema, f: Field, c: Content)
    decreases c
  {
    match f.shape
    case Singular => c.One? && ValueOk(schema, f.kind, c.v)
    case Repeated => c.Many? && c.items != [] && forall i | 0 <= i < |c.items| :: ValueOk(schema, f.kind, c.items[i])
    case Mapped(key) =>
      && c.Table? && c.entries != [] && IsKey(key)
      && (forall i | 0 <= i < |c.entries| ::
            ValueOk(schema, key, c.entries[i].0) && ValueOk(schema, f.kind, c.entries[i].1))
      && (forall i, j | 0 <= i < j < |c.entries| :: c.entries[i].0 != c.entries[j].0)
  }

  predicate MessageOk(schema: Schema, desc: Desc, m: Message)
    decreases m
  {
    && (forall i | 0 <= i < |m.fields| ::
          && 1 <= m.fields[i].0 < 0x2000_0000 && m.fields[i].0 in desc
          && ContentOk(schema, desc[m.fields[i].0], m.fields[i].1))
    && (forall i, j | 0 <= i < j < |m.fields| :: m.fields[i].0 < m.fields[j].0)
  }

  // ----- records

  /** One record of the wire format. */
  datatype Record = Record(number: nat, body: Body)
  datatype Body = Number(n: nat) | Eight(bytes: Bytes) | Chunk(bytes: Bytes) | Four(bytes: Bytes)

  function WireType(b: Body): nat {
    match b
    case Number(_) => 0
    case Eight(_) => 1
    case Chunk(_) => 2
    case Four(_) => 5
  }

  function Tag(number: nat, wire: nat): Bytes { Varint.Write(number * 8 + wire) }

  function BodyBytes(b: Body): Bytes {
    match b
    case Number(n) => Varint.Write(n)
    case Eight(bytes) => bytes
    case Chunk(bytes) => Varint.Write(|bytes|) + bytes
    case Four(bytes) => bytes
  }

  function RecordBytes(r: Record): Bytes { Tag(r.number, WireType(r.body)) + BodyBytes(r.body) }

  function Flatten(rs: seq<Record>): Bytes {
    if rs == [] then [] else RecordBytes(rs[0]) + Flatten(rs[1..])
  }

  // ----- scalars

  function LittleEndian(n: nat, width: nat): (r: Bytes)
    ensures |r| == width
    decreases width
  {
    if width == 0 then [] else [n % 256] + LittleEndian(n / 256, width - 1)
  }

  /** `i & 0xFFFFFFFFFFFFFFFF`. */
  function Wrap64(i: int): (r: nat)
    ensures r < P64
  {
    i % P64
  }

  /** `(i << 1) ^ (i >> 63)`. */
  function ZigZag(i: int): nat { if i < 0 then -2 * i - 1 else 2 * i }

  predicate IsNan32(bits: nat) { bits / 0x80_0000 % 256 == 255 && bits % 0x80_0000 != 0 }
  predicate IsNan64(bits: nat) { bits / 0x10_0000_0000_0000 % 2048 == 2047 && bits % 0x10_0000_0000_0000 != 0 }

  /** Every NaN is written as the quiet NaN. */
  function Canonical32(bits: nat): nat { if IsNan32(bits) then 0x7FC0_0000 else bits }
  function Canonical64(bits: nat): nat { if IsNan64(bits) then 0x7FF8_0000_0000_0000 else bits }

  function ScalarNumber(k: Kind, v: Value): nat
    requires IsVarint(k) && (if k.BoolKind? then v.Bool? else v.Int?)
  {
    if k.BoolKind? then if v.b then 1 else 0
    else if k.SInt32? || k.SInt64? then ZigZag(v.i)
    else Wrap64(v.i)
  }

  function FixedBits(v: Value, width: nat): nat
    requires v.Int? || v.Float? || v.Double?
  {
    if v.Float? then Canonical32(v.bits)
    else if v.Double? then Canonical64(v.bits)
    else if width == 4 then v.i % P32
    else v.i % P64
  }

  // ----- a message as records

  function KeyText(v: Value): string {
    match v
    case Bool(b) => if b then "true" else "false"
    case Int(i) => Decimal.OfInt(i)
    case Str(s) => s
    case _ => ""
  }

  /** `_map_key_order`: the UTF-8 of the key as JSON writes it. */
  function KeyOrder(e: (Value, Value)): seq<int> { Utf8.Encode(KeyText(e.0)) }

  function SortEntries(entries: seq<(Value, Value)>): (r: seq<(Value, Value)>)
    ensures |r| == |entries|
    ensures forall e :: e in r <==> e in entries
  {
    Sort(entries, KeyOrder)
  }

  function BodyOf(schema: Schema, k: Kind, v: Value): Body
    requires ValueOk(schema, k, v)
    decreases v
  {
    if IsVarint(k) then Number(ScalarNumber(k, v))
    else if IsFixed32(k) then Four(LittleEndian(FixedBits(v, 4), 4))
    else if IsFixed64(k) then Eight(LittleEndian(FixedBits(v, 8), 8))
    else Chunk(
      if k.StringKind? then Utf8.Encode(v.s)
      else if k.BytesKind? then v.bytes
      else Wire(schema, schema[k.name], v.m))
  }

  /** `_raw` of a scalar that is packed. */
  function Packed(schema: Schema, k: Kind, items: seq<Value>): Bytes
    requires forall i | 0 <= i < |items| :: ValueOk(schema, k, items[i])
    decreases items
  {
    if items == [] then [] else BodyBytes(BodyOf(schema, k, items[0])) + Packed(schema, k, items[1..])
  }

  function ItemRecords(schema: Schema, number: nat, k: Kind, items: seq<Value>): (r: seq<Record>)
    requires forall i | 0 <= i < |items| :: ValueOk(schema, k, items[i])
    ensures |r| == |items|
    decreases items
  {
    if items == [] then []
    else [Record(number, BodyOf(schema, k, items[0]))] + ItemRecords(schema, number, k, items[1..])
  }

  ghost predicate Inside(es: seq<(Value, Value)>, parent: Content) {
    forall i | 0 <= i < |es| :: es[i].0 < parent && es[i].1 < parent
  }

  ghost predicate EntriesOk(schema: Schema, key: Kind, k: Kind, es: seq<(Value, Value)>) {
    forall i | 0 <= i < |es| :: ValueOk(schema, key, es[i].0) && ValueOk(schema, k, es[i].1)
  }

  lemma TableOk(schema: Schema, f: Field, c: Content)
    requires ContentOk(schema, f, c) && f.shape.Mapped?
    ensures EntriesOk(schema, f.shape.key, f.kind, SortEntries(c.entries)) && Inside(SortEntries(c.entries), c)
  {
    hide ValueOk;
    var es := SortEntries(c.entries);
    forall i | 0 <= i < |es|
      ensures ValueOk(schema, f.shape.key, es[i].0) && ValueOk(schema, f.kind, es[i].1)
      ensures es[i].0 < c && es[i].1 < c
    {
      assert es[i] in c.entries;
      var j :| 0 <= j < |c.entries| && c.entries[j] == es[i];
      assert c.entries[j].0 < c && c.entries[j].1 < c;
    }
  }

  /** The entry records of a map field: the key is field 1 and the value field 2, both always written. */
  function TableRecords(
      schema: Schema, number: nat, key: Kind, k: Kind, es: seq<(Value, Value)>, ghost parent: Content): (r: seq<Record>)
    requires EntriesOk(schema, key, k, es) && Inside(es, parent)
    ensures |r| == |es|
    decreases parent, |es|
  {
    if es == [] then []
    else
      [Record(number, Chunk(Flatten([Record(1, BodyOf(schema, key, es[0].0)), Record(2, BodyOf(schema, k, es[0].1))])))]
        + TableRecords(schema, number, key, k, es[1..], parent)
  }

  function FieldRecords(schema: Schema, number: nat, f: Field, c: Content): (r: seq<Record>)
    requires ContentOk(schema, f, c)
    ensures r != []
    decreases c
  {
    match f.shape
    case Singular => [Record(number, BodyOf(schema, f.kind, c.v))]
    case Repeated =>
      if IsLengthPrefixed(f.kind) then ItemRecords(schema, number, f.kind, c.items)
      else [Record(number, Chunk(Packed(schema, f.kind, c.items)))]
    case Mapped(key) =>
      TableOk(schema, f, c);
      TableRecords(schema, number, key, f.kind, SortEntries(c.entries), c)
  }

  predicate FieldsOk(schema: Schema, desc: Desc, fields: seq<(nat, Content)>) {
    forall i | 0 <= i < |fields| :: fields[i].0 in desc && ContentOk(schema, desc[fields[i].0], fields[i].1)
  }

  function FieldsRecords(schema: Schema, desc: Desc, fields: seq<(nat, Content)>, ghost parent: Message): seq<Record>
    requires FieldsOk(schema, desc, fields) && forall i | 0 <= i < |fields| :: fields[i].1 < parent
    decreases parent, 0, |fields|
  {
    if fields == [] then []
    else
      FieldRecords(schema, fields[0].0, desc[fields[0].0], fields[0].1)
        + FieldsRecords(schema, desc, fields[1..], parent)
  }

  function Records(schema: Schema, desc: Desc, m: Message): seq<Record>
    requires MessageOk(schema, desc, m)
    decreases m, 1
  {
    FieldsRecords(schema, desc, m.fields, m)
  }

  /** The bytes of a message. */
  function Wire(schema: Schema, desc: Desc, m: Message): Bytes
    requires MessageOk(schema, desc, m)
    decreases m, 2
  {
    Flatten(Records(schema, desc, m))
  }
}
