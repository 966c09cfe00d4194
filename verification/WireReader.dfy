/**
  A reader of the wire format, written from the format and not from the encoder:
  bytes to records, records to values by the schema. It takes back what `_wire`
  writes, so the bytes hold every field under its number with its own value.
 */
module WireReader {
  import opened Basics
  import Utf8
  import Varint
  import Decimal
  import opened Sorting
  import opened Wire
  import opened WireRecords
  import opened WireScalars
  import opened WireInjective

  // ----- bytes to records

  /** A base-128 number, least group first, and the bytes after it. */
  function TakeNumber(b: Bytes): (r: Option<(nat, Bytes)>)
    ensures r.Some? ==> |r.value.1| < |b|
    decreases |b|
  {
    if b == [] then None
    else if b[0] < 0x80 then Some((b[0], b[1..]))
    else
      var (high, rest) :- TakeNumber(b[1..]);
      Some((b[0] - 0x80 + 0x80 * high, rest))
  }

  /** A value by its wire type: 0 a number, 1 eight bytes, 2 a length and as many bytes, 5 four bytes. */
  function TakeBody(wire: nat, b: Bytes): (r: Option<(Body, Bytes)>)
    ensures r.Some? ==> |r.value.1| < |b| && (r.value.0.Chunk? ==> |r.value.0.bytes| < |b|)
  {
    match wire
    case 0 =>
      var (n, rest) :- TakeNumber(b);
      Some((Number(n), rest))
    case 1 => if |b| >= 8 then Some((Eight(b[..8]), b[8..])) else None
    case 2 =>
      var (n, rest) :- TakeNumber(b);
      if |rest| >= n then Some((Chunk(rest[..n]), rest[n..])) else None
    case 5 => if |b| >= 4 then Some((Four(b[..4]), b[4..])) else None
    case _ => None
  }

  /** The chunks of records that came from `size` bytes. */
  ghost predicate ChunksBelow(rs: seq<Record>, size: nat) {
    forall i | 0 <= i < |rs| && rs[i].body.Chunk? :: |rs[i].body.bytes| < size
  }

  function ReadRecords(b: Bytes): (r: Option<seq<Record>>)
    ensures r.Some? ==> ChunksBelow(r.value, |b|)
    decreases |b|
  {
    if b == [] then Some([])
    else
      var (key, afterKey) :- TakeNumber(b);
      var (body, rest) :- TakeBody(key % 8, afterKey);
      var others :- ReadRecords(rest);
      Some([Record(key / 8, body)] + others)
  }

  // ----- scalars

  /** The sum of every byte times 256 to its place. */
  function FromLittle(b: Bytes): nat { if b == [] then 0 else b[0] + 256 * FromLittle(b[1..]) }

  /** Two's complement. */
  function Signed(n: nat, half: nat): int { if n < half then n else n - 2 * half }

  function ReadNumber(k: Kind, n: nat): Option<Value> {
    match k
    case Int32 => Some(Int(Signed(n, P63)))
    case Int64 => Some(Int(Signed(n, P63)))
    case Enum => Some(Int(Signed(n, P63)))
    case UInt32 => Some(Int(n))
    case UInt64 => Some(Int(n))
    case BoolKind => if n == 0 then Some(Bool(false)) else if n == 1 then Some(Bool(true)) else None
    case SInt32 => Some(Int(if n % 2 == 0 then n / 2 else -((n + 1) / 2)))
    case SInt64 => Some(Int(if n % 2 == 0 then n / 2 else -((n + 1) / 2)))
    case _ => None
  }

  function ReadFour(k: Kind, b: Bytes): Option<Value> {
    match k
    case Fixed32 => Some(Int(FromLittle(b)))
    case SFixed32 => Some(Int(Signed(FromLittle(b), P31)))
    case FloatKind => Some(Float(FromLittle(b)))
    case _ => None
  }

  function ReadEight(k: Kind, b: Bytes): Option<Value> {
    match k
    case Fixed64 => Some(Int(FromLittle(b)))
    case SFixed64 => Some(Int(Signed(FromLittle(b), P63)))
    case DoubleKind => Some(Double(FromLittle(b)))
    case _ => None
  }

  /** Scalars, text and bytes: everything but a message. */
  function ReadFlat(k: Kind, body: Body): Option<Value> {
    match body
    case Number(n) => ReadNumber(k, n)
    case Four(b) => ReadFour(k, b)
    case Eight(b) => ReadEight(k, b)
    case Chunk(b) =>
      if k.StringKind? then
        var s :- Utf8.Decode(b);
        Some(Str(s))
      else if k.BytesKind? then Some(Raw(b))
      else None
  }

  /** The wire type of a scalar in a packed chunk. */
  function PackedWire(k: Kind): nat {
    match k
    case Fixed32 => 5
    case SFixed32 => 5
    case FloatKind => 5
    case Fixed64 => 1
    case SFixed64 => 1
    case DoubleKind => 1
    case _ => 0
  }

  function ReadPacked(k: Kind, b: Bytes): Option<seq<Value>>
    decreases |b|
  {
    if b == [] then Some([])
    else
      var (body, rest) :- TakeBody(PackedWire(k), b);
      var first :- ReadFlat(k, body);
      var others :- ReadPacked(k, rest);
      Some([first] + others)
  }

  // ----- messages

  function ReadValue(schema: Schema, k: Kind, body: Body, ghost size: nat): Option<Value>
    requires body.Chunk? ==> |body.bytes| < size
    decreases size, 0
  {
    if k.MessageKind? then
      if body.Chunk? && k.name in schema then
        var m :- ReadMessage(schema, schema[k.name], body.bytes);
        Some(Sub(m))
      else None
    else ReadFlat(k, body)
  }

  function ReadItems(schema: Schema, k: Kind, rs: seq<Record>, ghost size: nat): Option<seq<Value>>
    requires ChunksBelow(rs, size)
    decreases size, 1, |rs|
  {
    if rs == [] then Some([])
    else
      var first :- ReadValue(schema, k, rs[0].body, size);
      var others :- ReadItems(schema, k, rs[1..], size);
      Some([first] + others)
  }

  /** A map entry is a message with the key as field 1 and the value as field 2. */
  function ReadEntry(schema: Schema, key: Kind, k: Kind, b: Bytes): Option<(Value, Value)>
    decreases |b|, 1
  {
    var rs :- ReadRecords(b);
    if |rs| == 2 && rs[0].number == 1 && rs[1].number == 2 then
      var name :- ReadValue(schema, key, rs[0].body, |b|);
      var v :- ReadValue(schema, k, rs[1].body, |b|);
      Some((name, v))
    else None
  }

  function ReadTable(schema: Schema, key: Kind, k: Kind, rs: seq<Record>, ghost size: nat): Option<Entries>
    requires ChunksBelow(rs, size)
    decreases size, 1, |rs|
  {
    if rs == [] then Some([])
    else if !rs[0].body.Chunk? then None
    else
      var first :- ReadEntry(schema, key, k, rs[0].body.bytes);
      var others :- ReadTable(schema, key, k, rs[1..], size);
      Some([first] + others)
  }

  /** A field from the records with its number. */
  function ReadContent(schema: Schema, f: Field, rs: seq<Record>, ghost size: nat): Option<Content>
    requires ChunksBelow(rs, size)
    decreases size, 2
  {
    match f.shape
    case Singular =>
      if |rs| != 1 then None
      else
        var v :- ReadValue(schema, f.kind, rs[0].body, size);
        Some(One(v))
    case Repeated =>
      if f.kind.StringKind? || f.kind.BytesKind? || f.kind.MessageKind? then
        var items :- ReadItems(schema, f.kind, rs, size);
        Some(Many(items))
      else if |rs| == 1 && rs[0].body.Chunk? then
        var items :- ReadPacked(f.kind, rs[0].body.bytes);
        Some(Many(items))
      else None
    case Mapped(key) =>
      var entries :- ReadTable(schema, key, f.kind, rs, size);
      Some(Table(entries))
  }

  /** How many records come first with this number. */
  function RunLength(rs: seq<Record>, number: nat): (r: nat)
    ensures r <= |rs|
  {
    if rs == [] || rs[0].number != number then 0 else 1 + RunLength(rs[1..], number)
  }

  function ReadFields(schema: Schema, desc: Desc, rs: seq<Record>, ghost size: nat): Option<seq<(nat, Content)>>
    requires ChunksBelow(rs, size)
    decreases size, 3, |rs|
  {
    if rs == [] then Some([])
    else
      var number := rs[0].number;
      var k := RunLength(rs, number);
      if k == 0 || number !in desc then None
      else
        var content :- ReadContent(schema, desc[number], rs[..k], size);
        var others :- ReadFields(schema, desc, rs[k..], size);
        Some([(number, content)] + others)
  }

  function ReadMessage(schema: Schema, desc: Desc, b: Bytes): Option<Message>
    decreases |b|, 4
  {
    var rs :- ReadRecords(b);
    var fields :- ReadFields(schema, desc, rs, |b|);
    Some(Message(fields))
  }

  // ----- records are read back

  lemma {:induction false} NumberTaken(n: nat, x: Bytes)
    ensures TakeNumber(Varint.Write(n) + x) == Some((n, x))
  {
    var b := Varint.Write(n) + x;
    if n > 0x7F {
      assert b[0] == n % 128 + 128 && b[1..] == Varint.Write(n / 128) + x;
      NumberTaken(n / 128, x);
    } else {
      assert b[0] == n && b[1..] == x;
    }
  }

  lemma BodyTaken(body: Body, x: Bytes)
    requires BodyOk(body)
    ensures TakeBody(WireType(body), BodyBytes(body) + x) == Some((body, x))
  {
    hide Varint.Write, TakeNumber;
    match body {
      case Number(n) => NumberTaken(n, x);
      case Chunk(bytes) =>
        Regroup(Varint.Write(|bytes|), bytes, x);
        NumberTaken(|bytes|, bytes + x);
        Halves(bytes, x);
      case Eight(bytes) => Halves(bytes, x);
      case Four(bytes) => Halves(bytes, x);
    }
  }

  lemma Halves(a: Bytes, x: Bytes)
    ensures (a + x)[..|a|] == a && (a + x)[|a|..] == x
  {
  }

  lemma {:induction false} RecordsRead(rs: seq<Record>)
    requires RecordsOk(rs)
    ensures ReadRecords(Flatten(rs)) == Some(rs)
  {
    hide Varint.Write, TakeNumber, TakeBody, BodyOk, BodyBytes, WireType;
    if rs != [] {
      var r, rest := rs[0], Flatten(rs[1..]);
      RecordNotEmpty(r);
      Regroup(Tag(r.number, WireType(r.body)), BodyBytes(r.body), rest);
      WireTypeSmall(r.body);
      NumberTaken(r.number * 8 + WireType(r.body), BodyBytes(r.body) + rest);
      BodyTaken(r.body, rest);
      RecordsRead(rs[1..]);
      assert rs == [r] + rs[1..];
    }
  }

  // ----- scalars are read back

  lemma {:induction false} LittleRead(n: nat, width: nat)
    requires n < Pow256(width)
    ensures FromLittle(LittleEndian(n, width)) == n
    decreases width
  {
    if width > 0 {
      var b := LittleEndian(n, width);
      assert b[0] == n % 256 && b[1..] == LittleEndian(n / 256, width - 1);
      LittleRead(n / 256, width - 1);
    }
  }

  /** The value a field holds once written: every NaN is the quiet NaN. */
  function Written(v: Value): Value {
    match v
    case Float(bits) => Float(Canonical32(bits))
    case Double(bits) => Double(Canonical64(bits))
    case _ => v
  }

  lemma WrittenSame(v: Value)
    requires !v.Sub?
    ensures SameScalar(v, Written(v))
  {
  }

  lemma NumberRead(schema: Schema, k: Kind, v: Value)
    requires IsVarint(k) && ValueOk(schema, k, v)
    ensures ReadNumber(k, ScalarNumber(k, v)) == Some(v)
  {
  }

  lemma FixedRead(schema: Schema, k: Kind, v: Value)
    requires (IsFixed32(k) || IsFixed64(k)) && ValueOk(schema, k, v)
    ensures ReadFlat(k, BodyOf(schema, k, v)) == Some(Written(v))
  {
    hide LittleEndian, FromLittle, Canonical32, Canonical64;
    var width := if IsFixed32(k) then 4 else 8;
    Widths();
    BitsBounded(schema, k, v);
    LittleRead(FixedBits(v, width), width);
  }

  lemma FlatRead(schema: Schema, k: Kind, v: Value)
    requires !k.MessageKind? && ValueOk(schema, k, v)
    ensures ReadFlat(k, BodyOf(schema, k, v)) == Some(Written(v))
  {
    hide ReadNumber, ScalarNumber, LittleEndian, FixedBits, Utf8.Encode, Utf8.Decode;
    if IsVarint(k) {
      NumberRead(schema, k, v);
    } else if IsFixed32(k) || IsFixed64(k) {
      FixedRead(schema, k, v);
    } else if k.StringKind? {
      Utf8.DecodeEncode(v.s);
    }
  }

  lemma {:induction false} PackedRead(schema: Schema, k: Kind, items: seq<Value>)
    requires !IsLengthPrefixed(k) && forall i | 0 <= i < |items| :: ValueOk(schema, k, items[i])
    ensures var r := ReadPacked(k, Packed(schema, k, items));
      r.Some? && |r.value| == |items| && forall i | 0 <= i < |items| :: r.value[i] == Written(items[i])
    decreases |items|
  {
    hide BodyOf, BodyBytes, TakeBody, ReadFlat, ValueOk, Written, BodyOk;
    if items != [] {
      var body, rest := BodyOf(schema, k, items[0]), Packed(schema, k, items[1..]);
      BodyIsOk(schema, k, items[0]);
      PackedBody(schema, k, items[0]);
      BodyTaken(body, rest);
      BodyNotEmpty(body);
      FlatRead(schema, k, items[0]);
      PackedRead(schema, k, items[1..]);
      assert forall i | 1 <= i < |items| :: items[i] == items[1..][i - 1];
    }
  }

  lemma PackedBody(schema: Schema, k: Kind, v: Value)
    requires !IsLengthPrefixed(k) && ValueOk(schema, k, v)
    ensures WireType(BodyOf(schema, k, v)) == PackedWire(k) && !k.MessageKind?
  {
    hide LittleEndian, FixedBits, ScalarNumber;
  }

  lemma BodyNotEmpty(body: Body)
    requires BodyOk(body)
    ensures BodyBytes(body) != []
  {
  }

  // ----- messages are read back

  lemma BelowParts(a: seq<Record>, b: seq<Record>, size: nat)
    requires ChunksBelow(a + b, size)
    ensures ChunksBelow(a, size) && ChunksBelow(b, size)
  {
    assert forall i | 0 <= i < |a| :: a[i] == (a + b)[i];
    assert forall i | 0 <= i < |b| :: b[i] == (a + b)[|a| + i];
  }

  lemma {:induction false} ValueRead(schema: Schema, k: Kind, v: Value, size: nat)
    requires ValueOk(schema, k, v)
    requires var body := BodyOf(schema, k, v); body.Chunk? ==> |body.bytes| < size
    ensures var r := ReadValue(schema, k, BodyOf(schema, k, v), size); r.Some? && SameValue(v, r.value)
    ensures !k.MessageKind? ==> ReadValue(schema, k, BodyOf(schema, k, v), size) == Some(Written(v))
    decreases v
  {
    hide ReadFlat, Wire.Wire, MessageOk, SameMessage, SameScalar, Written, ReadMessage;
    hide LittleEndian, FixedBits, ScalarNumber, Utf8.Encode;
    if k.MessageKind? {
      MessageRead(schema, schema[k.name], v.m);
    } else {
      FlatRead(schema, k, v);
      WrittenSame(v);
    }
  }

  lemma {:induction false} ItemsRead(schema: Schema, number: nat, k: Kind, items: seq<Value>, size: nat)
    requires forall i | 0 <= i < |items| :: ValueOk(schema, k, items[i])
    requires ChunksBelow(ItemRecords(schema, number, k, items), size)
    ensures var r := ReadItems(schema, k, ItemRecords(schema, number, k, items), size);
      r.Some? && |r.value| == |items| && forall i | 0 <= i < |items| :: SameValue(items[i], r.value[i])
    decreases items
  {
    hide BodyOf, ValueOk, SameValue, ReadValue;
    if items != [] {
      var rs := ItemRecords(schema, number, k, items);
      assert rs[0].body == BodyOf(schema, k, items[0]) && rs[1..] == ItemRecords(schema, number, k, items[1..]);
      assert forall i | 0 <= i < |rs| - 1 :: rs[1..][i] == rs[i + 1];
      ValueRead(schema, k, items[0], size);
      ItemsRead(schema, number, k, items[1..], size);
      assert forall i | 1 <= i < |items| :: items[i] == items[1..][i - 1];
    }
  }

  /** The two records of an entry. */
  function EntryRecords(schema: Schema, key: Kind, k: Kind, e: (Value, Value)): (r: seq<Record>)
    requires ValueOk(schema, key, e.0) && ValueOk(schema, k, e.1)
    ensures EntryChunk(schema, key, k, e) == Chunk(Flatten(r))
  {
    [Record(1, BodyOf(schema, key, e.0)), Record(2, BodyOf(schema, k, e.1))]
  }

  lemma KeyWritten(schema: Schema, key: Kind, v: Value)
    requires IsKey(key) && ValueOk(schema, key, v)
    ensures Written(v) == v && !key.MessageKind?
  {
  }

  lemma EntryParts(schema: Schema, key: Kind, k: Kind, e: (Value, Value))
    requires ValueOk(schema, key, e.0) && ValueOk(schema, k, e.1)
    ensures var rs := EntryRecords(schema, key, k, e);
      && ReadRecords(Flatten(rs)) == Some(rs) && ChunksBelow(rs, |Flatten(rs)|)
      && |rs| == 2 && rs[0] == Record(1, BodyOf(schema, key, e.0)) && rs[1] == Record(2, BodyOf(schema, k, e.1))
  {
    hide BodyOf, Flatten, ValueOk, ReadRecords;
    BodyIsOk(schema, key, e.0);
    BodyIsOk(schema, k, e.1);
    RecordsRead(EntryRecords(schema, key, k, e));
  }

  /** Two records with the right numbers read as an entry. */
  lemma EntryStep(schema: Schema, key: Kind, k: Kind, b: Bytes, rs: seq<Record>)
    requires ReadRecords(b) == Some(rs) && |rs| == 2 && rs[0].number == 1 && rs[1].number == 2 && ChunksBelow(rs, |b|)
    requires rs[0].body.Chunk? ==> |rs[0].body.bytes| < |b|
    requires rs[1].body.Chunk? ==> |rs[1].body.bytes| < |b|
    ensures ReadEntry(schema, key, k, b) ==
      var name, v := ReadValue(schema, key, rs[0].body, |b|), ReadValue(schema, k, rs[1].body, |b|);
      if name.Some? && v.Some? then Some((name.value, v.value)) else None
  {
    hide ReadRecords, ReadValue;
  }

  lemma ChunkAt(rs: seq<Record>, size: nat, i: nat)
    requires ChunksBelow(rs, size) && i < |rs| && rs[i].body.Chunk?
    ensures |rs[i].body.bytes| < size
  {
  }

  lemma {:induction false} EntryRead(schema: Schema, key: Kind, k: Kind, e: (Value, Value), parent: Content)
    requires IsKey(key) && ValueOk(schema, key, e.0) && ValueOk(schema, k, e.1) && e.1 < parent && e.0 < parent
    ensures var r := ReadEntry(schema, key, k, EntryChunk(schema, key, k, e).bytes);
      r.Some? && r.value.0 == e.0 && SameValue(e.1, r.value.1)
    decreases parent, 0
  {
    hide BodyOf, Flatten, ValueOk, SameValue, ReadValue, ReadEntry, ReadRecords, Written, IsKey, EntryRecords, ChunksBelow;
    var rs := EntryRecords(schema, key, k, e);
    var b := Flatten(rs);
    EntryParts(schema, key, k, e);
    if rs[0].body.Chunk? {
      ChunkAt(rs, |b|, 0);
    }
    if rs[1].body.Chunk? {
      ChunkAt(rs, |b|, 1);
    }
    EntryStep(schema, key, k, b, rs);
    ValueRead(schema, key, e.0, |b|);
    ValueRead(schema, k, e.1, |b|);
    KeyWritten(schema, key, e.0);
  }

  lemma {:induction false} TableRead(
      schema: Schema, number: nat, key: Kind, k: Kind, es: Entries, parent: Content, size: nat)
    requires IsKey(key) && EntriesOk(schema, key, k, es) && Inside(es, parent)
    requires ChunksBelow(TableRecords(schema, number, key, k, es, parent), size)
    ensures var r := ReadTable(schema, key, k, TableRecords(schema, number, key, k, es, parent), size);
      r.Some? && Alike(es, r.value, SameValue)
    decreases parent, 1, |es|
  {
    hide BodyOf, Flatten, ValueOk, SameValue, TableRecords, EntriesOk, IsKey, ReadEntry, Alike;
    if es == [] {
      TableNone(schema, number, key, k, parent);
      AlikeNil(es, []);
    } else {
      TableTail(schema, key, k, es, parent);
      TableHead(schema, number, key, k, es, parent);
      var rs := TableRecords(schema, number, key, k, es, parent);
      var rest := TableRecords(schema, number, key, k, es[1..], parent);
      assert rs[0].body == EntryChunk(schema, key, k, es[0]) && rs[1..] == rest;
      BelowParts([rs[0]], rest, size);
      EntryRead(schema, key, k, es[0], parent);
      TableRead(schema, number, key, k, es[1..], parent, size);
      var read := ReadTable(schema, key, k, rs, size).value;
      assert read[1..] == ReadTable(schema, key, k, rest, size).value;
      AlikeCons(es, read, SameValue);
    }
  }

  /** Entries alike to the sorted ones are the same entries. */
  lemma SortedTwins(c: Content, read: Entries)
    requires c.Table? && Alike(SortEntries(c.entries), read, SameValue)
    ensures SameContent(c, Table(read))
  {
    hide SameValue, SortEntries, HasTwin, HasName;
    var es := SortEntries(c.entries);
    forall e | e in c.entries
      ensures HasTwin(e.0, e.1, read, SameValue)
    {
      assert e in es;
      var i :| 0 <= i < |es| && es[i] == e;
      TwinAt(e, read, i);
    }
    forall f | f in read
      ensures HasName(f.0, c.entries)
    {
      var i :| 0 <= i < |read| && read[i] == f;
      assert es[i] in c.entries;
      NameIn(f.0, c.entries, es[i]);
    }
    SameIsTwins(c, Table(read));
  }

  lemma TwinAt(e: (Value, Value), read: Entries, i: nat)
    requires i < |read| && read[i].0 == e.0 && SameValue(e.1, read[i].1)
    ensures HasTwin(e.0, e.1, read, SameValue)
  {
    hide SameValue;
    assert read[i] in read;
  }

  lemma NameIn(name: Value, es: Entries, e: (Value, Value))
    requires e in es && e.0 == name
    ensures HasName(name, es)
  {
  }

  lemma {:induction false} ContentRead(schema: Schema, number: nat, f: Field, c: Content, size: nat)
    requires ContentOk(schema, f, c) && ChunksBelow(FieldRecords(schema, number, f, c), size)
    ensures var r := ReadContent(schema, f, FieldRecords(schema, number, f, c), size);
      r.Some? && SameContent(c, r.value)
    decreases c
  {
    hide BodyOf, Packed, ItemRecords, TableRecords, ValueOk, SameValue, SortEntries;
    hide ReadValue, ReadPacked, ReadItems, ReadTable, HasTwin, HasName, Paired;
    var rs := FieldRecords(schema, number, f, c);
    match f.shape {
      case Singular =>
        assert rs[0].body == BodyOf(schema, f.kind, c.v);
        ValueRead(schema, f.kind, c.v, size);
      case Repeated =>
        if IsLengthPrefixed(f.kind) {
          ItemsRead(schema, number, f.kind, c.items, size);
        } else {
          assert rs[0].body == Chunk(Packed(schema, f.kind, c.items));
          PackedRead(schema, f.kind, c.items);
          AllWritten(schema, f.kind, c.items);
        }
      case Mapped(key) =>
        TableOk(schema, f, c);
        TableRead(schema, number, key, f.kind, SortEntries(c.entries), c, size);
        SortedTwins(c, ReadTable(schema, key, f.kind, rs, size).value);
    }
  }

  lemma AllWritten(schema: Schema, k: Kind, items: seq<Value>)
    requires !IsLengthPrefixed(k) && forall i | 0 <= i < |items| :: ValueOk(schema, k, items[i])
    ensures forall i | 0 <= i < |items| :: SameValue(items[i], Written(items[i]))
  {
    hide SameScalar, Written;
    forall i | 0 <= i < |items|
      ensures SameValue(items[i], Written(items[i]))
    {
      assert ValueOk(schema, k, items[i]);
      WrittenSame(items[i]);
    }
  }

  lemma {:induction false} RunOf(a: seq<Record>, x: seq<Record>, number: nat)
    requires AllNumbered(a, number) && AllAbove(x, number)
    ensures RunLength(a + x, number) == |a|
    decreases |a|
  {
    if a == [] {
      assert a + x == x;
    } else {
      assert (a + x)[1..] == a[1..] + x;
      RunOf(a[1..], x, number);
    }
  }

  lemma {:induction false} FieldsRead(
      schema: Schema, desc: Desc, fields: seq<(nat, Content)>, m: Message, size: nat)
    requires FieldsOk(schema, desc, fields) && FieldsInside(fields, m) && Ascending(fields)
    requires ChunksBelow(FieldsRecords(schema, desc, fields, m), size)
    ensures var r := ReadFields(schema, desc, FieldsRecords(schema, desc, fields, m), size);
      r.Some? && SameFields(fields, r.value)
    decreases m, 0, |fields|
  {
    hide FieldRecords, ContentOk, SameContent, RecordsOk, AllAbove, AllNumbered, ChunksBelow, ReadContent;
    if fields != [] {
      var number, c, others := fields[0].0, fields[0].1, fields[1..];
      var a, x := FieldRecords(schema, number, desc[number], c), FieldsRecords(schema, desc, others, m);
      FieldNumbered(schema, number, desc[number], c);
      FieldsNumbered(schema, desc, others, m, number);
      FirstNumber(a, x, number);
      RunOf(a, x, number);
      BelowParts(a, x, size);
      assert (a + x)[..|a|] == a && (a + x)[|a|..] == x;
      ContentRead(schema, number, desc[number], c, size);
      FieldsRead(schema, desc, others, m, size);
      assert forall i | 1 <= i < |fields| :: fields[i] == others[i - 1];
    }
  }

  lemma FirstNumber(a: seq<Record>, x: seq<Record>, number: nat)
    requires a != [] && AllNumbered(a, number)
    ensures (a + x)[0].number == number
  {
  }

  /**
    Reading back what `_wire` writes gives the message: every field under its number,
    maps as the same entries, floats up to which NaN.
   */
  lemma {:induction false} MessageRead(schema: Schema, desc: Desc, m: Message)
    requires MessageOk(schema, desc, m)
    ensures var r := ReadMessage(schema, desc, Wire.Wire(schema, desc, m));
      r.Some? && SameMessage(m, r.value)
    decreases m
  {
    hide Wire.Wire, MessageOk, FieldsRecords, Flatten, SameContent, RecordsOk, FieldsOk, ReadFields, ReadRecords;
    MessageParts(schema, desc, m);
    var rs := FieldsRecords(schema, desc, m.fields, m);
    RecordsRead(rs);
    FieldsRead(schema, desc, m.fields, m, |Flatten(rs)|);
  }

  // ----- what the reader leaves open: which NaN, and the order of map entries

  lemma QuietNans()
    ensures LittleEndian(0x7FC0_0000, 4) == [0x00, 0x00, 0xC0, 0x7F]
    ensures LittleEndian(0x7FF8_0000_0000_0000, 8) == [0x00, 0x00, 0x00, 0x00, 0x00, 0x00, 0xF8, 0x7F]
  {
    assert LittleEndian(0x7FC0, 2) == [0xC0, 0x7F];
    assert LittleEndian(0x7FF8, 2) == [0xF8, 0x7F];
    assert LittleEndian(0x7FF8_0000, 4) == [0x00, 0x00, 0xF8, 0x7F];
  }

  lemma NanBits32(bits: nat)
    requires bits < P32
    ensures IsNan32(bits) <==> bits % P31 > 0x7F80_0000
  {
  }

  lemma NanBits64(bits: nat)
    requires bits < P64
    ensures IsNan64(bits) <==> bits % P63 > 0x7FF0_0000_0000_0000
  {
  }

  /** Every NaN, which is what lies beyond infinity in either sign, is written as one quiet NaN; other bits as they are. */
  lemma NanWritten(schema: Schema, bits: nat, wide: nat)
    requires bits < P32 && wide < P64
    ensures BodyOf(schema, FloatKind, Float(bits)) ==
      Four(if bits % P31 > 0x7F80_0000 then [0x00, 0x00, 0xC0, 0x7F] else LittleEndian(bits, 4))
    ensures BodyOf(schema, DoubleKind, Double(wide)) ==
      Eight(if wide % P63 > 0x7FF0_0000_0000_0000 then [0x00, 0x00, 0x00, 0x00, 0x00, 0x00, 0xF8, 0x7F]
            else LittleEndian(wide, 8))
  {
    hide LittleEndian, IsNan32, IsNan64;
    QuietNans();
    NanBits32(bits);
    NanBits64(wide);
  }

  predicate WritesNumber(s: string, n: nat) {
    s != "" && AllDigits(s) && (s[0] == '0' ==> s == "0") && Decimal.Num(s) == n
  }

  /** The key as JSON writes it. */
  ghost predicate WritesKey(v: Value, text: string) {
    match v
    case Bool(b) => text == if b then "true" else "false"
    case Int(i) => if i >= 0 then WritesNumber(text, i) else text != "" && text[0] == '-' && WritesNumber(text[1..], -i)
    case Str(s) => text == s
    case _ => false
  }

  lemma KeyTextWrites(schema: Schema, key: Kind, v: Value)
    requires IsKey(key) && ValueOk(schema, key, v)
    ensures WritesKey(v, KeyText(v))
  {
    hide Decimal.OfNat, WritesNumber;
    if v.Int? {
      DigitsOnly(if v.i < 0 then -v.i else v.i);
      assert v.i < 0 ==> KeyText(v)[1..] == Decimal.OfNat(-v.i);
    }
  }

  lemma DigitsOnly(n: nat)
    ensures WritesNumber(Decimal.OfNat(n), n)
  {
    Decimal.NumOfNat(n);
  }

  /** The entries of a map are written in the order of their keys' UTF-8. */
  lemma EntriesAscend(schema: Schema, f: Field, c: Content, i: nat, j: nat)
    requires ContentOk(schema, f, c) && f.shape.Mapped? && i < j < |SortEntries(c.entries)|
    ensures var es := SortEntries(c.entries);
      exists a, b :: WritesKey(es[i].0, a) && WritesKey(es[j].0, b) && Less(Utf8.Encode(a), Utf8.Encode(b))
  {
    hide ValueOk, WritesKey, Less, Utf8.Encode, KeyText, IsKey;
    var es := SortEntries(c.entries);
    KeysDistinct(schema, f, c);
    SortOrdered(c.entries, KeyOrder);
    TableOk(schema, f, c);
    KeyTextWrites(schema, f.shape.key, es[i].0);
    KeyTextWrites(schema, f.shape.key, es[j].0);
    assert Less(KeyOrder(es[i]), KeyOrder(es[j]));
  }

  /** What each kind of number may hold. */
  lemma RangesAre(i: int)
    ensures IntRange(Int32, i) <==> -2147483648 <= i <= 2147483647
    ensures IntRange(Enum, i) <==> -2147483648 <= i <= 2147483647
    ensures IntRange(SInt32, i) <==> -2147483648 <= i <= 2147483647
    ensures IntRange(SFixed32, i) <==> -2147483648 <= i <= 2147483647
    ensures IntRange(Int64, i) <==> -9223372036854775808 <= i <= 9223372036854775807
    ensures IntRange(SInt64, i) <==> -9223372036854775808 <= i <= 9223372036854775807
    ensures IntRange(SFixed64, i) <==> -9223372036854775808 <= i <= 9223372036854775807
    ensures IntRange(UInt32, i) <==> 0 <= i <= 4294967295
    ensures IntRange(Fixed32, i) <==> 0 <= i <= 4294967295
    ensures IntRange(UInt64, i) <==> 0 <= i <= 18446744073709551615
    ensures IntRange(Fixed64, i) <==> 0 <= i <= 18446744073709551615
  {
  }

  /** Any field number from 1 to 2^29 - 1 may be set. */
  lemma NumbersAre(schema: Schema, desc: Desc, number: nat, c: Content)
    ensures MessageOk(schema, desc, Message([(number, c)])) <==>
      1 <= number <= 536870911 && number in desc && ContentOk(schema, desc[number], c)
  {
    hide ContentOk;
    var fields := [(number, c)];
    assert fields[0] == (number, c);
  }
}
