/**
  The payload check passes the bytes `_wire` writes exactly when the message is
  at most 100 levels deep.
 */
module PayloadDepth {
  import opened Basics
  import Varint
  import Utf8
  import opened Wire
  import opened WireRecords
  import opened WireInjective
  import opened PayloadCheck

  // ----- levels

  /** A message is one level above its deepest submessage; a map entry is a level of its own. */
  function Levels(m: Message): nat
    decreases m
  {
    1 + FieldsLevels(m.fields, m)
  }

  function FieldsLevels(fields: seq<(nat, Content)>, ghost parent: Message): nat
    requires FieldsInside(fields, parent)
    decreases parent, 0, |fields|
  {
    if fields == [] then 0 else Max(ContentLevels(fields[0].1), FieldsLevels(fields[1..], parent))
  }

  function Max(a: nat, b: nat): nat { if a > b then a else b }

  function ValueLevels(v: Value): nat
    decreases v
  {
    if v.Sub? then Levels(v.m) else 0
  }

  function ItemsLevels(items: seq<Value>): nat
    decreases items
  {
    if items == [] then 0 else Max(ValueLevels(items[0]), ItemsLevels(items[1..]))
  }

  function EntriesLevels(es: Entries, ghost parent: Content): nat
    requires Inside(es, parent)
    decreases parent, |es|
  {
    if es == [] then 0 else Max(1 + ValueLevels(es[0].1), EntriesLevels(es[1..], parent))
  }

  function ContentLevels(c: Content): nat
    decreases c
  {
    match c
    case One(v) => ValueLevels(v)
    case Many(items) => ItemsLevels(items)
    case Table(entries) => EntriesLevels(entries, c)
  }

  // ----- scanning records

  /** What the walk asks of one record. */
  predicate Passes(schema: Schema, desc: Desc, r: Record, depth: nat) {
    r.body.Chunk? ==> ChunkPasses(schema, desc, r.number, r.body.bytes, depth)
  }

  predicate AllPass(schema: Schema, desc: Desc, rs: seq<Record>, depth: nat) {
    forall i | 0 <= i < |rs| :: Passes(schema, desc, rs[i], depth)
  }

  /** Numbers and lengths that fit 64 bits, under legal field numbers. */
  predicate Fits(r: Record) {
    && 1 <= r.number < 0x2000_0000 && BodyOk(r.body)
    && (r.body.Number? ==> r.body.n < Varint.U64) && (r.body.Chunk? ==> |r.body.bytes| < Varint.U64)
  }

  lemma TagChecked(data: Bytes, pos: nat, number: nat, wire: nat)
    requires At(data, pos, Tag(number, wire)) && number < 0x2000_0000 && wire < 8
    ensures pos < pos + |Tag(number, wire)| <= |data|
    ensures Varint.Check(data, pos) == Varint.Scanned(number * 8 + wire, pos + |Tag(number, wire)|)
  {
    Varint.CheckWritten(data, pos, number * 8 + wire);
  }

  /** The walk over one record, from its body on. */
  lemma ScanBody(schema: Schema, data: Bytes, pos: nat, r: Record, desc: Desc, depth: nat)
    requires At(data, pos, RecordBytes(r)) && Fits(r)
    ensures pos + |RecordBytes(r)| <= |data|
    ensures Scan(schema, data, pos, desc, None, depth) ==
      if Passes(schema, desc, r, depth) then Scan(schema, data, pos + |RecordBytes(r)|, desc, None, depth) else None
  {
    hide Varint.Check, Varint.Write, Scan, ChunkPasses, Tag;
    var wire := WireType(r.body);
    var tag, number := Tag(r.number, wire), r.number * 8 + wire;
    AtSplit(data, pos, tag, BodyBytes(r.body));
    TagChecked(data, pos, r.number, wire);
    var at := pos + |tag|;
    match r.body {
      case Number(n) =>
        ScanNumber(schema, data, pos, number, at, desc, None, depth);
        Varint.CheckWritten(data, at, n);
      case Eight(_) => ScanFixed(schema, data, pos, number, at, desc, None, depth);
      case Four(_) => ScanFixed(schema, data, pos, number, at, desc, None, depth);
      case Chunk(bytes) =>
        ScanChunk(schema, data, pos, number, at, desc, None, depth);
        AtSplit(data, at, Varint.Write(|bytes|), bytes);
        Varint.CheckWritten(data, at, |bytes|);
    }
  }

  lemma {:induction false} ScanRecords(schema: Schema, data: Bytes, pos: nat, rs: seq<Record>, desc: Desc, depth: nat)
    requires At(data, pos, Flatten(rs)) && pos + |Flatten(rs)| == |data|
    requires forall i | 0 <= i < |rs| :: Fits(rs[i])
    ensures Scan(schema, data, pos, desc, None, depth) ==
      if AllPass(schema, desc, rs, depth) then Some(|data|) else None
    decreases |rs|
  {
    hide RecordBytes, Fits, Passes, At, Scan;
    if rs == [] {
      ScanEnd(schema, data, desc, depth);
    } else {
      AtSplit(data, pos, RecordBytes(rs[0]), Flatten(rs[1..]));
      ScanBody(schema, data, pos, rs[0], desc, depth);
      ScanRecords(schema, data, pos + |RecordBytes(rs[0])|, rs[1..], desc, depth);
      assert AllPass(schema, desc, rs, depth) <==>
        Passes(schema, desc, rs[0], depth) && AllPass(schema, desc, rs[1..], depth) by {
        AllPassStep(schema, desc, rs, depth);
      }
    }
  }

  lemma ScanEnd(schema: Schema, data: Bytes, desc: Desc, depth: nat)
    ensures Scan(schema, data, |data|, desc, None, depth) == Some(|data|)
  {
  }

  lemma AllPassStep(schema: Schema, desc: Desc, rs: seq<Record>, depth: nat)
    requires rs != []
    ensures AllPass(schema, desc, rs, depth) <==>
      Passes(schema, desc, rs[0], depth) && AllPass(schema, desc, rs[1..], depth)
  {
    hide Passes;
    assert forall i | 1 <= i < |rs| :: rs[i] == rs[1..][i - 1];
  }

  lemma AllPassConcat(schema: Schema, desc: Desc, rs: seq<Record>, qs: seq<Record>, depth: nat)
    ensures AllPass(schema, desc, rs + qs, depth) <==>
      AllPass(schema, desc, rs, depth) && AllPass(schema, desc, qs, depth)
  {
    hide Passes;
    var all := rs + qs;
    assert forall i | 0 <= i < |rs| :: all[i] == rs[i];
    assert forall i | 0 <= i < |qs| :: all[|rs| + i] == qs[i];
  }

  // ----- everything written fits

  predicate AllFit(rs: seq<Record>) { forall i | 0 <= i < |rs| :: Fits(rs[i]) }

  lemma {:induction false} ChunksBounded(rs: seq<Record>)
    ensures forall i | 0 <= i < |rs| :: rs[i].body.Chunk? ==> |rs[i].body.bytes| <= |Flatten(rs)|
    decreases |rs|
  {
    hide Varint.Write;
    if rs != [] {
      ChunksBounded(rs[1..]);
      assert forall i | 1 <= i < |rs| :: rs[i] == rs[1..][i - 1];
    }
  }

  predicate NumberOk(r: Record) { r.body.Number? ==> r.body.n < Varint.U64 }

  predicate NumbersOk(rs: seq<Record>) { forall i | 0 <= i < |rs| :: NumberOk(rs[i]) }

  lemma NumberBounded(schema: Schema, k: Kind, v: Value)
    requires ValueOk(schema, k, v)
    ensures forall number :: NumberOk(Record(number, BodyOf(schema, k, v)))
  {
    hide LittleEndian, FixedBits, Utf8.Encode, Wire.Wire, MessageOk;
  }

  lemma {:induction false} ItemNumbers(schema: Schema, number: nat, k: Kind, items: seq<Value>)
    requires forall i | 0 <= i < |items| :: ValueOk(schema, k, items[i])
    ensures NumbersOk(ItemRecords(schema, number, k, items))
    decreases |items|
  {
    hide BodyOf, ValueOk;
    if items != [] {
      NumberBounded(schema, k, items[0]);
      ItemNumbers(schema, number, k, items[1..]);
    }
  }

  lemma {:induction false} TableNumbers(schema: Schema, number: nat, key: Kind, k: Kind, es: Entries, parent: Content)
    requires EntriesOk(schema, key, k, es) && Inside(es, parent)
    ensures NumbersOk(TableRecords(schema, number, key, k, es, parent))
    decreases |es|
  {
    hide BodyOf, Flatten, ValueOk, EntriesOk, Inside, TableRecords;
    if es == [] {
      TableNone(schema, number, key, k, parent);
    } else {
      TableTail(schema, key, k, es, parent);
      TableHead(schema, number, key, k, es, parent);
      TableNumbers(schema, number, key, k, es[1..], parent);
    }
  }

  lemma FieldNumbers(schema: Schema, number: nat, f: Field, c: Content)
    requires ContentOk(schema, f, c)
    ensures NumbersOk(FieldRecords(schema, number, f, c))
  {
    hide BodyOf, Packed, ItemRecords, TableRecords, SortEntries, ValueOk;
    match f.shape {
      case Singular => NumberBounded(schema, f.kind, c.v);
      case Repeated =>
        if IsLengthPrefixed(f.kind) {
          ItemNumbers(schema, number, f.kind, c.items);
        }
      case Mapped(key) =>
        TableOk(schema, f, c);
        TableNumbers(schema, number, key, f.kind, SortEntries(c.entries), c);
    }
  }

  predicate InRange(rs: seq<Record>) { forall i | 0 <= i < |rs| :: 1 <= rs[i].number < 0x2000_0000 }

  predicate NumbersLegal(fields: seq<(nat, Content)>) {
    forall i | 0 <= i < |fields| :: 1 <= fields[i].0 < 0x2000_0000
  }

  lemma {:induction false} FieldsInRange(schema: Schema, desc: Desc, fields: seq<(nat, Content)>, parent: Message)
    requires FieldsOk(schema, desc, fields) && FieldsInside(fields, parent) && NumbersLegal(fields)
    ensures var rs := FieldsRecords(schema, desc, fields, parent); InRange(rs) && NumbersOk(rs)
    decreases |fields|
  {
    hide FieldRecords, ContentOk, NumberOk;
    if fields != [] {
      FieldNumbered(schema, fields[0].0, desc[fields[0].0], fields[0].1);
      FieldNumbers(schema, fields[0].0, desc[fields[0].0], fields[0].1);
      FieldsInRange(schema, desc, fields[1..], parent);
    }
  }

  lemma MessageLegal(schema: Schema, desc: Desc, m: Message)
    requires MessageOk(schema, desc, m)
    ensures NumbersLegal(m.fields)
  {
    hide ContentOk;
  }

  lemma MessageFits(schema: Schema, desc: Desc, m: Message)
    requires MessageOk(schema, desc, m) && |Wire.Wire(schema, desc, m)| < Varint.U64
    ensures AllFit(Records(schema, desc, m))
  {
    hide FieldsRecords, MessageOk, BodyOk, Flatten, Wire.Wire, NumberOk;
    MessageParts(schema, desc, m);
    MessageLegal(schema, desc, m);
    FieldsInRange(schema, desc, m.fields, m);
    ChunksBounded(Records(schema, desc, m));
    FitsFrom(Records(schema, desc, m));
  }

  lemma FitsFrom(rs: seq<Record>)
    requires RecordsOk(rs) && InRange(rs) && NumbersOk(rs)
    requires forall i | 0 <= i < |rs| :: rs[i].body.Chunk? ==> |rs[i].body.bytes| < Varint.U64
    ensures AllFit(rs)
  {
    hide BodyOk;
  }

  // ----- levels against the limit

  /** Content `levels` levels deep, in a message at `depth`. */
  predicate Within(depth: nat, levels: nat) { levels == 0 || depth + 1 + levels <= MAX_DEPTH }

  lemma {:induction false} EntriesWithin(depth: nat, es: Entries, parent: Content)
    requires Inside(es, parent)
    ensures Within(depth, EntriesLevels(es, parent)) <==> forall e | e in es :: Within(depth, 1 + ValueLevels(e.1))
    decreases |es|
  {
    hide ValueLevels;
    if es != [] {
      EntriesWithin(depth, es[1..], parent);
      assert es == [es[0]] + es[1..];
    }
  }

  // ----- the walk and the levels agree

  lemma {:induction false} BodyPasses(schema: Schema, desc: Desc, number: nat, k: Kind, v: Value, depth: nat)
    requires ValueOk(schema, k, v) && number in desc && desc[number].kind == k && !desc[number].shape.Mapped?
    requires !IsPacked(desc[number]) && Fits(Record(number, BodyOf(schema, k, v)))
    ensures Passes(schema, desc, Record(number, BodyOf(schema, k, v)), depth) <==> Within(depth, ValueLevels(v))
    decreases v, 0
  {
    hide LittleEndian, FixedBits, ScalarNumber, Utf8.Encode, Wire.Wire, MessageOk, Accepts, Levels, PackedOk;
    if k.MessageKind? {
      MessagePasses(schema, schema[k.name], v.m, depth + 1);
      LevelsPositive(v.m);
    }
  }

  lemma LevelsPositive(m: Message)
    ensures Levels(m) >= 1
  {
  }

  lemma {:induction false} ItemsPass(schema: Schema, desc: Desc, number: nat, k: Kind, items: seq<Value>, depth: nat)
    requires forall i | 0 <= i < |items| :: ValueOk(schema, k, items[i])
    requires number in desc && desc[number].kind == k && !desc[number].shape.Mapped? && !IsPacked(desc[number])
    requires AllFit(ItemRecords(schema, number, k, items))
    ensures AllPass(schema, desc, ItemRecords(schema, number, k, items), depth) <==> Within(depth, ItemsLevels(items))
    decreases items
  {
    hide BodyOf, ValueOk, Fits, Passes, ValueLevels, IsPacked;
    if items != [] {
      var rs := ItemRecords(schema, number, k, items);
      assert rs[1..] == ItemRecords(schema, number, k, items[1..]);
      assert Fits(rs[0]);
      BodyPasses(schema, desc, number, k, items[0], depth);
      ItemsPass(schema, desc, number, k, items[1..], depth);
      AllPassStep(schema, desc, rs, depth);
    }
  }

  lemma ScalarTyped(schema: Schema, k: Kind, v: Value)
    requires IsVarint(k) && ValueOk(schema, k, v)
    ensures if k.BoolKind? then v.Bool? else v.Int?
  {
  }

  lemma {:induction false} PackedPasses(schema: Schema, k: Kind, items: seq<Value>, data: Bytes, pos: nat)
    requires IsVarint(k) && forall i | 0 <= i < |items| :: ValueOk(schema, k, items[i])
    requires At(data, pos, Packed(schema, k, items)) && pos + |Packed(schema, k, items)| == |data|
    ensures PackedOk(data, pos)
    decreases |items|
  {
    hide At, ValueOk, ScalarNumber, Varint.Write, Varint.Check;
    if items != [] {
      ScalarTyped(schema, k, items[0]);
      var n := ScalarNumber(k, items[0]);
      NumberBounded(schema, k, items[0]);
      assert NumberOk(Record(0, BodyOf(schema, k, items[0])));
      AtSplit(data, pos, Varint.Write(n), Packed(schema, k, items[1..]));
      Varint.CheckWritten(data, pos, n);
      PackedPasses(schema, k, items[1..], data, pos + |Varint.Write(n)|);
    }
  }

  lemma {:induction false} ScalarLevels(schema: Schema, k: Kind, items: seq<Value>)
    requires !k.MessageKind? && forall i | 0 <= i < |items| :: ValueOk(schema, k, items[i])
    ensures ItemsLevels(items) == 0
    decreases |items|
  {
    if items != [] {
      ScalarLevels(schema, k, items[1..]);
    }
  }

  lemma PackedField(schema: Schema, desc: Desc, number: nat, items: seq<Value>, depth: nat)
    requires number in desc && desc[number].shape.Repeated? && !IsLengthPrefixed(desc[number].kind)
    requires forall i | 0 <= i < |items| :: ValueOk(schema, desc[number].kind, items[i])
    ensures Passes(schema, desc, Record(number, Chunk(Packed(schema, desc[number].kind, items))), depth)
    ensures ItemsLevels(items) == 0
  {
    hide ValueOk, PackedOk, Accepts, Packed;
    var k := desc[number].kind;
    ScalarLevels(schema, k, items);
    if IsVarint(k) {
      AtWhole(Packed(schema, k, items));
      PackedPasses(schema, k, items, Packed(schema, k, items), 0);
    }
  }

  function EntryDesc(key: Kind, k: Kind): Desc { map[1 := Field(Singular, key), 2 := Field(Singular, k)] }

  lemma EntryFits(schema: Schema, key: Kind, k: Kind, e: (Value, Value))
    requires ValueOk(schema, key, e.0) && ValueOk(schema, k, e.1)
    requires |EntryChunk(schema, key, k, e).bytes| < Varint.U64
    ensures Fits(Record(1, BodyOf(schema, key, e.0))) && Fits(Record(2, BodyOf(schema, k, e.1)))
  {
    hide BodyOf, Flatten, ValueOk, BodyOk;
    var rs := [Record(1, BodyOf(schema, key, e.0)), Record(2, BodyOf(schema, k, e.1))];
    BodyIsOk(schema, key, e.0);
    BodyIsOk(schema, k, e.1);
    NumberBounded(schema, key, e.0);
    NumberBounded(schema, k, e.1);
    ChunksBounded(rs);
    assert NumberOk(rs[0]) && NumberOk(rs[1]);
    assert rs[0].body.Chunk? ==> |rs[0].body.bytes| <= |Flatten(rs)|;
    assert rs[1].body.Chunk? ==> |rs[1].body.bytes| <= |Flatten(rs)|;
  }

  /** A map entry is a message of its own. */
  lemma {:induction false} EntryPasses(schema: Schema, key: Kind, k: Kind, e: (Value, Value), depth: nat)
    requires IsKey(key) && ValueOk(schema, key, e.0) && ValueOk(schema, k, e.1)
    requires |EntryChunk(schema, key, k, e).bytes| < Varint.U64
    ensures Accepts(schema, EntryChunk(schema, key, k, e).bytes, EntryDesc(key, k), depth + 1)
      <==> Within(depth, 1 + ValueLevels(e.1))
    decreases e.1, 1
  {
    hide BodyOf, Flatten, ValueOk, Fits, Scan, Passes, ValueLevels, IsKey;
    var desc := EntryDesc(key, k);
    var rs := [Record(1, BodyOf(schema, key, e.0)), Record(2, BodyOf(schema, k, e.1))];
    var data := EntryChunk(schema, key, k, e).bytes;
    EntryFits(schema, key, k, e);
    if depth + 1 < MAX_DEPTH {
      AtWhole(data);
      ScanRecords(schema, data, 0, rs, desc, depth + 1);
      KeyPasses(schema, desc, key, e.0, depth + 1);
      BodyPasses(schema, desc, 2, k, e.1, depth + 1);
      assert AllPass(schema, desc, rs, depth + 1) <==>
        Passes(schema, desc, rs[0], depth + 1) && Passes(schema, desc, rs[1], depth + 1);
    }
  }

  lemma KeyPasses(schema: Schema, desc: Desc, key: Kind, v: Value, depth: nat)
    requires IsKey(key) && ValueOk(schema, key, v) && 1 in desc && desc[1] == Field(Singular, key)
    ensures Passes(schema, desc, Record(1, BodyOf(schema, key, v)), depth)
  {
    hide BodyOf, Accepts, PackedOk;
  }

  lemma {:induction false} TablePasses(
      schema: Schema, desc: Desc, number: nat, key: Kind, k: Kind, es: Entries, parent: Content, depth: nat)
    requires IsKey(key) && EntriesOk(schema, key, k, es) && Inside(es, parent)
    requires number in desc && desc[number] == Field(Mapped(key), k)
    requires AllFit(TableRecords(schema, number, key, k, es, parent))
    ensures AllPass(schema, desc, TableRecords(schema, number, key, k, es, parent), depth) <==>
      forall e | e in es :: Within(depth, 1 + ValueLevels(e.1))
    decreases parent, |es|
  {
    hide BodyOf, Flatten, ValueOk, EntriesOk, Inside, TableRecords, Accepts, ValueLevels, Within, PackedOk, IsKey, BodyOk;
    if es == [] {
      TableNone(schema, number, key, k, parent);
    } else {
      TableTail(schema, key, k, es, parent);
      TableHead(schema, number, key, k, es, parent);
      var rs := TableRecords(schema, number, key, k, es, parent);
      assert rs[1..] == TableRecords(schema, number, key, k, es[1..], parent);
      assert Fits(rs[0]) && rs[0] == Record(number, EntryChunk(schema, key, k, es[0]));
      EntryPasses(schema, key, k, es[0], depth);
      TablePasses(schema, desc, number, key, k, es[1..], parent, depth);
      AllPassStep(schema, desc, rs, depth);
      assert es == [es[0]] + es[1..];
    }
  }

  lemma {:induction false} ContentPasses(schema: Schema, desc: Desc, number: nat, c: Content, depth: nat)
    requires number in desc && ContentOk(schema, desc[number], c)
    requires AllFit(FieldRecords(schema, number, desc[number], c))
    ensures AllPass(schema, desc, FieldRecords(schema, number, desc[number], c), depth) <==> Within(depth, ContentLevels(c))
    decreases c
  {
    hide BodyOf, Packed, ItemRecords, TableRecords, ValueOk, SortEntries, Fits, Passes;
    hide ValueLevels, ItemsLevels, EntriesLevels, Within;
    var f := desc[number];
    var rs := FieldRecords(schema, number, f, c);
    match f.shape {
      case Singular =>
        assert Fits(rs[0]);
        BodyPasses(schema, desc, number, f.kind, c.v, depth);
      case Repeated =>
        if IsLengthPrefixed(f.kind) {
          ItemsPass(schema, desc, number, f.kind, c.items, depth);
        } else {
          PackedField(schema, desc, number, c.items, depth);
          WithinNothing(depth);
        }
      case Mapped(key) =>
        TableOk(schema, f, c);
        TablePasses(schema, desc, number, key, f.kind, SortEntries(c.entries), c, depth);
        EntriesInside(c);
        EntriesWithin(depth, c.entries, c);
    }
  }

  lemma WithinNothing(depth: nat)
    ensures Within(depth, 0)
  {
  }

  lemma EntriesInside(c: Content)
    requires c.Table?
    ensures Inside(c.entries, c)
  {
  }

  lemma {:induction false} FieldsPass(
      schema: Schema, desc: Desc, fields: seq<(nat, Content)>, parent: Message, depth: nat)
    requires FieldsOk(schema, desc, fields) && FieldsInside(fields, parent)
    requires AllFit(FieldsRecords(schema, desc, fields, parent))
    ensures AllPass(schema, desc, FieldsRecords(schema, desc, fields, parent), depth) <==>
      Within(depth, FieldsLevels(fields, parent))
    decreases parent, 0, |fields|
  {
    hide FieldRecords, ContentOk, ContentLevels, Fits, Passes;
    if fields != [] {
      var first := FieldRecords(schema, fields[0].0, desc[fields[0].0], fields[0].1);
      var rest := FieldsRecords(schema, desc, fields[1..], parent);
      FitSplit(first, rest);
      ContentPasses(schema, desc, fields[0].0, fields[0].1, depth);
      FieldsPass(schema, desc, fields[1..], parent, depth);
      AllPassConcat(schema, desc, first, rest, depth);
    }
  }

  lemma FitSplit(rs: seq<Record>, qs: seq<Record>)
    requires AllFit(rs + qs)
    ensures AllFit(rs) && AllFit(qs)
  {
    hide Fits;
    var all := rs + qs;
    assert forall i | 0 <= i < |rs| :: all[i] == rs[i];
    assert forall i | 0 <= i < |qs| :: all[|rs| + i] == qs[i];
  }

  /** The written bytes of a message pass at `depth` exactly when its levels stay within the limit. */
  lemma {:induction false} MessagePasses(schema: Schema, desc: Desc, m: Message, depth: nat)
    requires MessageOk(schema, desc, m) && |Wire.Wire(schema, desc, m)| < Varint.U64
    ensures Accepts(schema, Wire.Wire(schema, desc, m), desc, depth) <==> depth + Levels(m) <= 100
    decreases m
  {
    hide Wire.Wire, MessageOk, FieldsRecords, Flatten, Fits, Scan, AllPass, FieldsLevels, RecordsOk;
    MessageParts(schema, desc, m);
    MessageFits(schema, desc, m);
    var data, rs := Wire.Wire(schema, desc, m), FieldsRecords(schema, desc, m.fields, m);
    if depth < MAX_DEPTH {
      AtWhole(data);
      ScanRecords(schema, data, 0, rs, desc, depth);
      FieldsPass(schema, desc, m.fields, m, depth);
    }
  }

  /** A payload the encoder writes is accepted exactly when it is at most 100 levels deep. */
  lemma AcceptsWritten(schema: Schema, desc: Desc, m: Message)
    requires MessageOk(schema, desc, m) && |Wire.Wire(schema, desc, m)| < Varint.U64
    ensures Accepts(schema, Wire.Wire(schema, desc, m), desc, 0) <==> Levels(m) <= 100
  {
    MessagePasses(schema, desc, m, 0);
  }
}
