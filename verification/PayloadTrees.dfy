/**
  What the payload check makes of any field tree, not only of the encoder's output:
  unknown fields, groups, and varints of any length, known submessages and packed
  fields walked as the schema says.
 */
module PayloadTrees {
  import opened Basics
  import Varint
  import opened Wire
  import opened PayloadCheck

  // ----- trees

  datatype Field =
    | Scalar(key: Bytes, spelled: Bytes)
    | Fixed(key: Bytes, bytes: Bytes)
    | Delimited(key: Bytes, length: Bytes, content: Inner)
    | Group(key: Bytes, fields: Fields, end: Bytes)

  /** A chunk as the schema sees it: a submessage, packed varints, or bytes that are not looked at. */
  datatype Inner = Message(fields: Fields) | Varints(items: seq<Bytes>) | Opaque(bytes: Bytes)

  datatype Fields = NoFields | Fields(first: Field, rest: Fields)

  function Concat(items: seq<Bytes>): Bytes {
    if items == [] then [] else items[0] + Concat(items[1..])
  }

  function PrintInner(c: Inner): Bytes {
    match c
    case Message(fields) => PrintFields(fields)
    case Varints(items) => Concat(items)
    case Opaque(bytes) => bytes
  }

  /** What follows the key. */
  function PrintBody(f: Field): Bytes {
    match f
    case Scalar(_, spelled) => spelled
    case Fixed(_, bytes) => bytes
    case Delimited(_, length, content) => length + PrintInner(content)
    case Group(_, fields, end) => PrintFields(fields) + end
  }

  function PrintFields(fs: Fields): Bytes {
    match fs
    case NoFields => []
    case Fields(f, rest) => f.key + (PrintBody(f) + PrintFields(rest))
  }

  // ----- trees that fit the schema

  function FieldNumber(f: Field): nat { Varint.Value(f.key) / 8 }

  predicate HasWire(f: Field, wire: nat) {
    match f
    case Scalar(_, _) => wire == 0
    case Fixed(_, bytes) => (wire == 1 && |bytes| == 8) || (wire == 5 && |bytes| == 4)
    case Delimited(_, _, _) => wire == 2
    case Group(_, _, _) => wire == 3
  }

  /** Inside a group no field is known. */
  const UNKNOWN: Desc := map[]

  predicate InnerOk(schema: Schema, desc: Desc, number: nat, c: Inner)
    decreases c
  {
    if number in desc && IsMessageField(desc[number]) then
      c.Message? && FieldsOk(schema, SubDesc(schema, desc[number]), c.fields)
    else if number in desc && IsPacked(desc[number]) then
      c.Varints? && forall i | 0 <= i < |c.items| :: Varint.Spelled(c.items[i])
    else c.Opaque?
  }

  predicate FieldOk(schema: Schema, desc: Desc, f: Field)
    decreases f
  {
    Varint.Spelled(f.key) && HasWire(f, Varint.Value(f.key) % 8) &&
    match f
    case Scalar(_, spelled) => Varint.Spelled(spelled)
    case Fixed(_, _) => true
    case Delimited(_, length, content) =>
      Varint.Spelled(length) && Varint.Value(length) == |PrintInner(content)|
      && InnerOk(schema, desc, FieldNumber(f), content)
    case Group(_, fields, end) =>
      FieldsOk(schema, UNKNOWN, fields) && Varint.Spelled(end) && Varint.Value(end) == FieldNumber(f) * 8 + 4
  }

  predicate FieldsOk(schema: Schema, desc: Desc, fs: Fields)
    decreases fs
  {
    fs.Fields? ==> FieldOk(schema, desc, fs.first) && FieldsOk(schema, desc, fs.rest)
  }

  // ----- what is asked of them

  predicate InnerFits(c: Inner) {
    match c
    case Message(fields) => AllFit(fields)
    case Varints(items) => forall i | 0 <= i < |items| :: Varint.Fits(items[i])
    case Opaque(_) => true
  }

  predicate BodyFits(f: Field) {
    match f
    case Scalar(_, spelled) => Varint.Fits(spelled)
    case Fixed(_, _) => true
    case Delimited(_, length, content) => Varint.Fits(length) && InnerFits(content)
    case Group(_, fields, end) => AllFit(fields) && Varint.Fits(end)
  }

  /** Every varint, keys and lengths included, has at most ten bytes and 64 bits. */
  predicate AllFit(fs: Fields) {
    fs.Fields? ==> Varint.Fits(fs.first.key) && BodyFits(fs.first) && AllFit(fs.rest)
  }

  /** The levels inside a field: a known submessage or a group is one, with those inside it. */
  function FieldLevels(f: Field): nat {
    match f
    case Delimited(_, _, Message(fields)) => 1 + InnerLevels(fields)
    case Group(_, fields, _) => 1 + InnerLevels(fields)
    case _ => 0
  }

  function InnerLevels(fs: Fields): nat {
    if fs.NoFields? then 0
    else if FieldLevels(fs.first) > InnerLevels(fs.rest) then FieldLevels(fs.first) else InnerLevels(fs.rest)
  }

  /** The levels fit below a message or group at `depth`. */
  predicate Within(levels: nat, depth: nat) { levels == 0 || depth + levels < MAX_DEPTH }

  // ----- the walk over a tree

  lemma {:induction false} PackedRun(data: Bytes, pos: nat, items: seq<Bytes>)
    requires At(data, pos, Concat(items)) && pos + |Concat(items)| == |data|
    requires forall i | 0 <= i < |items| :: Varint.Spelled(items[i])
    ensures PackedOk(data, pos) <==> forall i | 0 <= i < |items| :: Varint.Fits(items[i])
    decreases |items|
  {
    hide Varint.Check, Varint.Fits, Varint.Value, At;
    if items != [] {
      assert Concat(items) == items[0] + Concat(items[1..]);
      AtSplit(data, pos, items[0], Concat(items[1..]));
      Varint.CheckSpelled(data, pos, items[0]);
      PackedRun(data, pos + |items[0]|, items[1..]);
      assert forall i | 1 <= i < |items| :: items[i] == items[1..][i - 1];
    }
  }

  /** The check of a chunk's content. */
  lemma {:induction false} InnerPasses(schema: Schema, desc: Desc, number: nat, c: Inner, depth: nat)
    requires InnerOk(schema, desc, number, c)
    ensures ChunkPasses(schema, desc, number, PrintInner(c), depth) <==>
      InnerFits(c) && (c.Message? ==> Within(1 + InnerLevels(c.fields), depth))
    decreases c
  {
    hide Accepts, PackedOk, FieldsOk, AllFit, InnerLevels, PrintFields, Varint.Spelled, Varint.Fits;
    hide IsMessageField, IsPacked;
    match c {
      case Message(fields) => TreeAccepted(schema, SubDesc(schema, desc[number]), fields, depth + 1);
      case Varints(items) =>
        AtWhole(Concat(items));
        PackedRun(Concat(items), 0, items);
      case Opaque(_) =>
    }
  }

  lemma SliceIs(data: Bytes, pos: nat, part: Bytes)
    requires At(data, pos, part)
    ensures Slice(data, pos, |part|) == part && Clip(data, pos + |part|) == pos + |part| <= |data|
  {
  }

  /** One field: the walk goes on after it, or is refused in it. */
  lemma {:induction false} FieldWalked(
      schema: Schema, data: Bytes, pos: nat, f: Field, desc: Desc, group: Option<nat>, depth: nat)
    requires At(data, pos, f.key + PrintBody(f)) && FieldOk(schema, desc, f)
    ensures pos + |f.key + PrintBody(f)| <= |data|
    ensures Scan(schema, data, pos, desc, group, depth) ==
      if Varint.Fits(f.key) && BodyFits(f) && Within(FieldLevels(f), depth)
      then Scan(schema, data, pos + |f.key + PrintBody(f)|, desc, group, depth) else None
    decreases f, 1
  {
    hide Scan, Varint.Check, Varint.Spelled, Varint.Fits, Varint.Value, At, ChunkPasses, AllFit;
    hide FieldsOk, InnerOk, InnerFits;
    hide PrintFields, PrintInner, InnerLevels;
    var at := pos + |f.key|;
    AtSplit(data, pos, f.key, PrintBody(f));
    Varint.CheckSpelled(data, pos, f.key);
    KeyBounds(data, pos, f.key);
    if !Varint.Fits(f.key) {
      ScanNothing(schema, data, pos, desc, group, depth);
    } else {
      var tag := Varint.Value(f.key);
      match f {
        case Scalar(_, spelled) =>
          ScanNumber(schema, data, pos, tag, at, desc, group, depth);
          Varint.CheckSpelled(data, at, spelled);
        case Fixed(_, bytes) =>
          ScanFixed(schema, data, pos, tag, at, desc, group, depth);
          SliceIs(data, at, bytes);
        case Delimited(_, length, content) =>
          DelimitedWalked(schema, data, pos, f, desc, group, depth);
        case Group(_, fields, end) =>
          GroupWalked(schema, data, pos, f, desc, group, depth);
      }
    }
  }

  lemma KeyBounds(data: Bytes, pos: nat, key: Bytes)
    requires At(data, pos, key) && Varint.Spelled(key)
    ensures pos < pos + |key| <= |data|
  {
  }

  lemma {:induction false} DelimitedWalked(
      schema: Schema, data: Bytes, pos: nat, f: Field, desc: Desc, group: Option<nat>, depth: nat)
    requires f.Delimited? && FieldOk(schema, desc, f) && Varint.Fits(f.key)
    requires At(data, pos, f.key) && At(data, pos + |f.key|, PrintBody(f))
    ensures pos + |f.key + PrintBody(f)| <= |data|
    ensures Scan(schema, data, pos, desc, group, depth) ==
      if BodyFits(f) && Within(FieldLevels(f), depth)
      then Scan(schema, data, pos + |f.key + PrintBody(f)|, desc, group, depth) else None
    decreases f, 0
  {
    hide Scan, Varint.Check, Varint.Spelled, Varint.Fits, Varint.Value, At, ChunkPasses, AllFit;
    hide FieldsOk, InnerOk, InnerFits;
    hide PrintFields, PrintInner, InnerLevels, Slice;
    var at := pos + |f.key|;
    KeyBounds(data, pos, f.key);
    Varint.CheckSpelled(data, pos, f.key);
    ScanChunk(schema, data, pos, Varint.Value(f.key), at, desc, group, depth);
    AtSplit(data, at, f.length, PrintInner(f.content));
    Varint.CheckSpelled(data, at, f.length);
    SliceIs(data, at + |f.length|, PrintInner(f.content));
    InnerPasses(schema, desc, FieldNumber(f), f.content, depth);
  }

  lemma {:induction false} GroupWalked(
      schema: Schema, data: Bytes, pos: nat, f: Field, desc: Desc, group: Option<nat>, depth: nat)
    requires f.Group? && FieldOk(schema, desc, f) && Varint.Fits(f.key)
    requires At(data, pos, f.key) && At(data, pos + |f.key|, PrintBody(f))
    ensures pos + |f.key + PrintBody(f)| <= |data|
    ensures Scan(schema, data, pos, desc, group, depth) ==
      if BodyFits(f) && Within(FieldLevels(f), depth)
      then Scan(schema, data, pos + |f.key + PrintBody(f)|, desc, group, depth) else None
    decreases f, 0
  {
    hide Scan, Varint.Check, Varint.Spelled, Varint.Fits, Varint.Value, At, AllFit, FieldsOk, PrintFields, InnerLevels;
    var at, number := pos + |f.key|, FieldNumber(f);
    KeyBounds(data, pos, f.key);
    Varint.CheckSpelled(data, pos, f.key);
    ScanGroup(schema, data, pos, Varint.Value(f.key), at, desc, group, depth);
    AtSplit(data, at, PrintFields(f.fields), f.end);
    var close := at + |PrintFields(f.fields)|;
    FieldsWalked(schema, data, at, f.fields, UNKNOWN, Some(number), depth + 1);
    KeyBounds(data, close, f.end);
    Varint.CheckSpelled(data, close, f.end);
    if Varint.Fits(f.end) {
      ScanStop(schema, data, close, Varint.Value(f.end), close + |f.end|, UNKNOWN, Some(number), depth + 1);
    } else {
      ScanNothing(schema, data, close, UNKNOWN, Some(number), depth + 1);
    }
  }

  lemma {:induction false} FieldsWalked(
      schema: Schema, data: Bytes, pos: nat, fs: Fields, desc: Desc, group: Option<nat>, depth: nat)
    requires At(data, pos, PrintFields(fs)) && FieldsOk(schema, desc, fs)
    ensures pos + |PrintFields(fs)| <= |data|
    ensures Scan(schema, data, pos, desc, group, depth) ==
      if AllFit(fs) && Within(InnerLevels(fs), depth)
      then Scan(schema, data, pos + |PrintFields(fs)|, desc, group, depth) else None
    decreases fs, 0
  {
    hide Scan, Varint.Fits, FieldOk, BodyFits, FieldLevels, PrintBody;
    if fs.Fields? {
      var f, rest := fs.first, fs.rest;
      assert PrintFields(fs) == f.key + PrintBody(f) + PrintFields(rest);
      AtSplit(data, pos, f.key + PrintBody(f), PrintFields(rest));
      FieldWalked(schema, data, pos, f, desc, group, depth);
      FieldsWalked(schema, data, pos + |f.key + PrintBody(f)|, rest, desc, group, depth);
    }
  }

  /**
    A field tree passes exactly when every varint in it fits 64 bits and it is at most
    100 levels deep, the message itself, known submessages and groups counting one each.
   */
  lemma {:induction false} TreeAccepted(schema: Schema, desc: Desc, fs: Fields, depth: nat)
    requires FieldsOk(schema, desc, fs)
    ensures Accepts(schema, PrintFields(fs), desc, depth) <==> AllFit(fs) && depth + 1 + InnerLevels(fs) <= 100
    decreases fs, 1
  {
    hide Scan, AllFit, FieldsOk, PrintFields, InnerLevels;
    var data := PrintFields(fs);
    AtWhole(data);
    FieldsWalked(schema, data, 0, fs, desc, None, depth);
    ScanNothing(schema, data, |data|, desc, None, depth);
  }

  // ----- what the schema makes known, by kinds

  /** A chunk is looked into where its field is a message or a map, and as packed numbers where it is a list of varints. */
  lemma KnownIff(schema: Schema, f: Wire.Field)
    ensures IsMessageField(f) <==> f.shape.Mapped? || f.kind.MessageKind?
    ensures IsPacked(f) <==>
      && f.shape.Repeated?
      && (f.kind == Int32 || f.kind == Int64 || f.kind == UInt32 || f.kind == UInt64 || f.kind == BoolKind
          || f.kind == Enum || f.kind == SInt32 || f.kind == SInt64)
    ensures f.shape.Mapped? ==>
      var d := SubDesc(schema, f);
      d.Keys == {1, 2} && d[1] == Wire.Field(Singular, f.shape.key) && d[2] == Wire.Field(Singular, f.kind)
    ensures !f.shape.Mapped? && f.kind.MessageKind? && f.kind.name in schema ==>
      SubDesc(schema, f) == schema[f.kind.name]
  {
  }
}
