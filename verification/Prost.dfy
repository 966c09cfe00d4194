/**
  The prost-exact Protobuf reader of multi_round.py: keys, skipped fields with
  nested groups under a recursion limit, and the last `value` field.
 */
module Prost {
  import opened Basics
  import Varint
  import Utf8

  const RECURSION_LIMIT: nat := 100

  // ----- reading

  datatype Key = Key(tag: nat, wire: nat)

  function ReadKey(buf: Bytes, pos: nat): (r: Parse<Key>)
    ensures r.Parsed? ==> pos < r.pos <= |buf| && r.value.tag >= 1 && r.value.wire <= 5
  {
    var (key, next) :- Varint.Read(buf, pos);
    if key > 0xFFFF_FFFF || key % 8 > 5 || key / 8 < 1 then Malformed
    else Parsed(Key(key / 8, key % 8), next)
  }

  function Take(buf: Bytes, pos: nat, length: nat): (r: Option<nat>)
    ensures r.Some? ==> r.value == pos + length <= |buf|
  {
    if pos + length > |buf| then None else Some(pos + length)
  }

  /** The end of the field whose key ends at `pos`. */
  function SkipField(buf: Bytes, pos: nat, key: Key, depth: nat): (r: Option<nat>)
    requires pos <= |buf|
    ensures r.Some? ==> pos <= r.value <= |buf|
    decreases depth, 0
  {
    if depth == 0 then None
    else if key.wire == 0 then
      var v := Varint.Read(buf, pos);
      if v.Malformed? then None else Some(v.pos)
    else if key.wire == 2 then
      var v := Varint.Read(buf, pos);
      if v.Malformed? then None else Take(buf, v.pos, v.value)
    else if key.wire == 1 then Take(buf, pos, 8)
    else if key.wire == 5 then Take(buf, pos, 4)
    else if key.wire == 3 then
      var rest :- SkipGroup(buf, pos, key.tag, depth - 1);
      Some(rest)
    else None
  }

  /** The end of the group `tag` that goes on at `pos`; `inner` levels are left inside it. */
  function SkipGroup(buf: Bytes, pos: nat, tag: nat, inner: nat): (r: Option<nat>)
    requires pos <= |buf|
    ensures r.Some? ==> pos <= r.value <= |buf|
    decreases inner, 1, |buf| - pos
  {
    var key := ReadKey(buf, pos);
    if key.Malformed? then None
    else if key.value.wire == 4 then
      if key.value.tag == tag then Some(key.pos) else None
    else
      var end :- SkipField(buf, key.pos, key.value, inner);
      SkipGroup(buf, end, tag, inner)
  }

  method Skip(buf: Bytes, start: nat, key: Key, depth: nat) returns (r: Option<nat>)
    requires start <= |buf|
    ensures r == SkipField(buf, start, key, depth)
    decreases depth
  {
    hide ReadKey, SkipGroup, Varint.Read;
    if depth == 0 {
      return None;
    }
    var pos, length := start, 0;
    if key.wire == 0 {
      var v := Varint.ReadVarint(buf, pos);
      return if v.Malformed? then None else Some(v.pos);
    } else if key.wire == 2 {
      var v := Varint.ReadVarint(buf, pos);
      if v.Malformed? {
        return None;
      }
      length, pos := v.value, v.pos;
    } else if key.wire == 1 {
      length := 8;
    } else if key.wire == 5 {
      length := 4;
    } else if key.wire == 3 {
      while true
        invariant pos <= |buf| && SkipField(buf, start, key, depth) == SkipGroup(buf, pos, key.tag, depth - 1)
        decreases |buf| - pos
      {
        SkipGroupStep(buf, pos, key.tag, depth - 1);
        var inner := ReadKey(buf, pos);
        if inner.Malformed? {
          return None;
        }
        if inner.value.wire == 4 {
          return if inner.value.tag == key.tag then Some(inner.pos) else None;
        }
        var end := Skip(buf, inner.pos, inner.value, depth - 1);
        if end.None? {
          return None;
        }
        pos := end.value;
      }
    } else {
      return None;
    }
    r := Take(buf, pos, length);
  }

  /** The message's value when `value` is what the fields before `pos` left. */
  function ValueFrom(buf: Bytes, pos: nat, value: string): Option<string>
    requires pos <= |buf|
    decreases |buf| - pos
  {
    if pos == |buf| then Some(value)
    else
      var key := ReadKey(buf, pos);
      if key.Malformed? then None
      else if key.value.tag != 1 then
        var end :- SkipField(buf, key.pos, key.value, RECURSION_LIMIT);
        ValueFrom(buf, end, value)
      else if key.value.wire != 2 then None
      else
        var length := Varint.Read(buf, key.pos);
        if length.Malformed? then None
        else
          var end :- Take(buf, length.pos, length.value);
          var s :- Utf8.Decode(buf[length.pos..end]);
          ValueFrom(buf, end, s)
  }

  function ProtoValue(buf: Bytes): Option<string> { ValueFrom(buf, 0, "") }

  method ReadProtoValue(buf: Bytes) returns (r: Option<string>)
    ensures r == ProtoValue(buf)
  {
    hide ReadKey, SkipField, SkipGroup, Utf8.Decode, Varint.Read;
    var value, pos := "", 0;
    while pos < |buf|
      invariant pos <= |buf| && ProtoValue(buf) == ValueFrom(buf, pos, value)
      decreases |buf| - pos
    {
      var key := ReadKey(buf, pos);
      if key.Malformed? {
        return None;
      }
      if key.value.tag != 1 {
        var end := Skip(buf, key.pos, key.value, RECURSION_LIMIT);
        if end.None? {
          return None;
        }
        pos := end.value;
        continue;
      }
      if key.value.wire != 2 {
        return None;
      }
      var length := Varint.ReadVarint(buf, key.pos);
      if length.Malformed? || length.value > |buf| - length.pos {
        return None;
      }
      var s := Utf8.Decode(buf[length.pos..length.pos + length.value]);
      if s.None? {
        return None;
      }
      value, pos := s.value, length.pos + length.value;
    }
    r := Some(value);
  }

  // ----- fields as trees, with the varints as they are spelled

  datatype Field =
    | Number(key: Bytes, spelled: Bytes)
    | Fixed64(key: Bytes, bytes: Bytes)
    | Chunk(key: Bytes, length: Bytes, bytes: Bytes)
    | Group(key: Bytes, fields: Fields, end: Bytes)
    | Fixed32(key: Bytes, bytes: Bytes)

  datatype Fields = NoFields | Fields(first: Field, rest: Fields)

  function WireOf(f: Field): (w: nat)
    ensures w <= 5 && w != 4
  {
    match f
    case Number(_, _) => 0
    case Fixed64(_, _) => 1
    case Chunk(_, _, _) => 2
    case Group(_, _, _) => 3
    case Fixed32(_, _) => 5
  }

  function Tag(f: Field): nat { Varint.Value(f.key) / 8 }

  /** What follows the key. */
  function Body(f: Field): Bytes {
    match f
    case Number(_, spelled) => spelled
    case Fixed64(_, bytes) => bytes
    case Chunk(_, length, bytes) => length + bytes
    case Group(_, fields, end) => Print(fields) + end
    case Fixed32(_, bytes) => bytes
  }

  function Print(fs: Fields): Bytes {
    match fs
    case NoFields => []
    case Fields(f, rest) => f.key + (Body(f) + Print(rest))
  }

  /** A whole varint that fits, spelled with any number of bytes. */
  predicate LegalVarint(s: Bytes) { Varint.Spelled(s) && Varint.Fits(s) }

  predicate LegalKey(key: Bytes, tag: nat, wire: nat) {
    LegalVarint(key) && 1 <= tag < 0x2000_0000 && Varint.Value(key) == tag * 8 + wire
  }

  predicate Legal(f: Field) {
    LegalKey(f.key, Tag(f), WireOf(f)) &&
    match f
    case Number(_, spelled) => LegalVarint(spelled)
    case Fixed64(_, bytes) => |bytes| == 8
    case Chunk(_, length, bytes) => LegalVarint(length) && Varint.Value(length) == |bytes|
    case Group(_, fields, end) => AllLegal(fields) && LegalKey(end, Tag(f), 4)
    case Fixed32(_, bytes) => |bytes| == 4
  }

  predicate AllLegal(fs: Fields) { fs.Fields? ==> Legal(fs.first) && AllLegal(fs.rest) }

  /** The recursion depth that skipping a field takes: a group takes one more than its deepest field. */
  function Depth(f: Field): nat { if f.Group? then 1 + Deepest(f.fields) else 1 }

  function Deepest(fs: Fields): nat {
    if fs.NoFields? then 0
    else if Depth(fs.first) > Deepest(fs.rest) then Depth(fs.first) else Deepest(fs.rest)
  }

  lemma KeyRead(buf: Bytes, pos: nat, key: Bytes, tag: nat, wire: nat)
    requires At(buf, pos, key) && LegalKey(key, tag, wire) && wire <= 5
    ensures ReadKey(buf, pos) == Parsed(Key(tag, wire), pos + |key|)
    ensures pos + |key| <= |buf|
  {
    hide Varint.Spelled, Varint.Value, Varint.Read;
    Varint.ReadSpelled(buf, pos, key);
  }

  lemma LegalIs(f: Field)
    requires Legal(f)
    ensures LegalKey(f.key, Tag(f), WireOf(f))
  {
    hide LegalKey;
  }

  /** A field is skipped exactly when its nesting fits the limit, and then to its end. */
  lemma {:induction false} FieldSkipped(buf: Bytes, pos: nat, f: Field, depth: nat)
    requires At(buf, pos, Body(f)) && Legal(f)
    ensures SkipField(buf, pos, Key(Tag(f), WireOf(f)), depth) ==
      if Depth(f) <= depth then Some(pos + |Body(f)|) else None
    decreases f
  {
    hide At, Varint.Spelled, Varint.Fits, Varint.Value, Varint.Read, SkipGroup, Print, LegalKey, AllLegal;
    match f {
      case Number(_, spelled) =>
        Varint.ReadSpelled(buf, pos, spelled);
      case Chunk(_, length, bytes) =>
        AtSplit(buf, pos, length, bytes);
        AtBounds(buf, pos + |length|, bytes);
        Varint.ReadSpelled(buf, pos, length);
      case Group(_, fields, end) =>
        AtBounds(buf, pos, Body(f));
        if depth > 0 {
          GroupSkipped(buf, pos, Tag(f), fields, end, depth - 1);
        }
      case Fixed64(_, bytes) =>
        AtBounds(buf, pos, bytes);
      case Fixed32(_, bytes) =>
        AtBounds(buf, pos, bytes);
    }
  }

  lemma AtBounds(buf: Bytes, pos: nat, part: Bytes)
    requires At(buf, pos, part)
    ensures pos + |part| <= |buf|
  {
  }

  lemma SkipGroupStep(buf: Bytes, pos: nat, tag: nat, inner: nat)
    requires pos <= |buf|
    ensures SkipGroup(buf, pos, tag, inner) ==
      var key := ReadKey(buf, pos);
      if key.Malformed? then None
      else if key.value.wire == 4 then if key.value.tag == tag then Some(key.pos) else None
      else
        var end := SkipField(buf, key.pos, key.value, inner);
        if end.None? then None else SkipGroup(buf, end.value, tag, inner)
  {
    hide ReadKey, SkipField;
  }

  lemma {:induction false} GroupSkipped(buf: Bytes, pos: nat, tag: nat, fields: Fields, end: Bytes, inner: nat)
    requires At(buf, pos, Print(fields) + end) && AllLegal(fields) && LegalKey(end, tag, 4)
    ensures SkipGroup(buf, pos, tag, inner) ==
      if Deepest(fields) <= inner then Some(pos + |Print(fields) + end|) else None
    decreases fields
  {
    hide At, ReadKey, SkipField, SkipGroup, LegalKey, Tag, Body, Legal;
    AtBounds(buf, pos, Print(fields) + end);
    SkipGroupStep(buf, pos, tag, inner);
    match fields {
      case NoFields =>
        assert Print(fields) + end == end;
        KeyRead(buf, pos, end, tag, 4);
      case Fields(f, rest) =>
        FieldText(f, rest, end);
        var tail := Print(rest) + end;
        AtSplit(buf, pos, f.key, Body(f) + tail);
        AtSplit(buf, pos + |f.key|, Body(f), tail);
        LegalIs(f);
        KeyRead(buf, pos, f.key, Tag(f), WireOf(f));
        FieldSkipped(buf, pos + |f.key|, f, inner);
        GroupSkipped(buf, pos + |f.key| + |Body(f)|, tag, rest, end, inner);
    }
  }

  lemma FieldText(f: Field, rest: Fields, end: Bytes)
    ensures Print(Fields(f, rest)) + end == f.key + (Body(f) + (Print(rest) + end))
  {
    hide Body;
  }

  /** What the fields say: the last `value` wins, and every other field must be skippable. */
  function Meaning(fs: Fields, value: string): Option<string> {
    match fs
    case NoFields => Some(value)
    case Fields(f, rest) =>
      if Tag(f) != 1 then if Depth(f) <= 100 then Meaning(rest, value) else None
      else if !f.Chunk? then None
      else
        var s :- Utf8.Decode(f.bytes);
        Meaning(rest, s)
  }

  /** Reading printed fields gives their meaning. */
  lemma {:induction false} FieldsRead(buf: Bytes, pos: nat, fs: Fields, value: string)
    requires At(buf, pos, Print(fs)) && AllLegal(fs) && pos + |Print(fs)| == |buf|
    ensures ValueFrom(buf, pos, value) == Meaning(fs, value)
    decreases fs
  {
    hide At, ReadKey, SkipField, ValueFrom, LegalKey, Tag, Body, Legal, Utf8.Decode, Varint.Read;
    ValueStep(buf, pos, value);
    if fs.Fields? {
      var f, rest := fs.first, fs.rest;
      AtSplit(buf, pos, f.key, Body(f) + Print(rest));
      AtSplit(buf, pos + |f.key|, Body(f), Print(rest));
      LegalIs(f);
      KeyRead(buf, pos, f.key, Tag(f), WireOf(f));
      KeyNotEmpty(f);
      var end := pos + |f.key| + |Body(f)|;
      if Tag(f) != 1 {
        FieldSkipped(buf, pos + |f.key|, f, RECURSION_LIMIT);
        FieldsRead(buf, end, rest, value);
      } else if f.Chunk? {
        ChunkRead(buf, pos + |f.key|, f);
        var s := Utf8.Decode(f.bytes);
        if s.Some? {
          FieldsRead(buf, end, rest, s.value);
        }
      }
    }
  }

  lemma KeyNotEmpty(f: Field)
    requires Legal(f)
    ensures f.key != []
  {
  }

  lemma ValueStep(buf: Bytes, pos: nat, value: string)
    requires pos <= |buf|
    ensures ValueFrom(buf, pos, value) ==
      if pos == |buf| then Some(value)
      else
        var key := ReadKey(buf, pos);
        if key.Malformed? then None
        else if key.value.tag != 1 then
          var end := SkipField(buf, key.pos, key.value, RECURSION_LIMIT);
          if end.None? then None else ValueFrom(buf, end.value, value)
        else if key.value.wire != 2 then None
        else ChunkValue(buf, key.pos)
  {
    hide ReadKey, SkipField;
  }

  function ChunkValue(buf: Bytes, pos: nat): Option<string>
    requires pos <= |buf|
  {
    var length := Varint.Read(buf, pos);
    if length.Malformed? then None
    else
      var end :- Take(buf, length.pos, length.value);
      var s :- Utf8.Decode(buf[length.pos..end]);
      ValueFrom(buf, end, s)
  }

  lemma ChunkRead(buf: Bytes, pos: nat, f: Field)
    requires At(buf, pos, Body(f)) && f.Chunk? && Legal(f)
    ensures pos + |Body(f)| <= |buf|
    ensures ChunkValue(buf, pos) ==
      var s := Utf8.Decode(f.bytes);
      if s.None? then None else ValueFrom(buf, pos + |Body(f)|, s.value)
  {
    hide ValueFrom, Utf8.Decode, Varint.Read, Varint.Spelled, Varint.Fits, Varint.Value, LegalKey;
    AtSplit(buf, pos, f.length, f.bytes);
    Varint.ReadSpelled(buf, pos, f.length);
  }

  // ----- and nothing else is read

  lemma KeyIsLegal(buf: Bytes, pos: nat)
    requires ReadKey(buf, pos).Parsed?
    ensures var r := ReadKey(buf, pos);
      At(buf, pos, buf[pos..r.pos]) && LegalKey(buf[pos..r.pos], r.value.tag, r.value.wire)
  {
    hide Varint.Spelled, Varint.Fits, Varint.Value, Varint.Read;
    Varint.ReadIsSpelled(buf, pos);
  }

  lemma TagOf(f: Field, tag: nat)
    requires LegalKey(f.key, tag, WireOf(f))
    ensures Tag(f) == tag
  {
    hide Varint.Spelled, Varint.Value;
  }

  /** A field of a legal key and this body, read from `pos` to `end`. */
  ghost predicate Stands(buf: Bytes, pos: nat, f: Field, key: Bytes, tag: nat, end: nat) {
    f.key == key && LegalKey(key, tag, WireOf(f)) && Legal(f) && Tag(f) == tag
    && At(buf, pos, Body(f)) && pos + |Body(f)| == end
  }

  lemma TakenAt(buf: Bytes, pos: nat, length: nat)
    requires Take(buf, pos, length).Some?
    ensures pos + length <= |buf| && At(buf, pos, buf[pos..pos + length]) && |buf[pos..pos + length]| == length
  {
  }

  /** Whatever is skipped under a key is a legal field with that key, nested within the depth. */
  lemma {:induction false} SkippedIsField(buf: Bytes, pos: nat, key: Bytes, k: Key, depth: nat) returns (f: Field)
    requires pos <= |buf| && LegalKey(key, k.tag, k.wire) && SkipField(buf, pos, k, depth).Some?
    ensures Stands(buf, pos, f, key, k.tag, SkipField(buf, pos, k, depth).value)
    ensures WireOf(f) == k.wire && Depth(f) <= depth
    decreases depth, 0
  {
    hide At, LegalKey, SkipGroup, Varint.Read, Varint.Spelled, Varint.Fits, Varint.Value;
    if k.wire == 0 {
      Varint.ReadIsSpelled(buf, pos);
      f := Number(key, buf[pos..Varint.Read(buf, pos).pos]);
    } else if k.wire == 2 {
      Varint.ReadIsSpelled(buf, pos);
      var length := Varint.Read(buf, pos);
      TakenAt(buf, length.pos, length.value);
      f := Chunk(key, buf[pos..length.pos], buf[length.pos..length.pos + length.value]);
      AtJoin(buf, pos, f.length, f.bytes);
    } else if k.wire == 1 {
      TakenAt(buf, pos, 8);
      f := Fixed64(key, buf[pos..pos + 8]);
    } else if k.wire == 5 {
      TakenAt(buf, pos, 4);
      f := Fixed32(key, buf[pos..pos + 4]);
    } else {
      var fields, end := SkippedIsGroup(buf, pos, k.tag, depth - 1);
      f := Group(key, fields, end);
    }
    TagOf(f, k.tag);
  }

  lemma {:induction false} SkippedIsGroup(buf: Bytes, pos: nat, tag: nat, inner: nat)
    returns (fields: Fields, end: Bytes)
    requires pos <= |buf| && SkipGroup(buf, pos, tag, inner).Some?
    ensures AllLegal(fields) && LegalKey(end, tag, 4) && Deepest(fields) <= inner
    ensures At(buf, pos, Print(fields) + end) && pos + |Print(fields) + end| == SkipGroup(buf, pos, tag, inner).value
    decreases inner, 1, |buf| - pos
  {
    hide At, LegalKey, SkipGroup, SkipField, ReadKey, Legal, Tag, Body, Depth;
    SkipGroupStep(buf, pos, tag, inner);
    KeyIsLegal(buf, pos);
    var k := ReadKey(buf, pos);
    var key := buf[pos..k.pos];
    if k.value.wire == 4 {
      fields, end := NoFields, key;
      assert Print(fields) + end == end;
    } else {
      var f := SkippedIsField(buf, k.pos, key, k.value, inner);
      var next := SkipField(buf, k.pos, k.value, inner).value;
      var rest;
      rest, end := SkippedIsGroup(buf, next, tag, inner);
      fields := Fields(f, rest);
      AtJoin(buf, k.pos, Body(f), Print(rest) + end);
      AtJoin(buf, pos, key, Body(f) + (Print(rest) + end));
      FieldText(f, rest, end);
    }
  }

  /** Whatever has a value is the print of legal fields that mean it. */
  lemma {:induction false} ValueIsPrinted(buf: Bytes, pos: nat, value: string) returns (fs: Fields)
    requires pos <= |buf| && ValueFrom(buf, pos, value).Some?
    ensures AllLegal(fs) && Print(fs) == buf[pos..] && Meaning(fs, value) == ValueFrom(buf, pos, value)
    decreases |buf| - pos
  {
    hide At, LegalKey, SkipField, ReadKey, ValueFrom, Legal, Tag, Body, Depth, Utf8.Decode, Varint.Read;
    ValueStep(buf, pos, value);
    if pos == |buf| {
      fs := NoFields;
    } else {
      KeyIsLegal(buf, pos);
      var k := ReadKey(buf, pos);
      var key := buf[pos..k.pos];
      if k.value.tag != 1 {
        var f := SkippedIsField(buf, k.pos, key, k.value, RECURSION_LIMIT);
        var next := SkipField(buf, k.pos, k.value, RECURSION_LIMIT).value;
        var rest := ValueIsPrinted(buf, next, value);
        fs := Fields(f, rest);
        Assembled(buf, pos, k.pos, next, f, rest);
      } else {
        var f, next := ChunkIsField(buf, k.pos, key);
        var rest := ValueIsPrinted(buf, next, Utf8.Decode(f.bytes).value);
        fs := Fields(f, rest);
        Assembled(buf, pos, k.pos, next, f, rest);
      }
    }
  }

  lemma ChunkIsField(buf: Bytes, pos: nat, key: Bytes) returns (f: Field, end: nat)
    requires pos <= |buf| && LegalKey(key, 1, 2) && ChunkValue(buf, pos).Some?
    ensures Stands(buf, pos, f, key, 1, end) && pos <= end <= |buf| && f.Chunk?
    ensures Utf8.Decode(f.bytes).Some? && ChunkValue(buf, pos) == ValueFrom(buf, end, Utf8.Decode(f.bytes).value)
  {
    hide At, LegalKey, ValueFrom, Utf8.Decode, Varint.Read, Varint.Spelled, Varint.Fits, Varint.Value;
    Varint.ReadIsSpelled(buf, pos);
    var length := Varint.Read(buf, pos);
    TakenAt(buf, length.pos, length.value);
    end := length.pos + length.value;
    f := Chunk(key, buf[pos..length.pos], buf[length.pos..end]);
    AtJoin(buf, pos, f.length, f.bytes);
    TagOf(f, 1);
  }

  lemma Assembled(buf: Bytes, pos: nat, at: nat, next: nat, f: Field, rest: Fields)
    requires pos <= at <= next <= |buf| && f.key == buf[pos..at] && At(buf, at, Body(f)) && at + |Body(f)| == next
    requires Print(rest) == buf[next..]
    ensures Print(Fields(f, rest)) == buf[pos..]
  {
    hide Body;
    assert buf[pos..] == buf[pos..at] + (buf[at..next] + buf[next..]);
  }

  /** The bytes print some legal fields, groups nested and varints spelled at will, that mean `v`. */
  ghost predicate ProtoSays(buf: Bytes, v: string) {
    exists fs :: AllLegal(fs) && Print(fs) == buf && Meaning(fs, "") == Some(v)
  }

  /** The reader's language: bytes have the value `v` exactly when they say it. */
  lemma ProtoIff(buf: Bytes, v: string)
    ensures ProtoValue(buf) == Some(v) <==> ProtoSays(buf, v)
  {
    hide ValueFrom, AllLegal, Meaning, Print;
    if ProtoValue(buf) == Some(v) {
      var fs := ValueIsPrinted(buf, 0, "");
      assert buf[0..] == buf;
    }
    forall fs | AllLegal(fs) && Print(fs) == buf && Meaning(fs, "") == Some(v)
      ensures ProtoValue(buf) == Some(v)
    {
      ProtoMeans(fs);
    }
  }

  /** A message of any legal fields reads as it means, refusals included. */
  lemma ProtoMeans(fs: Fields)
    requires AllLegal(fs)
    ensures ProtoValue(Print(fs)) == Meaning(fs, "")
  {
    AtWhole(Print(fs));
    FieldsRead(Print(fs), 0, fs, "");
  }
}
