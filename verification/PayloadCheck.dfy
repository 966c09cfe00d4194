/**
  `_check_varints` and `_scan` of canonical_json.py: the walk over a payload's
  bytes that refuses overlong varints and nesting beyond 100 levels.
 */
module PayloadCheck {
  import opened Basics
  import Varint
  import opened Wire

  const MAX_DEPTH: nat := 100

  // ----- what the walk knows of a field

  predicate IsMessageField(f: Field) { f.shape.Mapped? || f.kind.MessageKind? }

  /** The descriptor of a field's message; a map entry has its key as field 1 and its value as field 2. */
  function SubDesc(schema: Schema, f: Field): Desc {
    if f.shape.Mapped? then map[1 := Field(Singular, f.shape.key), 2 := Field(Singular, f.kind)]
    else if f.kind.MessageKind? && f.kind.name in schema then schema[f.kind.name]
    else map[]
  }

  predicate IsPacked(f: Field) { f.shape.Repeated? && IsVarint(f.kind) }

  /** The varints of a packed chunk from `at` on. */
  predicate PackedOk(chunk: Bytes, at: nat)
    requires at <= |chunk|
    decreases |chunk| - at
  {
    if at == |chunk| then true
    else
      var v := Varint.Check(chunk, at);
      v.Scanned? && PackedOk(chunk, v.pos)
  }

  /** `data[pos : pos + length]`, clipped as Python slices are. */
  function Slice(data: Bytes, pos: nat, length: nat): (r: Bytes)
    requires pos <= |data|
    ensures |r| <= |data| - pos
  {
    if pos + length <= |data| then data[pos..pos + length] else data[pos..]
  }

  function Clip(data: Bytes, pos: nat): (r: nat)
    ensures r == if pos <= |data| then pos else |data|
  {
    if pos <= |data| then pos else |data|
  }

  /** Whether the payload passes: the message is at level `depth + 1`. */
  predicate Accepts(schema: Schema, data: Bytes, desc: Desc, depth: nat)
    decreases |data|, |data| + 1
  {
    depth < MAX_DEPTH && Scan(schema, data, 0, desc, None, depth).Some?
  }

  /** The end of the fields from `pos` on, inside the group `group` if there is one. */
  function Scan(schema: Schema, data: Bytes, pos: nat, desc: Desc, group: Option<nat>, depth: nat): (r: Option<nat>)
    requires pos <= |data|
    ensures r.Some? ==> pos <= r.value <= |data|
    decreases |data|, |data| - pos
  {
    if pos == |data| then Some(pos)
    else
      var tag := Varint.Check(data, pos);
      if tag.DecodeError? then None
      else
        var number, wire := tag.value / 8, tag.value % 8;
        if wire == 0 then
          var v := Varint.Check(data, tag.pos);
          if v.DecodeError? then None else Scan(schema, data, v.pos, desc, group, depth)
        else if wire == 1 then Scan(schema, data, Clip(data, tag.pos + 8), desc, group, depth)
        else if wire == 5 then Scan(schema, data, Clip(data, tag.pos + 4), desc, group, depth)
        else if wire == 2 then
          var length := Varint.Check(data, tag.pos);
          if length.DecodeError? then None
          else
            var chunk := Slice(data, length.pos, length.value);
            if number in desc && IsMessageField(desc[number])
              && !Accepts(schema, chunk, SubDesc(schema, desc[number]), depth + 1)
            then None
            else if number in desc && !IsMessageField(desc[number]) && IsPacked(desc[number]) && !PackedOk(chunk, 0)
            then None
            else Scan(schema, data, Clip(data, length.pos + length.value), desc, group, depth)
        else if wire == 3 then
          if depth + 1 >= MAX_DEPTH then None
          else
            var end :- Scan(schema, data, tag.pos, map[], Some(number), depth + 1);
            Scan(schema, data, end, desc, group, depth)
        else if wire == 4 && group == Some(number) then Some(tag.pos)
        else Some(|data|)
  }

  // ----- the walk by wire type, once the tag is read

  ghost predicate Tagged(data: Bytes, pos: nat, wire: nat, tag: nat, at: nat) {
    pos < at <= |data| && Varint.Check(data, pos) == Varint.Scanned(tag, at) && tag % 8 == wire
  }

  lemma ScanNumber(schema: Schema, data: Bytes, pos: nat, tag: nat, at: nat, desc: Desc, group: Option<nat>, depth: nat)
    requires Tagged(data, pos, 0, tag, at)
    ensures var v := Varint.Check(data, at);
      Scan(schema, data, pos, desc, group, depth) ==
        if v.DecodeError? then None else Scan(schema, data, v.pos, desc, group, depth)
  {
    hide Varint.Check, Accepts, PackedOk, Slice, Clip, SubDesc, IsMessageField, IsPacked;
  }

  lemma ScanFixed(schema: Schema, data: Bytes, pos: nat, tag: nat, at: nat, desc: Desc, group: Option<nat>, depth: nat)
    requires Tagged(data, pos, 1, tag, at) || Tagged(data, pos, 5, tag, at)
    ensures var width := if tag % 8 == 1 then 8 else 4;
      Scan(schema, data, pos, desc, group, depth) == Scan(schema, data, Clip(data, at + width), desc, group, depth)
  {
    hide Varint.Check, Accepts, PackedOk, Slice, Clip, SubDesc, IsMessageField, IsPacked;
  }

  /** A chunk passes as a submessage, as packed varints, or as bytes that are not looked at. */
  predicate ChunkPasses(schema: Schema, desc: Desc, number: nat, chunk: Bytes, depth: nat) {
    if number !in desc then true
    else if IsMessageField(desc[number]) then Accepts(schema, chunk, SubDesc(schema, desc[number]), depth + 1)
    else IsPacked(desc[number]) ==> PackedOk(chunk, 0)
  }

  lemma ScanChunk(schema: Schema, data: Bytes, pos: nat, tag: nat, at: nat, desc: Desc, group: Option<nat>, depth: nat)
    requires Tagged(data, pos, 2, tag, at)
    ensures var length := Varint.Check(data, at);
      Scan(schema, data, pos, desc, group, depth) ==
        if length.DecodeError? then None
        else if !ChunkPasses(schema, desc, tag / 8, Slice(data, length.pos, length.value), depth) then None
        else Scan(schema, data, Clip(data, length.pos + length.value), desc, group, depth)
  {
    hide Varint.Check, Accepts, PackedOk, Slice, Clip, SubDesc, IsMessageField, IsPacked;
  }

  lemma ScanGroup(schema: Schema, data: Bytes, pos: nat, tag: nat, at: nat, desc: Desc, group: Option<nat>, depth: nat)
    requires Tagged(data, pos, 3, tag, at)
    ensures var end := Scan(schema, data, at, map[], Some(tag / 8), depth + 1);
      Scan(schema, data, pos, desc, group, depth) ==
        if depth + 1 >= MAX_DEPTH || end.None? then None else Scan(schema, data, end.value, desc, group, depth)
  {
    hide Varint.Check, Accepts, PackedOk, Slice, Clip, SubDesc, IsMessageField, IsPacked;
  }

  lemma ScanStop(schema: Schema, data: Bytes, pos: nat, tag: nat, at: nat, desc: Desc, group: Option<nat>, depth: nat)
    requires Tagged(data, pos, 4, tag, at) || Tagged(data, pos, 6, tag, at) || Tagged(data, pos, 7, tag, at)
    ensures Scan(schema, data, pos, desc, group, depth) ==
      Some(if tag % 8 == 4 && group == Some(tag / 8) then at else |data|)
  {
    hide Varint.Check, Accepts, PackedOk, Slice, Clip, SubDesc, IsMessageField, IsPacked;
  }

  lemma ScanNothing(schema: Schema, data: Bytes, pos: nat, desc: Desc, group: Option<nat>, depth: nat)
    requires pos <= |data| && (pos == |data| || Varint.Check(data, pos).DecodeError?)
    ensures Scan(schema, data, pos, desc, group, depth) == if pos == |data| then Some(pos) else None
  {
    hide Varint.Check, Accepts, PackedOk, Slice, Clip, SubDesc, IsMessageField, IsPacked;
  }

  // ----- the loops

  method CheckPacked(chunk: Bytes) returns (ok: bool)
    ensures ok == PackedOk(chunk, 0)
  {
    var at := 0;
    while at < |chunk|
      invariant at <= |chunk| && PackedOk(chunk, 0) == PackedOk(chunk, at)
      decreases |chunk| - at
    {
      var v := Varint.CheckVarint(chunk, at);
      if v.DecodeError? {
        return false;
      }
      at := v.pos;
    }
    ok := true;
  }

  method CheckVarints(schema: Schema, data: Bytes, desc: Desc, depth: nat) returns (ok: bool)
    ensures ok == Accepts(schema, data, desc, depth)
    decreases |data|, |data| + 1
  {
    if depth >= MAX_DEPTH {
      return false;
    }
    var end := ScanFields(schema, data, 0, desc, None, depth);
    ok := end.Some?;
  }

  method ScanFields(schema: Schema, data: Bytes, start: nat, desc: Desc, group: Option<nat>, depth: nat)
    returns (r: Option<nat>)
    requires start <= |data|
    ensures r == Scan(schema, data, start, desc, group, depth)
    decreases |data|, |data| - start
  {
    hide PackedOk, Accepts, Varint.Check, Slice, IsMessageField, IsPacked, SubDesc, Scan;
    var pos, end := start, |data|;
    ghost var whole := Scan(schema, data, start, desc, group, depth);
    while pos < end
      invariant start <= pos && whole == Scan(schema, data, Clip(data, pos), desc, group, depth)
      decreases end - pos
    {
      var tag := Varint.CheckVarint(data, pos);
      if tag.DecodeError? {
        ScanNothing(schema, data, pos, desc, group, depth);
        return None;
      }
      var number, wire := tag.value / 8, tag.value % 8;
      ghost var at := pos;
      pos := tag.pos;
      if wire == 0 {
        ScanNumber(schema, data, at, tag.value, pos, desc, group, depth);
        var v := Varint.CheckVarint(data, pos);
        if v.DecodeError? {
          return None;
        }
        pos := v.pos;
      } else if wire == 1 {
        ScanFixed(schema, data, at, tag.value, pos, desc, group, depth);
        pos := pos + 8;
      } else if wire == 5 {
        ScanFixed(schema, data, at, tag.value, pos, desc, group, depth);
        pos := pos + 4;
      } else if wire == 2 {
        ScanChunk(schema, data, at, tag.value, pos, desc, group, depth);
        var length := Varint.CheckVarint(data, pos);
        if length.DecodeError? {
          return None;
        }
        var chunk := Slice(data, length.pos, length.value);
        pos := length.pos + length.value;
        if number in desc && IsMessageField(desc[number]) {
          var ok := CheckVarints(schema, chunk, SubDesc(schema, desc[number]), depth + 1);
          if !ok {
            return None;
          }
        } else if number in desc && IsPacked(desc[number]) {
          var ok := CheckPacked(chunk);
          if !ok {
            return None;
          }
        }
      } else if wire == 3 {
        ScanGroup(schema, data, at, tag.value, pos, desc, group, depth);
        if depth + 1 >= MAX_DEPTH {
          return None;
        }
        var inner := ScanFields(schema, data, pos, map[], Some(number), depth + 1);
        if inner.None? {
          return None;
        }
        pos := inner.value;
      } else {
        ScanStop(schema, data, at, tag.value, pos, desc, group, depth);
        if wire == 4 && group == Some(number) {
          return Some(pos);
        } else {
          return Some(end);
        }
      }
    }
    ScanNothing(schema, data, end, desc, group, depth);
    r := Some(end);
  }
}
