/**
  Base-128 varints: the writer (`_varint` in canonical_json.py, also inlined in
  `_canonical_proto`), prost's strict reader (`_varint` in multi_round.py) and
  the payload checker's reader (`_read_varint` in canonical_json.py).
  Shifts and masks of disjoint bit ranges are written as the sums they equal.
 */
module Varint {
  import opened Basics

  const U64: nat := 0x1_0000_0000_0000_0000

  // ----- writing

  function Write(n: nat): (r: Bytes)
    ensures |r| >= 1
  {
    if n > 0x7F then [n % 128 + 128] + Write(n / 128) else [n]
  }

  method WriteVarint(number: nat) returns (out: Bytes)
    ensures out == Write(number)
  {
    hide Write;
    out := [];
    var n := number;
    while n > 0x7F
      invariant out + Write(n) == Write(number)
    {
      WriteMore(out, n);
      out := out + [n % 128 + 128];
      n := n / 128;
    }
    WriteLast(n);
    out := out + [n];
  }

  lemma WriteMore(out: Bytes, n: nat)
    requires n > 0x7F
    ensures out + Write(n) == (out + [n % 128 + 128]) + Write(n / 128)
  {
  }

  lemma WriteLast(n: nat)
    requires n <= 0x7F
    ensures Write(n) == [n]
  {
  }

  /** What a varint whose first `count` bytes are already read may still hold. */
  function Room(count: nat): nat
    requires count <= 9
    decreases 9 - count
  {
    if count == 9 then 2 else 128 * Room(count + 1)
  }

  lemma RoomAtStart()
    ensures Room(0) == U64
  {
    assert Room(4) == 0x10_0000_0000;
    assert Room(0) == 0x1000_0000 * Room(4);
  }

  /** `byte & 0x7F`. */
  function Low7(b: Byte): nat { if b < 0x80 then b else b - 0x80 }

  // ----- any spelling of a number

  /** A whole varint: every byte but the last says that more follow. It may be longer than it need be. */
  predicate Spelled(s: Bytes) {
    s != [] && s[|s| - 1] < 0x80 && forall i | 0 <= i < |s| - 1 :: s[i] >= 0x80
  }

  function Value(s: Bytes): nat { if s == [] then 0 else Low7(s[0]) + 128 * Value(s[1..]) }

  /** At most ten bytes, for a number of 64 bits. */
  predicate Fits(s: Bytes) { |s| <= 10 && Value(s) < U64 }

  lemma SpelledTail(s: Bytes)
    requires Spelled(s)
    ensures |s| == 1 ==> s[0] < 0x80 && Value(s) == s[0]
    ensures |s| > 1 ==> s[0] >= 0x80 && Spelled(s[1..]) && Value(s) == Low7(s[0]) + 128 * Value(s[1..])
  {
  }

  lemma MoreSpells(b: Byte, rest: Bytes)
    requires b >= 0x80 && Spelled(rest)
    ensures Spelled([b] + rest) && Value([b] + rest) == b - 0x80 + 128 * Value(rest)
  {
    var s := [b] + rest;
    assert s[1..] == rest;
    assert forall i | 1 <= i < |s| :: s[i] == rest[i - 1];
  }

  lemma OneSpells(b: Byte)
    requires b < 0x80
    ensures Spelled([b]) && Value([b]) == b
  {
  }

  lemma {:induction false} WriteSpells(n: nat)
    ensures Spelled(Write(n)) && Value(Write(n)) == n
  {
    hide Spelled, Value;
    if n > 0x7F {
      WriteSpells(n / 128);
      MoreSpells(n % 128 + 128, Write(n / 128));
    } else {
      OneSpells(n);
    }
  }

  lemma {:induction false} WriteLength(n: nat, count: nat)
    requires count <= 9 && n < Room(count)
    ensures |Write(n)| <= 10 - count
    decreases 10 - count
  {
    if n > 0x7F && count < 9 {
      WriteLength(n / 128, count + 1);
    }
  }

  lemma WriteFits(n: nat)
    ensures Spelled(Write(n)) && Value(Write(n)) == n && (Fits(Write(n)) <==> n < U64)
  {
    WriteSpells(n);
    RoomAtStart();
    if n < U64 {
      WriteLength(n, 0);
    }
  }

  lemma {:induction false} RoomPositive(count: nat)
    requires count < 9
    ensures Room(count) >= 128
    decreases 9 - count
  {
    if count < 8 {
      RoomPositive(count + 1);
    }
  }

  // ----- prost's reader

  /** Reads on at `pos` after `count` bytes; the value counts from that byte. */
  function ReadFrom(buf: Bytes, pos: nat, count: nat): (r: Parse<nat>)
    requires count <= 10
    ensures r.Parsed? ==> pos < r.pos <= |buf|
    decreases 10 - count
  {
    if count == 10 || pos >= |buf| then Malformed
    else if buf[pos] < 0x80 then
      if count == 9 && buf[pos] >= 2 then Malformed else Parsed(buf[pos], pos + 1)
    else
      var (high, next) :- ReadFrom(buf, pos + 1, count + 1);
      Parsed(Low7(buf[pos]) + 128 * high, next)
  }

  function Read(buf: Bytes, pos: nat): (r: Parse<nat>)
    ensures r.Parsed? ==> pos < r.pos <= |buf|
  {
    ReadFrom(buf, pos, 0)
  }

  /** `x << (7 * count)`. */
  function Shift(x: nat, count: nat): nat
    decreases count
  {
    if count == 0 then x else Shift(128 * x, count - 1)
  }

  lemma ShiftNone(x: nat)
    ensures Shift(x, 0) == x
  {
  }

  lemma {:induction false} ShiftAdds(x: nat, y: nat, count: nat)
    ensures Shift(x + y, count) == Shift(x, count) + Shift(y, count)
    decreases count
  {
    if count > 0 {
      ShiftAdds(128 * x, 128 * y, count - 1);
    }
  }

  /** What reading on means after `count` bytes that already hold `value`. */
  function Resume(value: nat, count: nat, rest: Parse<nat>): Parse<nat> {
    if rest.Malformed? then Malformed else Parsed(value + Shift(rest.value, count), rest.pos)
  }

  lemma ReadUnfold(buf: Bytes, pos: nat, count: nat)
    requires pos < |buf| && count < 10 && !(count == 9 && 2 <= buf[pos] < 0x80)
    ensures ReadFrom(buf, pos, count) ==
      if buf[pos] < 0x80 then Parsed(Low7(buf[pos]), pos + 1)
      else
        var rest := ReadFrom(buf, pos + 1, count + 1);
        if rest.Malformed? then Malformed else Parsed(Low7(buf[pos]) + 128 * rest.value, rest.pos)
  {
  }

  lemma ShiftStep(x: nat, count: nat)
    ensures Shift(x, count + 1) == Shift(128 * x, count)
  {
  }

  lemma ReadStep(buf: Bytes, pos: nat, count: nat, value: nat)
    requires pos < |buf| && count < 10 && !(count == 9 && 2 <= buf[pos] < 0x80)
    ensures Resume(value, count, ReadFrom(buf, pos, count)) ==
      if buf[pos] < 0x80 then Parsed(value + Shift(Low7(buf[pos]), count), pos + 1)
      else Resume(value + Shift(Low7(buf[pos]), count), count + 1, ReadFrom(buf, pos + 1, count + 1))
  {
    hide ReadFrom, Shift, Low7;
    ReadUnfold(buf, pos, count);
    var rest := ReadFrom(buf, pos + 1, count + 1);
    if buf[pos] >= 0x80 && rest.Parsed? {
      ShiftAdds(Low7(buf[pos]), 128 * rest.value, count);
      ShiftStep(rest.value, count);
    }
  }

  method ReadVarint(buf: Bytes, start: nat) returns (r: Parse<nat>)
    ensures r == Read(buf, start)
  {
    hide Shift, Low7;
    var pos: nat, value: nat := start, 0;
    ghost var whole := Read(buf, start);
    ShiftNone(if whole.Parsed? then whole.value else 0);
    for count := 0 to 10
      invariant whole == Resume(value, count, ReadFrom(buf, pos, count))
    {
      if pos >= |buf| {
        return Malformed;
      }
      var b := buf[pos];
      if !(count == 9 && 2 <= b < 0x80) {
        ReadStep(buf, pos, count, value);
      }
      pos := pos + 1;
      value := value + Shift(Low7(b), count);
      if b < 0x80 {
        return if count == 9 && b >= 0x02 then Malformed else Parsed(value, pos);
      }
    }
    r := Malformed;
  }

  /** Once `count` bytes are read, a spelling is read exactly when it fits the bytes and bits left. */
  predicate FitsAfter(s: Bytes, count: nat)
    requires count <= 10
  {
    count + |s| <= 10 && (count < 10 ==> Value(s) < Room(count))
  }

  lemma FitsTail(s: Bytes, count: nat)
    requires Spelled(s) && |s| > 1 && count < 10
    ensures FitsAfter(s, count) <==> FitsAfter(s[1..], count + 1)
  {
    SpelledTail(s);
  }

  lemma FitsAtStart(s: Bytes)
    ensures FitsAfter(s, 0) <==> Fits(s)
  {
    RoomAtStart();
  }

  lemma {:induction false} ReadFromSpelled(buf: Bytes, pos: nat, s: Bytes, count: nat)
    requires At(buf, pos, s) && Spelled(s) && count <= 10
    ensures ReadFrom(buf, pos, count) == if FitsAfter(s, count) then Parsed(Value(s), pos + |s|) else Malformed
    decreases |s|
  {
    hide Room;
    AtIndex(buf, pos, s, 0);
    SpelledTail(s);
    if |s| > 1 {
      assert s == [s[0]] + s[1..];
      AtSplit(buf, pos, [s[0]], s[1..]);
      if count < 10 {
        FitsTail(s, count);
        ReadFromSpelled(buf, pos + 1, s[1..], count + 1);
      }
    } else if count < 9 {
      RoomPositive(count);
    } else if count == 9 {
      LastRoom();
    }
  }

  lemma LastRoom()
    ensures Room(9) == 2
  {
  }

  /** prost reads any spelling of a number, to its end, exactly when it fits 64 bits. */
  lemma ReadSpelled(buf: Bytes, pos: nat, s: Bytes)
    requires At(buf, pos, s) && Spelled(s)
    ensures Read(buf, pos) == if Fits(s) then Parsed(Value(s), pos + |s|) else Malformed
    ensures pos + |s| <= |buf|
  {
    FitsAtStart(s);
    ReadFromSpelled(buf, pos, s, 0);
  }

  /** And whatever it reads is such a spelling. */
  lemma {:induction false} ReadFromIsSpelled(buf: Bytes, pos: nat, count: nat)
    requires count <= 10 && ReadFrom(buf, pos, count).Parsed?
    ensures var r := ReadFrom(buf, pos, count); var s := buf[pos..r.pos];
      Spelled(s) && Value(s) == r.value && FitsAfter(s, count)
    decreases 10 - count
  {
    hide Room;
    var r := ReadFrom(buf, pos, count);
    var s := buf[pos..r.pos];
    if buf[pos] < 0x80 {
      assert s == [buf[pos]];
      SpelledTail(s);
      if count < 9 {
        RoomPositive(count);
      } else {
        LastRoom();
      }
    } else {
      ReadFromIsSpelled(buf, pos + 1, count + 1);
      assert s[1..] == buf[pos + 1..r.pos];
      assert forall i | 1 <= i < |s| :: s[i] == s[1..][i - 1];
      FitsTail(s, count);
    }
  }

  lemma ReadIsSpelled(buf: Bytes, pos: nat)
    requires Read(buf, pos).Parsed?
    ensures var r := Read(buf, pos); var s := buf[pos..r.pos];
      Spelled(s) && Value(s) == r.value && Fits(s) && At(buf, pos, s)
  {
    ReadFromIsSpelled(buf, pos, 0);
    FitsAtStart(buf[pos..Read(buf, pos).pos]);
  }

  /** prost reads back a written number exactly when it fits 64 bits. */
  lemma ReadWritten(buf: Bytes, pos: nat, n: nat)
    requires At(buf, pos, Write(n))
    ensures Read(buf, pos) == if n < U64 then Parsed(n, pos + |Write(n)|) else Malformed
  {
    WriteFits(n);
    ReadSpelled(buf, pos, Write(n));
  }

  // ----- the payload checker's reader

  datatype Scan<+T> = DecodeError | Scanned(value: T, pos: nat) {
    predicate IsFailure() { DecodeError? }

    function PropagateFailure<U>(): Scan<U>
      requires DecodeError?
    { DecodeError }

    function Extract(): (T, nat)
      requires Scanned?
    { (value, pos) }
  }

  /** A truncated varint is not an error here: reading stops at the end. */
  function CheckFrom(data: Bytes, pos: nat, index: nat): (r: Scan<nat>)
    requires index <= 10 && pos <= |data|
    ensures r.Scanned? ==> pos <= r.pos <= |data| && (pos < |data| ==> pos < r.pos)
    decreases 10 - index
  {
    if index == 10 then DecodeError
    else if pos >= |data| then Scanned(0, |data|)
    else if index == 9 && data[pos] > 1 then DecodeError
    else if data[pos] < 0x80 then Scanned(data[pos], pos + 1)
    else
      var (high, next) :- CheckFrom(data, pos + 1, index + 1);
      Scanned(Low7(data[pos]) + 128 * high, next)
  }

  function Check(data: Bytes, pos: nat): (r: Scan<nat>)
    requires pos <= |data|
    ensures r.Scanned? ==> pos <= r.pos <= |data| && (pos < |data| ==> pos < r.pos)
  {
    CheckFrom(data, pos, 0)
  }

  function ResumeScan(value: nat, index: nat, rest: Scan<nat>): Scan<nat> {
    if rest.DecodeError? then DecodeError else Scanned(value + Shift(rest.value, index), rest.pos)
  }

  lemma CheckTooLong(data: Bytes, pos: nat)
    requires pos <= |data|
    ensures CheckFrom(data, pos, 10) == DecodeError
  {
  }

  lemma {:induction false} ShiftZero(count: nat)
    ensures Shift(0, count) == 0
    decreases count
  {
    if count > 0 {
      ShiftZero(count - 1);
    }
  }

  lemma CheckStep(data: Bytes, pos: nat, index: nat, value: nat)
    requires pos <= |data| && index < 10
    ensures ResumeScan(value, index, CheckFrom(data, pos, index)) ==
      if pos == |data| then Scanned(value, |data|)
      else if index == 9 && data[pos] > 1 then DecodeError
      else if data[pos] < 0x80 then Scanned(value + Shift(Low7(data[pos]), index), pos + 1)
      else ResumeScan(value + Shift(Low7(data[pos]), index), index + 1, CheckFrom(data, pos + 1, index + 1))
  {
    ShiftZero(index);
    if pos < |data| && data[pos] >= 0x80 && CheckFrom(data, pos + 1, index + 1).Scanned? {
      ShiftAdds(Low7(data[pos]), 128 * CheckFrom(data, pos + 1, index + 1).value, index);
    }
  }

  method CheckVarint(data: Bytes, pos: nat) returns (r: Scan<nat>)
    requires pos <= |data|
    ensures r == Check(data, pos)
  {
    hide CheckFrom, Shift, Low7;
    var result: nat := 0;
    ghost var whole := Check(data, pos);
    ShiftNone(if whole.Scanned? then whole.value else 0);
    for index := 0 to 10
      invariant pos + index <= |data|
      invariant whole == ResumeScan(result, index, CheckFrom(data, pos + index, index))
    {
      CheckStep(data, pos + index, index, result);
      if pos + index >= |data| {
        return Scanned(result, |data|);
      }
      var b := data[pos + index];
      if index == 9 && b > 1 {
        return DecodeError;
      }
      result := result + Shift(Low7(b), index);
      if b < 0x80 {
        return Scanned(result, pos + index + 1);
      }
    }
    CheckTooLong(data, pos + 10);
    r := DecodeError;
  }

  lemma {:induction false} CheckFromSpelled(data: Bytes, pos: nat, s: Bytes, index: nat)
    requires At(data, pos, s) && Spelled(s) && index <= 10
    ensures CheckFrom(data, pos, index) == if FitsAfter(s, index) then Scanned(Value(s), pos + |s|) else DecodeError
    decreases |s|
  {
    hide Room;
    AtIndex(data, pos, s, 0);
    SpelledTail(s);
    if |s| > 1 {
      assert s == [s[0]] + s[1..];
      AtSplit(data, pos, [s[0]], s[1..]);
      if index < 9 {
        FitsTail(s, index);
        CheckFromSpelled(data, pos + 1, s[1..], index + 1);
      }
    } else if index < 9 {
      RoomPositive(index);
    } else if index == 9 {
      LastRoom();
    }
  }

  /** The checker passes over any spelling of a number exactly when it fits 64 bits. */
  lemma CheckSpelled(data: Bytes, pos: nat, s: Bytes)
    requires At(data, pos, s) && Spelled(s)
    ensures Check(data, pos) == if Fits(s) then Scanned(Value(s), pos + |s|) else DecodeError
    ensures pos + |s| <= |data|
  {
    FitsAtStart(s);
    CheckFromSpelled(data, pos, s, 0);
  }

  /** The two readers agree on every written number. */
  lemma CheckWritten(data: Bytes, pos: nat, n: nat)
    requires At(data, pos, Write(n))
    ensures Check(data, pos) == if n < U64 then Scanned(n, pos + |Write(n)|) else DecodeError
  {
    WriteFits(n);
    CheckSpelled(data, pos, Write(n));
  }

  /** The bytes end inside a varint of at most ten bytes: every byte left continues. */
  ghost predicate Truncated(buf: Bytes, pos: nat, count: nat) {
    pos <= |buf| && count + (|buf| - pos) < 10 && forall i | pos <= i < |buf| :: buf[i] >= 0x80
  }

  /** Where prost's reader fails on a whole varint the checker does; the two part exactly on a truncated one. */
  lemma {:induction false} ReadersAgree(buf: Bytes, pos: nat, count: nat)
    requires count <= 10 && pos <= |buf|
    ensures var strict, lenient := ReadFrom(buf, pos, count), CheckFrom(buf, pos, count);
      && (strict.Parsed? ==> lenient == Scanned(strict.value, strict.pos))
      && (strict.Malformed? ==> (lenient.Scanned? <==> Truncated(buf, pos, count)))
      && (Truncated(buf, pos, count) ==> strict.Malformed? && lenient.Scanned? && lenient.pos == |buf|)
    decreases 10 - count
  {
    hide Low7, ReadFrom, CheckFrom, Truncated;
    if count < 10 && pos < |buf| && buf[pos] >= 0x80 {
      ReadersAgree(buf, pos + 1, count + 1);
      TruncatedStep(buf, pos, count);
      BothContinue(buf, pos, count);
    } else {
      BothStop(buf, pos, count);
    }
  }

  lemma BothStop(buf: Bytes, pos: nat, count: nat)
    requires count <= 10 && pos <= |buf| && (count == 10 || pos == |buf| || buf[pos] < 0x80)
    ensures var strict, lenient := ReadFrom(buf, pos, count), CheckFrom(buf, pos, count);
      && (strict.Parsed? ==> lenient == Scanned(strict.value, strict.pos))
      && (strict.Malformed? ==> (lenient.Scanned? <==> Truncated(buf, pos, count)))
      && (Truncated(buf, pos, count) ==> strict.Malformed? && lenient.Scanned? && lenient.pos == |buf|)
  {
  }

  /** A byte that continues: both readers go on, except that the checker refuses it in the tenth place at once. */
  lemma BothContinue(buf: Bytes, pos: nat, count: nat)
    requires count < 10 && pos < |buf| && buf[pos] >= 0x80
    ensures ReadFrom(buf, pos, count) ==
      var rest := ReadFrom(buf, pos + 1, count + 1);
      if rest.Parsed? then Parsed(Low7(buf[pos]) + 128 * rest.value, rest.pos) else Malformed
    ensures CheckFrom(buf, pos, count) ==
      var rest := CheckFrom(buf, pos + 1, count + 1);
      if rest.Scanned? then Scanned(Low7(buf[pos]) + 128 * rest.value, rest.pos) else DecodeError
  {
    hide Low7;
  }

  lemma TruncatedStep(buf: Bytes, pos: nat, count: nat)
    requires pos < |buf| && buf[pos] >= 0x80
    ensures Truncated(buf, pos, count) <==> Truncated(buf, pos + 1, count + 1)
  {
  }

  // ----- a written number ends where it says it ends

  lemma {:induction false} WriteSelfDelimiting(m: nat, x: Bytes, n: nat, y: Bytes)
    requires Write(m) + x == Write(n) + y
    ensures m == n && x == y
  {
    assert (Write(m) + x)[0] == Write(m)[0] && (Write(n) + y)[0] == Write(n)[0];
    if m > 0x7F {
      assert (Write(m) + x)[1..] == Write(m / 128) + x;
      assert (Write(n) + y)[1..] == Write(n / 128) + y;
      WriteSelfDelimiting(m / 128, x, n / 128, y);
    } else {
      assert x == (Write(m) + x)[1..] == (Write(n) + y)[1..] == y;
    }
  }
}
