/**
  The bytes of a message determine its records: a record says where it ends, and
  the records of one field are the run of records with that field's number.
 */
module WireRecords {
  import opened Basics
  import Varint
  import opened Wire

  predicate BodyOk(b: Body) {
    match b
    case Eight(bytes) => |bytes| == 8
    case Four(bytes) => |bytes| == 4
    case _ => true
  }

  predicate RecordsOk(rs: seq<Record>) { forall i | 0 <= i < |rs| :: BodyOk(rs[i].body) }

  lemma {:induction false} TagDelimits(m: nat, v: nat, x: Bytes, n: nat, w: nat, y: Bytes)
    requires Tag(m, v) + x == Tag(n, w) + y && v < 8 && w < 8
    ensures m == n && v == w && x == y
  {
    Varint.WriteSelfDelimiting(m * 8 + v, x, n * 8 + w, y);
  }

  lemma Cut(a: Bytes, x: Bytes, b: Bytes, y: Bytes)
    requires a + x == b + y && |a| == |b|
    ensures a == b && x == y
  {
    assert a == (a + x)[..|a|] && x == (a + x)[|a|..];
    assert b == (b + y)[..|b|] && y == (b + y)[|b|..];
  }

  lemma Regroup(a: Bytes, b: Bytes, c: Bytes)
    ensures (a + b) + c == a + (b + c)
  {
  }

  /** Bodies of one wire type say where they end. */
  lemma BodyDelimits(b: Body, x: Bytes, c: Body, y: Bytes)
    requires WireType(b) == WireType(c) && BodyOk(b) && BodyOk(c)
    requires BodyBytes(b) + x == BodyBytes(c) + y
    ensures b == c && x == y
  {
    hide Varint.Write;
    match b {
      case Number(n) => Varint.WriteSelfDelimiting(n, x, c.n, y);
      case Eight(bytes) => Cut(bytes, x, c.bytes, y);
      case Four(bytes) => Cut(bytes, x, c.bytes, y);
      case Chunk(bytes) =>
        Regroup(Varint.Write(|bytes|), bytes, x);
        Regroup(Varint.Write(|c.bytes|), c.bytes, y);
        Varint.WriteSelfDelimiting(|bytes|, bytes + x, |c.bytes|, c.bytes + y);
        Cut(bytes, x, c.bytes, y);
    }
  }

  lemma WireTypeSmall(b: Body)
    ensures WireType(b) < 8
  {
  }

  lemma RecordDelimits(r: Record, x: Bytes, q: Record, y: Bytes)
    requires BodyOk(r.body) && BodyOk(q.body) && RecordBytes(r) + x == RecordBytes(q) + y
    ensures r == q && x == y
  {
    hide Tag, BodyBytes, WireType, BodyOk;
    Regroup(Tag(r.number, WireType(r.body)), BodyBytes(r.body), x);
    Regroup(Tag(q.number, WireType(q.body)), BodyBytes(q.body), y);
    WireTypeSmall(r.body);
    WireTypeSmall(q.body);
    TagDelimits(r.number, WireType(r.body), BodyBytes(r.body) + x, q.number, WireType(q.body), BodyBytes(q.body) + y);
    BodyDelimits(r.body, x, q.body, y);
  }

  lemma RecordNotEmpty(r: Record)
    ensures RecordBytes(r) != []
  {
  }

  lemma {:induction false} FlattenInjective(rs: seq<Record>, qs: seq<Record>)
    requires RecordsOk(rs) && RecordsOk(qs) && Flatten(rs) == Flatten(qs)
    ensures rs == qs
    decreases |rs|
  {
    hide RecordBytes, BodyOk;
    if rs != [] {
      RecordNotEmpty(rs[0]);
    }
    if qs != [] {
      RecordNotEmpty(qs[0]);
    }
    if rs != [] && qs != [] {
      RecordDelimits(rs[0], Flatten(rs[1..]), qs[0], Flatten(qs[1..]));
      FlattenInjective(rs[1..], qs[1..]);
      assert rs == [rs[0]] + rs[1..] && qs == [qs[0]] + qs[1..];
    }
  }

  lemma {:induction false} FlattenConcat(rs: seq<Record>, qs: seq<Record>)
    ensures Flatten(rs + qs) == Flatten(rs) + Flatten(qs)
    decreases |rs|
  {
    hide RecordBytes;
    if rs == [] {
      assert rs + qs == qs;
    } else {
      assert (rs + qs)[1..] == rs[1..] + qs;
      FlattenConcat(rs[1..], qs);
    }
  }

  // ----- runs of one number

  predicate AllNumbered(rs: seq<Record>, number: nat) { forall i | 0 <= i < |rs| :: rs[i].number == number }

  predicate AllAbove(rs: seq<Record>, number: nat) { forall i | 0 <= i < |rs| :: rs[i].number > number }

  /** The first field's records are the longest run with its number. */
  lemma RunsUnique(a: seq<Record>, x: seq<Record>, m: nat, b: seq<Record>, y: seq<Record>, n: nat)
    requires a + x == b + y && a != [] && b != []
    requires AllNumbered(a, m) && AllNumbered(b, n) && AllAbove(x, m) && AllAbove(y, n)
    ensures m == n && a == b && x == y
  {
    var all := a + x;
    assert all[0] == a[0] && (b + y)[0] == b[0];
    if |a| < |b| {
      NextAfter(a, x, b, y);
    } else if |b| < |a| {
      NextAfter(b, y, a, x);
    }
    assert a == all[..|a|] && x == all[|a|..];
    assert b == all[..|b|] && y == all[|b|..];
  }

  lemma NextAfter(a: seq<Record>, x: seq<Record>, b: seq<Record>, y: seq<Record>)
    requires a + x == b + y && |a| < |b|
    ensures x != [] && x[0] == b[|a|]
  {
    assert (a + x)[|a|] == (b + y)[|a|];
  }
}
