/**
  The canonical JSON printer of receipt.py (RFC 8785): member names in UTF-16
  code-unit order, safe integers only. Its output determines the value as a
  tree of maps, and depends on nothing else.
 */
module Jcs {
  import opened Basics
  import opened JsonEscape
  import Decimal
  import opened CodeUnits
  import opened Sorting

  /** A Python value; `Dict` keeps insertion order, `Other` is anything JCS refuses. */
  datatype Value =
    | Null
    | Bool(b: bool)
    | Int(i: int)
    | Text(s: string)
    | List(items: seq<Value>)
    | Dict(entries: seq<(string, Value)>)
    | Other

  const MAX_SAFE_INTEGER := 0x1F_FFFF_FFFF_FFFF

  // ----- UTF-16

  /** `s.encode("utf-16-be")` of code units. */
  function BigEndian(units: seq<int>): seq<int> {
    if units == [] then [] else [units[0] / 256, units[0] % 256] + BigEndian(units[1..])
  }

  function Utf16(s: string): seq<int> { BigEndian(Units(s)) }

  /** Comparing the big-endian bytes is comparing the code units (section 3.2.3 of RFC 8785). */
  lemma {:induction false} ByteOrderIsUnitOrder(a: seq<int>, b: seq<int>)
    requires forall i | 0 <= i < |a| :: 0 <= a[i] < 0x10000
    requires forall i | 0 <= i < |b| :: 0 <= b[i] < 0x10000
    ensures Less(BigEndian(a), BigEndian(b)) <==> Less(a, b)
  {
    if a != [] && b != [] {
      var u, v := BigEndian(a), BigEndian(b);
      assert u[1..] == [a[0] % 256] + BigEndian(a[1..]) && v[1..] == [b[0] % 256] + BigEndian(b[1..]);
      assert u[1..][1..] == BigEndian(a[1..]) && v[1..][1..] == BigEndian(b[1..]);
      ByteOrderIsUnitOrder(a[1..], b[1..]);
      assert Less(u, v) <==> a[0] / 256 < b[0] / 256 || (a[0] / 256 == b[0] / 256 && Less(u[1..], v[1..]));
    }
  }

  lemma {:induction false} BigEndianInjective(a: seq<int>, b: seq<int>)
    requires BigEndian(a) == BigEndian(b)
    requires forall i | 0 <= i < |a| :: 0 <= a[i] < 0x10000
    requires forall i | 0 <= i < |b| :: 0 <= b[i] < 0x10000
    ensures a == b
  {
    if a != [] && b != [] {
      var u, v := BigEndian(a), BigEndian(b);
      assert u[0] == a[0] / 256 && v[0] == b[0] / 256 && u[1] == a[0] % 256 && v[1] == b[0] % 256;
      assert u[2..] == BigEndian(a[1..]) && v[2..] == BigEndian(b[1..]);
      BigEndianInjective(a[1..], b[1..]);
      assert a == [a[0]] + a[1..] && b == [b[0]] + b[1..];
    }
  }

  lemma Utf16Injective(s: string, t: string)
    requires Utf16(s) == Utf16(t)
    ensures s == t
  {
    UnitsBounded(s);
    UnitsBounded(t);
    BigEndianInjective(Units(s), Units(t));
    UnitsInjective(s, t);
  }

  /** Sorting member names as the printer does puts them in code-unit order. */
  lemma NameOrder(s: string, t: string)
    ensures Less(Utf16(s), Utf16(t)) <==> Less(Units(s), Units(t))
  {
    UnitsBounded(s);
    UnitsBounded(t);
    ByteOrderIsUnitOrder(Units(s), Units(t));
  }

  // ----- printing

  /** `",".join(parts)`. */
  function Join(parts: seq<string>): string {
    if parts == [] then ""
    else if |parts| == 1 then parts[0]
    else parts[0] + ("," + Join(parts[1..]))
  }

  function EntryKey(e: (string, Value)): seq<int> { Utf16(e.0) }

  function SortEntries(entries: seq<(string, Value)>): (r: seq<(string, Value)>)
    ensures |r| == |entries|
    ensures forall e :: e in r <==> e in entries
  {
    Sort(entries, EntryKey)
  }

  function Print(v: Value): Option<string>
    decreases v
  {
    match v
    case Null => Some("null")
    case Bool(b) => Some(if b then "true" else "false")
    case Int(i) => if -MAX_SAFE_INTEGER <= i <= MAX_SAFE_INTEGER then Some(Decimal.OfInt(i)) else None
    case Text(s) => Some(EscapeString(s))
    case List(items) =>
      var parts :- PrintAll(items);
      Some("[" + (Join(parts) + "]"))
    case Dict(entries) =>
      var parts :- PrintEntries(SortEntries(entries), v);
      Some("{" + (Join(parts) + "}"))
    case Other => None
  }

  function PrintAll(items: seq<Value>): (r: Option<seq<string>>)
    ensures r.Some? ==> |r.value| == |items|
    decreases items
  {
    if items == [] then Some([])
    else
      var first :- Print(items[0]);
      var rest :- PrintAll(items[1..]);
      Some([first] + rest)
  }

  function PrintEntries(entries: seq<(string, Value)>, ghost parent: Value): (r: Option<seq<string>>)
    requires forall e | e in entries :: e.1 < parent
    ensures r.Some? ==> |r.value| == |entries|
    decreases parent, |entries|
  {
    if entries == [] then Some([])
    else
      assert entries[0] in entries;
      var first :- Print(entries[0].1);
      var rest :- PrintEntries(entries[1..], parent);
      Some([EscapeString(entries[0].0) + (":" + first)] + rest)
  }

  // ----- trees of maps

  /** Dicts have each key once. */
  predicate Wf(v: Value) {
    match v
    case List(items) => forall i | 0 <= i < |items| :: Wf(items[i])
    case Dict(entries) =>
      && (forall i, j | 0 <= i < j < |entries| :: entries[i].0 != entries[j].0)
      && (forall i | 0 <= i < |entries| :: Wf(entries[i].1))
    case _ => true
  }

  /** The same value once dicts are taken as maps. */
  ghost predicate Same(a: Value, b: Value)
    decreases a, 0
  {
    match a
    case List(items) =>
      b.List? && |items| == |b.items| && forall i | 0 <= i < |items| :: Same(items[i], b.items[i])
    case Dict(entries) =>
      && b.Dict?
      && (forall e | e in entries :: Paired(e.0, e.1, b.entries))
      && (forall f | f in b.entries :: HasName(f.0, entries))
    case _ => a == b
  }

  ghost predicate Paired(name: string, v: Value, entries: seq<(string, Value)>)
    decreases v, 1
  {
    exists f :: f in entries && f.0 == name && Same(v, f.1)
  }
}
