/** Scalars of one kind are written alike only if they are alike (floats up to which NaN). */
module WireScalars {
  import opened Basics
  import Utf8
  import Decimal
  import opened Wire

  function Pow256(width: nat): nat {
    if width == 0 then 1 else 256 * Pow256(width - 1)
  }

  lemma {:induction false} LittleEndianInjective(m: nat, n: nat, width: nat)
    requires m < Pow256(width) && n < Pow256(width) && LittleEndian(m, width) == LittleEndian(n, width)
    ensures m == n
    decreases width
  {
    if width > 0 {
      var a, b := LittleEndian(m, width), LittleEndian(n, width);
      assert a[0] == m % 256 && b[0] == n % 256;
      assert a[1..] == LittleEndian(m / 256, width - 1) && b[1..] == LittleEndian(n / 256, width - 1);
      LittleEndianInjective(m / 256, n / 256, width - 1);
    }
  }

  lemma Widths()
    ensures Pow256(4) == P32 && Pow256(8) == P64
  {
    assert Pow256(4) == 256 * 256 * 256 * 256;
    assert Pow256(8) == 256 * 256 * 256 * 256 * Pow256(4);
  }

  /** Equal, floats up to NaN bit patterns. */
  predicate SameScalar(a: Value, b: Value) {
    if a.Float? then b.Float? && Canonical32(a.bits) == Canonical32(b.bits)
    else if a.Double? then b.Double? && Canonical64(a.bits) == Canonical64(b.bits)
    else a == b
  }

  lemma NumbersInjective(schema: Schema, k: Kind, a: Value, b: Value)
    requires IsVarint(k) && ValueOk(schema, k, a) && ValueOk(schema, k, b)
    requires ScalarNumber(k, a) == ScalarNumber(k, b)
    ensures a == b
  {
  }

  lemma BitsBounded(schema: Schema, k: Kind, v: Value)
    requires (IsFixed32(k) || IsFixed64(k)) && ValueOk(schema, k, v)
    ensures FixedBits(v, if IsFixed32(k) then 4 else 8) < if IsFixed32(k) then P32 else P64
  {
  }

  lemma FixedInjective(schema: Schema, k: Kind, a: Value, b: Value)
    requires (IsFixed32(k) || IsFixed64(k)) && ValueOk(schema, k, a) && ValueOk(schema, k, b)
    requires var width := if IsFixed32(k) then 4 else 8;
      LittleEndian(FixedBits(a, width), width) == LittleEndian(FixedBits(b, width), width)
    ensures SameScalar(a, b)
  {
    hide FixedBits;
    var width := if IsFixed32(k) then 4 else 8;
    Widths();
    BitsBounded(schema, k, a);
    BitsBounded(schema, k, b);
    LittleEndianInjective(FixedBits(a, width), FixedBits(b, width), width);
    FixedBitsInjective(schema, k, a, b);
  }

  lemma FixedBitsInjective(schema: Schema, k: Kind, a: Value, b: Value)
    requires (IsFixed32(k) || IsFixed64(k)) && ValueOk(schema, k, a) && ValueOk(schema, k, b)
    requires var width := if IsFixed32(k) then 4 else 8; FixedBits(a, width) == FixedBits(b, width)
    ensures SameScalar(a, b)
  {
  }

  /** Scalars that are the same are written alike. */
  lemma SameScalarBody(schema: Schema, k: Kind, a: Value, b: Value)
    requires ValueOk(schema, k, a) && ValueOk(schema, k, b) && SameScalar(a, b)
    ensures BodyOf(schema, k, a) == BodyOf(schema, k, b)
  {
    hide LittleEndian, Utf8.Encode, Wire.Wire, ScalarNumber, MessageOk, Canonical32, Canonical64;
  }

  /** Keys of one kind are ordered apart. */
  lemma KeyTextInjective(schema: Schema, k: Kind, a: Value, b: Value)
    requires IsKey(k) && ValueOk(schema, k, a) && ValueOk(schema, k, b)
    requires Utf8.Encode(KeyText(a)) == Utf8.Encode(KeyText(b))
    ensures a == b
  {
    hide Utf8.Encode, Decimal.OfInt;
    Utf8.EncodeInjective(KeyText(a), KeyText(b));
    if a.Int? && b.Int? {
      Decimal.OfIntInjective(a.i, b.i);
    }
    assert |"true"| != |"false"|;
  }
}
