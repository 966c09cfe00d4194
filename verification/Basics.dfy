/**
  Vocabulary shared by the whole model: optional values, bytes, and what it
  means for one sequence to stand at a position of another.
 */
module Basics {
  datatype Option<+T> = None | Some(value: T) {
    predicate IsFailure() { None? }

    function PropagateFailure<U>(): Option<U>
      requires None?
    { None }

    function Extract(): T
      requires Some?
    { value }
  }

  /** A value read from a text or buffer and the position after it. */
  datatype Parse<+T> = Malformed | Parsed(value: T, pos: nat) {
    predicate IsFailure() { Malformed? }

    function PropagateFailure<U>(): Parse<U>
      requires Malformed?
    { Malformed }

    function Extract(): (T, nat)
      requires Parsed?
    { (value, pos) }
  }

  predicate IsDigit(c: char) { '0' <= c <= '9' }

  predicate AllDigits(s: string) { forall i | 0 <= i < |s| :: IsDigit(s[i]) }

  type Byte = b: int | 0 <= b < 256
  type Bytes = seq<Byte>

  /** `part` stands in `whole` at position `pos`. */
  ghost predicate At<T>(whole: seq<T>, pos: int, part: seq<T>) {
    0 <= pos && pos + |part| <= |whole| && whole[pos..pos + |part|] == part
  }

  lemma AtIndex<T>(whole: seq<T>, pos: int, part: seq<T>, i: int)
    requires At(whole, pos, part) && 0 <= i < |part|
    ensures 0 <= pos + i < |whole| && whole[pos + i] == part[i]
  {
    assert whole[pos..pos + |part|][i] == whole[pos + i];
  }

  lemma AtSplit<T>(whole: seq<T>, pos: int, a: seq<T>, b: seq<T>)
    requires At(whole, pos, a + b)
    ensures At(whole, pos, a) && At(whole, pos + |a|, b) && pos + |a + b| <= |whole|
  {
    var w := whole[pos..pos + |a + b|];
    assert whole[pos..pos + |a|] == w[..|a|] == a;
    assert whole[pos + |a|..pos + |a| + |b|] == w[|a|..] == b;
  }

  lemma AtJoin<T>(whole: seq<T>, pos: int, a: seq<T>, b: seq<T>)
    requires At(whole, pos, a) && At(whole, pos + |a|, b)
    ensures At(whole, pos, a + b)
  {
    assert whole[pos..pos + |a + b|] == whole[pos..pos + |a|] + whole[pos + |a|..pos + |a| + |b|];
  }

  lemma AtOne<T>(whole: seq<T>, pos: nat)
    requires pos < |whole|
    ensures At(whole, pos, [whole[pos]])
  {
  }

  lemma AtWhole<T>(whole: seq<T>)
    ensures At(whole, 0, whole)
  {
  }

  lemma SubsetSize<T>(a: set<T>, b: set<T>)
    requires a <= b
    ensures |a| <= |b| && |b - a| == |b| - |a|
  {
    assert b == a + (b - a);
    assert a * (b - a) == {};
  }
}
