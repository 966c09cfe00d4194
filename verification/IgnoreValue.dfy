/**
  Skipping one JSON value: a recursive-descent reading of the grammar
  (sections 2 to 5 of RFC 8259) and the explicit-stack loop of
  multi_round.py, which computes the same thing without recursion.
 */
module IgnoreValue {
  import opened Basics
  import opened JsonText

  // ----- the recursive-descent reading

  const LITERALS := ["true", "false", "null"]

  predicate HasWord(text: string, pos: nat, word: string) {
    pos + |word| <= |text| && text[pos..pos + |word|] == word
  }

  function Literal(text: string, pos: nat): (r: Option<nat>)
    ensures r.Some? ==> pos < r.value <= |text|
  {
    if HasWord(text, pos, "true") then Some(pos + 4)
    else if HasWord(text, pos, "false") then Some(pos + 5)
    else if HasWord(text, pos, "null") then Some(pos + 4)
    else None
  }

  /** The end of the value that starts at `start`, whitespace before it included. */
  function ValueEnd(text: string, start: nat): (r: Option<nat>)
    requires start <= |text|
    ensures r.Some? ==> start < r.value <= |text|
    decreases |text| - start, 1
  {
    var pos := Ws(text, start);
    if StartsWith(text, pos, '[') then
      var first := Ws(text, pos + 1);
      if StartsWith(text, first, ']') then Some(first + 1)
      else
        var end :- ValueEnd(text, first);
        TailEnd(text, end, ']')
    else if StartsWith(text, pos, '{') then
      var first := Ws(text, pos + 1);
      if StartsWith(text, first, '}') then Some(first + 1)
      else
        var end :- MemberEnd(text, first);
        TailEnd(text, end, '}')
    else if StartsWith(text, pos, '"') then
      var (_, end) :- Ended(String(text, pos, false));
      Some(end)
    else if StartsWith(text, pos, '-') || (pos < |text| && IsDigit(text[pos])) then Number(text, pos)
    else Literal(text, pos)
  }

  function Ended<T>(p: Parse<T>): Option<(T, nat)> {
    if p.Malformed? then None else Some((p.value, p.pos))
  }

  /** The key of a member and the colon after it. */
  function KeyEnd(text: string, start: nat): (r: Option<nat>)
    ensures r.Some? ==> start < r.value <= |text|
  {
    var (_, end) :- Ended(String(text, start, false));
    Expect(text, Ws(text, end), ':')
  }

  function MemberEnd(text: string, start: nat): (r: Option<nat>)
    requires start <= |text|
    ensures r.Some? ==> start < r.value <= |text|
    decreases |text| - start, 0
  {
    var colon :- KeyEnd(text, start);
    ValueEnd(text, colon)
  }

  /** What follows an element or member up to and including the container's closer. */
  function TailEnd(text: string, start: nat, closer: char): (r: Option<nat>)
    requires start <= |text|
    ensures r.Some? ==> start < r.value <= |text|
    decreases |text| - start, 0
  {
    var pos := Ws(text, start);
    if StartsWith(text, pos, closer) then Some(pos + 1)
    else
      var next :- Expect(text, pos, ',');
      var end :- if closer == '}' then MemberEnd(text, Ws(text, next)) else ValueEnd(text, next);
      TailEnd(text, end, closer)
  }

  // ----- the explicit stack

  predicate IsCloser(c: char) { c == ']' || c == '}' }

  /** Closing every open container, innermost last in `closers`, from after a value. */
  function CloseAll(text: string, start: nat, closers: seq<char>): (r: Option<nat>)
    requires start <= |text|
    decreases |closers|
  {
    if closers == [] then Some(start)
    else
      var end :- TailEnd(text, start, closers[|closers| - 1]);
      CloseAll(text, end, closers[..|closers| - 1])
  }

  /** What is left to read when a value is due at `start` inside `closers`. */
  function Due(text: string, start: nat, closers: seq<char>): Option<nat>
    requires start <= |text|
  {
    var end :- ValueEnd(text, start);
    CloseAll(text, end, closers)
  }

  lemma WsIdempotent(text: string, start: nat)
    requires start <= |text|
    ensures Ws(text, Ws(text, start)) == Ws(text, start)
    decreases |text| - start
  {
    if start < |text| && IsWs(text[start]) {
      WsIdempotent(text, start + 1);
    }
  }

  /** A value may be asked for before or after the whitespace in front of it. */
  lemma ValueAfterWs(text: string, start: nat)
    requires start <= |text|
    ensures ValueEnd(text, Ws(text, start)) == ValueEnd(text, start)
  {
    hide Ws, IsWs, Number, Literal, String, Ended, MemberEnd, TailEnd;
    WsIdempotent(text, start);
  }

  lemma PopPush(closers: seq<char>, closer: char)
    ensures var all := closers + [closer]; all[|all| - 1] == closer && all[..|all| - 1] == closers
  {
  }

  /** Opening a non-empty array pushes a closer and makes its first element due. */
  lemma OpenArray(text: string, start: nat, closers: seq<char>)
    requires start <= |text|
    requires var pos := Ws(text, start); StartsWith(text, pos, '[') && !StartsWith(text, Ws(text, pos + 1), ']')
    ensures Due(text, Ws(text, Ws(text, start) + 1), closers + [']']) == Due(text, start, closers)
  {
    hide Ws, CloseAll;
    PopPush(closers, ']');
    var end := ValueEnd(text, Ws(text, Ws(text, start) + 1));
    if end.Some? {
      CloseAllStep(text, end.value, closers + [']']);
    }
  }

  lemma CloseAllStep(text: string, start: nat, closers: seq<char>)
    requires start <= |text| && closers != []
    ensures CloseAll(text, start, closers) ==
      var end := TailEnd(text, start, closers[|closers| - 1]);
      if end.None? then None else CloseAll(text, end.value, closers[..|closers| - 1])
  {
  }

  lemma ObjectEnd(text: string, start: nat)
    requires start <= |text|
    requires var pos := Ws(text, start); StartsWith(text, pos, '{') && !StartsWith(text, Ws(text, pos + 1), '}')
    ensures Ws(text, start) < |text|
    ensures var colon := KeyEnd(text, Ws(text, Ws(text, start) + 1));
      var end := if colon.None? then None else ValueEnd(text, colon.value);
      ValueEnd(text, start) == if end.None? then None else TailEnd(text, end.value, '}')
  {
    hide Ws, KeyEnd, TailEnd;
    var first := Ws(text, Ws(text, start) + 1);
    assert MemberEnd(text, first) ==
      if KeyEnd(text, first).None? then None else ValueEnd(text, KeyEnd(text, first).value);
  }

  lemma OpenObject(text: string, start: nat, closers: seq<char>)
    requires start <= |text|
    requires var pos := Ws(text, start); StartsWith(text, pos, '{') && !StartsWith(text, Ws(text, pos + 1), '}')
    ensures Due(text, start, closers) ==
      var colon := KeyEnd(text, Ws(text, Ws(text, start) + 1));
      if colon.None? then None else Due(text, colon.value, closers + ['}'])
  {
    hide Ws, CloseAll, KeyEnd, ValueEnd, MemberEnd, TailEnd;
    ObjectEnd(text, start);
    PopPush(closers, '}');
    var colon := KeyEnd(text, Ws(text, Ws(text, start) + 1));
    if colon.Some? {
      var end := ValueEnd(text, colon.value);
      if end.Some? {
        CloseAllStep(text, end.value, closers + ['}']);
      }
    }
  }

  /** No value and no key begins with a closer: the trailing-comma check costs nothing. */
  lemma NothingBeforeCloser(text: string, start: nat, closer: char)
    requires start <= |text| && StartsWith(text, Ws(text, start), closer) && (closer == ']' || closer == '}')
    ensures ValueEnd(text, start).None? && MemberEnd(text, Ws(text, start)).None?
  {
    var pos := Ws(text, start);
    NoWord(text, pos, "true");
    NoWord(text, pos, "false");
    NoWord(text, pos, "null");
  }

  lemma NoWord(text: string, pos: nat, word: string)
    requires pos < |text| && word != "" && text[pos] != word[0]
    ensures !HasWord(text, pos, word)
  {
  }

  function ThenTail(text: string, end: Option<nat>, closer: char): Option<nat>
    requires end.Some? ==> end.value <= |text|
  {
    if end.None? then None else TailEnd(text, end.value, closer)
  }

  lemma TailStep(text: string, start: nat, closer: char)
    requires start <= |text| && IsCloser(closer)
    ensures TailEnd(text, start, closer) ==
      var pos := Ws(text, start);
      if StartsWith(text, pos, closer) then Some(pos + 1)
      else if !StartsWith(text, pos, ',') then None
      else if StartsWith(text, Ws(text, pos + 1), closer) then None
      else if closer == ']' then ThenTail(text, ValueEnd(text, Ws(text, pos + 1)), closer)
      else
        var colon := KeyEnd(text, Ws(text, pos + 1));
        if colon.None? then None else ThenTail(text, ValueEnd(text, colon.value), closer)
  {
    hide Ws, KeyEnd, ValueEnd;
    var pos := Ws(text, start);
    if !StartsWith(text, pos, closer) && StartsWith(text, pos, ',') {
      ValueAfterWs(text, pos + 1);
      if StartsWith(text, Ws(text, pos + 1), closer) {
        NothingBeforeCloser(text, pos + 1, closer);
      }
    }
  }

  lemma CloseAfter(text: string, end: Option<nat>, closers: seq<char>)
    requires closers != [] && (end.Some? ==> end.value <= |text|)
    ensures (if end.None? then None else CloseAll(text, end.value, closers)) ==
      var tail := ThenTail(text, end, closers[|closers| - 1]);
      if tail.None? then None else CloseAll(text, tail.value, closers[..|closers| - 1])
  {
  }

  /** After a value: the innermost container closes here, or another element is due. */
  lemma NextOrClose(text: string, start: nat, closers: seq<char>)
    requires start <= |text| && closers != [] && IsCloser(closers[|closers| - 1])
    ensures CloseAll(text, start, closers) ==
      var closer, pos := closers[|closers| - 1], Ws(text, start);
      if StartsWith(text, pos, closer) then CloseAll(text, pos + 1, closers[..|closers| - 1])
      else if !StartsWith(text, pos, ',') then None
      else if StartsWith(text, Ws(text, pos + 1), closer) then None
      else if closer == ']' then Due(text, Ws(text, pos + 1), closers)
      else
        var colon := KeyEnd(text, Ws(text, pos + 1));
        if colon.None? then None else Due(text, colon.value, closers)
  {
    hide Ws, KeyEnd, ValueEnd, TailEnd, CloseAll, ThenTail;
    CloseAllStep(text, start, closers);
    var closer, pos := closers[|closers| - 1], Ws(text, start);
    TailStep(text, start, closer);
    if !StartsWith(text, pos, closer) && StartsWith(text, pos, ',') {
      var next := Ws(text, pos + 1);
      CloseAfter(text, ValueEnd(text, next), closers);
      var colon := KeyEnd(text, next);
      if colon.Some? {
        CloseAfter(text, ValueEnd(text, colon.value), closers);
      }
    }
  }

  method ScanKey(text: string, start: nat) returns (r: Option<nat>)
    ensures r == KeyEnd(text, start)
  {
    var key := ScanString(text, start, false);
    if key.Malformed? {
      return None;
    }
    var pos := SkipWs(text, key.pos);
    r := Expect(text, pos, ':');
  }

  method ScanLiteral(text: string, pos: nat) returns (r: Option<nat>)
    ensures r == Literal(text, pos)
  {
    var i := 0;
    while i < |LITERALS|
      invariant 0 <= i <= 3
      invariant i > 0 ==> !HasWord(text, pos, "true")
      invariant i > 1 ==> !HasWord(text, pos, "false")
      invariant i > 2 ==> !HasWord(text, pos, "null")
    {
      if HasWord(text, pos, LITERALS[i]) {
        return Some(pos + |LITERALS[i]|);
      }
      i := i + 1;
    }
    r := None;
  }

  lemma DueAlone(text: string, start: nat)
    requires start <= |text|
    ensures Due(text, start, []) == ValueEnd(text, start)
  {
  }

  lemma CloseNone(text: string, start: nat)
    requires start <= |text|
    ensures CloseAll(text, start, []) == Some(start)
  {
  }

  lemma ClosedAtOnce(text: string, start: nat)
    requires start <= |text|
    requires var pos := Ws(text, start);
      (StartsWith(text, pos, '[') && StartsWith(text, Ws(text, pos + 1), ']')) ||
      (StartsWith(text, pos, '{') && StartsWith(text, Ws(text, pos + 1), '}'))
    ensures ValueEnd(text, start) == Some(Ws(text, Ws(text, start) + 1) + 1)
  {
    hide Ws;
  }

  /** A string, a number or a literal. */
  lemma Scalar(text: string, start: nat)
    requires start <= |text|
    requires var pos := Ws(text, start); !StartsWith(text, pos, '[') && !StartsWith(text, pos, '{')
    ensures ValueEnd(text, start) ==
      var pos := Ws(text, start);
      if StartsWith(text, pos, '"') then
        var s := String(text, pos, false);
        if s.Malformed? then None else Some(s.pos)
      else if StartsWith(text, pos, '-') || (pos < |text| && IsDigit(text[pos])) then Number(text, pos)
      else Literal(text, pos)
  {
    hide Ws, String, Number, Literal;
  }

  /**
    multi_round.py's loop: values are read without recursion, `closers` holding
    one closer per open container. It ends where the grammar's reading ends and
    refuses what that refuses, at any nesting depth.
   */
  method Skip(text: string, start: nat) returns (r: Option<nat>)
    requires start <= |text|
    ensures r == ValueEnd(text, start)
  {
    hide ValueEnd, TailEnd, Ws, StringFrom, CloseAll;
    var pos, closers: seq<char> := start, [];
    ghost var whole := ValueEnd(text, start);
    DueAlone(text, start);
    while true
      invariant pos <= |text| && (forall i | 0 <= i < |closers| :: IsCloser(closers[i]))
      invariant whole == Due(text, pos, closers)
      decreases |text| - pos
    {
      ghost var entry := pos;
      pos := SkipWs(text, pos);
      if StartsWith(text, pos, '[') || StartsWith(text, pos, '{') {
        var closer := if text[pos] == '[' then ']' else '}';
        var first := SkipWs(text, pos + 1);
        if StartsWith(text, first, closer) {
          ClosedAtOnce(text, entry);
          pos := first + 1;
        } else if closer == '}' {
          OpenObject(text, entry, closers);
          var colon := ScanKey(text, first);
          if colon.None? {
            return None;
          }
          pos, closers := colon.value, closers + [closer];
          continue;
        } else {
          OpenArray(text, entry, closers);
          pos, closers := first, closers + [closer];
          continue;
        }
      } else {
        Scalar(text, entry);
        var end: Option<nat> := None;
        if StartsWith(text, pos, '"') {
          var s := ScanString(text, pos, false);
          end := if s.Malformed? then None else Some(s.pos);
        } else if StartsWith(text, pos, '-') || (pos < |text| && IsDigit(text[pos])) {
          end := ScanNumber(text, pos);
        } else {
          end := ScanLiteral(text, pos);
        }
        if end.None? {
          return None;
        }
        pos := end.value;
      }
      assert whole == CloseAll(text, pos, closers);
      while closers != []
        invariant entry < pos <= |text| && (forall i | 0 <= i < |closers| :: IsCloser(closers[i]))
        invariant whole == CloseAll(text, pos, closers)
        decreases |text| - pos
      {
        var closer := closers[|closers| - 1];
        NextOrClose(text, pos, closers);
        pos := SkipWs(text, pos);
        if StartsWith(text, pos, closer) {
          pos, closers := pos + 1, closers[..|closers| - 1];
          continue;
        }
        if !StartsWith(text, pos, ',') {
          return None;
        }
        pos := SkipWs(text, pos + 1);
        if StartsWith(text, pos, closer) {
          return None;
        }
        if closer == '}' {
          var colon := ScanKey(text, pos);
          if colon.None? {
            return None;
          }
          pos := colon.value;
        }
        break;
      }
      if closers == [] {
        CloseNone(text, pos);
        return Some(pos);
      }
    }
  }
}
