/** Text as UTF-16 code units (section 2 of RFC 2781): what `\uXXXX` escapes spell and JCS sorts by. */
module CodeUnits {
  function UnitsOfChar(c: char): (r: seq<int>)
    ensures 1 <= |r| <= 2
  {
    var n := c as int;
    if n < 0x10000 then [n] else [0xD800 + (n - 0x10000) / 0x400, 0xDC00 + (n - 0x10000) % 0x400]
  }

  function Units(s: string): seq<int> {
    if s == "" then [] else UnitsOfChar(s[0]) + Units(s[1..])
  }

  lemma {:induction false} UnitsBounded(s: string)
    ensures forall i | 0 <= i < |Units(s)| :: 0 <= Units(s)[i] < 0x10000
  {
    if s != "" {
      UnitsBounded(s[1..]);
    }
  }

  lemma UnitsOfCharDelimited(c: char, x: seq<int>, d: char, y: seq<int>)
    requires UnitsOfChar(c) + x == UnitsOfChar(d) + y
    ensures c == d && x == y
  {
    var all := UnitsOfChar(c) + x;
    assert all[0] == UnitsOfChar(c)[0] == UnitsOfChar(d)[0];
    assert x == all[|UnitsOfChar(c)|..];
    assert y == all[|UnitsOfChar(d)|..];
    if c as int >= 0x10000 && d as int >= 0x10000 {
      assert all[1] == UnitsOfChar(c)[1] == UnitsOfChar(d)[1];
    }
  }

  lemma {:induction false} UnitsInjective(s: string, t: string)
    requires Units(s) == Units(t)
    ensures s == t
  {
    if s != "" && t != "" {
      UnitsOfCharDelimited(s[0], Units(s[1..]), t[0], Units(t[1..]));
      UnitsInjective(s[1..], t[1..]);
      assert s == [s[0]] + s[1..] && t == [t[0]] + t[1..];
    }
  }
}
