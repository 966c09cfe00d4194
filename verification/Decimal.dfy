/** Python's `str` of an integer, and why no two integers are written alike. */
module Decimal {
  import opened Basics

  function Digit(n: nat): char
    requires n < 10
  {
    (n + '0' as int) as char
  }

  function OfNat(n: nat): (r: string)
    ensures r != "" && forall i | 0 <= i < |r| :: IsDigit(r[i])
  {
    if n < 10 then [Digit(n)] else OfNat(n / 10) + [Digit(n % 10)]
  }

  function OfInt(i: int): (r: string)
    ensures r != "" && (r[0] == '-' || IsDigit(r[0]))
  {
    if i < 0 then "-" + OfNat(-i) else OfNat(i)
  }

  /** Python's `int` of digits. */
  function Num(s: string): nat
    requires AllDigits(s)
  {
    if s == "" then 0 else 10 * Num(s[..|s| - 1]) + (s[|s| - 1] as int - '0' as int)
  }

  lemma {:induction false} NumOfNat(n: nat)
    ensures Num(OfNat(n)) == n && (OfNat(n)[0] == '0' <==> n == 0)
  {
    if n >= 10 {
      var s := OfNat(n);
      NumOfNat(n / 10);
      assert s[..|s| - 1] == OfNat(n / 10) && s[0] == OfNat(n / 10)[0];
    }
  }

  lemma {:induction false} NumPositive(s: string)
    requires AllDigits(s) && s != "" && s[0] != '0'
    ensures Num(s) > 0
    decreases |s|
  {
    if |s| > 1 {
      assert s[..|s| - 1][0] == s[0];
      NumPositive(s[..|s| - 1]);
    }
  }

  /** A number's text is the one string of digits with its positional value and no needless leading zero. */
  lemma {:induction false} OfNatIff(s: string, n: nat)
    requires AllDigits(s) && s != "" && (s[0] == '0' ==> s == "0")
    ensures s == OfNat(n) <==> Num(s) == n
    decreases |s|
  {
    NumOfNat(n);
    if Num(s) == n && |s| > 1 {
      var init := s[..|s| - 1];
      assert init[0] == s[0];
      NumPositive(init);
      assert n / 10 == Num(init) && n >= 10;
      OfNatIff(init, n / 10);
      assert s == init + [s[|s| - 1]];
    } else if Num(s) == n {
      assert s[..0] == "";
      assert s == [s[0]];
    }
  }

  lemma {:induction false} OfNatInjective(m: nat, n: nat)
    requires OfNat(m) == OfNat(n)
    ensures m == n
    decreases m + n
  {
    var a, b := OfNat(m), OfNat(n);
    assert a[|a| - 1] == Digit(m % 10) && b[|b| - 1] == Digit(n % 10);
    if m >= 10 || n >= 10 {
      assert m >= 10 ==> a[..|a| - 1] == OfNat(m / 10) && |OfNat(m / 10)| >= 1;
      assert n >= 10 ==> b[..|b| - 1] == OfNat(n / 10) && |OfNat(n / 10)| >= 1;
      assert m >= 10 && n >= 10;
      OfNatInjective(m / 10, n / 10);
    }
  }

  lemma NextChar(a: string, x: string, b: string, y: string)
    requires a + x == b + y && |a| < |b|
    ensures x != "" && x[0] == b[|a|]
  {
    assert (a + x)[|a|] == (b + y)[|a|];
  }

  /** Digits end where the digits end. */
  lemma DigitsDelimited(a: string, x: string, b: string, y: string)
    requires a + x == b + y
    requires forall i | 0 <= i < |a| :: IsDigit(a[i])
    requires forall i | 0 <= i < |b| :: IsDigit(b[i])
    requires (x == "" || !IsDigit(x[0])) && (y == "" || !IsDigit(y[0]))
    ensures a == b && x == y
  {
    if |a| < |b| {
      NextChar(a, x, b, y);
    } else if |b| < |a| {
      NextChar(b, y, a, x);
    }
    assert a == (a + x)[..|a|] && x == (a + x)[|a|..];
    assert b == (b + y)[..|b|] && y == (b + y)[|b|..];
  }

  lemma SignFirst(i: int, x: string)
    ensures (OfInt(i) + x)[0] == '-' <==> i < 0
    ensures i < 0 ==> (OfInt(i) + x)[1..] == OfNat(-i) + x
  {
    hide OfNat;
    assert (OfInt(i) + x)[0] == OfInt(i)[0];
    if i < 0 {
      assert (("-" + OfNat(-i)) + x)[1..] == OfNat(-i) + x;
    }
  }

  lemma NatDelimited(m: nat, x: string, n: nat, y: string)
    requires OfNat(m) + x == OfNat(n) + y
    requires (x == "" || !IsDigit(x[0])) && (y == "" || !IsDigit(y[0]))
    ensures m == n && x == y
  {
    DigitsDelimited(OfNat(m), x, OfNat(n), y);
    OfNatInjective(m, n);
  }

  lemma IntDelimited(i: int, x: string, j: int, y: string)
    requires OfInt(i) + x == OfInt(j) + y
    requires (x == "" || !IsDigit(x[0])) && (y == "" || !IsDigit(y[0]))
    ensures i == j && x == y
  {
    hide OfNat, IsDigit;
    SignFirst(i, x);
    SignFirst(j, y);
    if i < 0 {
      NatDelimited(-i, x, -j, y);
    } else {
      NatDelimited(i, x, j, y);
    }
  }

  lemma OfIntInjective(i: int, j: int)
    requires OfInt(i) == OfInt(j)
    ensures i == j
  {
    IntDelimited(i, "", j, "") by { assert OfInt(i) + "" == OfInt(i) && OfInt(j) + "" == OfInt(j); }
  }
}
