/** Decimal numbers as `printf("%i")` writes them and as `atol()` reads them. */
module Decimal {
  import opened CStrings

  predicate IsDigit(c: char) {
    '0' <= c <= '9'
  }

  function DigitValue(c: char): nat
    requires IsDigit(c)
  {
    c as int - '0' as int
  }

  function Digit(d: nat): (c: char)
    requires d < 10
    ensures IsDigit(c) && DigitValue(c) == d
  {
    ('0' as int + d) as char
  }

  function Digits(n: nat): (s: string)
    ensures s != [] && forall c :: c in s ==> IsDigit(c)
  {
    if n < 10 then [Digit(n)] else Digits(n / 10) + [Digit(n % 10)]
  }

  function Print(i: int): string {
    if i < 0 then "-" + Digits(-i) else Digits(i)
  }

  function Value(s: string): nat
    requires forall c :: c in s ==> IsDigit(c)
  {
    if s == [] then 0 else Value(s[..|s| - 1]) * 10 + DigitValue(s[|s| - 1])
  }

  /** How many digits `s` begins with. */
  function DigitCount(s: string): (n: nat)
    ensures n <= |s| && forall i :: 0 <= i < n ==> IsDigit(s[i])
    ensures n < |s| ==> !IsDigit(s[n])
  {
    if s == [] || !IsDigit(s[0]) then 0 else 1 + DigitCount(s[1..])
  }

  /** White space is skipped, a sign may follow, and the number ends at the first character that is no digit. */
  function Atol(s: string): int {
    var t := LTrim(s);
    if t == [] then 0
    else if t[0] == '-' then -Magnitude(t[1..])
    else if t[0] == '+' then Magnitude(t[1..])
    else Magnitude(t)
  }

  function Magnitude(s: string): int {
    Value(s[..DigitCount(s)])
  }

  lemma {:induction false} ValueOfDigits(n: nat)
    ensures Value(Digits(n)) == n
  {
    if n >= 10 {
      ValueOfDigits(n / 10);
      assert Digits(n)[..|Digits(n)| - 1] == Digits(n / 10);
    }
  }

  lemma DigitCountOf(s: string, rest: string)
    requires forall c :: c in s ==> IsDigit(c)
    requires rest == [] || !IsDigit(rest[0])
    ensures DigitCount(s + rest) == |s|
  {
    var t := s + rest;
    assert forall i :: 0 <= i < |s| ==> t[i] == s[i];
    assert rest != [] ==> t[|s|] == rest[0];
  }

  lemma MagnitudeOfDigits(n: nat, rest: string)
    requires rest == [] || !IsDigit(rest[0])
    ensures Magnitude(Digits(n) + rest) == n
  {
    ValueOfDigits(n);
    DigitCountOf(Digits(n), rest);
    assert (Digits(n) + rest)[..|Digits(n)|] == Digits(n);
  }

  /** Reading back a printed number, whatever follows it. */
  lemma AtolOfPrint(i: int, rest: string)
    requires rest == [] || !IsDigit(rest[0])
    ensures Atol(Print(i) + rest) == i
  {
    hide Magnitude, Digits, LTrim;
    var s := Print(i) + rest;
    if i < 0 {
      MagnitudeOfDigits(-i, rest);
      assert s[0] == '-' && s[1..] == Digits(-i) + rest;
    } else {
      MagnitudeOfDigits(i, rest);
      assert s[0] == Digits(i)[0] && Digits(i)[0] in Digits(i);
    }
    NothingToTrim(s);
  }

  /** The value a C conversion to `int32_t` keeps. */
  function AsInt32(v: int): (r: int)
    ensures -0x8000_0000 <= r < 0x8000_0000
  {
    (v + 0x8000_0000) % 0x1_0000_0000 - 0x8000_0000
  }

  /** The value a C conversion to `uint32_t` keeps. */
  function AsUint32(v: int): (r: int)
    ensures 0 <= r < 0x1_0000_0000
  {
    v % 0x1_0000_0000
  }

  /** Numbers are printed in decimal, the digits from '0' on, a minus sign first. */
  lemma PrintIsDecimal(n: nat, d: nat)
    requires d < 10
    ensures Print(d) == [('0' as int + d) as char]
    ensures n > 0 ==> Print(10 * n + d) == Print(n) + [('0' as int + d) as char] && Print(-(n as int)) == "-" + Print(n)
  {
    assert n > 0 ==> (10 * n + d) / 10 == n && (10 * n + d) % 10 == d;
  }

  /** The conversions keep the value modulo 2^32. */
  lemma ConversionsAreModular(v: int)
    ensures exists k: int :: AsInt32(v) == v + 0x1_0000_0000 * k
    ensures exists k: int :: AsUint32(v) == v + 0x1_0000_0000 * k
  {
    var k, l := (v + 0x8000_0000) / 0x1_0000_0000, v / 0x1_0000_0000;
    assert AsInt32(v) == v + 0x1_0000_0000 * (-k);
    assert AsUint32(v) == v + 0x1_0000_0000 * (-l);
  }

  /** Reading skips white space before the number and takes a plus sign. */
  lemma AtolOfText(before: string, i: int, rest: string)
    requires WhiteSpace(before) && (rest == "" || !IsDigit(rest[0]))
    ensures Atol(before + (Print(i) + rest)) == i
    ensures i >= 0 ==> Atol(before + ("+" + (Print(i) + rest))) == i
  {
    PrintBegins(i);
    hide Print, LTrim, Atol, IsDigit, Magnitude;
    AtolOfPrint(i, rest);
    AtolIgnoresSpace(before, Print(i) + rest);
    if i >= 0 {
      AtolOfPlus(Print(i) + rest);
      AtolIgnoresSpace(before, "+" + (Print(i) + rest));
    }
  }

  /** Where no number begins, 0 is read. */
  lemma AtolOfNoNumber(s: string)
    requires s == "" || (!IsDigit(s[0]) && s[0] != '+' && s[0] != '-' && !WhiteSpace([s[0]]))
    ensures Atol(s) == 0
  {
    if s != "" {
      assert [s[0]][0] == s[0];
    }
    NothingToTrim(s);
  }

  lemma PrintBegins(i: int)
    ensures Print(i) != "" && !IsSpace(Print(i)[0]) && (i >= 0 ==> IsDigit(Print(i)[0]))
  {
    assert i >= 0 ==> Digits(i)[0] in Digits(i);
  }

  lemma AtolIgnoresSpace(before: string, s: string)
    requires WhiteSpace(before) && (s == "" || !IsSpace(s[0]))
    ensures Atol(before + s) == Atol(s)
  {
    hide LTrim;
    LTrimOf(before, s);
    NothingToTrim(s);
  }

  lemma AtolOfPlus(s: string)
    requires s != "" && IsDigit(s[0])
    ensures Atol("+" + s) == Atol(s)
  {
    var t := "+" + s;
    assert t[0] == '+' && t[1..] == s;
    hide Atol, Magnitude;
    AtolBegins(s);
    AtolBegins(t);
  }

  lemma AtolBegins(t: string)
    requires t != "" && !IsSpace(t[0])
    ensures t[0] == '+' ==> Atol(t) == Magnitude(t[1..])
    ensures IsDigit(t[0]) ==> Atol(t) == Magnitude(t)
  {
    hide LTrim, Magnitude;
    NothingToTrim(t);
  }
}
