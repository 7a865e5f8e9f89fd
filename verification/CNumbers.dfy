/** Reading numbers the way the C library does, with 64-bit long. */
module CNumbers {
  import opened Common

  const ULONG_MAX := 0xFFFF_FFFF_FFFF_FFFF
  const LONG_MAX := 0x7FFF_FFFF_FFFF_FFFF
  const LONG_MIN := -0x8000_0000_0000_0000

  predicate IsSpace(c: char) {
    c == ' ' || '\t' <= c <= '\r'
  }

  /** The length of the leading run of blanks, and of digits. */
  function Blanks(s: string): (n: nat)
    ensures n <= |s|
  {
    if s == "" || !IsSpace(s[0]) then 0 else 1 + Blanks(s[1..])
  }

  function DigitRun(s: string): (n: nat)
    ensures n <= |s| && forall i | 0 <= i < n :: IsDigit(s[i])
    ensures n < |s| ==> !IsDigit(s[n])
  {
    if s == "" || !IsDigit(s[0]) then 0 else 1 + DigitRun(s[1..])
  }

  /** strtoul(s, &end, 10): the value and the offset of the end, which is 0 without digits. */
  function StrToUl(s: string): (r: (nat, nat))
    ensures r.0 <= ULONG_MAX && r.1 <= |s|
  {
    var b := Blanks(s);
    var signed := b < |s| && s[b] in "+-";
    var at := if signed then b + 1 else b;
    var n := DigitRun(s[at..]);
    if n == 0 then (0, 0)
    else
      var v := DecimalValue(s[at..][..n]);
      (if v > ULONG_MAX then ULONG_MAX
       else if signed && s[b] == '-' && v > 0 then ULONG_MAX + 1 - v
       else v, at + n)
  }

  /** The nearest number that a long can hold. */
  function Saturate(n: int): (r: int)
    ensures LONG_MIN <= r <= LONG_MAX && (r == n <==> LONG_MIN <= n <= LONG_MAX)
  {
    if n > LONG_MAX then LONG_MAX else if n < LONG_MIN then LONG_MIN else n
  }

  /** strtol(s, &end, 10): saturates at the limits of long; the end is 0 without digits. */
  function StrToL(s: string): (r: (int, nat))
    ensures LONG_MIN <= r.0 <= LONG_MAX && r.1 <= |s|
  {
    var b := Blanks(s);
    var signed := b < |s| && s[b] in "+-";
    var at := if signed then b + 1 else b;
    var n := DigitRun(s[at..]);
    if n == 0 then (0, 0)
    else
      var v: int := DecimalValue(s[at..][..n]);
      (Saturate(if signed && s[b] == '-' then -v else v), at + n)
  }

  /** printf("%ld") */
  function SignedDecimal(n: int): string {
    if n < 0 then "-" + Decimal(-n) else Decimal(n)
  }

  lemma RunOfDecimal(n: nat, rest: string)
    requires rest == "" || !IsDigit(rest[0])
    ensures var s := Decimal(n) + rest;
            && DigitRun(s) == |Decimal(n)| && s[..|Decimal(n)|] == Decimal(n)
            && DecimalValue(Decimal(n)) == n
  {
    var d := Decimal(n);
    var s := d + rest;
    assert forall i | 0 <= i < |d| :: s[i] == d[i];
    assert rest != "" ==> s[|d|] == rest[0];
    assert DigitRun(s) == |d|;
    assert s[..|d|] == d;
    DecimalRoundTrip(n);
  }

  /** A run of digits followed by something else is read as its value. */
  lemma DigitsRead(n: nat, rest: string)
    requires rest == "" || !IsDigit(rest[0])
    ensures StrToUl(Decimal(n) + rest) == (if n > ULONG_MAX then ULONG_MAX else n, |Decimal(n)|)
  {
    hide Decimal, DecimalValue, DigitRun;
    var s := Decimal(n) + rest;
    assert IsDigit(s[0]) && Blanks(s) == 0 && s[0] !in "+-" && s[0..] == s;
    RunOfDecimal(n, rest);
  }

  lemma NegativeRead(n: int, rest: string)
    requires 0 <= n && (rest == "" || !IsDigit(rest[0]))
    ensures StrToL("-" + Decimal(n) + rest) == (Saturate(-n), |Decimal(n)| + 1)
  {
    hide Decimal, DecimalValue, DigitRun, Saturate;
    var s := "-" + Decimal(n) + rest;
    assert s[0] == '-' && Blanks(s) == 0;
    assert s[1..] == Decimal(n) + rest;
    RunOfDecimal(n, rest);
  }

  /** A printed number followed by something else is read as its value, brought into range. */
  lemma SignedRead(n: int, rest: string)
    requires rest == "" || !IsDigit(rest[0])
    ensures StrToL(SignedDecimal(n) + rest) == (Saturate(n), |SignedDecimal(n)|)
  {
    hide Decimal, DecimalValue, DigitRun, Saturate;
    if n < 0 {
      hide StrToL;
      NegativeRead(-n, rest);
    } else {
      var s := Decimal(n) + rest;
      assert IsDigit(s[0]) && Blanks(s) == 0 && s[0] !in "+-" && s[0..] == s;
      RunOfDecimal(n, rest);
    }
  }
}
