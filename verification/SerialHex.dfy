/**
 Serial numbers as the certificate database writes them: the hexadecimal text produced by
 BN_bn2hex (with "00" for zero), read back by BN_hex2bn, and compared by the serial index
 after dropping leading zeros.
 */
module SerialHex {

  predicate IsUpperHex(c: char) {
    '0' <= c <= '9' || 'A' <= c <= 'F'
  }

  /** isxdigit() */
  predicate IsHex(c: char) {
    IsUpperHex(c) || 'a' <= c <= 'f'
  }

  /** OPENSSL_hexchar2int() */
  function DigitValue(c: char): (v: nat)
    requires IsHex(c)
    ensures v < 16
  {
    if '0' <= c <= '9' then c as int - '0' as int
    else if 'A' <= c <= 'F' then c as int - 'A' as int + 10
    else c as int - 'a' as int + 10
  }

  function HexDigit(d: nat): (c: char)
    requires d < 16
    ensures IsUpperHex(c) && DigitValue(c) == d
  {
    if d < 10 then ('0' as int + d) as char else ('A' as int + d - 10) as char
  }

  predicate AllHex(s: string) {
    forall i | 0 <= i < |s| :: IsHex(s[i])
  }

  predicate AllUpperHex(s: string) {
    forall i | 0 <= i < |s| :: IsUpperHex(s[i])
  }

  /** The bytes of a magnitude, most significant first, two digits each, no leading zero byte. */
  function ByteDigits(n: nat): (s: string)
    ensures AllUpperHex(s) && |s| % 2 == 0
    ensures n > 0 ==> |s| >= 2 && !(s[0] == '0' && s[1] == '0')
  {
    if n == 0 then ""
    else ByteDigits(n / 256) + [HexDigit(n % 256 / 16), HexDigit(n % 256 % 16)]
  }

  /** The serial column written for a number. */
  function SerialText(n: int): string {
    if n == 0 then "00" else if n < 0 then "-" + ByteDigits(-n) else ByteDigits(n)
  }

  /** The part of a serial column after an optional minus sign. */
  function Unsigned(s: string): string {
    if s != "" && s[0] == '-' then s[1..] else s
  }

  /** The check made on every serial column when the database is loaded. */
  predicate SerialSyntax(s: string) {
    var p := Unsigned(s);
    |p| % 2 == 0 && |p| >= 2 && AllHex(p)
  }

  function Magnitude(s: string): nat
    requires AllHex(s)
  {
    if s == "" then 0 else 16 * Magnitude(s[..|s| - 1]) + DigitValue(s[|s| - 1])
  }

  /** BN_hex2bn() on a column that passed the load check; a negative zero is zero. */
  function SerialValue(s: string): int
    requires SerialSyntax(s)
  {
    var m: int := Magnitude(Unsigned(s));
    if s[0] == '-' then -m else m
  }

  /** The text compared by the serial index. */
  function Key(s: string): (k: string)
    ensures k == "" || k[0] != '0'
  {
    if s != "" && s[0] == '0' then Key(s[1..]) else s
  }

  /** Upper-case digits, and for a negative number no leading zero byte. */
  predicate Canonical(s: string)
    requires SerialSyntax(s)
  {
    var p := Unsigned(s);
    AllUpperHex(p) && (s[0] == '-' ==> !(p[0] == '0' && p[1] == '0'))
  }

  // ----- lemmas

  lemma DigitOfValue(c: char)
    requires IsUpperHex(c)
    ensures HexDigit(DigitValue(c)) == c
  {
  }

  /** The shortest digit string of a magnitude. */
  function Digits(n: nat): (s: string)
    ensures AllUpperHex(s)
    ensures n > 0 ==> s != "" && s[0] != '0'
  {
    if n == 0 then "" else Digits(n / 16) + [HexDigit(n % 16)]
  }

  lemma {:induction false} MagnitudeOfDigits(n: nat)
    ensures Magnitude(Digits(n)) == n
  {
    if n > 0 {
      MagnitudeOfDigits(n / 16);
      var s := Digits(n);
      assert s[..|s| - 1] == Digits(n / 16);
    }
  }

  lemma {:induction false} KeyAppend(s: string, c: char)
    ensures Key(s) != "" ==> Key(s + [c]) == Key(s) + [c]
    ensures Key(s) == "" ==> Key(s + [c]) == if c == '0' then "" else [c]
  {
    if s == "" {
    } else if s[0] == '0' {
      KeyAppend(s[1..], c);
      assert (s + [c])[1..] == s[1..] + [c];
    }
  }

  /** Dropping leading zeros from upper-case digits leaves the shortest digit string. */
  lemma {:induction false} KeyIsDigits(s: string)
    requires AllUpperHex(s)
    ensures Key(s) == Digits(Magnitude(s))
  {
    if s != "" {
      var t, c := s[..|s| - 1], s[|s| - 1];
      assert s == t + [c];
      KeyIsDigits(t);
      KeyAppend(t, c);
      assert Magnitude(s) / 16 == Magnitude(t) && Magnitude(s) % 16 == DigitValue(c);
      DigitOfValue(c);
    }
  }

  /** A string of digits is determined up to leading zeros by its key. */
  lemma {:induction false} KeyDetermines(s: string)
    requires AllHex(s)
    ensures AllHex(Key(s)) && Magnitude(Key(s)) == Magnitude(s)
    ensures AllUpperHex(Key(s)) <==> AllUpperHex(s)
  {
    if s != "" && s[0] == '0' {
      KeyDetermines(s[1..]);
      LeadingZero(s[1..]);
      assert s == ['0'] + s[1..];
    }
  }

  lemma {:induction false} LeadingZero(s: string)
    requires AllHex(s)
    ensures Magnitude(['0'] + s) == Magnitude(s)
  {
    var z := ['0'] + s;
    if s == "" {
      assert z[..0] == "";
    } else {
      LeadingZero(s[..|s| - 1]);
      assert z[..|z| - 1] == ['0'] + s[..|s| - 1];
    }
  }

  lemma MagnitudeAppendByte(t: string, hi: char, lo: char)
    requires AllHex(t) && IsHex(hi) && IsHex(lo)
    ensures Magnitude(t + [hi, lo]) == 256 * Magnitude(t) + 16 * DigitValue(hi) + DigitValue(lo)
  {
    assert (t + [hi, lo])[..|t| + 1] == t + [hi];
    assert (t + [hi])[..|t|] == t;
  }

  lemma {:induction false} MagnitudeOfByteDigits(n: nat)
    ensures Magnitude(ByteDigits(n)) == n
  {
    if n > 0 {
      var m, b := n / 256, n % 256;
      MagnitudeOfByteDigits(m);
      MagnitudeAppendByte(ByteDigits(m), HexDigit(b / 16), HexDigit(b % 16));
    }
  }

  /** What the database writes passes its own load check, is canonical and reads back. */
  lemma SerialTextRoundTrip(n: int)
    ensures SerialSyntax(SerialText(n))
    ensures Canonical(SerialText(n))
    ensures SerialValue(SerialText(n)) == n
  {
    var s := SerialText(n);
    if n == 0 {
      assert s[..1] == "0" && s[..1][..0] == "";
      assert Magnitude("0") == 0;
    } else {
      MagnitudeOfByteDigits(if n < 0 then -n else n);
    }
  }

  lemma ByteDigitsAppend(m: nat, hi: nat, lo: nat)
    requires hi < 16 && lo < 16 && 256 * m + 16 * hi + lo > 0
    ensures ByteDigits(256 * m + 16 * hi + lo) == ByteDigits(m) + [HexDigit(hi), HexDigit(lo)]
  {
    var n := 256 * m + 16 * hi + lo;
    assert n / 256 == m && n % 256 == 16 * hi + lo;
    assert n % 256 / 16 == hi && n % 256 % 16 == lo;
  }

  /** Equal digit strings of two magnitudes written in whole bytes. */
  lemma {:induction false} ByteDigitsUnique(s: string)
    requires AllUpperHex(s) && |s| % 2 == 0
    requires s != "" ==> !(s[0] == '0' && s[1] == '0')
    ensures s == ByteDigits(Magnitude(s))
  {
    if s != "" {
      var t, hi, lo := s[..|s| - 2], s[|s| - 2], s[|s| - 1];
      assert s == t + [hi, lo];
      assert t != "" ==> t[0] == s[0] && t[1] == s[1];
      ByteDigitsUnique(t);
      MagnitudeAppendByte(t, hi, lo);
      var m, a, b := Magnitude(t), DigitValue(hi), DigitValue(lo);
      assert 256 * m + 16 * a + b > 0;
      ByteDigitsAppend(m, a, b);
      calc {
        ByteDigits(256 * m + 16 * a + b);
        ByteDigits(m) + [HexDigit(a), HexDigit(b)];
        { DigitOfValue(hi); DigitOfValue(lo); }
        t + [hi, lo];
      }
    }
  }

  lemma FirstDigit(s: string)
    requires AllHex(s)
    ensures Key(s) == "" || IsHex(Key(s)[0])
  {
    KeyDetermines(s);
  }

  lemma FoundUnsigned(s: string, t: string)
    requires AllHex(s) && AllUpperHex(t)
    ensures Key(s) == Key(t) <==> AllUpperHex(s) && Magnitude(s) == Magnitude(t)
  {
    KeyDetermines(s);
    KeyDetermines(t);
    KeyIsDigits(t);
    if AllUpperHex(s) { KeyIsDigits(s); }
  }

  lemma FoundNegative(s: string, n: int)
    requires SerialSyntax(s) && s[0] == '-'
    ensures s == SerialText(n) <==> Canonical(s) && SerialValue(s) == n
  {
    SerialTextRoundTrip(n);
    assert s == ['-'] + s[1..];
    if Canonical(s) { ByteDigitsUnique(s[1..]); }
  }

  /**
   The serial index finds a column under the text of a number exactly when the column is
   canonical and denotes that number.
   */
  lemma FoundByNumber(s: string, n: int)
    requires SerialSyntax(s)
    ensures Key(s) == Key(SerialText(n)) <==> Canonical(s) && SerialValue(s) == n
  {
    var t := SerialText(n);
    SerialTextRoundTrip(n);
    if s[0] == '-' {
      FoundNegative(s, n);
      if n >= 0 { FirstDigit(t); }
    } else if n < 0 {
      FirstDigit(s);
    } else {
      FoundUnsigned(s, t);
    }
  }

  /** On canonical columns the index separates exactly the different numbers. */
  lemma CanonicalKeys(a: string, b: string)
    requires SerialSyntax(a) && SerialSyntax(b) && Canonical(a) && Canonical(b)
    ensures Key(a) == Key(b) <==> SerialValue(a) == SerialValue(b)
  {
    FoundByNumber(a, SerialValue(a));
    FoundByNumber(b, SerialValue(a));
  }
}
