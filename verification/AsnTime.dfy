/** The UTCTime and GeneralizedTime texts stored in the certificate database. */
module AsnTime {
  import opened Common

  datatype Tm = Tm(year: nat, month: nat, day: nat, hour: nat, minute: nat, second: nat)

  predicate Leap(year: nat) {
    year % 400 == 0 || (year % 100 != 0 && year % 4 == 0)
  }

  function DaysIn(year: nat, month: nat): nat {
    if month == 2 then (if Leap(year) then 29 else 28)
    else if month in {4, 6, 9, 11} then 30
    else 31
  }

  /** What gmtime() can produce (without leap seconds). */
  predicate ValidTm(t: Tm) {
    && 1 <= t.month <= 12 && 1 <= t.day <= DaysIn(t.year, t.month)
    && t.hour <= 23 && t.minute <= 59 && t.second <= 59
  }

  predicate UtcYear(year: nat) {
    1950 <= year <= 2049
  }

  /** printf("%02d") on a field that fits. */
  function Two(n: nat): (s: string)
    requires n < 100
    ensures |s| == 2 && AllDigits(s) && IsPair(s, 0) && PairValue(s, 0) == n
  {
    [DigitChar(n / 10), DigitChar(n % 10)]
  }

  /** printf("%04d") */
  function YearText(year: nat): (s: string)
    ensures |s| >= 4 && AllDigits(s)
  {
    if year < 10000 then Two(year / 100) + Two(year % 100)
    else FiveDigits(year); Decimal(year)
  }

  lemma FiveDigits(n: nat)
    requires n >= 10000
    ensures |Decimal(n)| >= 5
  {
    assert |Decimal(n / 10000)| >= 1;
    assert |Decimal(n / 1000)| == |Decimal(n / 1000 / 10)| + 1;
    assert |Decimal(n / 100)| == |Decimal(n / 100 / 10)| + 1;
    assert |Decimal(n / 10)| == |Decimal(n / 10 / 10)| + 1;
  }

  /** Month to second, ten digits. */
  function Clock(t: Tm): (s: string)
    requires ValidTm(t)
    ensures |s| == 10 && AllDigits(s)
  {
    Two(t.month) + Two(t.day) + Two(t.hour) + Two(t.minute) + Two(t.second)
  }

  /** X509_gmtime_adj(): UTCTime for 1950 to 2049, GeneralizedTime otherwise. */
  function GmText(t: Tm): string
    requires ValidTm(t)
  {
    (if UtcYear(t.year) then Two(t.year % 100) else YearText(t.year)) + Clock(t) + "Z"
  }

  predicate IsPair(s: string, o: nat) {
    o + 1 < |s| && IsDigit(s[o]) && IsDigit(s[o + 1])
  }

  function PairValue(s: string, o: nat): (n: nat)
    requires IsPair(s, o)
    ensures n < 100
  {
    10 * CharDigit(s[o]) + CharDigit(s[o + 1])
  }

  /** A zone designator that ends the text. */
  predicate ZoneOk(s: string, o: nat)
    requires o < |s|
  {
    if s[o] == 'Z' then o + 1 == |s|
    else
      && s[o] in "+-" && o + 5 == |s|
      && IsPair(s, o + 1) && PairValue(s, o + 1) <= 12
      && IsPair(s, o + 3) && PairValue(s, o + 3) <= 59
  }

  function UtcYearOf(pair: nat): nat {
    if pair < 50 then 2000 + pair else 1900 + pair
  }

  /** ASN1_UTCTIME_set_string() accepts the text; seconds may be missing before a zone offset. */
  predicate UtcTimeOk(s: string) {
    && |s| >= 13
    && IsPair(s, 0) && IsPair(s, 2) && IsPair(s, 4) && IsPair(s, 6) && IsPair(s, 8)
    && 1 <= PairValue(s, 2) <= 12
    && 1 <= PairValue(s, 4) <= DaysIn(UtcYearOf(PairValue(s, 0)), PairValue(s, 2))
    && PairValue(s, 6) <= 23 && PairValue(s, 8) <= 59
    && if s[10] in "Z+-" then ZoneOk(s, 10)
       else IsPair(s, 10) && PairValue(s, 10) <= 59 && ZoneOk(s, 12)
  }

  /** The fields of an accepted text that carries seconds. */
  function UtcFields(s: string): Tm
    requires UtcTimeOk(s) && IsPair(s, 10)
  {
    Tm(UtcYearOf(PairValue(s, 0)), PairValue(s, 2), PairValue(s, 4),
       PairValue(s, 6), PairValue(s, 8), PairValue(s, 10))
  }

  lemma UtcTextAccepted(t: Tm)
    requires ValidTm(t) && UtcYear(t.year)
    ensures UtcTimeOk(GmText(t))
    ensures IsPair(GmText(t), 10) && UtcFields(GmText(t)) == t
  {
    var s := GmText(t);
    assert |s| == 13 && s[12] == 'Z';
    assert IsPair(s, 0) && PairValue(s, 0) == t.year % 100;
    assert IsPair(s, 2) && PairValue(s, 2) == t.month;
    assert IsPair(s, 4) && PairValue(s, 4) == t.day;
    assert IsPair(s, 6) && PairValue(s, 6) == t.hour;
    assert IsPair(s, 8) && PairValue(s, 8) == t.minute;
    assert IsPair(s, 10) && PairValue(s, 10) == t.second;
    assert UtcYearOf(t.year % 100) == t.year;
  }

  lemma LongDigitsRefused(s: string)
    requires |s| >= 15 && AllDigits(s[..14])
    ensures !UtcTimeOk(s)
  {
    assert forall i | 0 <= i < 14 :: IsDigit(s[i]) by {
      forall i | 0 <= i < 14 ensures IsDigit(s[i]) { assert s[..14][i] == s[i]; }
    }
  }

  /**
   The clock text of a moment is accepted back as a UTCTime, with the same fields, exactly
   when its year is 1950 to 2049.
   */
  lemma UtcRoundTrip(t: Tm)
    requires ValidTm(t)
    ensures UtcTimeOk(GmText(t)) <==> UtcYear(t.year)
    ensures UtcTimeOk(GmText(t)) ==> IsPair(GmText(t), 10) && UtcFields(GmText(t)) == t
    ensures ',' !in GmText(t)
  {
    var y := if UtcYear(t.year) then Two(t.year % 100) else YearText(t.year);
    var digits := y + Clock(t);
    var s := GmText(t);
    assert s == digits + "Z";
    if UtcYear(t.year) {
      UtcTextAccepted(t);
    } else {
      assert s[..14] == digits[..14];
      LongDigitsRefused(s);
    }
  }

  /** Two digits are the printed form of their value. */
  lemma PairText(s: string, o: nat)
    requires IsPair(s, o)
    ensures Two(PairValue(s, o)) == s[o..o + 2]
  {
  }

  lemma SevenParts(s: string)
    requires |s| == 13 && s[12] == 'Z'
    ensures s == s[0..2] + (s[2..4] + s[4..6] + s[6..8] + s[8..10] + s[10..12]) + "Z"
  {
  }

  lemma AcceptedFields(s: string)
    requires UtcTimeOk(s) && |s| == 13 && s[12] == 'Z'
    ensures IsPair(s, 10)
    ensures ValidTm(UtcFields(s)) && UtcYear(UtcFields(s).year) && UtcFields(s).year % 100 == PairValue(s, 0)
  {
    hide DaysIn;
  }

  /** Conversely, an accepted text of full length in Zulu time is the printed form of a valid time. */
  lemma AcceptedIsPrinted(s: string)
    requires UtcTimeOk(s) && |s| == 13 && s[12] == 'Z'
    ensures IsPair(s, 10)
    ensures var t := UtcFields(s);
            ValidTm(t) && 1950 <= t.year <= 2049 && GmText(t) == s
  {
    hide Two, DaysIn, PairValue, ValidTm, ZoneOk;
    AcceptedFields(s);
    PairText(s, 0);
    PairText(s, 2);
    PairText(s, 4);
    PairText(s, 6);
    PairText(s, 8);
    PairText(s, 10);
    SevenParts(s);
  }
}
