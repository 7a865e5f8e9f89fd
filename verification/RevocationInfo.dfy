/**
 The revocation column of a database row: "time[,reason[,argument]]". ca -revoke writes it;
 the CRL builder, the load check and the OCSP responder read it.
 */
module RevocationInfo {
  import opened Common
  import opened AsnTime
  import CString

  /** What the ASN.1 library says about text this model does not look into. */
  datatype Asn1 = Asn1(
    oidOk: string -> bool,             // OBJ_txt2obj() finds an object
    genTimeOk: string -> bool,         // ASN1_GENERALIZEDTIME_set_string() accepts
    timeOf: string -> Option<int>)     // ASN1_TIME_set_string(), as a point in time

  /** The reason given on the command line. */
  datatype Revocation =
    | AsValid
    | NoInfo
    | CrlReason(arg: string)
    | Hold(arg: string)
    | KeyCompromise(arg: string)
    | CaCompromise(arg: string)

  const CRL_REASONS: seq<string> := [
    "unspecified", "keyCompromise", "CACompromise", "affiliationChanged", "superseded",
    "cessationOfOperation", "certificateHold", "removeFromCRL",
    "holdInstruction", "keyTime", "CAkeyTime"]

  /** The CRLReason codes of section 5.3.1 of RFC 5280 for the first eight names. */
  const REASON_CODES: seq<int> := [0, 1, 2, 3, 4, 5, 6, 8]

  const NO_REASON := -1
  const CERTIFICATE_HOLD := 6

  /** The parsed column; reason is NO_REASON when there is none. */
  datatype RevInfo = RevInfo(time: string, reason: int, hold: Option<string>, invalidity: Option<string>)

  /** The first name among the first n, from position i on, that equals the text ignoring case. */
  function ReasonIndex(text: string, i: nat, n: nat): (k: int)
    requires i <= n <= |CRL_REASONS|
    ensures k == -1 || i <= k < n
    ensures k == -1 ==> forall j | i <= j < n :: !EqualFold(text, CRL_REASONS[j])
    ensures k >= 0 ==> EqualFold(text, CRL_REASONS[k]) && forall j | i <= j < k :: !EqualFold(text, CRL_REASONS[j])
    decreases n - i
  {
    if i == n then -1
    else if EqualFold(text, CRL_REASONS[i]) then i
    else ReasonIndex(text, i + 1, n)
  }

  method FindReason(text: string, n: nat) returns (k: int)
    requires n <= |CRL_REASONS|
    ensures k == ReasonIndex(text, 0, n)
  {
    for i := 0 to n
      invariant ReasonIndex(text, 0, n) == ReasonIndex(text, i, n)
    {
      if EqualFold(text, CRL_REASONS[i]) {
        return i;
      }
    }
    return -1;
  }

  /** The name written for a reason, and the argument kept with it; None refuses the request. */
  function ReasonWords(lib: Asn1, how: Revocation): Option<(string, Option<string>)> {
    match how
    case AsValid => Some(("", None))
    case NoInfo => Some(("", None))
    case CrlReason(arg) =>
      var k := ReasonIndex(arg, 0, 8);
      if k == -1 then None else Some((CRL_REASONS[k], None))
    case Hold(arg) =>
      if lib.oidOk(arg) then Some(("holdInstruction", Some(arg))) else None
    case KeyCompromise(arg) =>
      if lib.genTimeOk(arg) then Some(("keyTime", Some(arg))) else None
    case CaCompromise(arg) =>
      if lib.genTimeOk(arg) then Some(("CAkeyTime", Some(arg))) else None
  }

  /** make_revocation_str() */
  function RevocationField(lib: Asn1, how: Revocation, now: Tm): Option<string>
    requires ValidTm(now)
  {
    var words := ReasonWords(lib, how);
    if words.None? then None
    else
      Some(FieldText(GmText(now), words.value.0, words.value.1))
  }

  function FieldText(time: string, reason: string, other: Option<string>): string {
    time + (if reason == "" then "" else "," + reason) + (if other.None? then "" else "," + other.value)
  }

  /** What the position of a reason name and its argument mean. */
  function Interpret(lib: Asn1, time: string, k: int, arg: Option<string>): Option<RevInfo> {
    if k == 7 then Some(RevInfo(time, 8, None, None))
    else if k == 8 then
      if arg.Some? && lib.oidOk(arg.value) then Some(RevInfo(time, CERTIFICATE_HOLD, arg, None)) else None
    else if k == 9 || k == 10 then
      if arg.Some? && lib.genTimeOk(arg.value) then Some(RevInfo(time, k - 8, None, arg)) else None
    else if k == -1 then None
    else Some(RevInfo(time, k, None, None))
  }

  /** unpack_revinfo() */
  function Unpacked(lib: Asn1, str: string): Option<RevInfo> {
    var (time, rest) := Cut(str, ',');
    if !UtcTimeOk(time) then None
    else if rest.None? then Some(RevInfo(time, NO_REASON, None, None))
    else
      var (reason, arg) := Cut(rest.value, ',');
      Interpret(lib, time, ReasonIndex(reason, 0, |CRL_REASONS|), arg)
  }

  /** The separators of a copy of the column are overwritten by NULs. */
  method SplitColumn(str: string) returns (time: string, rest: Option<(string, Option<string>)>)
    requires '\0' !in str
    ensures time == Cut(str, ',').0
    ensures rest == match Cut(str, ',').1 case None => None case Some(r) => Some(Cut(r, ','))
  {
    hide CString.StrLen, IndexOf;
    var tmp := CString.Dup(str);
    CString.StrLenIs(tmp[..], 0, |str|);
    assert CString.Str(tmp[..], 0) == str;
    var p := CString.CutInPlace(tmp, 0, ',');
    if p == -1 {
      return CString.Str(tmp[..], 0), None;
    }
    ghost var before := tmp[..];
    var q := CString.CutInPlace(tmp, p + 1, ',');
    if q == -1 {
      return CString.Str(tmp[..], 0), Some((CString.Str(tmp[..], p + 1), None));
    }
    CString.StrBefore(before, 0, q);
    return CString.Str(tmp[..], 0), Some((CString.Str(tmp[..], p + 1), Some(CString.Str(tmp[..], q + 1))));
  }

  /** unpack_revinfo() as coded. */
  method UnpackInPlace(lib: Asn1, str: string) returns (r: Option<RevInfo>)
    requires '\0' !in str
    ensures r == Unpacked(lib, str)
  {
    var time, rest := SplitColumn(str);
    if !UtcTimeOk(time) {
      return None;
    }
    if rest.None? {
      return Some(RevInfo(time, NO_REASON, None, None));
    }
    var k := FindReason(rest.value.0, |CRL_REASONS|);
    r := Interpret(lib, time, k, rest.value.1);
  }

  // ----- properties

  /** The names differ even ignoring case, and none contains the separator. */
  lemma ReasonsDistinct(i: nat, j: nat)
    requires i < j < |CRL_REASONS|
    ensures !EqualFold(CRL_REASONS[i], CRL_REASONS[j])
  {
    assert |CRL_REASONS[i]| == |CRL_REASONS[j]| ==> CRL_REASONS[i][0] != CRL_REASONS[j][0];
  }

  lemma ReasonIndexOfName(k: nat)
    requires k < |CRL_REASONS|
    ensures ReasonIndex(CRL_REASONS[k], 0, |CRL_REASONS|) == k
  {
    forall j | 0 <= j < k ensures !EqualFold(CRL_REASONS[k], CRL_REASONS[j]) {
      ReasonsDistinct(j, k);
    }
  }

  /** Every reason code the reader accepts is a CRL reason a database may carry. */
  lemma AcceptedReasons(lib: Asn1, str: string)
    ensures Unpacked(lib, str).Some? ==>
              var info := Unpacked(lib, str).value;
              && (info.reason == -1 || 0 <= info.reason <= 6 || info.reason == 8)
              && (info.hold.Some? ==> info.reason == 6)
              && (info.invalidity.Some? ==> info.reason in {1, 2})
  {
  }

  /** Which arguments are accepted: one of the eight reason names in any case, an OID, a time. */
  lemma AcceptedArguments(lib: Asn1, how: Revocation)
    ensures var names := ["unspecified", "keyCompromise", "CACompromise", "affiliationChanged", "superseded",
                          "cessationOfOperation", "certificateHold", "removeFromCRL"];
            ReasonWords(lib, how).Some? <==>
              match how
              case AsValid => true
              case NoInfo => true
              case CrlReason(arg) => exists k | 0 <= k < 8 :: EqualFold(arg, names[k])
              case Hold(arg) => lib.oidOk(arg)
              case KeyCompromise(arg) => lib.genTimeOk(arg)
              case CaCompromise(arg) => lib.genTimeOk(arg)
  {
    hide EqualFold;
    var names := ["unspecified", "keyCompromise", "CACompromise", "affiliationChanged", "superseded",
                  "cessationOfOperation", "certificateHold", "removeFromCRL"];
    assert forall k | 0 <= k < 8 :: names[k] == CRL_REASONS[k];
  }

  /** The information a request stands for. */
  predicate Describes(how: Revocation, time: string, info: RevInfo) {
    && info.time == time
    && match how
       case AsValid => info.reason == NO_REASON && info.hold.None? && info.invalidity.None?
       case NoInfo => info.reason == NO_REASON && info.hold.None? && info.invalidity.None?
       case CrlReason(arg) =>
         && (exists k :: 0 <= k < 8 && EqualFold(arg, CRL_REASONS[k]) && info.reason == REASON_CODES[k])
         && info.hold.None? && info.invalidity.None?
       case Hold(arg) => info.reason == CERTIFICATE_HOLD && info.hold == Some(arg) && info.invalidity.None?
       case KeyCompromise(arg) => info.reason == 1 && info.hold.None? && info.invalidity == Some(arg)
       case CaCompromise(arg) => info.reason == 2 && info.hold.None? && info.invalidity == Some(arg)
  }

  lemma NamesWithoutComma(k: nat)
    requires k < |CRL_REASONS|
    ensures ',' !in CRL_REASONS[k] && CRL_REASONS[k] != ""
  {
  }

  /** Where the table holds the name that is written. */
  function ReasonPosition(how: Revocation): (k: int)
    requires !how.AsValid? && !how.NoInfo?
    ensures -1 <= k < |CRL_REASONS|
  {
    match how
    case CrlReason(arg) => ReasonIndex(arg, 0, 8)
    case Hold(_) => 8
    case KeyCompromise(_) => 9
    case CaCompromise(_) => 10
  }

  lemma UnpackNamed(lib: Asn1, time: string, reason: string, other: Option<string>)
    requires ',' !in time && ',' !in reason && reason != ""
    ensures Unpacked(lib, FieldText(time, reason, other)) ==
              if UtcTimeOk(time) then Interpret(lib, time, ReasonIndex(reason, 0, |CRL_REASONS|), other) else None
  {
    var tail := reason + (if other.None? then "" else "," + other.value);
    assert FieldText(time, reason, other) == time + [','] + tail;
    CutAt(time, ',', tail);
    if other.None? {
      assert tail == reason;
      CutNone(reason, ',');
    } else {
      assert tail == reason + [','] + other.value;
      CutAt(reason, ',', other.value);
    }
  }

  lemma NamedRoundTrip(lib: Asn1, how: Revocation, time: string)
    requires !how.AsValid? && !how.NoInfo? && ReasonWords(lib, how).Some?
    ensures var words := ReasonWords(lib, how).value;
            var k := ReasonIndex(words.0, 0, |CRL_REASONS|);
            && ',' !in words.0 && words.0 != ""
            && Interpret(lib, time, k, words.1).Some?
            && Describes(how, time, Interpret(lib, time, k, words.1).value)
  {
    var k := ReasonPosition(how);
    assert ReasonWords(lib, how).value.0 == CRL_REASONS[k];
    NamesWithoutComma(k);
    ReasonIndexOfName(k);
    if how.CrlReason? {
      assert EqualFold(how.arg, CRL_REASONS[k]) && (k == 7 || REASON_CODES[k] == k);
    }
  }

  lemma FieldRoundTrip(lib: Asn1, how: Revocation, time: string)
    requires ',' !in time && ReasonWords(lib, how).Some?
    ensures var words := ReasonWords(lib, how).value;
            var r := Unpacked(lib, FieldText(time, words.0, words.1));
            && (r.Some? <==> UtcTimeOk(time))
            && (r.Some? ==> Describes(how, time, r.value))
  {
    var words := ReasonWords(lib, how).value;
    if how.AsValid? || how.NoInfo? {
      CutNone(time, ',');
      assert FieldText(time, words.0, words.1) == time;
    } else {
      NamedRoundTrip(lib, how, time);
      UnpackNamed(lib, time, words.0, words.1);
    }
  }

  /**
   Every column that a revocation writes is read back with the same time, argument and the
   right reason exactly when the clock stands between 1950 and 2049; outside these years
   the column that is written is not readable at all.
   */
  lemma RevocationRoundTrip(lib: Asn1, how: Revocation, now: Tm)
    requires ValidTm(now)
    requires RevocationField(lib, how, now).Some?
    ensures Unpacked(lib, RevocationField(lib, how, now).value).Some? <==> UtcYear(now.year)
    ensures UtcYear(now.year) ==>
              Describes(how, GmText(now), Unpacked(lib, RevocationField(lib, how, now).value).value)
  {
    UtcRoundTrip(now);
    FieldRoundTrip(lib, how, GmText(now));
  }
}
