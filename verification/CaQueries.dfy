/** What ca answers from the database: the status of a serial, and the revocation list. */
module CaQueries {
  import opened Common
  import opened RevocationInfo
  import opened TextDb
  import opened SerialHex
  import opened CaState
  import opened CaDatabase

  // ----- ca -status

  function Upper(c: char): char {
    if 'a' <= c <= 'z' then (c as int - 32) as char else c
  }

  /** The serial as get_certificate_status() looks it up: padded to even length, upper case. */
  function QueryText(serial: string): (q: string)
    ensures |q| % 2 == 0
  {
    var padded := if |serial| % 2 == 1 then "0" + serial else serial;
    seq(|padded|, i requires 0 <= i < |padded| => Upper(padded[i]))
  }

  /** The status character printed for a serial, or None for an absent or unknown one. */
  method CertificateStatus(db: CaDb, serial: string) returns (status: Option<char>)
    requires db.Valid()
    ensures var i := FindSerial(db.rows, QueryText(serial));
            status == if i >= 0 && db.rows[i].kind != "" && db.rows[i].kind[0] in "VRES"
                      then Some(db.rows[i].kind[0]) else None
  {
    var i := db.GetBySerial(QueryText(serial));
    if i == -1 {
      return None;
    }
    var r := db.rows[i];
    if IsKind(r, 'V') || IsKind(r, 'R') || IsKind(r, 'E') || IsKind(r, 'S') {
      return Some(r.kind[0]);
    }
    return None;
  }

  lemma {:induction false} QueryMagnitude(s: string)
    requires AllHex(s)
    ensures var u := seq(|s|, i requires 0 <= i < |s| => Upper(s[i]));
            AllUpperHex(u) && Magnitude(u) == Magnitude(s)
  {
    var u := seq(|s|, i requires 0 <= i < |s| => Upper(s[i]));
    if s != "" {
      var t := s[..|s| - 1];
      QueryMagnitude(t);
      assert u[..|u| - 1] == seq(|t|, i requires 0 <= i < |t| => Upper(t[i]));
    }
  }

  /** A query written in either case, with or without leading zeros, finds the row of its number. */
  lemma QueryFindsNumber(rows: seq<Row>, serial: string)
    requires AllHex(serial)
    ensures FindSerial(rows, QueryText(serial)) == FindSerial(rows, SerialText(Magnitude(serial)))
  {
    var q, n := QueryText(serial), Magnitude(serial);
    var padded := if |serial| % 2 == 1 then "0" + serial else serial;
    LeadingZero(serial);
    QueryMagnitude(padded);
    SerialTextRoundTrip(n);
    KeyIsDigits(q);
    KeyIsDigits(SerialText(n));
  }

  // ----- ca -gencrl

  datatype CrlEntry = CrlEntry(serial: int, info: RevInfo)

  /** The revoked rows among the first n, in order; None when a column cannot be read. */
  function CrlOf(lib: Asn1, rows: seq<Row>, n: nat): Option<seq<CrlEntry>>
    requires n <= |rows| && forall r | r in rows && Revoked(r) :: SerialSyntax(r.serial)
  {
    if n == 0 then Some([])
    else
      var before := CrlOf(lib, rows, n - 1);
      var r := rows[n - 1];
      if before.None? || !Revoked(r) then before
      else
        var info := Unpacked(lib, r.revocation);
        if info.None? then None else Some(before.value + [CrlEntry(SerialValue(r.serial), info.value)])
  }

  /** The loop that builds the list; v2 when some entry carries a reason. */
  method MakeCrl(lib: Asn1, rows: seq<Row>) returns (crl: Option<seq<CrlEntry>>, v2: bool)
    requires forall r | r in rows && Revoked(r) :: SerialSyntax(r.serial) && '\0' !in r.revocation
    ensures crl == CrlOf(lib, rows, |rows|)
    ensures crl.Some? ==> (v2 <==> exists e | e in crl.value :: e.info.reason != NO_REASON)
  {
    hide Unpacked;
    var entries: seq<CrlEntry> := [];
    v2 := false;
    for i := 0 to |rows|
      invariant CrlOf(lib, rows, i) == Some(entries)
      invariant v2 <==> exists e | e in entries :: e.info.reason != NO_REASON
    {
      if Revoked(rows[i]) {
        var info := UnpackInPlace(lib, rows[i].revocation);
        if info.None? {
          UnreadableStops(lib, rows, i + 1, |rows|);
          return None, v2;
        }
        if info.value.reason != NO_REASON {
          v2 := true;
        }
        entries := entries + [CrlEntry(SerialValue(rows[i].serial), info.value)];
      }
    }
    crl := Some(entries);
  }

  lemma {:induction false} UnreadableStops(lib: Asn1, rows: seq<Row>, i: nat, n: nat)
    requires i <= n <= |rows| && forall r | r in rows && Revoked(r) :: SerialSyntax(r.serial)
    requires CrlOf(lib, rows, i).None?
    ensures CrlOf(lib, rows, n).None?
  {
    hide Unpacked, SerialValue, SerialSyntax;
    if i < n {
      UnreadableStops(lib, rows, i, n - 1);
    }
  }

  /** The entries are those of the revoked rows, all of them, in database order. */
  lemma {:induction false} CrlInOrder(lib: Asn1, rows: seq<Row>, n: nat) returns (at: seq<nat>)
    requires n <= |rows| && forall r | r in rows && Revoked(r) :: SerialSyntax(r.serial)
    requires CrlOf(lib, rows, n).Some?
    ensures var crl := CrlOf(lib, rows, n).value;
            && |at| == |crl| && (forall j, k | 0 <= j < k < |at| :: at[j] < at[k])
            && (forall k | 0 <= k < |at| :: at[k] < n && ListedAs(lib, rows[at[k]], crl[k]))
            && forall i: nat | i < n && i !in at :: rows[i].kind == "" || rows[i].kind[0] != 'R'
  {
    hide Unpacked, SerialValue, SerialSyntax;
    at := [];
    if n > 0 {
      at := CrlInOrder(lib, rows, n - 1);
      if Revoked(rows[n - 1]) { at := at + [n - 1]; }
    }
  }

  /** Row i is the one an entry was made from. */
  predicate ListedAs(lib: Asn1, r: Row, e: CrlEntry) {
    && Revoked(r) && SerialSyntax(r.serial) && SerialValue(r.serial) == e.serial
    && Unpacked(lib, r.revocation) == Some(e.info)
  }

  /** An entry of the list is a revoked row, and every revoked row has one. */
  lemma {:induction false} CrlEntries(lib: Asn1, rows: seq<Row>, n: nat, e: CrlEntry)
    requires n <= |rows| && LoadOk(lib, rows)
    ensures CrlOf(lib, rows, n).Some?
    ensures e in CrlOf(lib, rows, n).value <==> exists i | 0 <= i < n :: ListedAs(lib, rows[i], e)
  {
    hide Unpacked, SerialValue, SerialSyntax, ListedAs;
    if n > 0 {
      CrlEntries(lib, rows, n - 1, e);
      CrlStep(lib, rows, n, e);
    }
  }

  lemma CrlStep(lib: Asn1, rows: seq<Row>, n: nat, e: CrlEntry)
    requires 0 < n <= |rows| && LoadOk(lib, rows) && CrlOf(lib, rows, n - 1).Some?
    ensures CrlOf(lib, rows, n).Some?
    ensures e in CrlOf(lib, rows, n).value <==>
              e in CrlOf(lib, rows, n - 1).value || ListedAs(lib, rows[n - 1], e)
  {
    hide Unpacked, SerialValue, SerialSyntax;
    assert RowOk(lib, rows[n - 1]);
  }
}
